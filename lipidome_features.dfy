/**
 * Lipidome features: a table with one row per lipidome and one column per
 * feature. A feature column can be added (to a copy or in place), the
 * lipidomes can be split by every combination of feature values, and
 * groups of lipidomes can be collapsed into one row each whose values
 * join the group's distinct values.
 */
module Features {
  import opened Wrappers
  import opened PyStrings
  import Seqs
  import opened BaseDfWrapper

  /** A pandas Series: one value per index label. */
  datatype Series = Series(index: seq<seq<Key>>, values: seq<Cell>)

  predicate SeriesWellFormed(s: Series) { |s.index| == |s.values| }

  // ---------------------------------------------------------------
  // Subsets.
  // ---------------------------------------------------------------

  /** `get_subset`: the rows of the given lipidomes and the given feature columns (all of either when absent). */
  function Subset(f: Frame, lipidomes: Option<seq<string>>, features: Option<seq<string>>): Result<Frame>
    requires WellFormed(f)
  {
    GetSubsetDf(f, if lipidomes.Some? then Some(Seqs.Map(lipidomes.value, Lbl)) else None,
                   if features.Some? then Some(Seqs.Map(features.value, (n: string) => Str(n))) else None)
  }

  /**
   * A subset raises iff a requested lipidome or feature is absent;
   * otherwise it has the requested lipidomes and features, in the
   * requested order, and keeps the index name.
   */
  lemma SubsetSpec(f: Frame, lipidomes: Option<seq<string>>, features: Option<seq<string>>)
    requires WellFormed(f)
    ensures var r := Subset(f, lipidomes, features);
      && (r.Ok? <==>
            (lipidomes.Some? ==> forall l :: l in lipidomes.value ==> Lbl(l) in f.index) &&
            (features.Some? ==> forall n :: n in features.value ==> Str(n) in f.columns))
      && (r.Ok? ==>
            && r.value.index == (if lipidomes.Some? then Seqs.Map(lipidomes.value, Lbl) else f.index)
            && r.value.columns == (if features.Some? then Seqs.Map(features.value, (n: string) => Str(n)) else f.columns)
            && r.value.names == f.names && r.value.multi == f.multi)
  {
    var idx := if lipidomes.Some? then Some(Seqs.Map(lipidomes.value, Lbl)) else None;
    var cols := if features.Some? then Some(Seqs.Map(features.value, (n: string) => Str(n))) else None;
    GetSubsetDfSpec(f, idx, cols);
    if lipidomes.Some? { LabelsPresent(f, lipidomes.value); }
    if features.Some? { ColumnsPresent(f, features.value); }
  }

  /** A requested lipidome is not a row label, or a requested feature not a column. */
  predicate SomeAbsent(f: Frame, lipidomes: Option<seq<string>>, features: Option<seq<string>>) {
    || (lipidomes.Some? && exists l :: l in lipidomes.value && Lbl(l) !in f.index)
    || (features.Some? && exists n :: n in features.value && Str(n) !in f.columns)
  }

  /**
   * `get_subset` with its `validate` flag: with validation an absent
   * lipidome or feature raises ValueError; without it the absent label
   * reaches `.loc`, which raises KeyError. The subset itself is the same.
   */
  function SubsetChecked(f: Frame, lipidomes: Option<seq<string>>, features: Option<seq<string>>, validate: bool)
    : (r: Result<Frame>)
    requires WellFormed(f)
    ensures r.Ok? ==> r == Subset(f, lipidomes, features)
    ensures r.Err? <==> SomeAbsent(f, lipidomes, features)
    ensures r.Err? ==> r.error == if validate then ValueError else KeyError
  {
    SubsetSpec(f, lipidomes, features);
    match Subset(f, lipidomes, features)
    case Ok(g) => Ok(g)
    case Err(_) => Err(if validate then ValueError else KeyError)
  }

  lemma LabelsPresent(f: Frame, ls: seq<string>)
    ensures (forall l :: l in ls ==> Lbl(l) in f.index) <==> (forall e :: e in Seqs.Map(ls, Lbl) ==> e in f.index)
  {
    var m := Seqs.Map(ls, Lbl);
    forall l | l in ls ensures Lbl(l) in m {
      var j :| 0 <= j < |ls| && ls[j] == l;
      assert m[j] == Lbl(l);
    }
  }

  lemma ColumnsPresent(f: Frame, ns: seq<string>)
    ensures (forall n :: n in ns ==> Str(n) in f.columns) <==>
            (forall k :: k in Seqs.Map(ns, (n: string) => Str(n)) ==> k in f.columns)
  {
    var m := Seqs.Map(ns, (n: string) => Str(n));
    forall n | n in ns ensures Str(n) in m {
      var j :| 0 <= j < |ns| && ns[j] == n;
      assert m[j] == Str(n);
    }
  }

  /** `get_subset_df` raises iff a requested label or column is absent, and otherwise keeps exactly the requested ones. */
  lemma GetSubsetDfSpec(f: Frame, idx: Option<seq<seq<Key>>>, cols: Option<seq<Key>>)
    requires WellFormed(f)
    ensures var r := GetSubsetDf(f, idx, cols);
      && (r.Ok? <==>
            (idx.Some? ==> forall e :: e in idx.value ==> e in f.index) &&
            (cols.Some? ==> forall k :: k in cols.value ==> k in f.columns))
      && (r.Ok? ==>
            && r.value.index == (if idx.Some? then idx.value else f.index)
            && r.value.columns == (if cols.Some? then cols.value else f.columns)
            && r.value.names == f.names && r.value.multi == f.multi)
  {
    var i := if idx.Some? then idx.value else f.index;
    var c := if cols.Some? then cols.value else f.columns;
    Seqs.FilterEmpty(i, (e: seq<Key>) => e !in f.index);
    Seqs.FilterEmpty(c, (k: Key) => k !in f.columns);
  }

  // ---------------------------------------------------------------
  // Adding a feature column.
  // ---------------------------------------------------------------

  /** `_chk_add_feature_input`: an existing name needs `overwrite`, and the values must carry the table's index, in order. */
  function CheckAddFeature(f: Frame, name: string, s: Series, overwrite: bool): (r: Result<()>)
  {
    if Str(name) in f.columns && !overwrite then Err(ValueError)
    else if s.index != f.index then Err(ValueError)
    else Ok(())
  }

  /** The values pandas aligns to the table's rows by label; a row whose label the series lacks gets NaN. */
  function Aligned(f: Frame, s: Series): (col: seq<Cell>)
    requires SeriesWellFormed(s)
    ensures |col| == |f.index|
  {
    seq(|f.index|, (i: int) requires 0 <= i < |f.index| =>
      if f.index[i] in s.index then s.values[Seqs.IndexOf(s.index, f.index[i])] else NaN)
  }

  /** `df[name] = values`: the named column is replaced, or appended after the others when new. */
  function Assign(f: Frame, name: string, s: Series): (r: Frame)
    requires WellFormed(f) && SeriesWellFormed(s)
    ensures WellFormed(r)
  {
    var col := Aligned(f, s);
    if Str(name) in f.columns then
      var p := ColumnPos(f, Str(name));
      f.(cells := seq(|f.cells|, (i: int) requires 0 <= i < |f.cells| => f.cells[i][p := col[i]]))
    else
      f.(columns := f.columns + [Str(name)],
         cells := seq(|f.cells|, (i: int) requires 0 <= i < |f.cells| => f.cells[i] + [col[i]]))
  }

  /** `add_feature` / `add_feature_in_place`: the table after the assignment, or the error the check raises. */
  function WithFeature(f: Frame, name: string, s: Series, overwrite: bool, validate: bool): (r: Result<Frame>)
    requires WellFormed(f) && SeriesWellFormed(s)
    ensures r.Ok? ==> WellFormed(r.value)
  {
    if validate && CheckAddFeature(f, name, s, overwrite).Err? then Err(ValueError)
    else Ok(Assign(f, name, s))
  }

  /** Values carrying the table's own duplicate-free index land in their rows unchanged. */
  lemma AlignedInOrder(f: Frame, s: Series)
    requires SeriesWellFormed(s) && s.index == f.index && Seqs.NoDup(f.index)
    ensures Aligned(f, s) == s.values
  {
    forall i | 0 <= i < |f.index| ensures Aligned(f, s)[i] == s.values[i] {
      var j := Seqs.IndexOf(s.index, f.index[i]);
      Seqs.NoDupSamePosition(f.index, j, i);
    }
  }

  /**
   * The assignment keeps the index and every other column; the named
   * column, new or replaced, holds the aligned values.
   */
  lemma AssignSpec(f: Frame, name: string, s: Series)
    requires WellFormed(f) && SeriesWellFormed(s) && Seqs.NoDup(f.columns)
    ensures var r := Assign(f, name, s);
      && r.index == f.index && r.names == f.names && r.multi == f.multi
      && r.columns == (if Str(name) in f.columns then f.columns else f.columns + [Str(name)])
      && Seqs.NoDup(r.columns)
      && (forall i :: 0 <= i < |r.index| ==> r.cells[i][ColumnPos(r, Str(name))] == Aligned(f, s)[i])
      && (forall i, c :: 0 <= i < |f.index| && 0 <= c < |f.columns| && f.columns[c] != Str(name) ==>
            r.cells[i][c] == f.cells[i][c])
  {
    var r := Assign(f, name, s);
    if Str(name) !in f.columns {
      assert ColumnPos(r, Str(name)) == |f.columns|;
    } else {
      var p := ColumnPos(f, Str(name));
      assert ColumnPos(r, Str(name)) == p;
    }
  }

  /** The assignment keeps a valid table valid: the new column label is a string and not a duplicate. */
  lemma AssignKeepsValid(f: Frame, name: string, s: Series)
    requires WellFormed(f) && SeriesWellFormed(s) && ValidFrame(f)
    ensures ValidFrame(Assign(f, name, s))
  {
    NoDupBothWays(f.columns);
    AssignSpec(f, name, s);
    NoDupBothWays(Assign(f, name, s).columns);
  }

  /**
   * With validation, adding a feature raises ValueError iff the name is
   * taken without `overwrite` or the values' index differs from the
   * table's; on success the feature column holds exactly the given values
   * in row order, every other column and the index are untouched, and a
   * valid table stays valid.
   */
  lemma WithFeatureSpec(f: Frame, name: string, s: Series, overwrite: bool)
    requires WellFormed(f) && SeriesWellFormed(s) && ValidFrame(f)
    ensures var r := WithFeature(f, name, s, overwrite, true);
      && (r.Err? <==> (Str(name) in f.columns && !overwrite) || s.index != f.index)
      && (r.Err? ==> r.error == ValueError)
      && (r.Ok? ==>
            && ValidFrame(r.value) && r.value.index == f.index
            && (forall c :: c in r.value.columns <==> c in f.columns || c == Str(name))
            && (forall i :: 0 <= i < |f.index| ==> r.value.cells[i][ColumnPos(r.value, Str(name))] == s.values[i])
            && (forall i, c :: 0 <= i < |f.index| && 0 <= c < |f.columns| && f.columns[c] != Str(name) ==>
                  r.value.cells[i][c] == f.cells[i][c]))
  {
    NoDupBothWays(f.columns);
    NoDupBothWays(f.index);
    if s.index == f.index {
      AlignedInOrder(f, s);
      AssignSpec(f, name, s);
      AssignKeepsValid(f, name, s);
    }
  }

  /** Without validation nothing is checked: a taken name is overwritten and unmatched rows get NaN. */
  lemma WithFeatureUnchecked(f: Frame, name: string, s: Series, overwrite: bool)
    requires WellFormed(f) && SeriesWellFormed(s)
    ensures WithFeature(f, name, s, overwrite, false) == Ok(Assign(f, name, s))
  {
  }

  // ---------------------------------------------------------------
  // Lipidomes by the product of feature values.
  // ---------------------------------------------------------------

  /** One value per selected feature. */
  type Tuple = seq<Cell>

  /** Each tuple of `ts` with `x` put in front. */
  function Prefixed(x: Cell, ts: seq<Tuple>): (r: seq<Tuple>)
    ensures |r| == |ts|
    ensures forall k :: 0 <= k < |ts| ==> r[k] == [x] + ts[k]
  {
    seq(|ts|, (k: int) requires 0 <= k < |ts| => [x] + ts[k])
  }

  /** `itertools.product(*lists)`: every tuple taking its k-th value from the k-th list, the first list varying slowest. */
  function Product(lists: seq<seq<Cell>>): seq<Tuple>
    decreases |lists|
  {
    if |lists| == 0 then [[]]
    else
      var rest := Product(lists[1..]);
      Seqs.Flatten(seq(|lists[0]|, (i: int) requires 0 <= i < |lists[0]| => Prefixed(lists[0][i], rest)))
  }

  /** The product of the lists' lengths. */
  function Size(lists: seq<seq<Cell>>): nat
  {
    if |lists| == 0 then 1 else |lists[0]| * Size(lists[1..])
  }

  lemma {:induction false} ProductLength(lists: seq<seq<Cell>>)
    ensures |Product(lists)| == Size(lists)
  {
    if |lists| > 0 {
      ProductLength(lists[1..]);
      Seqs.FlattenUniformLength(Rows(lists), |Product(lists[1..])|);
    }
  }

  /** A tuple is in the product iff it has one value per list, each taken from its list. */
  lemma {:induction false} ProductMember(lists: seq<seq<Cell>>, t: Tuple)
    ensures t in Product(lists) <==> |t| == |lists| && forall k :: 0 <= k < |t| ==> t[k] in lists[k]
  {
    if |lists| > 0 {
      if |t| > 0 { ProductMember(lists[1..], t[1..]); }
      ProductMemberStep(lists, t);
    } else {
      assert Product(lists) == [[]];
    }
  }

  /** The product of a non-empty list of lists: each value of the first list put in front of each tuple of the rest. */
  function Rows(lists: seq<seq<Cell>>): (rows: seq<seq<Tuple>>)
    requires |lists| > 0
    ensures |rows| == |lists[0]|
    ensures forall i :: 0 <= i < |rows| ==> rows[i] == Prefixed(lists[0][i], Product(lists[1..]))
    ensures Seqs.Flatten(rows) == Product(lists)
  {
    var rest := Product(lists[1..]);
    seq(|lists[0]|, (i: int) requires 0 <= i < |lists[0]| => Prefixed(lists[0][i], rest))
  }

  /** One level of the product: `t` is in it iff its head is in the first list and its tail in the rest's product. */
  lemma ProductMemberStep(lists: seq<seq<Cell>>, t: Tuple)
    requires |lists| > 0
    ensures t in Product(lists) <==> |t| > 0 && t[0] in lists[0] && t[1..] in Product(lists[1..])
  {
    var rows := Rows(lists);
    Seqs.FlattenMember(rows, t);
    if t in Product(lists) {
      var i :| 0 <= i < |rows| && t in rows[i];
      PrefixedMember(lists[0][i], Product(lists[1..]), t);
    }
    if |t| > 0 && t[0] in lists[0] && t[1..] in Product(lists[1..]) {
      var i :| 0 <= i < |lists[0]| && lists[0][i] == t[0];
      PrefixedMember(lists[0][i], Product(lists[1..]), t);
    }
  }

  lemma PrefixedMember(x: Cell, ts: seq<Tuple>, t: Tuple)
    ensures t in Prefixed(x, ts) <==> |t| > 0 && t[0] == x && t[1..] in ts
  {
    var r := Prefixed(x, ts);
    if t in r {
      var k :| 0 <= k < |ts| && r[k] == t;
      assert t[1..] == ts[k];
    }
    if |t| > 0 && t[0] == x && t[1..] in ts {
      var k :| 0 <= k < |ts| && ts[k] == t[1..];
      assert r[k] == [x] + t[1..] == t;
    }
  }

  /** Lists without repeats give a product without repeated tuples. */
  lemma {:induction false} ProductNoDup(lists: seq<seq<Cell>>)
    requires forall k :: 0 <= k < |lists| ==> Seqs.NoDup(lists[k])
    ensures Seqs.NoDup(Product(lists))
  {
    if |lists| > 0 {
      var rest := Product(lists[1..]);
      ProductNoDup(lists[1..]);
      var rows := Rows(lists);
      forall i | 0 <= i < |rows| ensures Seqs.NoDup(rows[i]) {
        forall a, b | 0 <= a < b < |rest| ensures rows[i][a] != rows[i][b] {
          assert rows[i][a][1..] == rest[a];
          assert rows[i][b][1..] == rest[b];
        }
      }
      forall i, j, x | 0 <= i < j < |rows| && x in rows[i] ensures x !in rows[j] {
        assert x[0] == lists[0][i];
        assert lists[0][i] != lists[0][j];
        assert forall y :: y in rows[j] ==> y[0] == lists[0][j];
      }
      Seqs.FlattenNoDup(rows);
    }
  }

  /** pandas `==` on values: NaN equals nothing, not even NaN. */
  predicate Equal(a: Cell, b: Cell) { a == b && !a.NaN? }

  /** Row `i` takes the tuple's value in every selected column. */
  predicate Matches(f: Frame, cols: seq<nat>, t: Tuple, i: nat)
    requires WellFormed(f) && i < |f.index|
    requires forall k :: 0 <= k < |cols| ==> cols[k] < |f.columns|
  {
    |t| == |cols| && forall k :: 0 <= k < |cols| ==> Equal(f.cells[i][cols[k]], t[k])
  }

  /** `df.index[mask]`: the labels of the first `n` rows matching the tuple, in row order. */
  function Selected(f: Frame, cols: seq<nat>, t: Tuple, n: nat): (ix: seq<seq<Key>>)
    requires WellFormed(f) && n <= |f.index|
    requires forall k :: 0 <= k < |cols| ==> cols[k] < |f.columns|
    ensures forall e :: e in ix <==> exists i :: 0 <= i < n && f.index[i] == e && Matches(f, cols, t, i)
  {
    if n == 0 then []
    else Selected(f, cols, t, n - 1) + (if Matches(f, cols, t, n - 1) then [f.index[n - 1]] else [])
  }

  /** The column positions of the named features. */
  function FeatureColumns(f: Frame, features: seq<string>): (cols: seq<nat>)
    requires forall n :: n in features ==> Str(n) in f.columns
    ensures |cols| == |features|
    ensures forall k :: 0 <= k < |cols| ==> cols[k] < |f.columns| && f.columns[cols[k]] == Str(features[k])
  {
    seq(|features|, (k: int) requires 0 <= k < |features| =>
      assert features[k] in features;
      ColumnPos(f, Str(features[k])))
  }

  /** The values of column `c`, in row order. */
  function ColumnValues(f: Frame, c: nat): (vs: seq<Cell>)
    requires WellFormed(f) && c < |f.columns|
    ensures |vs| == |f.index|
  {
    seq(|f.cells|, (i: int) requires 0 <= i < |f.cells| => f.cells[i][c])
  }

  /** `series.unique()`: the distinct values in first-occurrence order (NaN once). */
  function Uniques(f: Frame, c: nat): (u: seq<Cell>)
    requires WellFormed(f) && c < |f.columns|
    ensures Seqs.NoDup(u)
    ensures forall x :: x in u <==> exists i :: 0 <= i < |f.index| && f.cells[i][c] == x
  {
    var vs := ColumnValues(f, c);
    assert forall i :: 0 <= i < |f.index| ==> f.cells[i][c] == vs[i];
    Seqs.Distinct(vs)
  }

  function ValueLists(f: Frame, cols: seq<nat>): (lists: seq<seq<Cell>>)
    requires WellFormed(f)
    requires forall k :: 0 <= k < |cols| ==> cols[k] < |f.columns|
    ensures |lists| == |cols|
    ensures forall k :: 0 <= k < |cols| ==> lists[k] == Uniques(f, cols[k])
  {
    seq(|cols|, (k: int) requires 0 <= k < |cols| => Uniques(f, cols[k]))
  }

  /** The number of distinct values of each named feature, multiplied. */
  function CountProduct(f: Frame, features: seq<string>): nat
    requires WellFormed(f)
    requires forall n :: n in features ==> Str(n) in f.columns
  {
    if |features| == 0 then 1
    else
      assert features[0] in features;
      |Uniques(f, ColumnPos(f, Str(features[0])))| * CountProduct(f, features[1..])
  }

  /**
   * `get_feature_product_lipidomes`: one entry per tuple of the product of
   * the features' distinct values, holding the lipidomes whose values
   * equal the tuple in every feature. An unknown feature raises
   * ValueError under validation and KeyError (from `df[feature]`) without.
   */
  function FeatureProduct(f: Frame, features: seq<string>, validate: bool): Result<seq<(seq<seq<Key>>, Tuple)>>
    requires WellFormed(f)
  {
    if exists n :: n in features && Str(n) !in f.columns then Err(if validate then ValueError else KeyError)
    else
      var cols := FeatureColumns(f, features);
      Ok(Entries(f, cols, Product(ValueLists(f, cols))))
  }

  /** Each tuple with the labels of the lipidomes that match it. */
  function Entries(f: Frame, cols: seq<nat>, ts: seq<Tuple>): (es: seq<(seq<seq<Key>>, Tuple)>)
    requires WellFormed(f)
    requires forall k :: 0 <= k < |cols| ==> cols[k] < |f.columns|
    ensures |es| == |ts|
    ensures forall j :: 0 <= j < |ts| ==> es[j] == (Selected(f, cols, ts[j], |f.index|), ts[j])
  {
    seq(|ts|, (j: int) requires 0 <= j < |ts| => (Selected(f, cols, ts[j], |f.index|), ts[j]))
  }

  /** Only unknown features raise: ValueError when validating, KeyError otherwise. */
  lemma FeatureProductErrors(f: Frame, features: seq<string>, validate: bool)
    requires WellFormed(f)
    ensures FeatureProduct(f, features, validate).Err? <==> exists n :: n in features && Str(n) !in f.columns
    ensures FeatureProduct(f, features, validate).Err? ==>
      FeatureProduct(f, features, validate).error == if validate then ValueError else KeyError
  {
  }

  lemma {:induction false} SizeOfValueLists(f: Frame, features: seq<string>)
    requires WellFormed(f)
    requires forall n :: n in features ==> Str(n) in f.columns
    ensures Size(ValueLists(f, FeatureColumns(f, features))) == CountProduct(f, features)
  {
    if |features| > 0 {
      SizeOfValueLists(f, features[1..]);
      var lists := ValueLists(f, FeatureColumns(f, features));
      assert lists[1..] == ValueLists(f, FeatureColumns(f, features[1..]));
    }
  }

  /**
   * The entries are as many as the product of the distinct-value counts;
   * each tuple has one value per feature, taken from that feature's
   * column; no tuple repeats; and an entry holds exactly the lipidomes
   * whose values equal its tuple feature by feature.
   */
  lemma FeatureProductEntries(f: Frame, features: seq<string>, validate: bool)
    requires WellFormed(f)
    requires forall n :: n in features ==> Str(n) in f.columns
    ensures var r := FeatureProduct(f, features, validate);
      var cols := FeatureColumns(f, features);
      && r.Ok? && |r.value| == CountProduct(f, features)
      && (forall j :: 0 <= j < |r.value| ==>
            |r.value[j].1| == |features| &&
            forall k :: 0 <= k < |features| ==> exists i :: 0 <= i < |f.index| && f.cells[i][cols[k]] == r.value[j].1[k])
      && (forall j1, j2 :: 0 <= j1 < j2 < |r.value| ==> r.value[j1].1 != r.value[j2].1)
      && (forall j, e :: 0 <= j < |r.value| ==>
            (e in r.value[j].0 <==> exists i :: 0 <= i < |f.index| && f.index[i] == e && Matches(f, cols, r.value[j].1, i)))
  {
    var cols := FeatureColumns(f, features);
    var lists := ValueLists(f, cols);
    var ts := Product(lists);
    var r := FeatureProduct(f, features, validate);
    ProductLength(lists);
    SizeOfValueLists(f, features);
    ProductNoDup(lists);
    forall j | 0 <= j < |ts|
      ensures |ts[j]| == |features| && forall k :: 0 <= k < |features| ==> exists i :: 0 <= i < |f.index| && f.cells[i][cols[k]] == ts[j][k]
    {
      ProductTupleValues(f, cols, ts[j]);
    }
    assert forall j :: 0 <= j < |r.value| ==> r.value[j].1 == ts[j];
  }

  /** A tuple of the product holds, per selected column, a value some row has there. */
  lemma ProductTupleValues(f: Frame, cols: seq<nat>, t: Tuple)
    requires WellFormed(f)
    requires forall k :: 0 <= k < |cols| ==> cols[k] < |f.columns|
    requires t in Product(ValueLists(f, cols))
    ensures |t| == |cols|
    ensures forall k :: 0 <= k < |cols| ==> exists i :: 0 <= i < |f.index| && f.cells[i][cols[k]] == t[k]
  {
    var lists := ValueLists(f, cols);
    ProductMember(lists, t);
    forall k | 0 <= k < |cols| ensures exists i :: 0 <= i < |f.index| && f.cells[i][cols[k]] == t[k] {
      assert t[k] in Uniques(f, cols[k]);
    }
  }

  /** The tuple of row `i`'s values in the selected columns. */
  function RowTuple(f: Frame, cols: seq<nat>, i: nat): (t: Tuple)
    requires WellFormed(f) && i < |f.index|
    requires forall k :: 0 <= k < |cols| ==> cols[k] < |f.columns|
    ensures |t| == |cols|
  {
    seq(|cols|, (k: int) requires 0 <= k < |cols| => f.cells[i][cols[k]])
  }

  /** Every row's own tuple is one of the product's tuples. */
  lemma RowTupleInProduct(f: Frame, cols: seq<nat>, i: nat)
    requires WellFormed(f) && i < |f.index|
    requires forall k :: 0 <= k < |cols| ==> cols[k] < |f.columns|
    ensures RowTuple(f, cols, i) in Product(ValueLists(f, cols))
  {
    ProductMember(ValueLists(f, cols), RowTuple(f, cols, i));
  }

  /** In a table with unique labels, a row's label is selected by a tuple only if it is the row's own tuple. */
  lemma SelectedOnlyOwnTuple(f: Frame, cols: seq<nat>, t: Tuple, i: nat)
    requires WellFormed(f) && Seqs.NoDup(f.index) && i < |f.index|
    requires forall k :: 0 <= k < |cols| ==> cols[k] < |f.columns|
    requires f.index[i] in Selected(f, cols, t, |f.index|)
    ensures t == RowTuple(f, cols, i)
  {
    var i' :| 0 <= i' < |f.index| && f.index[i'] == f.index[i] && Matches(f, cols, t, i');
    Seqs.NoDupSamePosition(f.index, i', i);
  }

  /**
   * When no selected feature is NaN, the entries partition the lipidomes:
   * every lipidome of a table with unique labels is in exactly one entry.
   */
  lemma FeatureProductPartition(f: Frame, features: seq<string>, validate: bool, i: nat)
    requires WellFormed(f) && Seqs.NoDup(f.index) && i < |f.index|
    requires forall n :: n in features ==> Str(n) in f.columns
    requires forall k :: 0 <= k < |features| ==> !f.cells[i][FeatureColumns(f, features)[k]].NaN?
    ensures var r := FeatureProduct(f, features, validate);
      && r.Ok?
      && (exists j :: 0 <= j < |r.value| && f.index[i] in r.value[j].0)
      && (forall j1, j2 :: (0 <= j1 < |r.value| && 0 <= j2 < |r.value| &&
            f.index[i] in r.value[j1].0 && f.index[i] in r.value[j2].0) ==> j1 == j2)
  {
    var cols := FeatureColumns(f, features);
    var ts := Product(ValueLists(f, cols));
    var r := FeatureProduct(f, features, validate);
    assert forall j :: 0 <= j < |ts| ==> r.value[j] == (Selected(f, cols, ts[j], |f.index|), ts[j]);
    var t := RowTuple(f, cols, i);
    RowTupleInProduct(f, cols, i);
    var j :| 0 <= j < |ts| && ts[j] == t;
    assert Matches(f, cols, t, i);
    assert f.index[i] in r.value[j].0;
    ProductNoDup(ValueLists(f, cols));
    forall j1, j2 | 0 <= j1 < |ts| && 0 <= j2 < |ts| && f.index[i] in r.value[j1].0 && f.index[i] in r.value[j2].0
      ensures j1 == j2
    {
      SelectedOnlyOwnTuple(f, cols, ts[j1], i);
      SelectedOnlyOwnTuple(f, cols, ts[j2], i);
      Seqs.NoDupSamePosition(ts, j1, j2);
    }
  }

  /** A lipidome with NaN in a selected feature matches no tuple, so it is in no entry at all. */
  lemma NaNLipidomeInNoEntry(f: Frame, features: seq<string>, validate: bool, i: nat, k: nat)
    requires WellFormed(f) && Seqs.NoDup(f.index) && i < |f.index|
    requires forall n :: n in features ==> Str(n) in f.columns
    requires k < |features| && f.cells[i][FeatureColumns(f, features)[k]].NaN?
    ensures var r := FeatureProduct(f, features, validate);
      r.Ok? && forall j :: 0 <= j < |r.value| ==> f.index[i] !in r.value[j].0
  {
    var cols := FeatureColumns(f, features);
    var ts := Product(ValueLists(f, cols));
    var r := FeatureProduct(f, features, validate);
    assert forall j :: 0 <= j < |ts| ==> r.value[j] == (Selected(f, cols, ts[j], |f.index|), ts[j]);
    forall j | 0 <= j < |ts| ensures f.index[i] !in r.value[j].0 {
      assert !Matches(f, cols, ts[j], i);
      assert forall i' :: 0 <= i' < |f.index| && i' != i ==> f.index[i'] != f.index[i];
    }
  }

  // ---------------------------------------------------------------
  // Grouped features.
  // ---------------------------------------------------------------

  /** Every lipidome of the group is a row of the table. */
  predicate Present(f: Frame, g: seq<string>) {
    forall l :: l in g ==> Lbl(l) in f.index
  }

  /** Every value of the group's rows is text, as `" | ".join` demands. */
  predicate AllText(f: Frame, g: seq<string>)
    requires WellFormed(f) && Present(f, g)
  {
    forall l, c :: l in g && 0 <= c < |f.columns| ==> f.cells[Seqs.IndexOf(f.index, Lbl(l))][c].Text?
  }

  /** `_gen_group_feature_row`: per column, the group's distinct values joined by " | ". */
  function GroupRow(f: Frame, g: seq<string>): (row: seq<Cell>)
    requires WellFormed(f) && Present(f, g)
    ensures |row| == |f.columns|
  {
    seq(|f.columns|, (c: int) requires 0 <= c < |f.columns| => ConcatColumn(GroupColumn(f, g, c)))
  }

  /**
   * A group of text values gives, in each column, the join of a
   * duplicate-free list of parts that are exactly the texts the group's
   * lipidomes hold there.
   */
  lemma GroupRowParts(f: Frame, g: seq<string>, c: nat)
    requires WellFormed(f) && Present(f, g) && AllText(f, g) && c < |f.columns|
    ensures exists parts: seq<string> ::
      && GroupRow(f, g)[c] == Text(Join(parts, " | "))
      && Seqs.NoDup(parts)
      && (forall s :: s in parts <==> exists l :: l in g && f.cells[Seqs.IndexOf(f.index, Lbl(l))][c] == Text(s))
  {
    var parts := DistinctStrings(GroupColumn(f, g, c));
    assert GroupRow(f, g)[c] == Text(Join(parts, " | "));
    forall s ensures s in parts <==> exists l :: l in g && f.cells[Seqs.IndexOf(f.index, Lbl(l))][c] == Text(s) {
      GroupPartMember(f, g, c, s);
    }
  }

  lemma GroupPartMember(f: Frame, g: seq<string>, c: nat, s: string)
    requires WellFormed(f) && Present(f, g) && AllText(f, g) && c < |f.columns|
    ensures s in DistinctStrings(GroupColumn(f, g, c)) <==>
      exists l :: l in g && f.cells[Seqs.IndexOf(f.index, Lbl(l))][c] == Text(s)
  {
    var vs := GroupColumn(f, g, c);
    ConcatColumnParts(vs, s);
    if s in DistinctStrings(vs) {
      var x :| x in vs && CellString(x) == s;
      GroupValueText(f, g, c, x);
    }
    if exists l :: l in g && f.cells[Seqs.IndexOf(f.index, Lbl(l))][c] == Text(s) {
      var l :| l in g && f.cells[Seqs.IndexOf(f.index, Lbl(l))][c] == Text(s);
      MemberTextInColumn(f, g, c, l);
    }
  }

  /** The text a member holds in a column is a value of the group's column. */
  lemma MemberTextInColumn(f: Frame, g: seq<string>, c: nat, l: string)
    requires WellFormed(f) && Present(f, g) && c < |f.columns| && l in g
    ensures f.cells[Seqs.IndexOf(f.index, Lbl(l))][c] in GroupColumn(f, g, c)
  {
    var m :| 0 <= m < |g| && g[m] == l;
    assert GroupColumn(f, g, c)[m] == f.cells[Seqs.IndexOf(f.index, Lbl(l))][c];
  }

  /** A value of the group's column is the text some member holds there. */
  lemma GroupValueText(f: Frame, g: seq<string>, c: nat, x: Cell)
    requires WellFormed(f) && Present(f, g) && AllText(f, g) && c < |f.columns|
    requires x in GroupColumn(f, g, c)
    ensures x.Text? && exists l :: l in g && f.cells[Seqs.IndexOf(f.index, Lbl(l))][c] == x
  {
    var vs := GroupColumn(f, g, c);
    var m :| 0 <= m < |g| && vs[m] == x;
    assert g[m] in g;
  }

  /** The error the per-group rows raise first: KeyError for a missing lipidome, TypeError for a non-text value. */
  function GroupsError(f: Frame, groups: seq<seq<string>>): (e: Option<Exception>)
    requires WellFormed(f)
    ensures e.None? <==> forall g :: g in groups ==> Present(f, g) && AllText(f, g)
    ensures e.Some? ==> e.value == KeyError || e.value == TypeError
  {
    if |groups| == 0 then None
    else if !Present(f, groups[0]) then Some(KeyError)
    else if !AllText(f, groups[0]) then Some(TypeError)
    else GroupsError(f, groups[1..])
  }

  /** The number of index levels: the longest group's size (at least one). */
  function Depth(groups: seq<seq<string>>): (d: nat)
    ensures d >= 1
    ensures forall g :: g in groups ==> |g| <= d
  {
    if |groups| == 0 then 1
    else
      var r := Depth(groups[1..]);
      assert forall g :: g in groups ==> g == groups[0] || g in groups[1..];
      if |groups[0]| > r then |groups[0]| else r
  }

  /** The label pandas puts under a shorter group's missing levels (NaN, a non-string label). */
  const Pad: Key := NonStr(0)

  /** `tuple(group)` as a MultiIndex entry of `d` levels. */
  function GroupKey(g: seq<string>, d: nat): (e: seq<Key>)
    requires |g| <= d
    ensures |e| == d
  {
    seq(d, (i: int) requires 0 <= i < d => if i < |g| then Str(g[i]) else Pad)
  }

  /** Different groups get different index entries. */
  lemma GroupKeyInjective(g1: seq<string>, g2: seq<string>, d: nat)
    requires |g1| <= d && |g2| <= d
    requires GroupKey(g1, d) == GroupKey(g2, d)
    ensures g1 == g2
  {
    var m := if |g1| < |g2| then |g1| else |g2|;
    if m < d { GroupKeyAt(g1, g2, d, m); }
    forall i | 0 <= i < |g1| ensures g1[i] == g2[i] {
      GroupKeyAt(g1, g2, d, i);
    }
  }

  lemma GroupKeyAt(g1: seq<string>, g2: seq<string>, d: nat, i: nat)
    requires |g1| <= d && |g2| <= d && i < d
    requires GroupKey(g1, d) == GroupKey(g2, d)
    ensures (i < |g1|) == (i < |g2|)
    ensures i < |g1| && i < |g2| ==> g1[i] == g2[i]
  {
    assert GroupKey(g1, d)[i] == GroupKey(g2, d)[i];
  }

  /**
   * `pd.DataFrame({tuple(g): row(g)}).T`: one row per distinct group, in
   * first-occurrence order, under an unnamed MultiIndex; no group gives an
   * empty table without columns.
   */
  function GroupedFrame(f: Frame, groups: seq<seq<string>>): (r: Frame)
    requires WellFormed(f)
    requires forall g :: g in groups ==> Present(f, g)
    ensures WellFormed(r)
  {
    var gs := Seqs.Distinct(groups);
    if |gs| == 0 then Frame(false, [None], [], [], [])
    else
      var d := Depth(groups);
      Frame(true, seq(d, _ => None),
            seq(|gs|, (j: int) requires 0 <= j < |gs| => assert gs[j] in groups; GroupKey(gs[j], d)),
            f.columns,
            seq(|gs|, (j: int) requires 0 <= j < |gs| => assert gs[j] in groups; GroupRow(f, gs[j])))
  }

  /** `from_lipidome_groups`: validate the group members, then build the grouped table. */
  function FromLipidomeGroups(f: Frame, groups: seq<seq<string>>, validate: bool): (r: Result<Frame>)
    requires WellFormed(f)
    ensures r.Ok? ==> WellFormed(r.value)
  {
    if validate && exists g, l :: g in groups && l in g && Lbl(l) !in f.index then Err(ValueError)
    else
      match GroupsError(f, groups)
      case Some(e) => Err(e)
      case None => Ok(GroupedFrame(f, groups))
  }

  /**
   * With validation a group naming an absent lipidome raises ValueError;
   * otherwise only non-text values raise (TypeError). A success has one
   * row per distinct group, keyed by the group, whose values are the
   * group's joined distinct values.
   */
  lemma FromLipidomeGroupsSpec(f: Frame, groups: seq<seq<string>>)
    requires WellFormed(f)
    ensures var r := FromLipidomeGroups(f, groups, true);
      && ((r.Err? && r.error == ValueError) <==> exists g, l :: g in groups && l in g && Lbl(l) !in f.index)
      && (r.Ok? <==> forall g :: g in groups ==> Present(f, g) && AllText(f, g))
      && (r.Ok? && |groups| > 0 ==>
            && r.value.multi && |r.value.names| == Depth(groups) && r.value.columns == f.columns
            && |r.value.index| == |Seqs.Distinct(groups)| && Seqs.NoDup(r.value.index)
            && (forall g :: g in groups ==> (Present(f, g) &&
                  exists j :: 0 <= j < |r.value.index| &&
                    r.value.index[j] == GroupKey(g, Depth(groups)) && r.value.cells[j] == GroupRow(f, g))))
  {
    var r := FromLipidomeGroups(f, groups, true);
    if r.Ok? && |groups| > 0 {
      var gs := Seqs.Distinct(groups);
      var d := Depth(groups);
      assert groups[0] in gs;
      forall j1, j2 | 0 <= j1 < j2 < |gs| ensures r.value.index[j1] != r.value.index[j2] {
        if r.value.index[j1] == r.value.index[j2] {
          GroupKeyInjective(gs[j1], gs[j2], d);
        }
      }
      forall g | g in groups
        ensures exists j :: 0 <= j < |r.value.index| && r.value.index[j] == GroupKey(g, d) && r.value.cells[j] == GroupRow(f, g)
      {
        var j :| 0 <= j < |gs| && gs[j] == g;
        assert r.value.index[j] == GroupKey(g, d);
      }
    }
  }

  // ---------------------------------------------------------------
  // The wrapper object.
  // ---------------------------------------------------------------

  /** A lipidome feature table; `add_feature_in_place` replaces the table it holds. */
  class LipidomeFeatures {
    var frame: Frame

    constructor (f: Frame, validate: bool)
      requires WellFormed(f)
      requires validate ==> ValidateDf(f).Ok?
      ensures frame == f
    {
      frame := f;
    }

    /** `add_feature`: a new object with the feature added; this one is left as it was. */
    method AddFeature(name: string, s: Series, overwrite: bool, validate: bool) returns (r: Result<LipidomeFeatures>)
      requires WellFormed(frame) && SeriesWellFormed(s)
      ensures frame == old(frame)
      ensures var expected := WithFeature(frame, name, s, overwrite, validate);
        && (r.Ok? <==> expected.Ok?)
        && (r.Err? ==> r.error == expected.error)
        && (r.Ok? ==> fresh(r.value) && r.value.frame == expected.value)
    {
      var expected := WithFeature(frame, name, s, overwrite, validate);
      if expected.Err? {
        return Err(expected.error);
      }
      var copy := new LipidomeFeatures(expected.value, false);
      return Ok(copy);
    }

    /** `add_feature_in_place`: check, then write the column into the held table. */
    method AddFeatureInPlace(name: string, s: Series, overwrite: bool, validate: bool) returns (r: Result<()>)
      requires WellFormed(frame) && SeriesWellFormed(s)
      modifies this
      ensures var expected := WithFeature(old(frame), name, s, overwrite, validate);
        && (r.Ok? <==> expected.Ok?)
        && (r.Err? ==> r.error == expected.error && frame == old(frame))
        && (r.Ok? ==> frame == expected.value)
    {
      if validate && CheckAddFeature(frame, name, s, overwrite).Err? {
        return Err(ValueError);
      }
      frame := Assign(frame, name, s);
      return Ok(());
    }

    /**
     * `add_aggregations_by_lipidomes_in_place`: the concat aggregation of
     * each group of lipidomes appended as one row, after the checks of
     * `add_aggregations_in_place`.
     */
    method AddAggregationsByLipidomesInPlace(groups: seq<seq<string>>, names: Option<seq<string>>) returns (r: Result<()>)
      requires WellFormed(frame)
      modifies this
      ensures var expected := AddAggregations(old(frame), groups, "concat", names, None, true, None, NoStat);
        && (r.Ok? <==> expected.Ok?)
        && (expected.Err? ==> r.error == expected.error && frame == old(frame))
        && (expected.Ok? ==> frame == expected.value)
    {
      if ValidateGroups(groups, frame).Err? {
        return Err(ValueError);
      }
      if names.Some? && ValidateGroupNames(frame, names.value, groups, true).Err? {
        return Err(ValueError);
      }
      var agg := GenAggregations(frame, groups, "concat", names, None, true, None, NoStat);
      if agg.Err? {
        return Err(agg.error);
      }
      frame := AppendRows(frame, agg.value);
      return Ok(());
    }
  }

  /** The statistic the concat aggregation never calls. */
  const NoStat: (Operation, seq<Cell>) -> Cell := (o: Operation, vs: seq<Cell>) => NaN
}
