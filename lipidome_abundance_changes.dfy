/**
 * Abundance change tables: for ordered pairs of lipidomes, the per-lipid
 * change from one lipidome's abundances to another's (difference, fold
 * change, log2 fold change), held in a table indexed by (FROM, TO).
 * Pairs are added all at once (raising on or overwriting existing pairs)
 * or one at a time; a storage object holds one table per kind of change.
 */
module AbundanceChanges {
  import opened Wrappers
  import Seqs
  import Dicts
  import opened BaseDfWrapper

  /** The base class (which cannot compute a change) and its three concrete subclasses. */
  datatype ChangeKind = Base | Difference | FoldChange | Log2FoldChange

  const DefaultIndexNames: seq<Option<string>> := [Some("FROM"), Some("TO")]

  // ---------------------------------------------------------------
  // Ordered pairs of lipidomes.
  // ---------------------------------------------------------------

  /** The `k`-th position other than `i`. */
  function Other(i: nat, k: nat): nat { if k < i then k else k + 1 }

  /** The pairs starting at position `i`, in order of the second position. */
  function RowPositions(n: nat, i: nat): (ps: seq<(nat, nat)>)
    requires i < n
    ensures |ps| == n - 1
    ensures forall k :: 0 <= k < n - 1 ==> ps[k] == (i, Other(i, k))
  {
    seq(n - 1, (k: int) requires 0 <= k < n - 1 => (i, Other(i, k)))
  }

  function PositionRows(n: nat): (rows: seq<seq<(nat, nat)>>)
    ensures |rows| == n
    ensures forall i :: 0 <= i < n ==> rows[i] == RowPositions(n, i)
  {
    seq(n, (i: int) requires 0 <= i < n => RowPositions(n, i))
  }

  /** `permutations(range(n), 2)`: by first position, then by second. */
  function PairPositions(n: nat): (ps: seq<(nat, nat)>)
    ensures forall p: (nat, nat) :: p in ps ==> p.0 < n && p.1 < n && p.0 != p.1
  {
    var rows := PositionRows(n);
    assert forall p: (nat, nat) :: p in Seqs.Flatten(rows) ==> p.0 < n && p.1 < n && p.0 != p.1 by {
      forall p: (nat, nat) | p in Seqs.Flatten(rows) ensures p.0 < n && p.1 < n && p.0 != p.1 {
        Seqs.FlattenMember(rows, p);
        var i :| 0 <= i < n && p in rows[i];
        var k :| 0 <= k < |rows[i]| && rows[i][k] == p;
        assert p == (i, Other(i, k));
      }
    }
    Seqs.Flatten(rows)
  }

  /** There are n·(n−1) ordered pairs. */
  lemma PairPositionsLength(n: nat)
    ensures |PairPositions(n)| == n * (n - 1)
  {
    if n > 0 {
      Seqs.FlattenUniformLength(PositionRows(n), n - 1);
    }
  }

  /** Every pair of distinct positions occurs, and no other pair. */
  lemma PairPositionsMember(n: nat, i: nat, j: nat)
    ensures (i, j) in PairPositions(n) <==> i < n && j < n && i != j
  {
    if i < n && j < n && i != j {
      var k := if j < i then j else j - 1;
      assert PositionRows(n)[i][k] == (i, j);
      Seqs.FlattenMember(PositionRows(n), (i, j));
    }
  }

  /** Each ordered pair occurs once. */
  lemma PairPositionsNoDup(n: nat)
    ensures Seqs.NoDup(PairPositions(n))
  {
    var rows := PositionRows(n);
    forall i | 0 <= i < n ensures Seqs.NoDup(rows[i]) {
      forall a, b | 0 <= a < b < |rows[i]| ensures rows[i][a] != rows[i][b] {
        assert rows[i][a] == (i, Other(i, a)) && rows[i][b] == (i, Other(i, b));
      }
    }
    forall i, j, x: (nat, nat) | 0 <= i < j < n && x in rows[i] ensures x !in rows[j] {
      var a :| 0 <= a < |rows[i]| && rows[i][a] == x;
      assert x.0 == i;
      forall y: (nat, nat) | y in rows[j] ensures y.0 == j {
        var b :| 0 <= b < |rows[j]| && rows[j][b] == y;
      }
    }
    Seqs.FlattenNoDup(rows);
  }

  /** The labels of a plain index. */
  function Labels(f: Frame): (ids: seq<Key>)
    requires WellFormed(f)
    ensures |ids| == |f.index|
  {
    seq(|f.index|, (i: int) requires 0 <= i < |f.index| => f.index[i][0])
  }

  /** `_generate_lipidome_pairs`: the (FROM, TO) labels of all ordered pairs of distinct positions. */
  function Pairs(ids: seq<Key>): (ps: seq<seq<Key>>)
    ensures |ps| == |PairPositions(|ids|)|
  {
    var pos := PairPositions(|ids|);
    seq(|pos|, (k: int) requires 0 <= k < |pos| => assert pos[k] in pos; [ids[pos[k].0], ids[pos[k].1]])
  }

  /** n lipidomes give n·(n−1) pairs. */
  lemma PairsLength(ids: seq<Key>)
    ensures |Pairs(ids)| == |ids| * (|ids| - 1)
  {
    PairPositionsLength(|ids|);
  }

  /** A pair is generated iff its two labels sit at two different positions. */
  lemma PairsMember(ids: seq<Key>, a: Key, b: Key)
    ensures [a, b] in Pairs(ids) <==>
      exists i, j :: 0 <= i < |ids| && 0 <= j < |ids| && i != j && ids[i] == a && ids[j] == b
  {
    var pos := PairPositions(|ids|);
    var ps := Pairs(ids);
    if [a, b] in ps {
      var k :| 0 <= k < |ps| && ps[k] == [a, b];
      assert pos[k] in pos;
      assert ids[pos[k].0] == a && ids[pos[k].1] == b;
    }
    if exists i, j :: 0 <= i < |ids| && 0 <= j < |ids| && i != j && ids[i] == a && ids[j] == b {
      var i, j :| 0 <= i < |ids| && 0 <= j < |ids| && i != j && ids[i] == a && ids[j] == b;
      PairPositionsMember(|ids|, i, j);
      var k :| 0 <= k < |pos| && pos[k] == (i, j);
      assert ps[k] == [a, b];
    }
  }

  /** Distinct labels give distinct pairs, none of which pairs a lipidome with itself. */
  lemma PairsDistinct(ids: seq<Key>)
    requires Seqs.NoDup(ids)
    ensures Seqs.NoDup(Pairs(ids))
    ensures forall p :: p in Pairs(ids) ==> |p| == 2 && p[0] != p[1]
  {
    var pos := PairPositions(|ids|);
    var ps := Pairs(ids);
    PairPositionsNoDup(|ids|);
    forall k, l | 0 <= k < l < |ps| ensures ps[k] != ps[l] {
      assert pos[k] in pos && pos[l] in pos;
      assert pos[k] != pos[l];
      assert ps[k] == [ids[pos[k].0], ids[pos[k].1]] && ps[l] == [ids[pos[l].0], ids[pos[l].1]];
      assert pos[k].0 != pos[l].0 || pos[k].1 != pos[l].1;
      assert ids[pos[k].0] != ids[pos[l].0] || ids[pos[k].1] != ids[pos[l].1];
    }
    forall p | p in ps ensures |p| == 2 && p[0] != p[1] {
      var k :| 0 <= k < |ps| && ps[k] == p;
      assert pos[k] in pos;
    }
  }

  // ---------------------------------------------------------------
  // Computing changes.
  // ---------------------------------------------------------------

  /** Element-wise subtraction: NaN on either side (or a non-number) gives NaN. */
  function Subtract(x: Cell, y: Cell): (r: Cell)
  {
    if x.Num? && y.Num? then Num(x.x - y.x) else NaN
  }

  /** Subtracting `to` from `from` and adding it back gives `from`; a missing side gives NaN. */
  lemma SubtractSpec(x: Cell, y: Cell)
    ensures Subtract(x, y).Num? <==> x.Num? && y.Num?
    ensures Subtract(x, y).Num? ==> Subtract(x, y).x + y.x == x.x
    ensures Subtract(x, y).Num? && Subtract(y, x).Num? ==> Subtract(x, y).x == - Subtract(y, x).x
  {
  }

  /**
   * `compute_pair_change` of a concrete class for one lipid. Division and
   * the logarithm work on floats and are the parameter `ratio`.
   */
  function Change(kind: ChangeKind, x: Cell, y: Cell, ratio: (ChangeKind, Cell, Cell) -> Cell): Cell
  {
    if kind == Difference then Subtract(x, y) else ratio(kind, x, y)
  }

  /** The change of every lipid from the abundances in row `i` to those in row `j`. */
  function ChangeRow(kind: ChangeKind, ab: Frame, i: nat, j: nat, ratio: (ChangeKind, Cell, Cell) -> Cell): (row: seq<Cell>)
    requires WellFormed(ab) && i < |ab.cells| && j < |ab.cells|
    ensures |row| == |ab.columns|
  {
    seq(|ab.columns|, (c: int) requires 0 <= c < |ab.columns| => Change(kind, ab.cells[i][c], ab.cells[j][c], ratio))
  }

  /**
   * `compute_pairwise_change_df` over `_generate_lipidome_pairs`: one row
   * per ordered pair, indexed by (FROM, TO) and named `names`. The base
   * class raises on the first pair. Without any pair the transposed empty
   * frame has a flat index, which refuses two level names.
   */
  function PairwiseFrame(kind: ChangeKind, ab: Frame, names: seq<Option<string>>,
                         ratio: (ChangeKind, Cell, Cell) -> Cell): (r: Result<Frame>)
    requires WellFormed(ab) && !ab.multi
    ensures r.Ok? ==> WellFormed(r.value) && r.value.names == names && |names| == 2
  {
    var pos := PairPositions(|ab.index|);
    if |pos| > 0 && kind == Base then Err(NotImplementedError)
    else if |pos| == 0 || |names| != 2 then Err(ValueError)
    else
      Ok(Frame(true, names, Pairs(Labels(ab)), ab.columns,
        seq(|pos|, (k: int) requires 0 <= k < |pos| =>
          assert pos[k] in pos;
          ChangeRow(kind, ab, pos[k].0, pos[k].1, ratio))))
  }

  /**
   * The pairwise table exists iff the class is concrete, there are at
   * least two lipidomes and two level names; it then has n·(n−1) rows
   * over the abundance table's lipids, and the row of each pair of
   * distinct lipidomes holds the change from the first to the second.
   */
  lemma PairwiseFrameSpec(kind: ChangeKind, ab: Frame, names: seq<Option<string>>,
                          ratio: (ChangeKind, Cell, Cell) -> Cell)
    requires WellFormed(ab) && !ab.multi
    ensures var r := PairwiseFrame(kind, ab, names, ratio);
      && (r.Ok? <==> kind != Base && |ab.index| >= 2 && |names| == 2)
      && (r.Err? ==> r.error == if kind == Base && |ab.index| >= 2 then NotImplementedError else ValueError)
      && (r.Ok? ==> r.value.multi && r.value.columns == ab.columns && |r.value.index| == |ab.index| * (|ab.index| - 1))
  {
    PairPositionsLength(|ab.index|);
  }

  /** With distinct lipidome labels the pairwise labels are distinct and never pair a lipidome with itself. */
  lemma PairwiseFrameDistinct(kind: ChangeKind, ab: Frame, names: seq<Option<string>>,
                              ratio: (ChangeKind, Cell, Cell) -> Cell)
    requires WellFormed(ab) && !ab.multi
    requires PairwiseFrame(kind, ab, names, ratio).Ok? && Seqs.NoDup(Labels(ab))
    ensures var r := PairwiseFrame(kind, ab, names, ratio).value;
      Seqs.NoDup(r.index) && forall p :: p in r.index ==> |p| == 2 && p[0] != p[1]
  {
    PairsDistinct(Labels(ab));
  }

  /**
   * With distinct lipidome labels, the row labelled (FROM, TO) for two
   * distinct lipidomes holds the change from the first to the second.
   */
  lemma PairwiseFrameRow(kind: ChangeKind, ab: Frame, names: seq<Option<string>>,
                         ratio: (ChangeKind, Cell, Cell) -> Cell, i: nat, j: nat)
    requires WellFormed(ab) && !ab.multi
    requires PairwiseFrame(kind, ab, names, ratio).Ok? && Seqs.NoDup(Labels(ab))
    requires i < |ab.index| && j < |ab.index| && i != j
    ensures var r := PairwiseFrame(kind, ab, names, ratio).value;
      var ids := Labels(ab);
      [ids[i], ids[j]] in r.index &&
      r.cells[Seqs.IndexOf(r.index, [ids[i], ids[j]])] == ChangeRow(kind, ab, i, j, ratio)
  {
    var r := PairwiseFrame(kind, ab, names, ratio).value;
    var ids := Labels(ab);
    var pos := PairPositions(|ab.index|);
    PairwiseFrameDistinct(kind, ab, names, ratio);
    PairPositionsMember(|ab.index|, i, j);
    var k := Seqs.IndexOf(pos, (i, j));
    assert r.index[k] == [ids[i], ids[j]];
    UniquePosition(r.index, k);
  }

  /** In a duplicate-free list the first occurrence of an element is its only position. */
  lemma UniquePosition<T>(s: seq<T>, k: nat)
    requires Seqs.NoDup(s) && k < |s|
    ensures Seqs.IndexOf(s, s[k]) == k
  {
  }

  // ---------------------------------------------------------------
  // Keeping the last row per label, and concatenation.
  // ---------------------------------------------------------------

  /** A table's rows as (label, values) entries. */
  type Rows = Dicts.Dict<seq<Key>, seq<Cell>>

  function RowsOf(f: Frame): (rs: Rows)
    requires |f.cells| == |f.index|
    ensures Dicts.Keys(rs) == f.index
  {
    Dicts.Zip(f.index, f.cells)
  }

  function WithRows(f: Frame, rs: Rows): Frame
  {
    f.(index := Dicts.Keys(rs), cells := Dicts.Values(rs))
  }

  /** `df[~df.index.duplicated(keep="last")]`: a row survives iff no later row has its label. */
  function KeepLast(rs: Rows): (r: Rows)
    ensures forall e :: e in r ==> e in rs
  {
    if |rs| == 0 then []
    else if rs[0].0 in Dicts.Keys(rs[1..]) then KeepLast(rs[1..])
    else [rs[0]] + KeepLast(rs[1..])
  }

  /** The surviving rows carry every label exactly once. */
  lemma {:induction false} KeepLastKeys(rs: Rows)
    ensures forall k :: k in Dicts.Keys(KeepLast(rs)) <==> k in Dicts.Keys(rs)
    ensures Seqs.NoDup(Dicts.Keys(KeepLast(rs)))
  {
    if |rs| > 0 {
      KeepLastKeys(rs[1..]);
      assert Dicts.Keys(rs) == [rs[0].0] + Dicts.Keys(rs[1..]);
      if rs[0].0 !in Dicts.Keys(rs[1..]) {
        var rest := KeepLast(rs[1..]);
        assert Dicts.Keys([rs[0]] + rest) == [rs[0].0] + Dicts.Keys(rest);
        Seqs.NoDupConcat([rs[0].0], Dicts.Keys(rest));
      }
    }
  }

  /** The surviving row of a label holds the values of the last row with that label. */
  lemma {:induction false} KeepLastValue(rs: Rows, k: seq<Key>)
    ensures Dicts.Get(KeepLast(rs), k) == Dicts.LastValue(rs, k)
  {
    if |rs| > 0 {
      KeepLastValue(rs[1..], k);
      assert rs == [rs[0]] + rs[1..];
      Dicts.LastValueCons(rs[0], rs[1..], k);
      Dicts.LastValueSome(rs[1..], k);
      if rs[0].0 !in Dicts.Keys(rs[1..]) {
        var rest := KeepLast(rs[1..]);
        assert ([rs[0]] + rest)[1..] == rest;
      }
    }
  }

  /** Rows with distinct labels all survive, in order. */
  lemma {:induction false} KeepLastFresh(rs: Rows)
    requires Seqs.NoDup(Dicts.Keys(rs))
    ensures KeepLast(rs) == rs
  {
    if |rs| > 0 {
      assert Dicts.Keys(rs[1..]) == Dicts.Keys(rs)[1..];
      assert rs[0].0 !in Dicts.Keys(rs[1..]) by {
        forall i | 0 <= i < |rs[1..]| ensures Dicts.Keys(rs[1..])[i] != rs[0].0 {
          assert Dicts.Keys(rs)[i + 1] != Dicts.Keys(rs)[0];
        }
      }
      KeepLastFresh(rs[1..]);
    }
  }

  /** The rows whose label is not among `ks`, in order. */
  function WithoutLabels(rs: Rows, ks: seq<seq<Key>>): Rows
  {
    if |rs| == 0 then []
    else if rs[0].0 in ks then WithoutLabels(rs[1..], ks)
    else [rs[0]] + WithoutLabels(rs[1..], ks)
  }

  /** A row survives iff its label is not among `ks`. */
  lemma {:induction false} WithoutLabelsMember(rs: Rows, ks: seq<seq<Key>>, e: (seq<Key>, seq<Cell>))
    ensures e in WithoutLabels(rs, ks) <==> e in rs && e.0 !in ks
  {
    if |rs| > 0 {
      WithoutLabelsMember(rs[1..], ks, e);
      assert e in rs <==> e == rs[0] || e in rs[1..];
    }
  }

  /**
   * Appending rows with distinct new labels to rows with distinct labels
   * and keeping the last per label: the old rows whose label is not new,
   * then all new rows.
   */
  lemma {:induction false} KeepLastAppend(a: Rows, b: Rows)
    requires Seqs.NoDup(Dicts.Keys(a)) && Seqs.NoDup(Dicts.Keys(b))
    ensures KeepLast(a + b) == WithoutLabels(a, Dicts.Keys(b)) + b
  {
    if |a| == 0 {
      assert a + b == b;
      KeepLastFresh(b);
    } else {
      KeepLastAppendStep(a, b);
      KeepLastAppend(a[1..], b);
      var rest := WithoutLabels(a[1..], Dicts.Keys(b));
      assert [a[0]] + (rest + b) == ([a[0]] + rest) + b;
    }
  }

  lemma {:induction false} KeepLastAppendStep(a: Rows, b: Rows)
    requires Seqs.NoDup(Dicts.Keys(a)) && |a| > 0
    ensures Seqs.NoDup(Dicts.Keys(a[1..]))
    ensures KeepLast(a + b) ==
      if a[0].0 in Dicts.Keys(b) then KeepLast(a[1..] + b) else [a[0]] + KeepLast(a[1..] + b)
  {
    assert (a + b)[0] == a[0] && (a + b)[1..] == a[1..] + b;
    assert Dicts.Keys(a[1..]) == Dicts.Keys(a)[1..];
    Dicts.KeysAppend(a[1..], b);
    assert a[0].0 !in Dicts.Keys(a[1..]) by {
      forall i | 0 <= i < |a[1..]| ensures Dicts.Keys(a[1..])[i] != a[0].0 {
        assert Dicts.Keys(a)[i + 1] != Dicts.Keys(a)[0];
      }
    }
  }

  /** `df.empty`: no rows or no columns. */
  predicate IsEmpty(f: Frame) { |f.index| == 0 || |f.columns| == 0 }

  /** The value of row `i` under column label `c`, NaN where the column is absent. */
  function CellAt(f: Frame, i: nat, c: Key): Cell
    requires WellFormed(f) && i < |f.cells|
  {
    if c in f.columns then f.cells[i][ColumnPos(f, c)] else NaN
  }

  /** `pd.concat([a, b])`: `a`'s rows then `b`'s, columns united in order of appearance, missing values NaN. */
  function OuterConcat(a: Frame, b: Frame): (r: Frame)
    requires WellFormed(a) && WellFormed(b) && |a.names| == |b.names|
    ensures WellFormed(r) && |r.names| == |a.names|
    ensures r.index == a.index + b.index
  {
    var cols := a.columns + Seqs.Filter(b.columns, (c: Key) => c !in a.columns);
    var r := Frame(a.multi && b.multi, if a.names == b.names then a.names else seq(|a.names|, _ => None),
      a.index + b.index, cols, OuterCells(a, b, cols));
    IndexDepths(a, b, r.names);
    r
  }

  /** Row `i` of `f` under the labels `cols`, NaN where `f` lacks the column. */
  function RowUnder(f: Frame, i: nat, cols: seq<Key>): (row: seq<Cell>)
    requires WellFormed(f) && i < |f.cells|
    ensures |row| == |cols|
    ensures forall c :: 0 <= c < |cols| ==> row[c] == CellAt(f, i, cols[c])
  {
    seq(|cols|, (c: int) requires 0 <= c < |cols| => CellAt(f, i, cols[c]))
  }

  /** Under its own duplicate-free columns, a row reads as it is stored. */
  lemma RowUnderOwnColumns(f: Frame, i: nat)
    requires WellFormed(f) && i < |f.cells| && Seqs.NoDup(f.columns)
    ensures RowUnder(f, i, f.columns) == f.cells[i]
  {
    forall c | 0 <= c < |f.columns| ensures RowUnder(f, i, f.columns)[c] == f.cells[i][c] {
      UniquePosition(f.columns, c);
    }
  }

  /** The stacked rows under `cols`: `a`'s rows, then `b`'s. */
  function OuterCells(a: Frame, b: Frame, cols: seq<Key>): (cells: seq<seq<Cell>>)
    requires WellFormed(a) && WellFormed(b)
    ensures |cells| == |a.cells| + |b.cells|
    ensures forall i :: 0 <= i < |a.cells| ==> cells[i] == RowUnder(a, i, cols)
    ensures forall i :: |a.cells| <= i < |cells| ==> cells[i] == RowUnder(b, i - |a.cells|, cols)
  {
    seq(|a.cells| + |b.cells|, (i: int) requires 0 <= i < |a.cells| + |b.cells| =>
      if i < |a.cells| then RowUnder(a, i, cols) else RowUnder(b, i - |a.cells|, cols))
  }

  /** Stacking two indexes of the same depth keeps that depth. */
  lemma IndexDepths(a: Frame, b: Frame, names: seq<Option<string>>)
    requires WellFormed(a) && WellFormed(b) && |a.names| == |b.names| == |names|
    ensures forall i :: 0 <= i < |a.index + b.index| ==> |(a.index + b.index)[i]| == |names|
  {
    forall i | 0 <= i < |a.index + b.index| ensures |(a.index + b.index)[i]| == |names| {
      if i >= |a.index| { assert (a.index + b.index)[i] == b.index[i - |a.index|]; }
    }
  }

  /** With the same duplicate-free columns on both sides, concatenation just appends the rows. */
  lemma OuterConcatSameColumns(a: Frame, b: Frame)
    requires WellFormed(a) && WellFormed(b) && |a.names| == |b.names|
    requires a.columns == b.columns && Seqs.NoDup(a.columns)
    ensures OuterConcat(a, b) == AppendRows(a, b)
  {
    Seqs.FilterEmpty(b.columns, (c: Key) => c !in a.columns);
    var r := OuterConcat(a, b);
    var app := AppendRows(a, b);
    assert r.columns == a.columns;
    forall i | 0 <= i < |r.cells| ensures r.cells[i] == app.cells[i] {
      if i >= |a.cells| {
        RowUnderOwnColumns(b, i - |a.cells|);
      } else {
        RowUnderOwnColumns(a, i);
      }
    }
  }

  /** `pd.concat(df for df in [a, b] if not df.empty)`: concatenating nothing raises ValueError. */
  function ConcatNonEmpty(a: Frame, b: Frame): (r: Result<Frame>)
    requires WellFormed(a) && WellFormed(b) && |a.names| == |b.names|
    ensures r.Err? <==> IsEmpty(a) && IsEmpty(b)
    ensures r.Ok? ==> WellFormed(r.value) && |r.value.names| == |a.names|
  {
    if IsEmpty(a) && IsEmpty(b) then Err(ValueError)
    else if IsEmpty(a) then Ok(b)
    else if IsEmpty(b) then Ok(a)
    else Ok(OuterConcat(a, b))
  }

  // ---------------------------------------------------------------
  // The change table and its insertions.
  // ---------------------------------------------------------------

  /** `_validate_levels`, after the wrapper and multi-index checks of the base classes. */
  function ValidateChangeTable(f: Frame): Result<()>
  {
    if ValidateDf(f).Err? then ValidateDf(f)
    else if ValidateMultiIndex(f).Err? then Err(ValueError)
    else if |f.names| != 2 then Err(ValueError)
    else Ok(())
  }

  /** A change table is accepted iff it is a valid wrapper table with a two-level MultiIndex. */
  lemma ValidateChangeTableSpec(f: Frame)
    ensures ValidateChangeTable(f).Ok? <==> ValidFrame(f) && f.multi && |f.names| == 2
    ensures ValidateChangeTable(f).Err? ==> ValidateChangeTable(f).error == ValueError
  {
    ValidateDfSpec(f);
  }

  /** `empty_from_lipids`: no rows, one column per lipid, levels FROM and TO. */
  function EmptyFromLipids(lipids: seq<Key>): (f: Frame)
    ensures WellFormed(f) && |f.names| == 2 && IsEmpty(f)
  {
    Frame(true, DefaultIndexNames, [], lipids, [])
  }

  /** The empty table validates iff its lipids are distinct strings. */
  lemma EmptyFromLipidsValid(lipids: seq<Key>)
    ensures ValidateChangeTable(EmptyFromLipids(lipids)).Ok? <==>
      Seqs.NoDup(lipids) && forall c :: c in lipids ==> c.Str?
  {
    var f := EmptyFromLipids(lipids);
    ValidateChangeTableSpec(f);
    BaseDfWrapper.NoDupBothWays(lipids);
  }

  /** The table after `add_pairwise_changes`, or the error it raises. */
  function AddPairwise(t: Frame, kind: ChangeKind, ab: Frame, handling: string, validate: bool,
                       ratio: (ChangeKind, Cell, Cell) -> Cell): (r: Result<Frame>)
    requires WellFormed(t) && |t.names| == 2 && WellFormed(ab) && !ab.multi
    ensures r.Ok? ==> WellFormed(r.value) && |r.value.names| == 2
  {
    if validate && handling != "raise" && handling != "overwrite" then Err(ValueError)
    else
      match PairwiseFrame(kind, ab, t.names, ratio)
      case Err(e) => Err(e)
      case Ok(p) =>
        if handling == "raise" && |Seqs.Filter(t.index, (e: seq<Key>) => e in p.index)| > 0 then Err(ValueError)
        else
          match ConcatNonEmpty(t, p)
          case Err(e) => Err(e)
          case Ok(c) =>
            var kept := KeepLast(RowsOf(c));
            assert forall i :: 0 <= i < |kept| ==> |kept[i].0| == 2 && |kept[i].1| == |c.columns| by {
              forall i | 0 <= i < |kept| ensures |kept[i].0| == 2 && |kept[i].1| == |c.columns| {
                assert kept[i] in RowsOf(c);
              }
            }
            Ok(WithRows(c, kept))
  }

  /** Whatever the mode, a successful insertion leaves one row per (FROM, TO) label. */
  lemma AddPairwiseUniqueKeys(t: Frame, kind: ChangeKind, ab: Frame, handling: string, validate: bool,
                              ratio: (ChangeKind, Cell, Cell) -> Cell)
    requires WellFormed(t) && |t.names| == 2 && WellFormed(ab) && !ab.multi
    ensures var r := AddPairwise(t, kind, ab, handling, validate, ratio);
      r.Ok? ==> Seqs.NoDup(r.value.index)
  {
    var r := AddPairwise(t, kind, ab, handling, validate, ratio);
    if r.Ok? {
      var p := PairwiseFrame(kind, ab, t.names, ratio).value;
      var c := ConcatNonEmpty(t, p).value;
      KeepLastKeys(RowsOf(c));
    }
  }

  /** With validation, an unknown mode raises ValueError before anything is computed. */
  lemma AddPairwiseInvalidMode(t: Frame, kind: ChangeKind, ab: Frame, handling: string,
                               ratio: (ChangeKind, Cell, Cell) -> Cell)
    requires WellFormed(t) && |t.names| == 2 && WellFormed(ab) && !ab.multi
    requires handling != "raise" && handling != "overwrite"
    ensures AddPairwise(t, kind, ab, handling, true, ratio) == Err(ValueError)
  {
  }

  /**
   * In "raise" mode an insertion succeeds only if none of the new pairs
   * is already in the table, and a computable pair already present
   * raises ValueError.
   */
  lemma AddPairwiseRaise(t: Frame, kind: ChangeKind, ab: Frame, validate: bool,
                         ratio: (ChangeKind, Cell, Cell) -> Cell)
    requires WellFormed(t) && |t.names| == 2 && WellFormed(ab) && !ab.multi
    ensures var r := AddPairwise(t, kind, ab, "raise", validate, ratio);
      var p := PairwiseFrame(kind, ab, t.names, ratio);
      && (r.Ok? ==> p.Ok? && forall e :: e in t.index ==> e !in p.value.index)
      && (p.Ok? && (exists e :: e in t.index && e in p.value.index) ==> r == Err(ValueError))
  {
    var p := PairwiseFrame(kind, ab, t.names, ratio);
    if p.Ok? {
      Seqs.FilterEmpty(t.index, (e: seq<Key>) => e in p.value.index);
    }
  }

  /**
   * In "overwrite" mode, with distinct lipidomes, a table with distinct
   * labels over the same lipids: the old rows whose pair is not
   * recomputed stay, in order, followed by every new pair's row.
   */
  lemma AddPairwiseOverwrite(t: Frame, kind: ChangeKind, ab: Frame, validate: bool,
                             ratio: (ChangeKind, Cell, Cell) -> Cell)
    requires WellFormed(t) && |t.names| == 2 && WellFormed(ab) && !ab.multi
    requires Seqs.NoDup(t.index) && Seqs.NoDup(Labels(ab))
    requires t.columns == ab.columns && Seqs.NoDup(t.columns) && !IsEmpty(t)
    requires kind != Base && |ab.index| >= 2
    ensures var r := AddPairwise(t, kind, ab, "overwrite", validate, ratio);
      var p := PairwiseFrame(kind, ab, t.names, ratio);
      && p.Ok? && r.Ok?
      && RowsOf(r.value) == WithoutLabels(RowsOf(t), p.value.index) + RowsOf(p.value)
  {
    PairwiseFrameSpec(kind, ab, t.names, ratio);
    PairwiseFrameDistinct(kind, ab, t.names, ratio);
    var p := PairwiseFrame(kind, ab, t.names, ratio).value;
    OuterConcatSameColumns(t, p);
    AddPairwiseOverwriteValue(t, kind, ab, validate, ratio);
    RowsOfAppend(t, p);
    KeepLastAppend(RowsOf(t), RowsOf(p));
    RowsOfWithRows(AppendRows(t, p), KeepLast(RowsOf(AppendRows(t, p))));
  }

  /** In "overwrite" mode two non-empty tables are concatenated and the last row per label kept. */
  lemma AddPairwiseOverwriteValue(t: Frame, kind: ChangeKind, ab: Frame, validate: bool,
                                  ratio: (ChangeKind, Cell, Cell) -> Cell)
    requires WellFormed(t) && |t.names| == 2 && WellFormed(ab) && !ab.multi
    requires PairwiseFrame(kind, ab, t.names, ratio).Ok?
    requires !IsEmpty(t) && !IsEmpty(PairwiseFrame(kind, ab, t.names, ratio).value)
    ensures var c := OuterConcat(t, PairwiseFrame(kind, ab, t.names, ratio).value);
      AddPairwise(t, kind, ab, "overwrite", validate, ratio) == Ok(WithRows(c, KeepLast(RowsOf(c))))
  {
  }

  lemma RowsOfAppend(a: Frame, b: Frame)
    requires |a.cells| == |a.index| && |b.cells| == |b.index|
    ensures RowsOf(AppendRows(a, b)) == RowsOf(a) + RowsOf(b)
  {
  }

  lemma RowsOfWithRows(f: Frame, rs: Rows)
    ensures RowsOf(WithRows(f, rs)) == rs
  {
  }

  /** `add_change`: validate, compute the one pair, and append it. */
  function AppendChange(t: Frame, kind: ChangeKind, ab: Frame, from: Key, to: Key, validate: bool,
                     ratio: (ChangeKind, Cell, Cell) -> Cell): (r: Result<Frame>)
    requires WellFormed(t) && |t.names| == 2 && WellFormed(ab) && !ab.multi
    ensures r.Ok? ==> WellFormed(r.value) && |r.value.names| == 2
  {
    if validate && from == to then Err(ValueError)
    else if validate && [from, to] in t.index then Err(ValueError)
    else if validate && [from] !in ab.index then Err(ValueError)
    else if validate && [to] !in ab.index then Err(ValueError)
    else if kind == Base then Err(NotImplementedError)
    else if [from] !in ab.index || [to] !in ab.index then Err(KeyError)
    else ConcatNonEmpty(t, PairRow(kind, ab, from, to, ratio))
  }

  /** The one-row table `compute_pair_change(...).to_frame((from, to)).T`; its levels are unnamed. */
  function PairRow(kind: ChangeKind, ab: Frame, from: Key, to: Key, ratio: (ChangeKind, Cell, Cell) -> Cell): (f: Frame)
    requires WellFormed(ab) && [from] in ab.index && [to] in ab.index
    ensures WellFormed(f) && |f.names| == 2
  {
    var none: Option<string> := None;
    Frame(true, [none, none], [[from, to]], ab.columns,
      [ChangeRow(kind, ab, Seqs.IndexOf(ab.index, [from]), Seqs.IndexOf(ab.index, [to]), ratio)])
  }

  /**
   * With validation, `add_change` raises ValueError on a self pair, an
   * existing pair or a lipidome missing from the abundances; otherwise a
   * concrete class fails only when the table and the new row are both
   * empty (there is nothing to concatenate).
   */
  lemma AddChangeValidation(t: Frame, kind: ChangeKind, ab: Frame, from: Key, to: Key,
                            ratio: (ChangeKind, Cell, Cell) -> Cell)
    requires WellFormed(t) && |t.names| == 2 && WellFormed(ab) && !ab.multi
    ensures var r := AppendChange(t, kind, ab, from, to, true, ratio);
      && (from == to || [from, to] in t.index || [from] !in ab.index || [to] !in ab.index ==> r == Err(ValueError))
      && (from != to && [from, to] !in t.index && [from] in ab.index && [to] in ab.index && kind != Base ==>
            (r.Ok? <==> !IsEmpty(t) || |ab.columns| > 0))
  {
  }

  /**
   * A validated `add_change` on a non-empty table over the same lipids
   * appends exactly one row, labelled (from, to), holding the change from
   * `from`'s abundances to `to`'s; the labels stay distinct.
   */
  lemma AddChangeAppends(t: Frame, kind: ChangeKind, ab: Frame, from: Key, to: Key,
                         ratio: (ChangeKind, Cell, Cell) -> Cell)
    requires WellFormed(t) && |t.names| == 2 && WellFormed(ab) && !ab.multi
    requires t.columns == ab.columns && Seqs.NoDup(t.columns) && !IsEmpty(t)
    requires AppendChange(t, kind, ab, from, to, true, ratio).Ok?
    ensures var r := AppendChange(t, kind, ab, from, to, true, ratio).value;
      && from != to && [from] in ab.index && [to] in ab.index
      && r.index == t.index + [[from, to]]
      && r.columns == t.columns
      && r.cells[..|t.cells|] == t.cells
      && (forall c :: 0 <= c < |t.columns| ==>
            r.cells[|t.cells|][c] == Change(kind, ab.cells[Seqs.IndexOf(ab.index, [from])][c],
                                            ab.cells[Seqs.IndexOf(ab.index, [to])][c], ratio))
      && (Seqs.NoDup(t.index) ==> Seqs.NoDup(r.index))
  {
    var p := PairRow(kind, ab, from, to, ratio);
    OuterConcatSameColumns(t, p);
    var r := AppendRows(t, p);
    assert r.cells[..|t.cells|] == t.cells;
    assert r.cells[|t.cells|] == p.cells[0];
    if Seqs.NoDup(t.index) {
      Seqs.NoDupConcat(t.index, [[from, to]]);
    }
  }

  /**
   * `add_change` on a table without rows yields the new row alone, whose
   * levels carry no names: FROM and TO are lost.
   */
  lemma AddChangeOnEmptyTable(t: Frame, kind: ChangeKind, ab: Frame, from: Key, to: Key, validate: bool,
                              ratio: (ChangeKind, Cell, Cell) -> Cell)
    requires WellFormed(t) && |t.names| == 2 && WellFormed(ab) && !ab.multi
    requires |t.index| == 0 && |ab.columns| > 0
    requires AppendChange(t, kind, ab, from, to, validate, ratio).Ok?
    ensures var r := AppendChange(t, kind, ab, from, to, validate, ratio).value;
      r.index == [[from, to]] && r.names == [None, None] && ValidateChangeTable(r) == Err(ValueError)
  {
    var r := AppendChange(t, kind, ab, from, to, validate, ratio).value;
    ValidateChangeTableSpec(r);
  }

  /** A table of changes of one kind, indexed by (FROM, TO). */
  class ChangeTable {
    const kind: ChangeKind
    var frame: Frame

    predicate Valid()
      reads this
    {
      WellFormed(frame) && |frame.names| == 2
    }

    /** Construction validates the table unless told not to. */
    constructor (kind: ChangeKind, f: Frame, validate: bool)
      requires WellFormed(f) && |f.names| == 2
      requires validate ==> ValidateChangeTable(f).Ok?
      ensures this.kind == kind && frame == f && Valid()
    {
      this.kind := kind;
      frame := f;
    }

    /** `add_pairwise_changes`: the held table becomes the insertion's result, or stays as it was. */
    method AddPairwiseChanges(ab: Frame, handling: string, validate: bool,
                              ratio: (ChangeKind, Cell, Cell) -> Cell) returns (r: Result<()>)
      requires Valid() && WellFormed(ab) && !ab.multi
      modifies this
      ensures Valid()
      ensures var expected := AddPairwise(old(frame), kind, ab, handling, validate, ratio);
        && (r.Ok? <==> expected.Ok?)
        && (expected.Err? ==> r.error == expected.error && frame == old(frame))
        && (expected.Ok? ==> frame == expected.value)
    {
      if validate && handling != "raise" && handling != "overwrite" {
        return Err(ValueError);
      }
      var pairwise := PairwiseFrame(kind, ab, frame.names, ratio);
      if pairwise.Err? {
        return Err(pairwise.error);
      }
      if handling == "raise" && |Seqs.Filter(frame.index, (e: seq<Key>) => e in pairwise.value.index)| > 0 {
        return Err(ValueError);
      }
      var concat := ConcatNonEmpty(frame, pairwise.value);
      if concat.Err? {
        return Err(concat.error);
      }
      var result := AddPairwise(frame, kind, ab, handling, validate, ratio);
      frame := result.value;
      return Ok(());
    }

    /** `add_change`: the held table gains the pair's row, or stays as it was. */
    method AddChangeInPlace(ab: Frame, from: Key, to: Key, validate: bool,
                            ratio: (ChangeKind, Cell, Cell) -> Cell) returns (r: Result<()>)
      requires Valid() && WellFormed(ab) && !ab.multi
      modifies this
      ensures Valid()
      ensures var expected := AppendChange(old(frame), kind, ab, from, to, validate, ratio);
        && (r.Ok? <==> expected.Ok?)
        && (expected.Err? ==> r.error == expected.error && frame == old(frame))
        && (expected.Ok? ==> frame == expected.value)
    {
      var result := AppendChange(frame, kind, ab, from, to, validate, ratio);
      if result.Err? {
        return Err(result.error);
      }
      frame := result.value;
      return Ok(());
    }
  }

  // ---------------------------------------------------------------
  // Subsets of a change table.
  // ---------------------------------------------------------------

  /**
   * `get_subset`: the rows both of whose lipidomes are requested, under
   * the requested lipids, validated again as a change table.
   */
  function ChangeTableSubset(f: Frame, lipidomes: Option<seq<Key>>, lipids: Option<seq<Key>>, validate: bool): Result<Frame>
    requires WellFormed(f)
  {
    match IndexMemberSubset(f, lipidomes, lipids, validate)
    case Err(e) => Err(e)
    case Ok(s) => if ValidateChangeTable(s).Err? then Err(ValueError) else Ok(s)
  }

  /**
   * A subset keeps exactly the pairs made of requested lipidomes, in
   * table order, under exactly the requested lipids, and is a valid
   * change table.
   */
  lemma ChangeTableSubsetSpec(f: Frame, lipidomes: seq<Key>, lipids: seq<Key>, validate: bool)
    requires WellFormed(f)
    ensures var r := ChangeTableSubset(f, Some(lipidomes), Some(lipids), validate);
      r.Ok? ==>
        && r.value.columns == lipids
        && (forall e :: e in r.value.index <==> e in f.index && forall k :: k in e ==> k in lipidomes)
        && ValidFrame(r.value) && r.value.multi && |r.value.names| == 2
  {
    var r := ChangeTableSubset(f, Some(lipidomes), Some(lipids), validate);
    if r.Ok? {
      ValidateChangeTableSpec(r.value);
    }
  }

  /**
   * With validation, requesting any lipidome from a table without rows
   * raises ValueError, since no lipidome occurs in its index.
   */
  lemma EmptyTableSubsetRaises(f: Frame, lipidomes: seq<Key>, lipids: Option<seq<Key>>)
    requires WellFormed(f) && |f.index| == 0 && |lipidomes| > 0
    ensures ChangeTableSubset(f, Some(lipidomes), lipids, true) == Err(ValueError)
  {
    CheckIndexMembersExistSpec(f, lipidomes);
    assert lipidomes[0] in lipidomes;
  }

  /** A successful subset is a well-formed table with two levels that validates as a change table. */
  lemma SubsetWellFormed(f: Frame, lipidomes: seq<Key>, lipids: seq<Key>, validate: bool)
    requires WellFormed(f)
    requires ChangeTableSubset(f, Some(lipidomes), Some(lipids), validate).Ok?
    ensures var s := ChangeTableSubset(f, Some(lipidomes), Some(lipids), validate).value;
      WellFormed(s) && |s.names| == 2 && ValidateChangeTable(s).Ok?
  {
    var s := ChangeTableSubset(f, Some(lipidomes), Some(lipids), validate).value;
    var idx := IndexFromMembers(f, lipidomes);
    assert s.index == idx && s.names == f.names;
    forall i | 0 <= i < |s.index| ensures |s.index[i]| == |s.names| {
      assert s.index[i] in idx;
    }
  }

  // ---------------------------------------------------------------
  // The storage of the three kinds of change.
  // ---------------------------------------------------------------

  /** `from_lipidomes`: the first level's values. */
  function FromLipidomes(f: Frame): (ls: seq<Key>)
    requires WellFormed(f) && |f.names| == 2
    ensures |ls| == |f.index|
  {
    seq(|f.index|, (i: int) requires 0 <= i < |f.index| => f.index[i][0])
  }

  /** `to_lipidomes`: the second level's values. */
  function ToLipidomes(f: Frame): (ls: seq<Key>)
    requires WellFormed(f) && |f.names| == 2
    ensures |ls| == |f.index|
  {
    seq(|f.index|, (i: int) requires 0 <= i < |f.index| => f.index[i][1])
  }

  /** `_check_change_df_lipidomes` on both levels, then `_check_change_df_lipids`. */
  function CheckChangeFrame(f: Frame, lipidomes: seq<Key>, lipids: seq<Key>): Result<()>
    requires WellFormed(f) && |f.names| == 2
  {
    if |Seqs.Filter(FromLipidomes(f), (k: Key) => k !in lipidomes)| > 0 then Err(ValueError)
    else if |Seqs.Filter(ToLipidomes(f), (k: Key) => k !in lipidomes)| > 0 then Err(ValueError)
    else if |Seqs.Filter(f.columns, (k: Key) => k !in lipids)| > 0 then Err(ValueError)
    else Ok(())
  }

  /** Every pair's lipidomes are storage lipidomes and every column a storage lipid. */
  predicate KnownChanges(f: Frame, lipidomes: seq<Key>, lipids: seq<Key>)
    requires WellFormed(f) && |f.names| == 2
  {
    && (forall i :: 0 <= i < |f.index| ==> f.index[i][0] in lipidomes && f.index[i][1] in lipidomes)
    && (forall c :: c in f.columns ==> c in lipids)
  }

  lemma CheckChangeFrameSpec(f: Frame, lipidomes: seq<Key>, lipids: seq<Key>)
    requires WellFormed(f) && |f.names| == 2
    ensures CheckChangeFrame(f, lipidomes, lipids).Ok? <==> KnownChanges(f, lipidomes, lipids)
  {
    var froms := FromLipidomes(f);
    var tos := ToLipidomes(f);
    Seqs.FilterEmpty(froms, (k: Key) => k !in lipidomes);
    Seqs.FilterEmpty(tos, (k: Key) => k !in lipidomes);
    Seqs.FilterEmpty(f.columns, (k: Key) => k !in lipids);
    assert (forall x :: x in froms ==> x in lipidomes) <==> (forall i :: 0 <= i < |f.index| ==> f.index[i][0] in lipidomes) by {
      if forall x :: x in froms ==> x in lipidomes {
        forall i | 0 <= i < |f.index| ensures f.index[i][0] in lipidomes { assert froms[i] in froms; }
      }
    }
    assert (forall x :: x in tos ==> x in lipidomes) <==> (forall i :: 0 <= i < |f.index| ==> f.index[i][1] in lipidomes) by {
      if forall x :: x in tos ==> x in lipidomes {
        forall i | 0 <= i < |f.index| ensures f.index[i][1] in lipidomes { assert tos[i] in tos; }
      }
    }
  }

  /** A given table (None stands for an absent one) passes the storage check. */
  predicate TableOk(t: Option<Frame>, lipidomes: seq<Key>, lipids: seq<Key>)
  {
    t.Some? && WellFormed(t.value) && |t.value.names| == 2 ==> KnownChanges(t.value, lipidomes, lipids)
  }

  /** `_validate_input`: the given tables, in the order differences, fold changes, log2 fold changes. */
  function ValidateStorageInput(lipidomes: seq<Key>, lipids: seq<Key>,
                                d: Option<Frame>, fc: Option<Frame>, l2: Option<Frame>): Result<()>
    requires d.Some? ==> WellFormed(d.value) && |d.value.names| == 2
    requires fc.Some? ==> WellFormed(fc.value) && |fc.value.names| == 2
    requires l2.Some? ==> WellFormed(l2.value) && |l2.value.names| == 2
  {
    if d.Some? && CheckChangeFrame(d.value, lipidomes, lipids).Err? then Err(ValueError)
    else if fc.Some? && CheckChangeFrame(fc.value, lipidomes, lipids).Err? then Err(ValueError)
    else if l2.Some? && CheckChangeFrame(l2.value, lipidomes, lipids).Err? then Err(ValueError)
    else Ok(())
  }

  /** The storage input is accepted iff every given table only mentions known lipidomes and lipids. */
  lemma ValidateStorageInputSpec(lipidomes: seq<Key>, lipids: seq<Key>,
                                 d: Option<Frame>, fc: Option<Frame>, l2: Option<Frame>)
    requires d.Some? ==> WellFormed(d.value) && |d.value.names| == 2
    requires fc.Some? ==> WellFormed(fc.value) && |fc.value.names| == 2
    requires l2.Some? ==> WellFormed(l2.value) && |l2.value.names| == 2
    ensures ValidateStorageInput(lipidomes, lipids, d, fc, l2).Ok? <==>
      TableOk(d, lipidomes, lipids) && TableOk(fc, lipidomes, lipids) && TableOk(l2, lipidomes, lipids)
  {
    if d.Some? { CheckChangeFrameSpec(d.value, lipidomes, lipids); }
    if fc.Some? { CheckChangeFrameSpec(fc.value, lipidomes, lipids); }
    if l2.Some? { CheckChangeFrameSpec(l2.value, lipidomes, lipids); }
  }

  /** The name `get_abundance_changes` selects each concrete kind by. */
  function KindName(k: ChangeKind): string
  {
    match k
    case Base => ""
    case Difference => "difference"
    case FoldChange => "fc"
    case Log2FoldChange => "log2fc"
  }

  function FrameOf(t: Option<ChangeTable>): Option<Frame>
    reads if t.Some? then {t.value} else {}
  {
    if t.Some? then Some(t.value.frame) else None
  }

  /** `AbundanceChangeStorage`: the lipidomes and lipids, and one change table per concrete kind. */
  class Storage {
    const lipidomes: seq<Key>
    const lipids: seq<Key>
    const differences: ChangeTable
    const fcs: ChangeTable
    const log2fcs: ChangeTable

    predicate Valid()
      reads this, differences, fcs, log2fcs
    {
      && differences.kind == Difference && fcs.kind == FoldChange && log2fcs.kind == Log2FoldChange
      && differences.Valid() && fcs.Valid() && log2fcs.Valid()
    }

    /**
     * Validates the given tables against the lipidomes and lipids, and
     * creates an empty table over the lipids for each one not given.
     */
    constructor (lipidomes: seq<Key>, lipids: seq<Key>,
                 d: Option<ChangeTable>, fc: Option<ChangeTable>, l2: Option<ChangeTable>, validate: bool)
      requires d.Some? ==> d.value.kind == Difference && d.value.Valid()
      requires fc.Some? ==> fc.value.kind == FoldChange && fc.value.Valid()
      requires l2.Some? ==> l2.value.kind == Log2FoldChange && l2.value.Valid()
      requires validate ==> ValidateStorageInput(lipidomes, lipids, FrameOf(d), FrameOf(fc), FrameOf(l2)).Ok?
      requires validate && (d.None? || fc.None? || l2.None?) ==> ValidateChangeTable(EmptyFromLipids(lipids)).Ok?
      ensures Valid() && this.lipidomes == lipidomes && this.lipids == lipids
      ensures d.Some? ==> differences == d.value
      ensures d.None? ==> fresh(differences) && differences.frame == EmptyFromLipids(lipids)
      ensures fc.Some? ==> fcs == fc.value
      ensures fc.None? ==> fresh(fcs) && fcs.frame == EmptyFromLipids(lipids)
      ensures l2.Some? ==> log2fcs == l2.value
      ensures l2.None? ==> fresh(log2fcs) && log2fcs.frame == EmptyFromLipids(lipids)
    {
      this.lipidomes := lipidomes;
      this.lipids := lipids;
      if d.Some? {
        differences := d.value;
      } else {
        differences := new ChangeTable(Difference, EmptyFromLipids(lipids), validate);
      }
      if fc.Some? {
        fcs := fc.value;
      } else {
        fcs := new ChangeTable(FoldChange, EmptyFromLipids(lipids), validate);
      }
      if l2.Some? {
        log2fcs := l2.value;
      } else {
        log2fcs := new ChangeTable(Log2FoldChange, EmptyFromLipids(lipids), validate);
      }
    }

    /** `get_abundance_changes`: "difference", "fc" or "log2fc", anything else raises ValueError. */
    function GetAbundanceChanges(name: string): Result<ChangeTable>
      reads this
    {
      if name == "difference" then Ok(differences)
      else if name == "fc" then Ok(fcs)
      else if name == "log2fc" then Ok(log2fcs)
      else Err(ValueError)
    }

    /** Each concrete kind is selected by its name, and only the three names select anything. */
    lemma GetAbundanceChangesSpec(name: string)
      requires Valid()
      ensures GetAbundanceChanges(name).Ok? <==> exists k :: k != Base && name == KindName(k)
      ensures GetAbundanceChanges(name).Err? ==> GetAbundanceChanges(name).error == ValueError
      ensures forall k :: k != Base ==> GetAbundanceChanges(KindName(k)).Ok? && GetAbundanceChanges(KindName(k)).value.kind == k
    {
      if name == "difference" { assert name == KindName(Difference); }
      if name == "fc" { assert name == KindName(FoldChange); }
      if name == "log2fc" { assert name == KindName(Log2FoldChange); }
    }

    /** `add_pairwise_changes` on the selected table; the other two are untouched. */
    method AddPairwiseChanges(name: string, ab: Frame, handling: string, validate: bool,
                              ratio: (ChangeKind, Cell, Cell) -> Cell) returns (r: Result<()>)
      requires Valid() && WellFormed(ab) && !ab.multi
      modifies differences, fcs, log2fcs
      ensures Valid()
      ensures GetAbundanceChanges(name).Err? ==>
        r == Err(ValueError) && unchanged(differences) && unchanged(fcs) && unchanged(log2fcs)
      ensures GetAbundanceChanges(name).Ok? ==>
        var t := GetAbundanceChanges(name).value;
        var expected := AddPairwise(old(t.frame), t.kind, ab, handling, validate, ratio);
        && (r.Ok? <==> expected.Ok?)
        && (expected.Ok? ==> t.frame == expected.value)
        && (expected.Err? ==> r.error == expected.error && t.frame == old(t.frame))
        && (t != differences ==> unchanged(differences))
        && (t != fcs ==> unchanged(fcs))
        && (t != log2fcs ==> unchanged(log2fcs))
    {
      var selected := GetAbundanceChanges(name);
      if selected.Err? {
        return Err(ValueError);
      }
      r := selected.value.AddPairwiseChanges(ab, handling, validate, ratio);
    }

    /** `add_change` on the selected table; the other two are untouched. */
    method AddChange(name: string, ab: Frame, from: Key, to: Key, validate: bool,
                     ratio: (ChangeKind, Cell, Cell) -> Cell) returns (r: Result<()>)
      requires Valid() && WellFormed(ab) && !ab.multi
      modifies differences, fcs, log2fcs
      ensures Valid()
      ensures GetAbundanceChanges(name).Err? ==>
        r == Err(ValueError) && unchanged(differences) && unchanged(fcs) && unchanged(log2fcs)
      ensures GetAbundanceChanges(name).Ok? ==>
        var t := GetAbundanceChanges(name).value;
        var expected := AppendChange(old(t.frame), t.kind, ab, from, to, validate, ratio);
        && (r.Ok? <==> expected.Ok?)
        && (expected.Ok? ==> t.frame == expected.value)
        && (expected.Err? ==> r.error == expected.error && t.frame == old(t.frame))
        && (t != differences ==> unchanged(differences))
        && (t != fcs ==> unchanged(fcs))
        && (t != log2fcs ==> unchanged(log2fcs))
    {
      var selected := GetAbundanceChanges(name);
      if selected.Err? {
        return Err(ValueError);
      }
      r := selected.value.AddChangeInPlace(ab, from, to, validate, ratio);
    }

    /** One table's subset, as a new table of the same kind. */
    static method SubsetTable(kind: ChangeKind, f: Frame, ls: seq<Key>, cs: seq<Key>, validate: bool)
      returns (r: Result<ChangeTable>)
      requires WellFormed(f)
      ensures var s := ChangeTableSubset(f, Some(ls), Some(cs), validate);
        && (r.Ok? <==> s.Ok?)
        && (r.Ok? ==> fresh(r.value) && r.value.kind == kind && r.value.frame == s.value && r.value.Valid())
    {
      var s := ChangeTableSubset(f, Some(ls), Some(cs), validate);
      if s.Err? {
        return Err(s.error);
      }
      SubsetWellFormed(f, ls, cs, validate);
      var t := new ChangeTable(kind, s.value, true);
      return Ok(t);
    }

    /**
     * `get_subset`: a new storage over the requested lipidomes and lipids
     * (by default the current ones) holding the subset of each table.
     */
    method GetSubset(lipidomes: Option<seq<Key>>, lipids: Option<seq<Key>>, validate: bool) returns (r: Result<Storage>)
      requires Valid()
      ensures var ls := if lipidomes.Some? then lipidomes.value else this.lipidomes;
        var cs := if lipids.Some? then lipids.value else this.lipids;
        var sd := ChangeTableSubset(differences.frame, Some(ls), Some(cs), validate);
        var sf := ChangeTableSubset(fcs.frame, Some(ls), Some(cs), validate);
        var sl := ChangeTableSubset(log2fcs.frame, Some(ls), Some(cs), validate);
        && (r.Ok? <==> sd.Ok? && sf.Ok? && sl.Ok?)
        && (r.Ok? ==>
              && fresh(r.value) && r.value.Valid()
              && r.value.lipidomes == ls && r.value.lipids == cs
              && r.value.differences.frame == sd.value
              && r.value.fcs.frame == sf.value
              && r.value.log2fcs.frame == sl.value)
    {
      var ls := if lipidomes.Some? then lipidomes.value else this.lipidomes;
      var cs := if lipids.Some? then lipids.value else this.lipids;
      var d := SubsetTable(Difference, differences.frame, ls, cs, validate);
      if d.Err? {
        return Err(d.error);
      }
      var fc := SubsetTable(FoldChange, fcs.frame, ls, cs, validate);
      if fc.Err? {
        return Err(fc.error);
      }
      var l2 := SubsetTable(Log2FoldChange, log2fcs.frame, ls, cs, validate);
      if l2.Err? {
        return Err(l2.error);
      }
      var s := new Storage(ls, cs, Some(d.value), Some(fc.value), Some(l2.value), false);
      return Ok(s);
    }
  }
}
