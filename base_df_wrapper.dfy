/**
 * The dataframe wrapper every lipidome table builds on: validation of the
 * index and the columns, aggregation rows (mean, std, concat) over groups
 * of index labels appended in place, concatenation of two wrappers, and
 * member-based subsets of a multi-indexed table.
 */
module BaseDfWrapper {
  import opened Wrappers
  import opened PyStrings
  import Seqs
  import Dicts

  /** An index or column label: a string, or any non-string value (an int stands for all of them). */
  datatype Key = Str(s: string) | NonStr(n: int)

  /** A cell: text, a number (an int stands for any numeric value), or NaN. */
  datatype Cell = Text(s: string) | Num(x: int) | NaN

  /**
   * A dataframe. `names` holds one name per index level (a plain index
   * has one level and `multi` false); each index entry holds one key per
   * level; `cells[i][c]` is the value of row `i` in column `c`.
   */
  datatype Frame = Frame(multi: bool, names: seq<Option<string>>, index: seq<seq<Key>>,
                         columns: seq<Key>, cells: seq<seq<Cell>>)

  /** The shape every pandas dataframe has. */
  predicate WellFormed(f: Frame) {
    && |f.names| >= 1
    && (!f.multi ==> |f.names| == 1)
    && |f.cells| == |f.index|
    && (forall i :: 0 <= i < |f.index| ==> |f.index[i]| == |f.names|)
    && (forall i :: 0 <= i < |f.cells| ==> |f.cells[i]| == |f.columns|)
  }

  /** A label of a plain string index. */
  function Lbl(l: string): seq<Key> { [Str(l)] }

  /** `df.index.name`: the single level's name; a MultiIndex has none. */
  function IndexName(f: Frame): Option<string>
    requires |f.names| >= 1
  {
    if f.multi then None else f.names[0]
  }

  // ---------------------------------------------------------------
  // Validation of a wrapped dataframe.
  // ---------------------------------------------------------------

  predicate ValidName(n: Option<string>) { n.Some? && n.value != "" }

  /**
   * The index-name check as written: for a MultiIndex it rejects a
   * missing or empty level name; for a plain index it compares the list
   * of names with None and "", which never holds, so nothing is rejected.
   */
  function CheckIndexNamesAsWritten(f: Frame): (r: Result<()>)
    ensures r.Ok? <==> (f.multi ==> forall n :: n in f.names ==> ValidName(n))
  {
    if f.multi && (None in f.names || Some("") in f.names) then Err(ValueError) else Ok(())
  }

  /** The index-name check as evidently intended: every level carries a non-empty name. */
  function CheckIndexNames(f: Frame): (r: Result<()>)
    ensures r.Ok? <==> forall n :: n in f.names ==> ValidName(n)
  {
    if None in f.names || Some("") in f.names then Err(ValueError) else Ok(())
  }

  /** On a MultiIndex both checks agree. */
  lemma IndexNameChecksAgreeOnMultiIndex(f: Frame)
    requires f.multi
    ensures CheckIndexNamesAsWritten(f) == CheckIndexNames(f)
  {
  }

  /** As written, a plain index without a name passes; the intended check rejects it. */
  lemma UnnamedPlainIndexAccepted()
    ensures CheckIndexNamesAsWritten(Frame(false, [None], [], [], [])) == Ok(())
    ensures CheckIndexNames(Frame(false, [None], [], [], [])) == Err(ValueError)
  {
    var names: seq<Option<string>> := [None];
    assert names[0] == None;
  }

  /**
   * `validate_df`: the five checks in order, each raising ValueError. The
   * last one is the index-name check as the program has it, so a plain
   * index without a name is accepted.
   */
  function ValidateDf(f: Frame): Result<()>
  {
    if !Seqs.NoDup(f.index) then Err(ValueError)
    else if !Seqs.NoDup(f.columns) then Err(ValueError)
    else if |Seqs.Filter(f.columns, (c: Key) => !c.Str?)| > 0 then Err(ValueError)
    else if |Seqs.Filter(f.index, (e: seq<Key>) => exists k :: k in e && !k.Str?)| > 0 then Err(ValueError)
    else CheckIndexNamesAsWritten(f)
  }

  /** A frame the validation accepts. */
  predicate ValidFrame(f: Frame) {
    && (forall i, j :: 0 <= i < |f.index| && 0 <= j < |f.index| && i != j ==> f.index[i] != f.index[j])
    && (forall i, j :: 0 <= i < |f.columns| && 0 <= j < |f.columns| && i != j ==> f.columns[i] != f.columns[j])
    && (forall c :: c in f.columns ==> c.Str?)
    && (forall e, k :: e in f.index && k in e ==> k.Str?)
    && (f.multi ==> forall n :: n in f.names ==> ValidName(n))
  }

  /**
   * Validation accepts exactly the frames with unique string labels whose
   * MultiIndex levels, if any, are all named; a plain index may be unnamed.
   */
  lemma ValidateDfSpec(f: Frame)
    ensures ValidateDf(f).Ok? <==> ValidFrame(f)
    ensures ValidateDf(f).Err? ==> ValidateDf(f).error == ValueError
  {
    NoDupBothWays(f.index);
    NoDupBothWays(f.columns);
    if |Seqs.Filter(f.index, (e: seq<Key>) => exists k :: k in e && !k.Str?)| > 0 {
      var e := Seqs.Filter(f.index, (e: seq<Key>) => exists k :: k in e && !k.Str?)[0];
      assert e in Seqs.Filter(f.index, (e: seq<Key>) => exists k :: k in e && !k.Str?);
    }
    if |Seqs.Filter(f.columns, (c: Key) => !c.Str?)| > 0 {
      assert Seqs.Filter(f.columns, (c: Key) => !c.Str?)[0] in Seqs.Filter(f.columns, (c: Key) => !c.Str?);
    }
  }

  lemma NoDupBothWays<T>(s: seq<T>)
    ensures Seqs.NoDup(s) <==> forall i, j :: 0 <= i < |s| && 0 <= j < |s| && i != j ==> s[i] != s[j]
  {
    if Seqs.NoDup(s) {
      forall i, j | 0 <= i < |s| && 0 <= j < |s| && i != j ensures s[i] != s[j] {
        if i < j { assert s[i] != s[j]; } else { assert s[j] != s[i]; }
      }
    }
  }

  // ---------------------------------------------------------------
  // Aggregation rows over groups of index labels.
  // ---------------------------------------------------------------

  datatype Operation = Mean | Std | ConcatValues

  function OperationName(o: Operation): string
  {
    match o
    case Mean => "mean"
    case Std => "std"
    case ConcatValues => "concat"
  }

  /** The operation must be mean, std or concat; anything else raises ValueError. */
  function ValidateOperation(op: string): (r: Result<Operation>)
    ensures r.Ok? ==> OperationName(r.value) == op
    ensures r.Err? ==> r.error == ValueError && forall o :: OperationName(o) != op
  {
    if op == "mean" then Ok(Mean)
    else if op == "std" then Ok(Std)
    else if op == "concat" then Ok(ConcatValues)
    else Err(ValueError)
  }

  /** Every operation is accepted under its own name. */
  lemma OperationRoundTrip(o: Operation)
    ensures ValidateOperation(OperationName(o)) == Ok(o)
  {
  }

  /** The labels of all groups not in the index (`union(...).difference(df.index)`, emptiness is what matters). */
  function MissingLabels(groups: seq<seq<string>>, f: Frame): seq<string>
  {
    Seqs.Filter(Seqs.Distinct(Seqs.Flatten(groups)), (l: string) => Lbl(l) !in f.index)
  }

  /** The group list is non-empty, each group has two labels or more, and every label is in the index. */
  function ValidateGroups(groups: seq<seq<string>>, f: Frame): Result<()>
  {
    if |groups| == 0 then Err(ValueError)
    else if |Seqs.Filter(groups, (g: seq<string>) => |g| < 2)| > 0 then Err(ValueError)
    else if |MissingLabels(groups, f)| > 0 then Err(ValueError)
    else Ok(())
  }

  predicate GroupsValid(groups: seq<seq<string>>, f: Frame) {
    && |groups| > 0
    && (forall g :: g in groups ==> |g| >= 2)
    && (forall g, l :: g in groups && l in g ==> Lbl(l) in f.index)
  }

  lemma ValidateGroupsSpec(groups: seq<seq<string>>, f: Frame)
    ensures ValidateGroups(groups, f).Ok? <==> GroupsValid(groups, f)
  {
    var short := Seqs.Filter(groups, (g: seq<string>) => |g| < 2);
    if |short| > 0 { assert short[0] in short; }
    var missing := MissingLabels(groups, f);
    if |missing| > 0 {
      assert missing[0] in missing;
      Seqs.FlattenMember(groups, missing[0]);
    }
    if |missing| == 0 {
      forall g, l | g in groups && l in g ensures Lbl(l) in f.index {
        var i :| 0 <= i < |groups| && groups[i] == g;
        Seqs.FlattenMember(groups, l);
        assert l !in missing;
      }
    }
  }

  /** Group names: one per group, no name twice and, when adding in place, none already an index label. */
  function ValidateGroupNames(f: Frame, names: seq<string>, groups: seq<seq<string>>, addInPlace: bool): Result<()>
  {
    if |names| != |groups| then Err(ValueError)
    else if |Seqs.Filter(names, (n: string) => Seqs.Count(names, n) > 1)| > 0 then Err(ValueError)
    else if addInPlace && |Seqs.Filter(names, (n: string) => Lbl(n) in f.index)| > 0 then Err(ValueError)
    else Ok(())
  }

  predicate GroupNamesValid(f: Frame, names: seq<string>, groups: seq<seq<string>>, addInPlace: bool) {
    && |names| == |groups|
    && Seqs.NoDup(names)
    && (addInPlace ==> forall n :: n in names ==> Lbl(n) !in f.index)
  }

  lemma ValidateGroupNamesSpec(f: Frame, names: seq<string>, groups: seq<seq<string>>, addInPlace: bool)
    ensures ValidateGroupNames(f, names, groups, addInPlace).Ok? <==> GroupNamesValid(f, names, groups, addInPlace)
  {
    Seqs.NoDupCount(names);
    var dup := Seqs.Filter(names, (n: string) => Seqs.Count(names, n) > 1);
    if |dup| > 0 { assert dup[0] in dup; }
    if |dup| == 0 {
      forall n | n in names ensures Seqs.Count(names, n) == 1 {
        Seqs.CountPositive(names, n);
        assert n !in dup;
      }
    }
    var present := Seqs.Filter(names, (n: string) => Lbl(n) in f.index);
    if |present| > 0 { assert present[0] in present; }
  }

  /** The default name of a group: the prefix, then its labels joined by ", ". */
  function GroupName(prefix: string, g: seq<string>): string
  {
    prefix + " | " + Join(g, ", ")
  }

  function GroupNames(groups: seq<seq<string>>, prefix: string): (names: seq<string>)
    ensures |names| == |groups|
    ensures forall i :: 0 <= i < |groups| ==> names[i] == GroupName(prefix, groups[i])
  {
    Seqs.Map(groups, (g: seq<string>) => GroupName(prefix, g))
  }

  /** Default names tell different groups apart as long as no label contains a comma. */
  lemma GroupNamesDistinct(groups: seq<seq<string>>, prefix: string)
    requires Seqs.NoDup(groups)
    requires forall g :: g in groups ==> |g| >= 1
    requires forall g, l :: g in groups && l in g ==> ',' !in l
    ensures Seqs.NoDup(GroupNames(groups, prefix))
  {
    var names := GroupNames(groups, prefix);
    forall i, j | 0 <= i < j < |groups| ensures names[i] != names[j] {
      if names[i] == names[j] {
        var k := |prefix + " | "|;
        assert Join(groups[i], ", ") == names[i][k..];
        assert Join(groups[j], ", ") == names[j][k..];
        assert groups[i] in groups && groups[j] in groups;
        JoinInjective(groups[i], groups[j], ", ");
        assert false;
      }
    }
  }

  /** `str(value)` as `astype("str")` writes it. */
  function CellString(x: Cell): string
  {
    match x
    case Text(s) => s
    case Num(n) => IntToString(n)
    case NaN => "nan"
  }

  /** The concat aggregation of one column: its distinct string values, in first-occurrence order, joined by " | ". */
  function ConcatColumn(values: seq<Cell>): Cell
  {
    Text(Join(DistinctStrings(values), " | "))
  }

  function DistinctStrings(values: seq<Cell>): (r: seq<string>)
    ensures Seqs.NoDup(r)
    ensures forall s :: s in r <==> exists x :: x in values && CellString(x) == s
  {
    var strs := Seqs.Map(values, CellString);
    assert forall x :: x in values ==> CellString(x) in strs by {
      forall x | x in values ensures CellString(x) in strs {
        var i :| 0 <= i < |values| && values[i] == x;
        assert strs[i] == CellString(x);
      }
    }
    Seqs.Distinct(strs)
  }

  /** A group whose values in a column all print alike aggregates to that one string. */
  lemma ConcatColumnUniform(values: seq<Cell>, s: string)
    requires |values| >= 1
    requires forall x :: x in values ==> CellString(x) == s
    ensures ConcatColumn(values) == Text(s)
  {
    var r := DistinctStrings(values);
    assert values[0] in values;
    assert s in r;
    Seqs.NoDupSubLength(r, [s]);
    assert r[0] == s;
  }

  /** Two groups whose values print alike, in any order or multiplicity, give the same set of parts. */
  lemma ConcatColumnParts(values: seq<Cell>, s: string)
    ensures s in DistinctStrings(values) <==> exists x :: x in values && CellString(x) == s
  {
  }

  /** `df.loc[group]`'s values in column `c`, in the group's order. */
  function GroupColumn(f: Frame, g: seq<string>, c: nat): (vs: seq<Cell>)
    requires WellFormed(f) && c < |f.columns|
    requires forall l :: l in g ==> Lbl(l) in f.index
    ensures |vs| == |g|
  {
    seq(|g|, (i: int) requires 0 <= i < |g| =>
      assert g[i] in g;
      f.cells[Seqs.IndexOf(f.index, Lbl(g[i]))][c])
  }

  /**
   * One aggregation row: per column the concat aggregation or, for mean
   * and std, the statistic `stat` computes (floating point is left out).
   */
  function AggregateRow(f: Frame, g: seq<string>, o: Operation, stat: (Operation, seq<Cell>) -> Cell): (row: seq<Cell>)
    requires WellFormed(f)
    requires forall l :: l in g ==> Lbl(l) in f.index
    ensures |row| == |f.columns|
  {
    seq(|f.columns|, (c: int) requires 0 <= c < |f.columns| =>
      if o == ConcatValues then ConcatColumn(GroupColumn(f, g, c)) else stat(o, GroupColumn(f, g, c)))
  }

  /** `_handle_nan`: with skipna the frame as is, otherwise NaN replaced by the fill value (fillna(None) raises). */
  function HandleNan(f: Frame, skip: bool, fill: Option<Cell>): (r: Result<Frame>)
    requires WellFormed(f)
    ensures r.Err? <==> !skip && fill.None?
    ensures r.Ok? ==> WellFormed(r.value)
    ensures r.Ok? ==> r.value.index == f.index && r.value.columns == f.columns
    ensures r.Ok? ==> r.value.names == f.names && r.value.multi == f.multi
    ensures r.Ok? && !skip ==> forall i, c :: 0 <= i < |f.cells| && 0 <= c < |f.columns| ==>
      r.value.cells[i][c] == (if f.cells[i][c].NaN? then fill.value else f.cells[i][c])
  {
    if skip then Ok(f)
    else if fill.None? then Err(ValueError)
    else
      var v := fill.value;
      Ok(f.(cells := seq(|f.cells|, (i: int) requires 0 <= i < |f.cells| =>
        seq(|f.cells[i]|, (c: int) requires 0 <= c < |f.cells[i]| =>
          if f.cells[i][c].NaN? then v else f.cells[i][c]))))
  }

  /** The aggregation table: one row per group, keyed by its name, under the same columns and index name. */
  function AggregationFrame(f: Frame, names: seq<string>, groups: seq<seq<string>>, o: Operation,
                            stat: (Operation, seq<Cell>) -> Cell): (agg: Frame)
    requires WellFormed(f)
    requires forall g, l :: g in groups && l in g ==> Lbl(l) in f.index
  {
    var rows := seq(|groups|, (i: int) requires 0 <= i < |groups| =>
      assert groups[i] in groups;
      AggregateRow(f, groups[i], o, stat));
    var d := Dicts.FromEntries(Dicts.Zip(names, rows));
    Frame(false, [IndexName(f)], Seqs.Map(Dicts.Keys(d), Lbl), f.columns, Dicts.Values(d))
  }

  /** `gen_aggregations_df` with validation. */
  function GenAggregations(f: Frame, groups: seq<seq<string>>, op: string, names: Option<seq<string>>,
                           prefix: Option<string>, skipna: bool, fill: Option<Cell>,
                           stat: (Operation, seq<Cell>) -> Cell): Result<Frame>
    requires WellFormed(f)
  {
    match ValidateOperation(op)
    case Err(e) => Err(e)
    case Ok(o) =>
      if ValidateGroups(groups, f).Err? then Err(ValueError)
      else if names.Some? && ValidateGroupNames(f, names.value, groups, false).Err? then Err(ValueError)
      else
        match HandleNan(f, skipna, fill)
        case Err(e) => Err(e)
        case Ok(f') =>
          ValidateGroupsSpec(groups, f);
          var ns := if names.Some? then names.value else GroupNames(groups, if prefix.Some? then prefix.value else op);
          Ok(AggregationFrame(f', ns, groups, o, stat))
  }

  /** The effective group names: the given ones, else the defaults under the prefix (the operation name by default). */
  function EffectiveNames(groups: seq<seq<string>>, op: string, names: Option<seq<string>>, prefix: Option<string>): seq<string>
  {
    if names.Some? then names.value else GroupNames(groups, if prefix.Some? then prefix.value else op)
  }

  /** With distinct names, the aggregation table has one row per group, in group order, keyed by the group's name. */
  lemma AggregationFrameSpec(f: Frame, names: seq<string>, groups: seq<seq<string>>, o: Operation,
                             stat: (Operation, seq<Cell>) -> Cell)
    requires WellFormed(f)
    requires forall g, l :: g in groups && l in g ==> Lbl(l) in f.index
    requires |names| == |groups| && Seqs.NoDup(names)
    ensures var agg := AggregationFrame(f, names, groups, o, stat);
      && WellFormed(agg) && !agg.multi && agg.columns == f.columns
      && |agg.index| == |groups|
      && (forall i :: 0 <= i < |groups| ==> agg.index[i] == Lbl(names[i]))
      && (forall i :: 0 <= i < |groups| ==> groups[i] in groups && agg.cells[i] == AggregateRow(f, groups[i], o, stat))
  {
    var rows := seq(|groups|, (i: int) requires 0 <= i < |groups| =>
      assert groups[i] in groups;
      AggregateRow(f, groups[i], o, stat));
    var es := Dicts.Zip(names, rows);
    assert Dicts.Keys(es) == names;
    Dicts.FromEntriesFresh(es);
  }

  /** `pd.concat([a, b])` of two frames with the same columns in the same order. */
  function AppendRows(a: Frame, b: Frame): Frame
  {
    Frame(a.multi && b.multi, if a.names == b.names then a.names else seq(|a.names|, _ => None),
          a.index + b.index, a.columns, a.cells + b.cells)
  }

  /** The table after `add_aggregations_in_place`, or the error it raises. */
  function AddAggregations(f: Frame, groups: seq<seq<string>>, op: string, names: Option<seq<string>>,
                           prefix: Option<string>, skipna: bool, fill: Option<Cell>,
                           stat: (Operation, seq<Cell>) -> Cell): Result<Frame>
    requires WellFormed(f)
  {
    if ValidateOperation(op).Err? then Err(ValueError)
    else if ValidateGroups(groups, f).Err? then Err(ValueError)
    else if names.Some? && ValidateGroupNames(f, names.value, groups, true).Err? then Err(ValueError)
    else
      match GenAggregations(f, groups, op, names, prefix, skipna, fill, stat)
      case Err(e) => Err(e)
      case Ok(agg) => Ok(AppendRows(f, agg))
  }

  /** A successful aggregation is the aggregation table of the NaN-handled frame under the effective names. */
  lemma GenAggregationsValue(f: Frame, groups: seq<seq<string>>, op: string, names: Option<seq<string>>,
                             prefix: Option<string>, skipna: bool, fill: Option<Cell>,
                             stat: (Operation, seq<Cell>) -> Cell)
    requires WellFormed(f)
    requires GenAggregations(f, groups, op, names, prefix, skipna, fill, stat).Ok?
    ensures GroupsValid(groups, f) && ValidateOperation(op).Ok? && HandleNan(f, skipna, fill).Ok?
    ensures GenAggregations(f, groups, op, names, prefix, skipna, fill, stat).value ==
      AggregationFrame(HandleNan(f, skipna, fill).value, EffectiveNames(groups, op, names, prefix), groups,
                       ValidateOperation(op).value, stat)
  {
    ValidateGroupsSpec(groups, f);
  }

  /**
   * Adding aggregations keeps every existing row as it was and appends
   * one row per group after them, labelled by the group's effective name.
   */
  lemma AddAggregationsSpec(f: Frame, groups: seq<seq<string>>, op: string, names: Option<seq<string>>,
                            prefix: Option<string>, skipna: bool, fill: Option<Cell>,
                            stat: (Operation, seq<Cell>) -> Cell)
    requires WellFormed(f) && !f.multi
    requires AddAggregations(f, groups, op, names, prefix, skipna, fill, stat).Ok?
    requires Seqs.NoDup(EffectiveNames(groups, op, names, prefix))
    ensures var r := AddAggregations(f, groups, op, names, prefix, skipna, fill, stat).value;
      var ns := EffectiveNames(groups, op, names, prefix);
      && WellFormed(r) && !r.multi
      && r.columns == f.columns && r.names == f.names
      && |r.index| == |f.index| + |groups|
      && r.index[..|f.index|] == f.index && r.cells[..|f.index|] == f.cells
      && (forall i :: 0 <= i < |groups| ==> r.index[|f.index| + i] == Lbl(ns[i]))
  {
    GenAggregationsValue(f, groups, op, names, prefix, skipna, fill, stat);
    var agg := GenAggregations(f, groups, op, names, prefix, skipna, fill, stat).value;
    var r := AddAggregations(f, groups, op, names, prefix, skipna, fill, stat).value;
    assert r == AppendRows(f, agg);
    var f' := HandleNan(f, skipna, fill).value;
    var ns := EffectiveNames(groups, op, names, prefix);
    AggregationFrameSpec(f', ns, groups, ValidateOperation(op).value, stat);
    assert agg.names == f.names;
    AppendLabelledRows(f, agg, ns);
  }

  /** Appending rows labelled `ns` keeps the rows already there and puts the labels after them. */
  lemma AppendLabelledRows(f: Frame, agg: Frame, ns: seq<string>)
    requires WellFormed(f) && WellFormed(agg) && !f.multi
    requires agg.columns == f.columns && agg.names == f.names
    requires |agg.index| == |ns| && forall i :: 0 <= i < |ns| ==> agg.index[i] == Lbl(ns[i])
    ensures var r := AppendRows(f, agg);
      && WellFormed(r) && !r.multi
      && r.columns == f.columns && r.names == f.names
      && |r.index| == |f.index| + |ns|
      && r.index[..|f.index|] == f.index && r.cells[..|f.index|] == f.cells
      && (forall i :: 0 <= i < |ns| ==> r.index[|f.index| + i] == Lbl(ns[i]))
  {
    AppendRowsWellFormed(f, agg);
  }

  lemma AppendRowsWellFormed(a: Frame, b: Frame)
    requires WellFormed(a) && WellFormed(b)
    requires a.columns == b.columns && a.names == b.names
    ensures WellFormed(AppendRows(a, b))
    ensures AppendRows(a, b).index[..|a.index|] == a.index && AppendRows(a, b).cells[..|a.cells|] == a.cells
  {
    var r := AppendRows(a, b);
    forall i | 0 <= i < |r.index| ensures |r.index[i]| == |r.names| {
      if i >= |a.index| { assert r.index[i] == b.index[i - |a.index|]; }
    }
    forall i | 0 <= i < |r.cells| ensures |r.cells[i]| == |r.columns| {
      if i >= |a.cells| { assert r.cells[i] == b.cells[i - |a.cells|]; }
    }
    assert r.index[..|a.index|] == a.index;
    assert r.cells[..|a.cells|] == a.cells;
  }

  /** With given names (which are checked), adding aggregations to a valid table leaves it valid. */
  lemma AddAggregationsKeepsValid(f: Frame, groups: seq<seq<string>>, op: string, names: seq<string>,
                                  prefix: Option<string>, skipna: bool, fill: Option<Cell>,
                                  stat: (Operation, seq<Cell>) -> Cell)
    requires WellFormed(f) && !f.multi && ValidFrame(f)
    requires AddAggregations(f, groups, op, Some(names), prefix, skipna, fill, stat).Ok?
    ensures ValidFrame(AddAggregations(f, groups, op, Some(names), prefix, skipna, fill, stat).value)
  {
    ValidateGroupNamesSpec(f, names, groups, true);
    AddAggregationsSpec(f, groups, op, Some(names), prefix, skipna, fill, stat);
    var r := AddAggregations(f, groups, op, Some(names), prefix, skipna, fill, stat).value;
    assert r.index == f.index + Seqs.Map(names, Lbl) by {
      assert r.index == r.index[..|f.index|] + r.index[|f.index|..];
    }
    NoDupBothWays(f.index);
    ExtendedIndexValid(f.index, names);
    NoDupBothWays(r.index);
  }

  /** Distinct fresh string labels appended to a duplicate-free string index keep it so. */
  lemma ExtendedIndexValid(index: seq<seq<Key>>, names: seq<string>)
    requires Seqs.NoDup(index) && Seqs.NoDup(names)
    requires forall n :: n in names ==> Lbl(n) !in index
    requires forall e, k :: e in index && k in e ==> k.Str?
    ensures Seqs.NoDup(index + Seqs.Map(names, Lbl))
    ensures forall e, k :: e in index + Seqs.Map(names, Lbl) && k in e ==> k.Str?
  {
    NewLabelsDistinct(index, names);
    var added := Seqs.Map(names, Lbl);
    forall e, k | e in index + added && k in e ensures k.Str? {
      if e !in index {
        var i :| 0 <= i < |names| && added[i] == e;
      }
    }
  }

  /** Labels of distinct names that are not yet in the index extend it without repetition. */
  lemma NewLabelsDistinct(index: seq<seq<Key>>, names: seq<string>)
    requires Seqs.NoDup(index) && Seqs.NoDup(names)
    requires forall n :: n in names ==> Lbl(n) !in index
    ensures Seqs.NoDup(index + Seqs.Map(names, Lbl))
  {
    var added := Seqs.Map(names, Lbl);
    var all := index + added;
    forall i, j | 0 <= i < j < |all| ensures all[i] != all[j] {
      if j >= |index| {
        assert all[j] == Lbl(names[j - |index|]);
        assert names[j - |index|] in names;
        if i >= |index| {
          assert all[i] == Lbl(names[i - |index|]);
          assert names[i - |index|] != names[j - |index|];
        } else {
          assert all[i] in index;
        }
      }
    }
  }

  /** Calling it twice with the same groups and default names repeats the generated labels. */
  lemma DefaultNamesRepeat(f: Frame, groups: seq<seq<string>>, op: string, stat: (Operation, seq<Cell>) -> Cell)
    requires WellFormed(f) && !f.multi
    requires AddAggregations(f, groups, op, None, None, true, None, stat).Ok?
    requires Seqs.NoDup(GroupNames(groups, op))
    ensures var once := AddAggregations(f, groups, op, None, None, true, None, stat).value;
      && WellFormed(once)
      && AddAggregations(once, groups, op, None, None, true, None, stat).Ok?
      && !Seqs.NoDup(AddAggregations(once, groups, op, None, None, true, None, stat).value.index)
  {
    var once := AddAggregations(f, groups, op, None, None, true, None, stat).value;
    AddAggregationsSpec(f, groups, op, None, None, true, None, stat);
    GenAggregationsValue(f, groups, op, None, None, true, None, stat);
    GroupsStayValid(f, once, groups);
    AddAggregationsDefaultOk(once, groups, op, stat);
    AddAggregationsSpec(once, groups, op, None, None, true, None, stat);
    var twice := AddAggregations(once, groups, op, None, None, true, None, stat).value;
    var ns := GroupNames(groups, op);
    assert once.index[|f.index|] == Lbl(ns[0]);
    assert twice.index[|f.index|] == Lbl(ns[0]);
    assert twice.index[|once.index|] == Lbl(ns[0]);
  }

  /** Groups whose labels are in an index stay valid once rows are appended to it. */
  lemma GroupsStayValid(f: Frame, g: Frame, groups: seq<seq<string>>)
    requires GroupsValid(groups, f)
    requires |f.index| <= |g.index| && g.index[..|f.index|] == f.index
    ensures GroupsValid(groups, g)
  {
    forall gr, l | gr in groups && l in gr ensures Lbl(l) in g.index {
      var i :| 0 <= i < |f.index| && f.index[i] == Lbl(l);
      assert g.index[i] == Lbl(l);
    }
  }

  /** With default names, skipna and valid groups, only an unknown operation makes adding aggregations raise. */
  lemma AddAggregationsDefaultOk(f: Frame, groups: seq<seq<string>>, op: string, stat: (Operation, seq<Cell>) -> Cell)
    requires WellFormed(f) && GroupsValid(groups, f) && ValidateOperation(op).Ok?
    ensures AddAggregations(f, groups, op, None, None, true, None, stat).Ok?
  {
    ValidateGroupsSpec(groups, f);
  }

  /** The wrapper class: the table it holds is replaced by the in-place operations. */
  class DfWrapper {
    var frame: Frame

    /** Construction validates the table unless told not to. */
    constructor (f: Frame, validate: bool)
      requires WellFormed(f)
      requires validate ==> ValidateDf(f).Ok?
      ensures frame == f
    {
      frame := f;
    }

    /** `add_aggregations_in_place`: validate, then append the aggregation rows to the held table. */
    method AddAggregationsInPlace(groups: seq<seq<string>>, op: string, names: Option<seq<string>>,
                                  prefix: Option<string>, skipna: bool, fill: Option<Cell>,
                                  stat: (Operation, seq<Cell>) -> Cell) returns (r: Result<()>)
      requires WellFormed(frame)
      modifies this
      ensures var expected := AddAggregations(old(frame), groups, op, names, prefix, skipna, fill, stat);
        && (r.Ok? <==> expected.Ok?)
        && (expected.Err? ==> r.error == expected.error && frame == old(frame))
        && (expected.Ok? ==> frame == expected.value)
    {
      if ValidateOperation(op).Err? {
        return Err(ValueError);
      }
      if ValidateGroups(groups, frame).Err? {
        return Err(ValueError);
      }
      if names.Some? && ValidateGroupNames(frame, names.value, groups, true).Err? {
        return Err(ValueError);
      }
      var agg := GenAggregations(frame, groups, op, names, prefix, skipna, fill, stat);
      if agg.Err? {
        return Err(agg.error);
      }
      frame := AppendRows(frame, agg.value);
      return Ok(());
    }
  }

  // ---------------------------------------------------------------
  // Concatenating two wrappers.
  // ---------------------------------------------------------------

  /** The position of a column label. */
  function ColumnPos(f: Frame, c: Key): (i: nat)
    requires c in f.columns
    ensures i < |f.columns| && f.columns[i] == c
  {
    Seqs.IndexOf(f.columns, c)
  }

  /** `b`'s rows with their values rearranged under `columns` (pandas aligns on labels). */
  function Realign(b: Frame, columns: seq<Key>): (cells: seq<seq<Cell>>)
    requires WellFormed(b)
    requires forall c :: c in columns ==> c in b.columns
    ensures |cells| == |b.cells|
    ensures forall i :: 0 <= i < |cells| ==> |cells[i]| == |columns|
  {
    seq(|b.cells|, (i: int) requires 0 <= i < |b.cells| =>
      seq(|columns|, (c: int) requires 0 <= c < |columns| =>
        assert columns[c] in columns;
        b.cells[i][ColumnPos(b, columns[c])]))
  }

  /** `concat` with validation: same column set, same index depth, no shared label; the result is validated again. */
  function ConcatFrames(a: Frame, b: Frame): Result<Frame>
    requires WellFormed(a) && WellFormed(b)
  {
    if |Seqs.Filter(a.columns, (c: Key) => c !in b.columns)| > 0
       || |Seqs.Filter(b.columns, (c: Key) => c !in a.columns)| > 0 then Err(ValueError)
    else if |a.names| != |b.names| then Err(ValueError)
    else if |Seqs.Filter(a.index, (e: seq<Key>) => e in b.index)| > 0 then Err(ValueError)
    else
      assert forall c :: c in a.columns ==> c in b.columns by {
        forall c | c in a.columns ensures c in b.columns {
          assert c !in Seqs.Filter(a.columns, (c: Key) => c !in b.columns);
        }
      }
      var merged := Frame(a.multi && b.multi, if a.names == b.names then a.names else seq(|a.names|, _ => None),
                          a.index + b.index, a.columns, a.cells + Realign(b, a.columns));
      match ValidateDf(merged)
      case Err(e) => Err(e)
      case Ok(_) => Ok(merged)
  }

  /**
   * Two valid wrappers with the same columns, the same named index levels
   * and no shared label concatenate: `a`'s rows, then `b`'s, each value
   * under its own column label; differing columns, depths or a shared
   * label raise ValueError.
   */
  lemma ConcatFramesSpec(a: Frame, b: Frame)
    requires WellFormed(a) && WellFormed(b)
    ensures ConcatFrames(a, b).Ok? ==>
      (forall c :: c in a.columns <==> c in b.columns) && |a.names| == |b.names| &&
      (forall e :: e in a.index ==> e !in b.index)
    ensures (ValidFrame(a) && ValidFrame(b) && a.names == b.names && a.multi == b.multi &&
      (forall c :: c in a.columns <==> c in b.columns) && (forall e :: e in a.index ==> e !in b.index)) ==>
      var r := ConcatFrames(a, b);
      && r.Ok? && r.value.index == a.index + b.index && r.value.columns == a.columns
      && r.value.cells[..|a.cells|] == a.cells
      && (forall i, c :: 0 <= i < |b.cells| && 0 <= c < |a.columns| ==>
            r.value.cells[|a.cells| + i][c] == b.cells[i][ColumnPos(b, a.columns[c])])
  {
    var fa := Seqs.Filter(a.columns, (c: Key) => c !in b.columns);
    var fb := Seqs.Filter(b.columns, (c: Key) => c !in a.columns);
    var shared := Seqs.Filter(a.index, (e: seq<Key>) => e in b.index);
    if |fa| > 0 { assert fa[0] in fa; }
    if |fb| > 0 { assert fb[0] in fb; }
    if |shared| > 0 { assert shared[0] in shared; }
    if ValidFrame(a) && ValidFrame(b) && a.names == b.names && a.multi == b.multi &&
      (forall c :: c in a.columns <==> c in b.columns) && (forall e :: e in a.index ==> e !in b.index) {
      var merged := Frame(a.multi && b.multi, a.names, a.index + b.index, a.columns, a.cells + Realign(b, a.columns));
      DisjointIndexesValid(a, b, merged);
      ValidateDfSpec(merged);
    }
  }

  /** Two valid wrappers with disjoint labels and the same columns stack into a valid wrapper. */
  lemma DisjointIndexesValid(a: Frame, b: Frame, merged: Frame)
    requires ValidFrame(a) && ValidFrame(b) && (forall e :: e in a.index ==> e !in b.index)
    requires merged.index == a.index + b.index && merged.columns == a.columns && merged.names == a.names
    requires merged.multi == a.multi
    ensures ValidFrame(merged)
  {
    forall i, j | 0 <= i < |merged.index| && 0 <= j < |merged.index| && i != j
      ensures merged.index[i] != merged.index[j]
    {
      var n := |a.index|;
      if i < n && j >= n {
        assert merged.index[i] in a.index && merged.index[j] == b.index[j - n];
      } else if i >= n && j < n {
        assert merged.index[j] in a.index && merged.index[i] == b.index[i - n];
      } else if i >= n {
        assert merged.index[i] == b.index[i - n] && merged.index[j] == b.index[j - n];
      }
    }
  }

  // ---------------------------------------------------------------
  // Grouped (multi-indexed) wrappers: subsets by index member.
  // ---------------------------------------------------------------

  /** A grouped wrapper's table must carry a MultiIndex. */
  function ValidateMultiIndex(f: Frame): (r: Result<()>)
    ensures r.Ok? <==> f.multi
  {
    if f.multi then Ok(()) else Err(ValueError)
  }

  /** Every requested member must occur at some level of some index entry. */
  function CheckIndexMembersExist(f: Frame, members: seq<Key>): Result<()>
  {
    if |Seqs.Filter(members, (m: Key) => m !in Seqs.Flatten(f.index))| > 0 then Err(ValueError) else Ok(())
  }

  /** The index entries all of whose level values are among the members, in index order. */
  function IndexFromMembers(f: Frame, members: seq<Key>): seq<seq<Key>>
  {
    Seqs.Filter(f.index, (e: seq<Key>) => forall k :: k in e ==> k in members)
  }

  /** `get_subset_df`: rows in the order of the requested labels, values in the order of the requested columns. */
  function GetSubsetDf(f: Frame, index: Option<seq<seq<Key>>>, columns: Option<seq<Key>>): Result<Frame>
    requires WellFormed(f)
  {
    var idx := if index.Some? then index.value else f.index;
    var cols := if columns.Some? then columns.value else f.columns;
    if |Seqs.Filter(idx, (e: seq<Key>) => e !in f.index)| > 0 then Err(ValueError)
    else if |Seqs.Filter(cols, (c: Key) => c !in f.columns)| > 0 then Err(ValueError)
    else
      assert forall e :: e in idx ==> e in f.index by {
        forall e | e in idx ensures e in f.index { assert e !in Seqs.Filter(idx, (e: seq<Key>) => e !in f.index); }
      }
      assert forall c :: c in cols ==> c in f.columns by {
        forall c | c in cols ensures c in f.columns { assert c !in Seqs.Filter(cols, (c: Key) => c !in f.columns); }
      }
      Ok(Frame(f.multi, f.names, idx, cols,
        seq(|idx|, (i: int) requires 0 <= i < |idx| =>
          assert idx[i] in idx;
          seq(|cols|, (c: int) requires 0 <= c < |cols| =>
            assert cols[c] in cols;
            f.cells[Seqs.IndexOf(f.index, idx[i])][ColumnPos(f, cols[c])]))))
  }

  /** `get_index_member_subset_df`: the rows whose every level value is a requested member. */
  function IndexMemberSubset(f: Frame, members: Option<seq<Key>>, columns: Option<seq<Key>>, validate: bool): Result<Frame>
    requires WellFormed(f)
  {
    if validate && members.Some? && CheckIndexMembersExist(f, members.value).Err? then Err(ValueError)
    else GetSubsetDf(f, if members.Some? then Some(IndexFromMembers(f, members.value)) else None, columns)
  }

  /** The member check raises iff some member occurs at no level of any index entry. */
  lemma CheckIndexMembersExistSpec(f: Frame, members: seq<Key>)
    ensures CheckIndexMembersExist(f, members).Ok? <==>
      forall m :: m in members ==> exists e :: e in f.index && m in e
  {
    var absent := Seqs.Filter(members, (m: Key) => m !in Seqs.Flatten(f.index));
    if |absent| > 0 {
      assert absent[0] in absent;
      Seqs.FlattenMember(f.index, absent[0]);
    } else {
      forall m | m in members ensures exists e :: e in f.index && m in e {
        assert m !in absent;
        Seqs.FlattenMember(f.index, m);
        var i :| 0 <= i < |f.index| && m in f.index[i];
        assert f.index[i] in f.index;
      }
    }
  }

  /** Selecting present labels with all columns yields those labels with their rows, in the requested order. */
  lemma GetSubsetDfRows(f: Frame, idx: seq<seq<Key>>)
    requires WellFormed(f) && Seqs.NoDup(f.columns)
    requires forall e :: e in idx ==> e in f.index
    ensures var r := GetSubsetDf(f, Some(idx), None);
      && r.Ok? && r.value.index == idx && r.value.columns == f.columns
      && |r.value.cells| == |idx|
      && (forall i :: 0 <= i < |idx| ==> r.value.cells[i] == f.cells[Seqs.IndexOf(f.index, idx[i])])
  {
    Seqs.FilterEmpty(idx, (e: seq<Key>) => e !in f.index);
    Seqs.FilterEmpty(f.columns, (c: Key) => c !in f.columns);
    forall i | 0 <= i < |idx| ensures GetSubsetDf(f, Some(idx), None).value.cells[i] == f.cells[Seqs.IndexOf(f.index, idx[i])] {
      SubsetRow(f, idx, i);
    }
  }

  /** Row `i` of a subset with all columns is the row of label `idx[i]`. */
  lemma SubsetRow(f: Frame, idx: seq<seq<Key>>, i: int)
    requires WellFormed(f) && Seqs.NoDup(f.columns)
    requires forall e :: e in idx ==> e in f.index
    requires GetSubsetDf(f, Some(idx), None).Ok? && 0 <= i < |idx|
    ensures i < |GetSubsetDf(f, Some(idx), None).value.cells|
    ensures GetSubsetDf(f, Some(idx), None).value.cells[i] == f.cells[Seqs.IndexOf(f.index, idx[i])]
  {
    var r := GetSubsetDf(f, Some(idx), None);
    var row := f.cells[Seqs.IndexOf(f.index, idx[i])];
    forall c | 0 <= c < |f.columns| ensures r.value.cells[i][c] == row[c] {
      ColumnPosOf(f, c);
    }
  }

  /** With distinct column labels, the position of column `c`'s label is `c`. */
  lemma ColumnPosOf(f: Frame, c: int)
    requires Seqs.NoDup(f.columns) && 0 <= c < |f.columns|
    ensures ColumnPos(f, f.columns[c]) == c
  {
  }

  /**
   * A member subset raises iff a member occurs nowhere in the index;
   * otherwise it keeps, in index order, exactly the entries made of
   * members, each with the row it had.
   */
  lemma IndexMemberSubsetSpec(f: Frame, members: seq<Key>)
    requires WellFormed(f) && Seqs.NoDup(f.columns)
    ensures IndexMemberSubset(f, Some(members), None, true).Ok? <==>
      forall m :: m in members ==> exists e :: e in f.index && m in e
    ensures var r := IndexMemberSubset(f, Some(members), None, true);
      r.Ok? ==>
        && r.value.index == IndexFromMembers(f, members)
        && (forall e :: e in r.value.index <==> e in f.index && forall k :: k in e ==> k in members)
        && (forall i :: 0 <= i < |r.value.index| ==>
              r.value.cells[i] == f.cells[Seqs.IndexOf(f.index, r.value.index[i])])
  {
    CheckIndexMembersExistSpec(f, members);
    if CheckIndexMembersExist(f, members).Ok? {
      GetSubsetDfRows(f, IndexFromMembers(f, members));
    }
  }
}
