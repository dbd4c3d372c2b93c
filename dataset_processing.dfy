/**
 * The dataset operations behind the grouping and pairwise-change actions.
 * A grouping appends one aggregated lipidome over the selected ones to the
 * abundance table (mean or std) and to the lipidome feature table (the
 * concat aggregation), then sanitises the colour column: a simple colour
 * (seven characters starting with '#') is kept and every other value,
 * such as the " | "-joined colours of a mixed group, becomes black.
 * Pairwise changes add every ordered pair of the selected lipidomes to one
 * change table, overwriting pairs already there.
 */
module DatasetProcessing {
  import opened Wrappers
  import Seqs
  import opened PyStrings
  import opened BaseDfWrapper
  import Features
  import Colors
  import AbundanceChanges
  import Dataset

  // ---------------------------------------------------------------
  // Colour sanitisation.
  // ---------------------------------------------------------------

  /** `_is_simple_hex_color`: seven characters, the first one '#'. */
  predicate IsSimpleHexColor(s: string) { |s| == 7 && s[0] == '#' }

  /** The colour that replaces every value that is not a simple colour. */
  const Black: string := "#000000"

  /** A cell holding a simple colour. */
  predicate IsSimpleColorCell(x: Cell) { x.Text? && IsSimpleHexColor(x.s) }

  /** The colour one string is sanitised to. */
  function SanitizeColor(s: string): string
  {
    if IsSimpleHexColor(s) then s else Black
  }

  /**
   * `_overwrite_concat_colors`: every simple colour kept and every other
   * string made black; a value that is not a string has no `len`, which
   * raises TypeError.
   */
  function OverwriteConcatColors(colors: seq<Cell>): (r: Result<seq<Cell>>)
    ensures r.Ok? ==> |r.value| == |colors|
  {
    if exists i :: 0 <= i < |colors| && !colors[i].Text? then Err(TypeError)
    else Ok(seq(|colors|, (i: int) requires 0 <= i < |colors| => Text(SanitizeColor(colors[i].s))))
  }

  /**
   * Sanitisation raises TypeError exactly when some value is not a
   * string; otherwise every value becomes a simple colour, a value is left
   * as it was exactly when it already was one, and every other value
   * becomes black.
   */
  lemma OverwriteConcatColorsSpec(colors: seq<Cell>)
    ensures var r := OverwriteConcatColors(colors);
      && (r.Err? <==> exists i :: 0 <= i < |colors| && !colors[i].Text?)
      && (r.Err? ==> r.error == TypeError)
      && (r.Ok? ==>
            && |r.value| == |colors|
            && (forall i :: 0 <= i < |colors| ==> IsSimpleColorCell(r.value[i]))
            && (forall i :: 0 <= i < |colors| ==> (r.value[i] == colors[i] <==> IsSimpleColorCell(colors[i])))
            && (forall i :: 0 <= i < |colors| && !IsSimpleColorCell(colors[i]) ==> r.value[i] == Text(Black)))
  {
  }

  /** Sanitising sanitised colours changes nothing. */
  lemma OverwriteConcatColorsIdempotent(colors: seq<Cell>)
    requires OverwriteConcatColors(colors).Ok?
    ensures OverwriteConcatColors(OverwriteConcatColors(colors).value) == OverwriteConcatColors(colors)
  {
    var r := OverwriteConcatColors(colors).value;
    OverwriteConcatColorsSpec(colors);
    OverwriteConcatColorsSpec(r);
    assert OverwriteConcatColors(r).value == r;
  }

  /** Every valid hex colour is simple, so sanitisation keeps it. */
  lemma ValidHexIsSimple(s: string)
    requires Colors.IsValidHex(s)
    ensures IsSimpleHexColor(s) && SanitizeColor(s) == s
  {
  }

  /** Simplicity looks only at the length and the '#': "#zzzzzz" is kept although it is no hex colour. */
  lemma SimpleNeedNotBeValid()
    ensures IsSimpleHexColor("#zzzzzz") && !Colors.IsValidHex("#zzzzzz")
  {
    var s := "#zzzzzz";
    assert !IsHexDigit(s[1]);
  }

  /** Every colour `rgb_to_hex` writes is simple. */
  lemma RgbToHexIsSimple(c: Colors.Rgb)
    requires Colors.InByteRange(c)
    ensures IsSimpleHexColor(Colors.RgbToHex(c))
  {
    Colors.RgbToHexSpec(c);
  }

  // ---------------------------------------------------------------
  // Grouping.
  // ---------------------------------------------------------------

  /**
   * `LipidomeAbundances.add_aggregations_by_lipidomes_in_place` with the
   * default "skip" NaN handling: only mean and std are accepted, and the
   * group names are checked among themselves but not against the table.
   */
  function AggregateAbundances(ab: Frame, groups: seq<seq<string>>, op: string, names: seq<string>,
                               stat: (Operation, seq<Cell>) -> Cell): Result<Frame>
    requires WellFormed(ab)
  {
    if op != "mean" && op != "std" then Err(ValueError)
    else
      match GenAggregations(ab, groups, op, Some(names), None, true, None, stat)
      case Err(e) => Err(e)
      case Ok(agg) => Ok(AppendRows(ab, agg))
  }

  /** The lipidome feature table after the concat aggregation of one named group. */
  function ConcatGrouped(lf: Frame, name: string, selected: seq<string>): Result<Frame>
    requires WellFormed(lf)
  {
    AddAggregations(lf, [selected], "concat", Some([name]), None, true, None, Features.NoStat)
  }

  /** `df[color]`: the colour column's values, or KeyError when there is no such column. */
  function ColorColumn(f: Frame, colorCol: string): Result<seq<Cell>>
    requires WellFormed(f)
  {
    if Str(colorCol) !in f.columns then Err(KeyError)
    else Ok(Features.ColumnValues(f, ColumnPos(f, Str(colorCol))))
  }

  /** The colour column sanitised and written back with overwrite and validation. */
  function RecolorTable(g: Frame, colorCol: string): Result<Frame>
    requires WellFormed(g)
  {
    match ColorColumn(g, colorCol)
    case Err(e) => Err(e)
    case Ok(vs) =>
      match OverwriteConcatColors(vs)
      case Err(e) => Err(e)
      case Ok(colors) => Features.WithFeature(g, colorCol, Features.Series(g.index, colors), true, true)
  }

  /** The two tables a grouping changes, and how it ended. */
  datatype GroupingState = GroupingState(abundances: Frame, features: Frame, outcome: Result<()>)

  /**
   * `add_grouping` on the dataset's tables: the abundance aggregation,
   * the feature aggregation, then the colour column; a step that raises
   * leaves the tables as the earlier steps made them.
   */
  function Grouping(ab: Frame, lf: Frame, op: string, name: string, selected: seq<string>, colorCol: string,
                    stat: (Operation, seq<Cell>) -> Cell): GroupingState
    requires WellFormed(ab) && WellFormed(lf) && !lf.multi
  {
    match AggregateAbundances(ab, [selected], op, [name], stat)
    case Err(e) => GroupingState(ab, lf, Err(e))
    case Ok(ab') =>
      match ConcatGrouped(lf, name, selected)
      case Err(e) => GroupingState(ab', lf, Err(e))
      case Ok(g) =>
        AddAggregationsSpec(lf, [selected], "concat", Some([name]), None, true, None, Features.NoStat);
        match RecolorTable(g, colorCol)
        case Err(e) => GroupingState(ab', g, Err(e))
        case Ok(h) => GroupingState(ab', h, Ok(()))
  }

  /** `add_grouping`, acting on the abundance wrapper and the lipidome feature wrapper of the dataset. */
  method AddGrouping(op: string, name: string, selected: seq<string>, colorCol: string,
                     abundances: DfWrapper, features: Features.LipidomeFeatures,
                     stat: (Operation, seq<Cell>) -> Cell) returns (r: Result<()>)
    requires WellFormed(abundances.frame) && WellFormed(features.frame) && !features.frame.multi
    modifies abundances, features
    ensures var s := Grouping(old(abundances.frame), old(features.frame), op, name, selected, colorCol, stat);
      abundances.frame == s.abundances && features.frame == s.features && r == s.outcome
  {
    ghost var lf := features.frame;
    ghost var st := Grouping(abundances.frame, lf, op, name, selected, colorCol, stat);
    var ab := AggregateAbundances(abundances.frame, [selected], op, [name], stat);
    if ab.Err? {
      return Err(ab.error);
    }
    abundances.frame := ab.value;
    r := features.AddAggregationsByLipidomesInPlace([selected], Some([name]));
    ghost var grouped := ConcatGrouped(lf, name, selected);
    if r.Err? {
      assert grouped.Err? && r.error == grouped.error && features.frame == lf;
      assert r == st.outcome;
      return;
    }
    AddAggregationsSpec(lf, [selected], "concat", Some([name]), None, true, None, Features.NoStat);
    ghost var g := features.frame;
    assert grouped == Ok(g);
    GroupingRecolors(old(abundances.frame), lf, op, name, selected, colorCol, stat);
    var colors := ColorColumn(features.frame, colorCol);
    if colors.Err? {
      assert RecolorTable(g, colorCol) == Err(colors.error);
      assert Err(colors.error) == st.outcome;
      return Err(colors.error);
    }
    var sanitized := OverwriteConcatColors(colors.value);
    if sanitized.Err? {
      assert RecolorTable(g, colorCol) == Err(sanitized.error);
      assert Err(sanitized.error) == st.outcome;
      return Err(sanitized.error);
    }
    r := features.AddFeatureInPlace(colorCol, Features.Series(features.frame.index, sanitized.value), true, true);
    assert RecolorTable(g, colorCol) == Features.WithFeature(g, colorCol, Features.Series(g.index, sanitized.value), true, true);
    // With the colour column present and every colour a string, the recolouring succeeds.
    assert RecolorTable(g, colorCol).Ok? && r.Ok?;
    ghost var u: () := r.value;
    assert u == ();
  }

  /** A successful grouping is the three steps, each successful, one after the other. */
  lemma GroupingSteps(ab: Frame, lf: Frame, op: string, name: string, selected: seq<string>,
                      colorCol: string, stat: (Operation, seq<Cell>) -> Cell)
    requires WellFormed(ab) && WellFormed(lf) && !lf.multi
    requires Grouping(ab, lf, op, name, selected, colorCol, stat).outcome.Ok?
    ensures AggregateAbundances(ab, [selected], op, [name], stat).Ok?
    ensures ConcatGrouped(lf, name, selected).Ok? && WellFormed(ConcatGrouped(lf, name, selected).value)
    ensures RecolorTable(ConcatGrouped(lf, name, selected).value, colorCol).Ok?
    ensures Grouping(ab, lf, op, name, selected, colorCol, stat) ==
      GroupingState(AggregateAbundances(ab, [selected], op, [name], stat).value,
                    RecolorTable(ConcatGrouped(lf, name, selected).value, colorCol).value, Ok(()))
  {
    AddAggregationsSpec(lf, [selected], "concat", Some([name]), None, true, None, Features.NoStat);
  }


  /** A grouping whose two aggregations succeeded ends as the recolouring of the feature table ends. */
  lemma GroupingRecolors(ab: Frame, lf: Frame, op: string, name: string, selected: seq<string>,
                         colorCol: string, stat: (Operation, seq<Cell>) -> Cell)
    requires WellFormed(ab) && WellFormed(lf) && !lf.multi
    requires AggregateAbundances(ab, [selected], op, [name], stat).Ok? && ConcatGrouped(lf, name, selected).Ok?
    ensures WellFormed(ConcatGrouped(lf, name, selected).value)
    ensures var g := ConcatGrouped(lf, name, selected).value;
      var h := RecolorTable(g, colorCol);
      Grouping(ab, lf, op, name, selected, colorCol, stat) ==
        GroupingState(AggregateAbundances(ab, [selected], op, [name], stat).value,
                      if h.Ok? then h.value else g, if h.Ok? then Ok(()) else Err(h.error))
  {
    AddAggregationsSpec(lf, [selected], "concat", Some([name]), None, true, None, Features.NoStat);
  }

  /** Only mean and std groupings are accepted; anything else raises ValueError before any table changes. */
  lemma GroupingRejectsOperation(ab: Frame, lf: Frame, op: string, name: string, selected: seq<string>,
                                 colorCol: string, stat: (Operation, seq<Cell>) -> Cell)
    requires WellFormed(ab) && WellFormed(lf) && !lf.multi
    requires op != "mean" && op != "std"
    ensures Grouping(ab, lf, op, name, selected, colorCol, stat) == GroupingState(ab, lf, Err(ValueError))
  {
  }

  /**
   * A name that already labels a lipidome is refused by the feature table
   * only: the abundance table has by then gained the aggregated row under
   * that name, the feature table is left as it was, and ValueError is
   * raised.
   */
  lemma GroupingNameTaken(ab: Frame, lf: Frame, op: string, name: string, selected: seq<string>,
                          colorCol: string, stat: (Operation, seq<Cell>) -> Cell)
    requires WellFormed(ab) && WellFormed(lf) && !lf.multi
    requires op == "mean" || op == "std"
    requires GroupsValid([selected], ab) && Lbl(name) in lf.index
    ensures var s := Grouping(ab, lf, op, name, selected, colorCol, stat);
      && s.outcome == Err(ValueError) && s.features == lf
      && s.abundances.index == ab.index + [Lbl(name)] && s.abundances.cells[..|ab.cells|] == ab.cells
  {
    ValidateGroupsSpec([selected], ab);
    ValidateGroupNamesSpec(ab, [name], [selected], false);
    ValidateGroupNamesSpec(lf, [name], [selected], true);
    assert GenAggregations(ab, [selected], op, Some([name]), None, true, None, stat).Ok?;
    GenAggregationsValue(ab, [selected], op, Some([name]), None, true, None, stat);
    var o := ValidateOperation(op).value;
    AggregationFrameSpec(ab, [name], [selected], o, stat);
    var agg := GenAggregations(ab, [selected], op, Some([name]), None, true, None, stat).value;
    assert agg.index == [Lbl(name)];
    assert ConcatGrouped(lf, name, selected) == Err(ValueError);
  }

  /** The feature table after the concat aggregation: the old rows, then the group's row. */
  lemma ConcatGroupedSpec(lf: Frame, name: string, selected: seq<string>)
    requires WellFormed(lf) && !lf.multi && ValidFrame(lf)
    requires ConcatGrouped(lf, name, selected).Ok?
    ensures var g := ConcatGrouped(lf, name, selected).value;
      && GroupsValid([selected], lf)
      && WellFormed(g) && ValidFrame(g) && !g.multi
      && g.columns == lf.columns && g.names == lf.names
      && g.index == lf.index + [Lbl(name)]
      && g.cells == lf.cells + [AggregateRow(lf, selected, ConcatValues, Features.NoStat)]
  {
    ValidateGroupsSpec([selected], lf);
    AddAggregationsSpec(lf, [selected], "concat", Some([name]), None, true, None, Features.NoStat);
    AddAggregationsKeepsValid(lf, [selected], "concat", [name], None, true, None, Features.NoStat);
    ConcatGroupedRows(lf, name, selected);
  }

  /** The rows of the feature table after the concat aggregation. */
  lemma ConcatGroupedRows(lf: Frame, name: string, selected: seq<string>)
    requires WellFormed(lf) && !lf.multi
    requires ConcatGrouped(lf, name, selected).Ok?
    ensures var g := ConcatGrouped(lf, name, selected).value;
      && g.index == lf.index + [Lbl(name)]
      && g.cells == lf.cells + [AggregateRow(lf, selected, ConcatValues, Features.NoStat)]
  {
    GenAggregationsValue(lf, [selected], "concat", Some([name]), None, true, None, Features.NoStat);
    AggregationFrameSpec(lf, [name], [selected], ConcatValues, Features.NoStat);
    var agg := GenAggregations(lf, [selected], "concat", Some([name]), None, true, None, Features.NoStat).value;
    assert ConcatGrouped(lf, name, selected).value == AppendRows(lf, agg);
    assert agg.cells == [AggregateRow(lf, selected, ConcatValues, Features.NoStat)];
    assert agg.index == [Lbl(name)];
  }

  /**
   * Recolouring keeps the index, the columns and every other column's
   * values; each colour is a string and becomes its sanitised self.
   */
  lemma RecolorTableSpec(g: Frame, colorCol: string)
    requires WellFormed(g) && ValidFrame(g)
    requires RecolorTable(g, colorCol).Ok?
    ensures Str(colorCol) in g.columns
    ensures var h := RecolorTable(g, colorCol).value;
      var p := ColumnPos(g, Str(colorCol));
      && WellFormed(h) && ValidFrame(h)
      && h.index == g.index && h.columns == g.columns && h.names == g.names && h.multi == g.multi
      && (forall i, c :: 0 <= i < |g.index| && 0 <= c < |g.columns| && c != p ==> h.cells[i][c] == g.cells[i][c])
      && (forall i :: 0 <= i < |g.index| ==> g.cells[i][p].Text? && h.cells[i][p] == Text(SanitizeColor(g.cells[i][p].s)))
  {
    var p := ColumnPos(g, Str(colorCol));
    var vs := Features.ColumnValues(g, p);
    OverwriteConcatColorsSpec(vs);
    var colors := OverwriteConcatColors(vs).value;
    var s := Features.Series(g.index, colors);
    Features.WithFeatureSpec(g, colorCol, s, true);
    NoDupBothWays(g.columns);
    Features.AssignSpec(g, colorCol, s);
    var h := RecolorTable(g, colorCol).value;
    forall i, c | 0 <= i < |g.index| && 0 <= c < |g.columns| && c != p ensures h.cells[i][c] == g.cells[i][c] {
      assert g.columns[c] != Str(colorCol);
    }
    forall i | 0 <= i < |g.index| ensures g.cells[i][p].Text? && h.cells[i][p] == Text(SanitizeColor(g.cells[i][p].s)) {
      assert vs[i] == g.cells[i][p];
    }
  }

  /**
   * A successful grouping over a valid feature table appends one row
   * labelled with the grouping name to each table and keeps the rows
   * already there; in the feature table every column other than the
   * colour keeps its values, and the new row holds each column's concat
   * aggregation over the selected lipidomes.
   */
  lemma GroupingSuccess(ab: Frame, lf: Frame, op: string, name: string, selected: seq<string>,
                        colorCol: string, stat: (Operation, seq<Cell>) -> Cell)
    requires WellFormed(ab) && !ab.multi && WellFormed(lf) && !lf.multi && ValidFrame(lf)
    requires Grouping(ab, lf, op, name, selected, colorCol, stat).outcome.Ok?
    ensures GroupsValid([selected], lf) && Str(colorCol) in lf.columns
    ensures var s := Grouping(ab, lf, op, name, selected, colorCol, stat);
      && s.abundances.index == ab.index + [Lbl(name)] && s.abundances.columns == ab.columns
      && |ab.index| <= |s.abundances.cells| && s.abundances.cells[..|ab.index|] == ab.cells
      && WellFormed(s.features) && ValidFrame(s.features)
      && s.features.index == lf.index + [Lbl(name)] && s.features.columns == lf.columns
      && (forall i, c :: 0 <= i < |lf.index| && 0 <= c < |lf.columns| && lf.columns[c] != Str(colorCol) ==>
            s.features.cells[i][c] == lf.cells[i][c])
      && (forall c :: 0 <= c < |lf.columns| && lf.columns[c] != Str(colorCol) ==>
            s.features.cells[|lf.index|][c] == ConcatColumn(GroupColumn(lf, selected, c)))
  {
    GroupingSteps(ab, lf, op, name, selected, colorCol, stat);
    GroupingAbundances(ab, lf, op, name, selected, colorCol, stat);
    var g := ConcatGrouped(lf, name, selected).value;
    var h := RecolorTable(g, colorCol).value;
    ConcatGroupedSpec(lf, name, selected);
    RecolorTableSpec(g, colorCol);
    var row := AggregateRow(lf, selected, ConcatValues, Features.NoStat);
    RowsAfterGrouping(lf, g, h, colorCol, row);
    forall c | 0 <= c < |lf.columns| && lf.columns[c] != Str(colorCol)
      ensures h.cells[|lf.index|][c] == ConcatColumn(GroupColumn(lf, selected, c))
    {
      assert row[c] == ConcatColumn(GroupColumn(lf, selected, c));
    }
  }

  /** The columns other than the colour in `h`, the recoloured `g`, read against the table `g` extended by `row`. */
  lemma RowsAfterGrouping(lf: Frame, g: Frame, h: Frame, colorCol: string, row: seq<Cell>)
    requires WellFormed(lf) && WellFormed(g) && WellFormed(h)
    requires g.columns == lf.columns && g.cells == lf.cells + [row] && |g.index| == |lf.index| + 1
    requires Str(colorCol) in g.columns && |row| == |lf.columns|
    requires h.index == g.index && h.columns == g.columns
    requires forall i, c :: 0 <= i < |g.index| && 0 <= c < |g.columns| && c != ColumnPos(g, Str(colorCol)) ==>
      h.cells[i][c] == g.cells[i][c]
    ensures forall i, c :: 0 <= i < |lf.index| && 0 <= c < |lf.columns| && lf.columns[c] != Str(colorCol) ==>
      h.cells[i][c] == lf.cells[i][c]
    ensures forall c :: 0 <= c < |lf.columns| && lf.columns[c] != Str(colorCol) ==> h.cells[|lf.index|][c] == row[c]
  {
    var p := ColumnPos(g, Str(colorCol));
    forall i, c | 0 <= i < |lf.index| && 0 <= c < |lf.columns| && lf.columns[c] != Str(colorCol)
      ensures h.cells[i][c] == lf.cells[i][c]
    {
      assert c != p;
      assert g.cells[i] == lf.cells[i];
    }
    forall c | 0 <= c < |lf.columns| && lf.columns[c] != Str(colorCol) ensures h.cells[|lf.index|][c] == row[c] {
      assert c != p;
      assert g.cells[|lf.index|] == row;
    }
  }

  /** The abundance part of a grouping that got past the abundance step. */
  lemma GroupingAbundances(ab: Frame, lf: Frame, op: string, name: string, selected: seq<string>,
                           colorCol: string, stat: (Operation, seq<Cell>) -> Cell)
    requires WellFormed(ab) && !ab.multi && WellFormed(lf) && !lf.multi
    requires AggregateAbundances(ab, [selected], op, [name], stat).Ok?
    ensures var r := AggregateAbundances(ab, [selected], op, [name], stat).value;
      && r.index == ab.index + [Lbl(name)] && r.columns == ab.columns && r.cells[..|ab.index|] == ab.cells
      && Grouping(ab, lf, op, name, selected, colorCol, stat).abundances == r
  {
    GenAggregationsValue(ab, [selected], op, Some([name]), None, true, None, stat);
    var o := ValidateOperation(op).value;
    AggregationFrameSpec(ab, [name], [selected], o, stat);
    var agg := GenAggregations(ab, [selected], op, Some([name]), None, true, None, stat).value;
    assert agg.index == [Lbl(name)];
    AppendRowsWellFormed(ab, agg);
  }

  /**
   * After a successful grouping every colour is simple, including the new
   * row's; an old colour that was simple is kept and any other old value
   * became black.
   */
  lemma GroupingColors(ab: Frame, lf: Frame, op: string, name: string, selected: seq<string>,
                       colorCol: string, stat: (Operation, seq<Cell>) -> Cell)
    requires WellFormed(ab) && WellFormed(lf) && !lf.multi && ValidFrame(lf)
    requires Grouping(ab, lf, op, name, selected, colorCol, stat).outcome.Ok?
    ensures Str(colorCol) in lf.columns && GroupsValid([selected], lf)
    ensures var s := Grouping(ab, lf, op, name, selected, colorCol, stat);
      var p := ColumnPos(lf, Str(colorCol));
      && WellFormed(s.features) && |s.features.index| == |lf.index| + 1 && s.features.columns == lf.columns
      && (forall i :: 0 <= i <= |lf.index| ==> IsSimpleColorCell(s.features.cells[i][p]))
      && (forall i :: 0 <= i < |lf.index| && IsSimpleColorCell(lf.cells[i][p]) ==> s.features.cells[i][p] == lf.cells[i][p])
      && (forall i :: 0 <= i < |lf.index| && !IsSimpleColorCell(lf.cells[i][p]) ==> s.features.cells[i][p] == Text(Black))
      && s.features.cells[|lf.index|][p] == Text(SanitizeColor(ConcatColumn(GroupColumn(lf, selected, p)).s))
  {
    GroupingSteps(ab, lf, op, name, selected, colorCol, stat);
    var g := ConcatGrouped(lf, name, selected).value;
    var h := RecolorTable(g, colorCol).value;
    ConcatGroupedSpec(lf, name, selected);
    RecolorTableSpec(g, colorCol);
    ColorsAfterGrouping(lf, g, h, colorCol, AggregateRow(lf, selected, ConcatValues, Features.NoStat));
    assert AggregateRow(lf, selected, ConcatValues, Features.NoStat)[ColumnPos(lf, Str(colorCol))] ==
      ConcatColumn(GroupColumn(lf, selected, ColumnPos(lf, Str(colorCol))));
  }

  /** The colour column of `h`, the recoloured `g`, read against the table `g` extended by `row`. */
  lemma ColorsAfterGrouping(lf: Frame, g: Frame, h: Frame, colorCol: string, row: seq<Cell>)
    requires WellFormed(lf) && WellFormed(g) && WellFormed(h)
    requires g.columns == lf.columns && g.cells == lf.cells + [row] && |g.index| == |lf.index| + 1
    requires Str(colorCol) in g.columns && |row| == |lf.columns|
    requires h.index == g.index && h.columns == g.columns
    requires forall i :: 0 <= i < |g.index| ==>
      g.cells[i][ColumnPos(g, Str(colorCol))].Text? &&
      h.cells[i][ColumnPos(g, Str(colorCol))] == Text(SanitizeColor(g.cells[i][ColumnPos(g, Str(colorCol))].s))
    ensures var p := ColumnPos(lf, Str(colorCol));
      && (forall i :: 0 <= i <= |lf.index| ==> IsSimpleColorCell(h.cells[i][p]))
      && (forall i :: 0 <= i < |lf.index| && IsSimpleColorCell(lf.cells[i][p]) ==> h.cells[i][p] == lf.cells[i][p])
      && (forall i :: 0 <= i < |lf.index| && !IsSimpleColorCell(lf.cells[i][p]) ==> h.cells[i][p] == Text(Black))
      && row[p].Text? && h.cells[|lf.index|][p] == Text(SanitizeColor(row[p].s))
  {
    var p := ColumnPos(lf, Str(colorCol));
    assert p == ColumnPos(g, Str(colorCol));
    forall i | 0 <= i < |lf.index| ensures g.cells[i][p] == lf.cells[i][p] {
      assert g.cells[i] == lf.cells[i];
    }
    assert g.cells[|lf.index|] == row;
  }

  /** When every selected lipidome's colour prints as the same simple colour, the group gets that colour. */
  lemma GroupingSharedColor(ab: Frame, lf: Frame, op: string, name: string, selected: seq<string>,
                            colorCol: string, stat: (Operation, seq<Cell>) -> Cell, color: string)
    requires WellFormed(ab) && WellFormed(lf) && !lf.multi && ValidFrame(lf)
    requires Grouping(ab, lf, op, name, selected, colorCol, stat).outcome.Ok?
    requires Str(colorCol) in lf.columns && GroupsValid([selected], lf)
    requires IsSimpleHexColor(color)
    requires forall x :: x in GroupColumn(lf, selected, ColumnPos(lf, Str(colorCol))) ==> CellString(x) == color
    ensures var s := Grouping(ab, lf, op, name, selected, colorCol, stat);
      && |lf.index| < |s.features.cells| && ColumnPos(lf, Str(colorCol)) < |s.features.cells[|lf.index|]|
      && s.features.cells[|lf.index|][ColumnPos(lf, Str(colorCol))] == Text(color)
  {
    GroupingColors(ab, lf, op, name, selected, colorCol, stat);
    assert selected in [selected];
    ConcatColumnUniform(GroupColumn(lf, selected, ColumnPos(lf, Str(colorCol))), color);
  }

  /**
   * When two selected lipidomes' colours print differently and one of
   * them is a simple colour, the joined colours are longer than seven
   * characters and the group becomes black.
   */
  lemma GroupingMixedColors(ab: Frame, lf: Frame, op: string, name: string, selected: seq<string>,
                            colorCol: string, stat: (Operation, seq<Cell>) -> Cell, x: Cell, y: Cell)
    requires WellFormed(ab) && WellFormed(lf) && !lf.multi && ValidFrame(lf)
    requires Grouping(ab, lf, op, name, selected, colorCol, stat).outcome.Ok?
    requires Str(colorCol) in lf.columns && GroupsValid([selected], lf)
    requires x in GroupColumn(lf, selected, ColumnPos(lf, Str(colorCol)))
    requires y in GroupColumn(lf, selected, ColumnPos(lf, Str(colorCol)))
    requires CellString(x) != CellString(y) && IsSimpleHexColor(CellString(x))
    ensures var s := Grouping(ab, lf, op, name, selected, colorCol, stat);
      && |lf.index| < |s.features.cells| && ColumnPos(lf, Str(colorCol)) < |s.features.cells[|lf.index|]|
      && s.features.cells[|lf.index|][ColumnPos(lf, Str(colorCol))] == Text(Black)
  {
    GroupingColors(ab, lf, op, name, selected, colorCol, stat);
    var vs := GroupColumn(lf, selected, ColumnPos(lf, Str(colorCol)));
    var ds := DistinctStrings(vs);
    assert CellString(x) in ds && CellString(y) in ds;
    var j :| 0 <= j < |ds| && ds[j] == CellString(x);
    var k :| 0 <= k < |ds| && ds[k] == CellString(y);
    assert j != k;
    JoinLongerThanPart(ds, " | ", j);
  }

  /** A join of two parts or more is longer than any part by at least the separator. */
  lemma {:induction false} JoinLongerThanPart(parts: seq<string>, sep: string, j: nat)
    requires |parts| >= 2 && j < |parts|
    ensures |Join(parts, sep)| >= |parts[j]| + |sep|
  {
    var rest := parts[1..];
    assert Join(parts, sep) == parts[0] + sep + Join(rest, sep);
    if j > 0 {
      if |rest| == 1 {
        assert Join(rest, sep) == rest[0] == parts[j];
      } else {
        JoinLongerThanPart(rest, sep, j - 1);
        assert rest[j - 1] == parts[j];
      }
    }
  }

  // ---------------------------------------------------------------
  // Pairwise changes.
  // ---------------------------------------------------------------

  /** `abundance_df.loc[lipidomes]`: the given lipidomes' rows in the given order; an absent one raises KeyError. */
  function Loc(ab: Frame, lipidomes: seq<string>): (r: Result<Frame>)
    requires WellFormed(ab)
    ensures r.Err? <==> exists l :: l in lipidomes && Lbl(l) !in ab.index
    ensures r.Err? ==> r.error == KeyError
    ensures r.Ok? ==> WellFormed(r.value) && r.value.multi == ab.multi && r.value.columns == ab.columns
                      && r.value.index == Seqs.Map(lipidomes, Lbl)
  {
    Features.SubsetSpec(ab, Some(lipidomes), None);
    Dataset.SubsetWellFormed(ab, Some(lipidomes), None);
    match Features.Subset(ab, Some(lipidomes), None)
    case Err(_) => Err(KeyError)
    case Ok(sub) => Ok(sub)
  }

  /** The change table after `add_pairwise_changes` over the selected lipidomes, in "overwrite" mode with validation. */
  function PairwiseChanges(t: Frame, kind: AbundanceChanges.ChangeKind, ab: Frame, selected: seq<string>,
                           ratio: (AbundanceChanges.ChangeKind, Cell, Cell) -> Cell): Result<Frame>
    requires WellFormed(t) && |t.names| == 2 && WellFormed(ab) && !ab.multi
  {
    match Loc(ab, selected)
    case Err(e) => Err(e)
    case Ok(sub) => AbundanceChanges.AddPairwise(t, kind, sub, "overwrite", true, ratio)
  }

  /** A label of the pairwise table is the labels of two different positions. */
  lemma PairLabel(ids: seq<Key>, e: seq<Key>)
    requires e in AbundanceChanges.Pairs(ids)
    ensures exists i, j :: 0 <= i < |ids| && 0 <= j < |ids| && i != j && e == [ids[i], ids[j]]
  {
    var pos := AbundanceChanges.PairPositions(|ids|);
    var ps := AbundanceChanges.Pairs(ids);
    var k :| 0 <= k < |ps| && ps[k] == e;
    assert pos[k] in pos;
    assert e == [ids[pos[k].0], ids[pos[k].1]];
  }

  /**
   * Pairwise changes over the selected lipidomes: an unknown lipidome
   * raises KeyError, fewer than two raise ValueError, and two or more
   * known lipidomes with a concrete kind of change over the table's lipids
   * succeed.
   */
  lemma PairwiseChangesErrors(t: Frame, kind: AbundanceChanges.ChangeKind, ab: Frame, selected: seq<string>,
                              ratio: (AbundanceChanges.ChangeKind, Cell, Cell) -> Cell)
    requires WellFormed(t) && |t.names| == 2 && WellFormed(ab) && !ab.multi
    requires t.columns == ab.columns && |ab.columns| > 0
    ensures var r := PairwiseChanges(t, kind, ab, selected, ratio);
      && ((exists l :: l in selected && Lbl(l) !in ab.index) ==> r == Err(KeyError))
      && ((forall l :: l in selected ==> Lbl(l) in ab.index) && |selected| < 2 ==> r == Err(ValueError))
      && ((forall l :: l in selected ==> Lbl(l) in ab.index) && |selected| >= 2 && kind != AbundanceChanges.Base ==> r.Ok?)
  {
    var loc := Loc(ab, selected);
    if loc.Ok? {
      OverwriteOutcome(t, kind, loc.value, ratio);
    }
  }

  /** An "overwrite" insertion over the same lipids succeeds exactly for a concrete kind and two lipidomes or more. */
  lemma OverwriteOutcome(t: Frame, kind: AbundanceChanges.ChangeKind, sub: Frame,
                         ratio: (AbundanceChanges.ChangeKind, Cell, Cell) -> Cell)
    requires WellFormed(t) && |t.names| == 2 && WellFormed(sub) && !sub.multi
    requires t.columns == sub.columns && |sub.columns| > 0
    ensures var r := AbundanceChanges.AddPairwise(t, kind, sub, "overwrite", true, ratio);
      && (|sub.index| < 2 ==> r == Err(ValueError))
      && (|sub.index| >= 2 && kind != AbundanceChanges.Base ==> r.Ok?)
  {
    AbundanceChanges.PairwiseFrameSpec(kind, sub, t.names, ratio);
    if |sub.index| >= 2 && kind != AbundanceChanges.Base {
      var p := AbundanceChanges.PairwiseFrame(kind, sub, t.names, ratio).value;
      assert AbundanceChanges.ConcatNonEmpty(t, p).Ok?;
    }
  }

  /**
   * After successful pairwise changes the table keeps every pair it had,
   * gains every ordered pair of two selected positions, holds no other
   * pair, and holds each pair once.
   */
  lemma PairwiseChangesLabels(t: Frame, kind: AbundanceChanges.ChangeKind, ab: Frame, selected: seq<string>,
                              ratio: (AbundanceChanges.ChangeKind, Cell, Cell) -> Cell)
    requires WellFormed(t) && |t.names| == 2 && WellFormed(ab) && !ab.multi
    requires t.columns == ab.columns && |ab.columns| > 0
    requires PairwiseChanges(t, kind, ab, selected, ratio).Ok?
    ensures var r := PairwiseChanges(t, kind, ab, selected, ratio).value;
      && Seqs.NoDup(r.index)
      && (forall e :: e in t.index ==> e in r.index)
      && (forall i, j :: 0 <= i < |selected| && 0 <= j < |selected| && i != j ==>
            [Str(selected[i]), Str(selected[j])] in r.index)
      && (forall e :: e in r.index ==>
            (e in t.index ||
             exists i, j :: 0 <= i < |selected| && 0 <= j < |selected| && i != j &&
               e == [Str(selected[i]), Str(selected[j])]))
  {
    var sub := Loc(ab, selected).value;
    var r := PairwiseChanges(t, kind, ab, selected, ratio).value;
    OverwriteLabels(t, kind, sub, ratio);
    var ids := AbundanceChanges.Labels(sub);
    assert |ids| == |selected| && forall i :: 0 <= i < |selected| ==> ids[i] == Str(selected[i]);
    LabelsOfSelected(t.index, ids, selected, r.index);
  }

  /** Labels that are the old ones plus the pairs of `ids`, read as pairs of the selected names `ids` stands for. */
  lemma LabelsOfSelected(before: seq<seq<Key>>, ids: seq<Key>, selected: seq<string>, labels: seq<seq<Key>>)
    requires |ids| == |selected| && forall i :: 0 <= i < |selected| ==> ids[i] == Str(selected[i])
    requires forall e :: e in labels <==> e in before || e in AbundanceChanges.Pairs(ids)
    ensures forall e :: e in before ==> e in labels
    ensures forall i, j :: 0 <= i < |selected| && 0 <= j < |selected| && i != j ==>
      [Str(selected[i]), Str(selected[j])] in labels
    ensures forall e :: e in labels ==>
      (e in before ||
       exists i, j :: 0 <= i < |selected| && 0 <= j < |selected| && i != j && e == [Str(selected[i]), Str(selected[j])])
  {
    forall i, j | 0 <= i < |selected| && 0 <= j < |selected| && i != j
      ensures [Str(selected[i]), Str(selected[j])] in labels
    {
      AbundanceChanges.PairsMember(ids, ids[i], ids[j]);
    }
    forall e | e in labels && e !in before
      ensures exists i, j :: 0 <= i < |selected| && 0 <= j < |selected| && i != j &&
                e == [Str(selected[i]), Str(selected[j])]
    {
      PairLabel(ids, e);
      var i, j :| 0 <= i < |ids| && 0 <= j < |ids| && i != j && e == [ids[i], ids[j]];
      assert e == [Str(selected[i]), Str(selected[j])];
    }
  }

  /** The labels after an "overwrite" insertion: the old table's and the new pairs', each once. */
  lemma OverwriteLabels(t: Frame, kind: AbundanceChanges.ChangeKind, sub: Frame,
                        ratio: (AbundanceChanges.ChangeKind, Cell, Cell) -> Cell)
    requires WellFormed(t) && |t.names| == 2 && WellFormed(sub) && !sub.multi
    requires t.columns == sub.columns && |sub.columns| > 0
    requires AbundanceChanges.AddPairwise(t, kind, sub, "overwrite", true, ratio).Ok?
    ensures var r := AbundanceChanges.AddPairwise(t, kind, sub, "overwrite", true, ratio).value;
      && Seqs.NoDup(r.index)
      && forall e :: e in r.index <==> e in t.index || e in AbundanceChanges.Pairs(AbundanceChanges.Labels(sub))
  {
    AbundanceChanges.AddPairwiseUniqueKeys(t, kind, sub, "overwrite", true, ratio);
    AbundanceChanges.PairwiseFrameSpec(kind, sub, t.names, ratio);
    var p := AbundanceChanges.PairwiseFrame(kind, sub, t.names, ratio).value;
    assert p.index == AbundanceChanges.Pairs(AbundanceChanges.Labels(sub));
    var c := AbundanceChanges.ConcatNonEmpty(t, p).value;
    PairwiseIndex(t, p, c, AbundanceChanges.AddPairwise(t, kind, sub, "overwrite", true, ratio).value);
  }

  /** The labels after an "overwrite" insertion: those of the old table and those of the new pairs. */
  lemma PairwiseIndex(t: Frame, p: Frame, c: Frame, r: Frame)
    requires WellFormed(t) && WellFormed(p) && |t.names| == |p.names|
    requires |p.columns| > 0 && |p.index| > 0 && |t.columns| > 0
    requires AbundanceChanges.ConcatNonEmpty(t, p) == Ok(c)
    requires r == AbundanceChanges.WithRows(c, AbundanceChanges.KeepLast(AbundanceChanges.RowsOf(c)))
    ensures forall e :: e in r.index <==> e in t.index || e in p.index
  {
    AbundanceChanges.KeepLastKeys(AbundanceChanges.RowsOf(c));
    if |t.index| == 0 {
      assert c == p;
    } else {
      assert c.index == t.index + p.index;
    }
  }

  /**
   * `add_pairwise_changes` on the dataset's abundance table and change
   * store: the selected lipidomes' rows are taken first (KeyError when one
   * is absent), then the named change table gets their pairs in
   * "overwrite" mode; an unknown change type raises ValueError.
   */
  method AddPairwiseChanges(changeType: string, selected: seq<string>, abundances: Frame,
                            store: AbundanceChanges.Storage,
                            ratio: (AbundanceChanges.ChangeKind, Cell, Cell) -> Cell) returns (r: Result<()>)
    requires store.Valid() && WellFormed(abundances) && !abundances.multi
    modifies store.differences, store.fcs, store.log2fcs
    ensures store.Valid()
    ensures Loc(abundances, selected).Err? ==>
      r == Err(KeyError) && unchanged(store.differences) && unchanged(store.fcs) && unchanged(store.log2fcs)
    ensures Loc(abundances, selected).Ok? && store.GetAbundanceChanges(changeType).Err? ==>
      r == Err(ValueError) && unchanged(store.differences) && unchanged(store.fcs) && unchanged(store.log2fcs)
    ensures store.GetAbundanceChanges(changeType).Ok? ==>
      WellFormed(old(store.GetAbundanceChanges(changeType).value.frame)) &&
      |old(store.GetAbundanceChanges(changeType).value.frame).names| == 2
    ensures store.GetAbundanceChanges(changeType).Ok? ==>
      var t := store.GetAbundanceChanges(changeType).value;
      var expected := PairwiseChanges(old(t.frame), t.kind, abundances, selected, ratio);
      && (r.Ok? <==> expected.Ok?)
      && (expected.Ok? ==> t.frame == expected.value)
      && (expected.Err? ==> r.error == expected.error && t.frame == old(t.frame))
      && (t != store.differences ==> unchanged(store.differences))
      && (t != store.fcs ==> unchanged(store.fcs))
      && (t != store.log2fcs ==> unchanged(store.log2fcs))
  {
    ghost var t := store.GetAbundanceChanges(changeType);
    assert t.Ok? ==> t.value.Valid();
    var sub := Loc(abundances, selected);
    if sub.Err? {
      return Err(KeyError);
    }
    r := store.AddPairwiseChanges(changeType, sub.value, "overwrite", true, ratio);
  }
}
