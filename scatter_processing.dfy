/**
 * The decisions taken before a lipidome scatter is drawn: whether the
 * grids allow one at all, which scaling the graph settings ask for, which
 * lipidome pair a change scatter compares, and which kind of scatter the
 * mode selects. Drawing the figure is left out.
 */
module ScatterProcessing {
  import opened Wrappers
  import Dicts
  import opened Records
  import opened FrontEndData

  /** The graph settings these decisions read; the scaling numbers are passed through untouched. */
  datatype GraphSettings = GraphSettings(
    mode: string,
    scalingMethod: string,
    minMaxScalingValue: (real, real),
    linearScalingFactor: real,
    linearScalingBase: real)

  /** `chk_scatter_possible`. */
  predicate ChkScatterPossible(d: LipidomeFrontEndData, mode: string)
  {
    if !GridsComplete(d) then false
    else if mode == "difference" && |d.differenceSelectedRows| != 1 then false
    else if mode == "log2fc" && |d.log2fcSelectedRows| != 1 then false
    else true
  }

  /**
   * A scatter is possible exactly when the lipidome and lipid grids hold
   * records and visible records and, in a change mode, exactly one row of
   * that change grid is selected; the other change grid's selection never
   * matters.
   */
  lemma ChkScatterPossibleSpec(d: LipidomeFrontEndData, mode: string)
    ensures ChkScatterPossible(d, mode) <==>
      && (forall i :: 0 <= i < 4 ==> CompletenessInputs(d)[i] != [])
      && (mode == "difference" ==> |d.differenceSelectedRows| == 1)
      && (mode == "log2fc" ==> |d.log2fcSelectedRows| == 1)
    ensures mode != "difference" && mode != "log2fc" ==> (ChkScatterPossible(d, mode) <==> GridsComplete(d))
  {
    GridsCompleteSpec(d);
  }

  /** The parameters of a scaling. */
  datatype ScalingParams = MinMax(minVal: real, maxVal: real) | Linear(factor: real, base: real)

  /** `_gen_scaling`: the scaling method's name and its parameters, both None in difference mode. */
  function GenScaling(s: GraphSettings): Result<(Option<string>, Option<ScalingParams>)>
  {
    if s.mode == "difference" then Ok((None, None))
    else if s.scalingMethod == "min-max" then
      Ok((Some("min_max"), Some(MinMax(s.minMaxScalingValue.0, s.minMaxScalingValue.1))))
    else if s.scalingMethod == "linear" then
      Ok((Some("linear"), Some(Linear(s.linearScalingFactor, s.linearScalingBase))))
    else Err(ValueError)
  }

  /**
   * Difference mode never scales, whatever method is set; otherwise only
   * "min-max" and "linear" are accepted, anything else raises ValueError.
   * A method is named exactly when parameters are given, and the name
   * matches their kind.
   */
  lemma GenScalingSpec(s: GraphSettings)
    ensures var r := GenScaling(s);
      && (r.Err? <==> s.mode != "difference" && s.scalingMethod != "min-max" && s.scalingMethod != "linear")
      && (r.Err? ==> r.error == ValueError)
      && (r.Ok? ==>
            && (r.value.0.None? <==> s.mode == "difference")
            && (r.value.0.None? <==> r.value.1.None?)
            && (r.value.0 == Some("min_max") <==> r.value.1.Some? && r.value.1.value.MinMax?)
            && (r.value.0 == Some("linear") <==> r.value.1.Some? && r.value.1.value.Linear?))
  {
  }

  /** Two settings that differ only in their scaling give the same scaling in difference mode. */
  lemma DifferenceIgnoresScaling(s: GraphSettings, t: GraphSettings)
    requires s.mode == "difference" && t.mode == "difference"
    ensures GenScaling(s) == GenScaling(t) == Ok((None, None))
  {
  }

  /** `_det_from_to_lipidomes`: the `FROM` and `TO` of the first selected row of the mode's change grid. */
  function DetFromToLipidomes(d: LipidomeFrontEndData, mode: string, fromCol: string, toCol: string): Result<(Value, Value)>
  {
    if mode != "difference" && mode != "log2fc" then Err(ValueError)
    else
      var rows := if mode == "difference" then d.differenceSelectedRows else d.log2fcSelectedRows;
      if |rows| == 0 then Err(IndexError)
      else
        match Lookup(rows[0], fromCol)
        case Err(e) => Err(e)
        case Ok(from) =>
          match Lookup(rows[0], toCol)
          case Err(e) => Err(e)
          case Ok(to) => Ok((from, to))
  }

  /** The selected rows of a change mode's grid. */
  function SelectedChangeRows(d: LipidomeFrontEndData, mode: string): seq<Record> {
    if mode == "difference" then d.differenceSelectedRows else d.log2fcSelectedRows
  }

  /**
   * Only the change modes are accepted (ValueError otherwise); an empty
   * selection raises IndexError, a first row without either column
   * KeyError; otherwise the pair is that row's two values.
   */
  lemma DetFromToLipidomesSpec(d: LipidomeFrontEndData, mode: string, fromCol: string, toCol: string)
    ensures var r := DetFromToLipidomes(d, mode, fromCol, toCol);
      var rows := SelectedChangeRows(d, mode);
      && (mode != "difference" && mode != "log2fc" ==> r == Err(ValueError))
      && (mode == "difference" || mode == "log2fc" ==>
            && (|rows| == 0 ==> r == Err(IndexError))
            && (|rows| > 0 ==>
                  && (r.Err? <==> fromCol !in Dicts.Keys(rows[0]) || toCol !in Dicts.Keys(rows[0]))
                  && (r.Err? ==> r.error == KeyError)
                  && (r.Ok? ==> Some(r.value.0) == Dicts.Get(rows[0], fromCol)
                                && Some(r.value.1) == Dicts.Get(rows[0], toCol))))
  {
  }

  /**
   * When the scatter was found possible in a change mode, the pair is
   * read without an IndexError: from the single selected row.
   */
  lemma PossibleChangeScatterHasPair(d: LipidomeFrontEndData, mode: string, fromCol: string, toCol: string)
    requires mode == "difference" || mode == "log2fc"
    requires ChkScatterPossible(d, mode)
    ensures |SelectedChangeRows(d, mode)| == 1
    ensures DetFromToLipidomes(d, mode, fromCol, toCol) != Err(IndexError)
    ensures fromCol in Dicts.Keys(SelectedChangeRows(d, mode)[0]) && toCol in Dicts.Keys(SelectedChangeRows(d, mode)[0]) ==>
      DetFromToLipidomes(d, mode, fromCol, toCol).Ok?
  {
    DetFromToLipidomesSpec(d, mode, fromCol, toCol);
  }

  /** The figure `gen_scatter_from_grid_input` builds, by the arguments it passes on. */
  datatype ScatterPlan =
    | OverlayScatter(scaling: Option<string>, params: Option<ScalingParams>)
    | ChangeScatter(changeType: string, from: Value, to: Value, scaling: Option<string>, params: Option<ScalingParams>)

  /** The mode dispatch of `gen_scatter_from_grid_input`: the scaling first, then the mode. */
  function GenScatterPlan(d: LipidomeFrontEndData, s: GraphSettings, fromCol: string, toCol: string): Result<ScatterPlan>
  {
    match GenScaling(s)
    case Err(e) => Err(e)
    case Ok(scaling) =>
      if s.mode == "overlay" then Ok(OverlayScatter(scaling.0, scaling.1))
      else if s.mode == "difference" || s.mode == "log2fc" then
        match DetFromToLipidomes(d, s.mode, fromCol, toCol)
        case Err(e) => Err(e)
        case Ok(pair) => Ok(ChangeScatter(s.mode, pair.0, pair.1, scaling.0, scaling.1))
      else Err(ValueError)
  }

  /**
   * Only the overlay, difference and log2fc modes give a figure, an
   * overlay exactly for "overlay" and a change scatter of the mode's kind
   * otherwise, with the scaling of the settings. A scatter found possible
   * in any of these modes, with a supported scaling and a selected row
   * holding both columns, is always generated.
   */
  lemma GenScatterPlanSpec(d: LipidomeFrontEndData, s: GraphSettings, fromCol: string, toCol: string)
    ensures var r := GenScatterPlan(d, s, fromCol, toCol);
      && (s.mode != "overlay" && s.mode != "difference" && s.mode != "log2fc" ==> r == Err(ValueError))
      && (r.Ok? ==>
            && GenScaling(s).Ok?
            && (r.value.OverlayScatter? <==> s.mode == "overlay")
            && (r.value.ChangeScatter? ==> r.value.changeType == s.mode)
            && r.value.scaling == GenScaling(s).value.0 && r.value.params == GenScaling(s).value.1)
      && (&& (s.mode == "overlay" || s.mode == "difference" || s.mode == "log2fc")
          && ChkScatterPossible(d, s.mode) && GenScaling(s).Ok?
          && (s.mode != "overlay" ==>
                fromCol in Dicts.Keys(SelectedChangeRows(d, s.mode)[0]) && toCol in Dicts.Keys(SelectedChangeRows(d, s.mode)[0]))
          ==> r.Ok?)
  {
    if s.mode == "difference" || s.mode == "log2fc" {
      if ChkScatterPossible(d, s.mode) {
        PossibleChangeScatterHasPair(d, s.mode, fromCol, toCol);
      }
    }
  }
}
