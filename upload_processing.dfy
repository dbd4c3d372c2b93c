/**
 * The outcome of a lipidome upload: the front-end data with the matching
 * failures, its outcome text and the sixteen values the upload callback
 * returns, or, when processing raised anything, a failure with a fixed
 * message.
 */
module Upload {
  import opened Wrappers
  import Dicts
  import opened Records
  import opened FrontEndData

  /** `LipidomeUploadResults`. */
  datatype UploadResults = UploadResults(
    feData: LipidomeFrontEndData,
    failuresRecords: seq<Record>,
    failuresColumnDefs: seq<Record>)

  /** `is_all_failures`: no lipidome record was produced. */
  predicate IsAllFailures(r: UploadResults) {
    |r.feData.lipidomeRecords| == 0
  }

  /** `is_some_failures`: lipidome records and failures both exist. */
  predicate IsSomeFailures(r: UploadResults) {
    |r.feData.lipidomeRecords| > 0 && |r.failuresRecords| > 0
  }

  /** `is_no_failures`: no lipid failed. */
  predicate IsNoFailures(r: UploadResults) {
    |r.failuresRecords| == 0
  }

  const AllFailuresText := "Upload complete. No lipids were successfully processed. Failures:"
  const SomeFailuresText := "Upload complete. The following lipids were not processed:"
  const SuccessText := "Upload complete. All lipids were successfully processed."

  /** `outcome_text`: all failures are checked first, then some failures. */
  function OutcomeText(r: UploadResults): string {
    if IsAllFailures(r) then AllFailuresText
    else if IsSomeFailures(r) then SomeFailuresText
    else SuccessText
  }

  /**
   * Exactly one text is chosen: the all-failures text whenever there are
   * no lipidome records (even with no failures), the some-failures text
   * when there are records and failures, and the success text when there
   * are records and no failures.
   */
  lemma OutcomeTextSpec(r: UploadResults)
    ensures OutcomeText(r) == AllFailuresText <==> |r.feData.lipidomeRecords| == 0
    ensures OutcomeText(r) == SomeFailuresText <==> |r.feData.lipidomeRecords| > 0 && |r.failuresRecords| > 0
    ensures OutcomeText(r) == SuccessText <==> |r.feData.lipidomeRecords| > 0 && |r.failuresRecords| == 0
    ensures IsAllFailures(r) && IsNoFailures(r) ==> OutcomeText(r) == AllFailuresText
  {
    TextsDistinct();
  }

  lemma TextsDistinct()
    ensures AllFailuresText != SomeFailuresText && AllFailuresText != SuccessText && SomeFailuresText != SuccessText
  {
    assert |AllFailuresText| == 65 && |SomeFailuresText| == 57 && |SuccessText| == 56;
  }

  /** The predicates split the outcomes: some failures means neither all nor no failures. */
  lemma FailurePredicatesSpec(r: UploadResults)
    ensures IsSomeFailures(r) <==> !IsAllFailures(r) && !IsNoFailures(r)
    ensures !IsAllFailures(r) ==> (IsSomeFailures(r) != IsNoFailures(r))
  {
  }

  /** One value of the callback output: `no_update` (left unchanged), a list of records, or a text. */
  datatype Slot = Unchanged | Rows(rows: seq<Record>) | Text(text: string)

  /** `LipidomeUploadResults.get_callback_output`. */
  function CallbackOutput(r: UploadResults): (out: seq<Slot>)
    ensures |out| == 16
  {
    if IsAllFailures(r) then
      [Unchanged, Unchanged, Unchanged, Unchanged, Unchanged, Unchanged,
       Rows(r.failuresRecords), Rows(r.failuresRecords), Rows(r.failuresColumnDefs),
       Unchanged, Unchanged, Unchanged,
       Text(OutcomeText(r)), Rows(r.failuresColumnDefs), Rows(r.failuresRecords), Rows(r.failuresRecords)]
    else
      var d := r.feData;
      [Rows(d.lipidomeRecords), Rows(d.lipidomeRecords), Rows(d.lipidomeColGroupsDefs),
       Rows(d.lipidRecords), Rows(d.lipidRecords), Rows(d.lipidColGroupsDefs),
       Rows(d.differenceRecords), Rows(d.differenceRecords), Rows(d.differenceColGroupsDefs),
       Rows(d.log2fcRecords), Rows(d.log2fcRecords), Rows(d.log2fcColGroupsDefs),
       Text(OutcomeText(r)), Rows(r.failuresColumnDefs), Rows(r.failuresRecords), Rows(r.failuresRecords)]
  }

  /** The grids the all-failures output leaves alone: slots 0-5 and 9-11. */
  predicate UntouchedOnAllFailures(i: int) {
    0 <= i < 6 || 9 <= i < 12
  }

  /**
   * With all failures, slots 0-5 and 9-11 are `no_update`, and slots 6-8
   * show the failure records twice and their column definitions.
   * Otherwise no slot is `no_update`: slots 0-11 show each grid's records
   * twice and its column definitions, for the lipidome, lipid,
   * difference and log2fc grids in turn. In both cases slot 12 is the
   * outcome text and slots 13-15 the failure column definitions and
   * records twice.
   */
  lemma CallbackOutputSpec(r: UploadResults)
    ensures var out := CallbackOutput(r);
      && out[12..] == [Text(OutcomeText(r)), Rows(r.failuresColumnDefs), Rows(r.failuresRecords), Rows(r.failuresRecords)]
      && (IsAllFailures(r) ==>
            && (forall i :: 0 <= i < 16 ==> (out[i] == Unchanged <==> UntouchedOnAllFailures(i)))
            && out[6..9] == [Rows(r.failuresRecords), Rows(r.failuresRecords), Rows(r.failuresColumnDefs)])
      && (!IsAllFailures(r) ==>
            && (forall i :: 0 <= i < 16 ==> out[i] != Unchanged)
            && (forall g :: 0 <= g < 4 ==>
                  out[3 * g] == Rows(GridRecords(r.feData, g)) && out[3 * g + 1] == Rows(GridRecords(r.feData, g))
                  && out[3 * g + 2] == Rows(GridDefs(r.feData, g))))
  {
    var out := CallbackOutput(r);
    if !IsAllFailures(r) {
      forall g | 0 <= g < 4
        ensures out[3 * g] == Rows(GridRecords(r.feData, g)) && out[3 * g + 1] == Rows(GridRecords(r.feData, g))
        ensures out[3 * g + 2] == Rows(GridDefs(r.feData, g))
      {
        if g == 0 {} else if g == 1 {} else if g == 2 {} else {}
      }
    }
  }

  /** The records of grid `g`: lipidome, lipid, difference, log2fc. */
  function GridRecords(d: LipidomeFrontEndData, g: int): seq<Record> {
    if g == 0 then d.lipidomeRecords else if g == 1 then d.lipidRecords
    else if g == 2 then d.differenceRecords else d.log2fcRecords
  }

  /** The column group definitions of grid `g`. */
  function GridDefs(d: LipidomeFrontEndData, g: int): seq<Record> {
    if g == 0 then d.lipidomeColGroupsDefs else if g == 1 then d.lipidColGroupsDefs
    else if g == 2 then d.differenceColGroupsDefs else d.log2fcColGroupsDefs
  }

  /** `LipidomeUploadFailure.get_callback_output`: twelve `no_update`, the message, three empty lists. */
  function FailureOutput(msg: string): (out: seq<Slot>)
    ensures |out| == 16
  {
    seq(12, _ => Unchanged) + [Text(msg), Rows([]), Rows([]), Rows([])]
  }

  /** A failure leaves every grid alone, shows its message and clears the failure grid. */
  lemma FailureOutputSpec(msg: string)
    ensures var out := FailureOutput(msg);
      && (forall i :: 0 <= i < 16 ==> (out[i] == Unchanged <==> i < 12))
      && out[12] == Text(msg)
      && (forall i :: 13 <= i < 16 ==> out[i] == Rows([]))
  {
  }

  /** The result of `process_lipidome_upload`. */
  datatype UploadOutcome = Results(results: UploadResults) | Failure(msg: string)

  const UploadErrorMessage := "An error occurred during the upload."

  /** The catch-all of `process_lipidome_upload`: any exception becomes the fixed failure. */
  function ProcessLipidomeUpload(attempt: Result<UploadResults>): UploadOutcome {
    match attempt
    case Ok(r) => Results(r)
    case Err(_) => Failure(UploadErrorMessage)
  }

  /** The callback output of either outcome. */
  function OutcomeOutput(o: UploadOutcome): (out: seq<Slot>)
    ensures |out| == 16
  {
    match o
    case Results(r) => CallbackOutput(r)
    case Failure(msg) => FailureOutput(msg)
  }

  /**
   * Whatever the processing raised, the callback leaves every grid alone,
   * shows the fixed message and clears the failure grid; a successful
   * processing shows its outcome text instead.
   */
  lemma ProcessLipidomeUploadSpec(attempt: Result<UploadResults>)
    ensures var out := OutcomeOutput(ProcessLipidomeUpload(attempt));
      && (attempt.Err? ==>
            && (forall i :: 0 <= i < 12 ==> out[i] == Unchanged)
            && out[12] == Text(UploadErrorMessage) && out[13..] == [Rows([]), Rows([]), Rows([])])
      && (attempt.Ok? ==> out[12] == Text(OutcomeText(attempt.value)))
  {
    if attempt.Err? {
      FailureOutputSpec(UploadErrorMessage);
    } else {
      CallbackOutputSpec(attempt.value);
    }
  }

  /** One failure column definition of `_get_failrues_grid_data`. */
  function FailureColumnDef(name: string): Record {
    [("field", JStr(name))] + FailureColumnFlags
  }

  /** The entries after `field` in every failure column definition. */
  const FailureColumnFlags: Record :=
    [("filter", JBool(true)), ("floatingFilter", JBool(true)), ("sortable", JBool(true)), ("columnGroupShow", JStr("open"))]

  /** `_get_failrues_grid_data`'s column definitions: one per failure column, in order. */
  function FailureColumnDefs(columns: seq<string>): (defs: seq<Record>)
    ensures |defs| == |columns|
    ensures forall i :: 0 <= i < |columns| ==> defs[i] == FailureColumnDef(columns[i])
  {
    seq(|columns|, i requires 0 <= i < |columns| => FailureColumnDef(columns[i]))
  }

  /**
   * The definitions name the failure columns in order, and every one is
   * filterable, sortable and shown only when its group is open.
   */
  lemma FailureColumnDefsSpec(columns: seq<string>)
    ensures Column(FailureColumnDefs(columns), "field") == Ok(seq(|columns|, i requires 0 <= i < |columns| => JStr(columns[i])))
    ensures forall i :: 0 <= i < |columns| ==>
      && Dicts.Get(FailureColumnDefs(columns)[i], "sortable") == Some(JBool(true))
      && Dicts.Get(FailureColumnDefs(columns)[i], "filter") == Some(JBool(true))
      && Dicts.Get(FailureColumnDefs(columns)[i], "columnGroupShow") == Some(JStr("open"))
  {
    var defs := FailureColumnDefs(columns);
    forall i | 0 <= i < |columns|
      ensures Dicts.Get(defs[i], "field") == Some(JStr(columns[i]))
      ensures Dicts.Get(defs[i], "sortable") == Some(JBool(true))
      ensures Dicts.Get(defs[i], "filter") == Some(JBool(true))
      ensures Dicts.Get(defs[i], "columnGroupShow") == Some(JStr("open"))
    {
      FailureColumnDefKeys(columns[i]);
    }
    var col := Column(defs, "field");
    assert col.Ok?;
    assert col.value == seq(|columns|, i requires 0 <= i < |columns| => JStr(columns[i])) by {
      forall i | 0 <= i < |columns| ensures col.value[i] == JStr(columns[i]) {
        assert Lookup(defs[i], "field") == Ok(col.value[i]);
      }
    }
  }

  lemma FailureColumnDefKeys(name: string)
    ensures Dicts.Get(FailureColumnDef(name), "field") == Some(JStr(name))
    ensures Dicts.Get(FailureColumnDef(name), "sortable") == Some(JBool(true))
    ensures Dicts.Get(FailureColumnDef(name), "filter") == Some(JBool(true))
    ensures Dicts.Get(FailureColumnDef(name), "columnGroupShow") == Some(JStr("open"))
  {
    Dicts.GetAppend([("field", JStr(name))], FailureColumnFlags, "sortable");
    Dicts.GetAppend([("field", JStr(name))], FailureColumnFlags, "filter");
    Dicts.GetAppend([("field", JStr(name))], FailureColumnFlags, "columnGroupShow");
  }

  /**
   * `_attempt_process_lipidome_upload` after matching: the failure table's
   * records and column definitions, with the front-end data of the matched
   * dataset (its translation is a parameter) or, when matching left no
   * dataset, the default front-end data.
   */
  function AttemptUpload(translated: Option<LipidomeFrontEndData>, failureColumns: seq<string>,
                         failureRecords: seq<Record>): UploadResults
  {
    UploadResults(if translated.Some? then translated.value else FrontEndData.Empty,
                  failureRecords, FailureColumnDefs(failureColumns))
  }

  /** Without a matched dataset the upload reports all failures and leaves the six first grids alone. */
  lemma NoDatasetAllFailures(failureColumns: seq<string>, failureRecords: seq<Record>)
    ensures var r := AttemptUpload(None, failureColumns, failureRecords);
      && IsAllFailures(r) && OutcomeText(r) == AllFailuresText
      && (forall i :: 0 <= i < 6 ==> CallbackOutput(r)[i] == Unchanged)
      && CallbackOutput(r)[6] == Rows(failureRecords)
  {
  }
}
