/**
 * The front-end data of a lipidome session: its name and the records,
 * visible records, column group definitions and selections of the
 * lipidome, lipid, difference and log2fc grids. Construction turns every
 * field given as None into an empty list; the grids are complete when the
 * lipidome and lipid grids hold records and visible records.
 */
module FrontEndData {
  import opened Wrappers
  import opened Records

  /** The `name` field: a string, or the empty list `__post_init__` puts in place of None. */
  datatype NameField = Name(s: string) | EmptyList

  /** `LipidomeFrontEndData`: the name, then the fifteen record lists in declaration order. */
  datatype LipidomeFrontEndData = LipidomeFrontEndData(
    name: NameField,
    lipidomeRecords: seq<Record>,
    lipidomeVirtualRecords: seq<Record>,
    lipidomeColGroupsDefs: seq<Record>,
    lipidomeSelectedRecords: seq<Record>,
    lipidRecords: seq<Record>,
    lipidVirtualRecords: seq<Record>,
    lipidColGroupsDefs: seq<Record>,
    differenceRecords: seq<Record>,
    differenceVirtualRecords: seq<Record>,
    differenceColGroupsDefs: seq<Record>,
    differenceSelectedRows: seq<Record>,
    log2fcRecords: seq<Record>,
    log2fcVirtualRecords: seq<Record>,
    log2fcColGroupsDefs: seq<Record>,
    log2fcSelectedRows: seq<Record>)

  /** The number of record-list fields. */
  const ListFieldCount := 15

  /** The record-list fields in declaration order. */
  function ListFields(d: LipidomeFrontEndData): (fs: seq<seq<Record>>)
    ensures |fs| == ListFieldCount
  {
    [d.lipidomeRecords, d.lipidomeVirtualRecords, d.lipidomeColGroupsDefs, d.lipidomeSelectedRecords,
     d.lipidRecords, d.lipidVirtualRecords, d.lipidColGroupsDefs,
     d.differenceRecords, d.differenceVirtualRecords, d.differenceColGroupsDefs, d.differenceSelectedRows,
     d.log2fcRecords, d.log2fcVirtualRecords, d.log2fcColGroupsDefs, d.log2fcSelectedRows]
  }

  /** `LipidomeFrontEndData()`: every field at its default, the empty name and empty lists. */
  const Empty := LipidomeFrontEndData(Name(""), [], [], [], [], [], [], [], [], [], [], [], [], [], [], [])

  /**
   * Construction with `__post_init__`: every field given as None, the
   * name included, becomes an empty list; every other field keeps the
   * value given.
   */
  method Construct(name: Option<string>, lists: seq<Option<seq<Record>>>) returns (d: LipidomeFrontEndData)
    requires |lists| == ListFieldCount
    ensures d.name == if name.None? then EmptyList else Name(name.value)
    ensures forall i :: 0 <= i < ListFieldCount ==>
      (lists[i].None? ==> ListFields(d)[i] == []) && (lists[i].Some? ==> ListFields(d)[i] == lists[i].value)
  {
    var fs := SetListIfNone(lists);
    var n := if name.None? then EmptyList else Name(name.value);
    d := FromLists(n, fs);
    ListFieldsOfLists(n, fs);
  }

  /** The data holding the given name and the fifteen lists in declaration order. */
  function FromLists(n: NameField, fs: seq<seq<Record>>): LipidomeFrontEndData
    requires |fs| == ListFieldCount
  {
    LipidomeFrontEndData(n, fs[0], fs[1], fs[2], fs[3], fs[4], fs[5], fs[6], fs[7],
                         fs[8], fs[9], fs[10], fs[11], fs[12], fs[13], fs[14])
  }

  lemma ListFieldsOfLists(n: NameField, fs: seq<seq<Record>>)
    requires |fs| == ListFieldCount
    ensures FromLists(n, fs).name == n
    ensures forall i :: 0 <= i < ListFieldCount ==> ListFields(FromLists(n, fs))[i] == fs[i]
  {
  }

  /** `grids_complete`: the lipidome and lipid grids both hold records and visible records. */
  predicate GridsComplete(d: LipidomeFrontEndData)
  {
    if |d.lipidomeRecords| == 0 || |d.lipidRecords| == 0 then false
    else if |d.lipidomeVirtualRecords| == 0 then false
    else if |d.lipidVirtualRecords| == 0 then false
    else true
  }

  /** The four lists `grids_complete` reads. */
  function CompletenessInputs(d: LipidomeFrontEndData): seq<seq<Record>> {
    [d.lipidomeRecords, d.lipidRecords, d.lipidomeVirtualRecords, d.lipidVirtualRecords]
  }

  /**
   * The grids are complete exactly when none of the lipidome records,
   * lipid records, visible lipidome records and visible lipid records is
   * empty.
   */
  lemma GridsCompleteSpec(d: LipidomeFrontEndData)
    ensures GridsComplete(d) <==> forall i :: 0 <= i < 4 ==> CompletenessInputs(d)[i] != []
  {
    var ins := CompletenessInputs(d);
    if !GridsComplete(d) {
      if |d.lipidomeRecords| == 0 { assert ins[0] == []; }
      else if |d.lipidRecords| == 0 { assert ins[1] == []; }
      else if |d.lipidomeVirtualRecords| == 0 { assert ins[2] == []; }
      else { assert ins[3] == []; }
    }
  }

  /** Selections, column definitions and the change grids do not affect completeness. */
  lemma GridsCompleteIgnoresOthers(d: LipidomeFrontEndData, e: LipidomeFrontEndData)
    requires CompletenessInputs(d) == CompletenessInputs(e)
    ensures GridsComplete(d) == GridsComplete(e)
  {
    assert d.lipidomeRecords == CompletenessInputs(d)[0] == CompletenessInputs(e)[0];
    assert d.lipidRecords == CompletenessInputs(d)[1] == CompletenessInputs(e)[1];
    assert d.lipidomeVirtualRecords == CompletenessInputs(d)[2] == CompletenessInputs(e)[2];
    assert d.lipidVirtualRecords == CompletenessInputs(d)[3] == CompletenessInputs(e)[3];
  }

  /** Data built with every list missing, and the default data, are never complete. */
  lemma EmptyIncomplete(d: LipidomeFrontEndData)
    requires forall i :: 0 <= i < ListFieldCount ==> ListFields(d)[i] == []
    ensures !GridsComplete(d) && !GridsComplete(Empty)
  {
    assert d.lipidomeRecords == ListFields(d)[0];
  }
}
