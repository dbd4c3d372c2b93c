/**
 * Grid data: the rows, visible rows, column group definitions and selected
 * rows of one front-end grid, its serialisation, and the builders of the
 * column definitions of the lipidome, lipid and change grids.
 */
module GridData {
  import opened Wrappers
  import Seqs
  import Dicts
  import opened Records

  /** `GridData` (and its subclasses `LipidomeData`, `LipidData`, `ChangeData`, which add no fields). */
  datatype Grid = Grid(
    records: seq<Record>,
    virtualRecords: seq<Record>,
    colGroupsDefs: seq<Record>,
    selectedRows: seq<Record>)

  /** Construction with `__post_init__`: a field given as None becomes an empty list. */
  function NewGrid(records: Option<seq<Record>>, virtualRecords: Option<seq<Record>>,
                   colGroupsDefs: Option<seq<Record>>, selectedRows: Option<seq<Record>>): Grid
  {
    Grid(OrEmpty(records), OrEmpty(virtualRecords), OrEmpty(colGroupsDefs), OrEmpty(selectedRows))
  }

  /** The construction runs the `__post_init__` loop over the four fields. */
  method Construct(records: Option<seq<Record>>, virtualRecords: Option<seq<Record>>,
                   colGroupsDefs: Option<seq<Record>>, selectedRows: Option<seq<Record>>) returns (g: Grid)
    ensures g == NewGrid(records, virtualRecords, colGroupsDefs, selectedRows)
    ensures records.None? ==> g.records == []
    ensures virtualRecords.None? ==> g.virtualRecords == []
    ensures colGroupsDefs.None? ==> g.colGroupsDefs == []
    ensures selectedRows.None? ==> g.selectedRows == []
  {
    var fs := SetListIfNone([records, virtualRecords, colGroupsDefs, selectedRows]);
    g := Grid(fs[0], fs[1], fs[2], fs[3]);
  }

  /**
   * `get_filter`: the key's value in every visible row ("virtual") or
   * every selected row ("selected"), in order; any other source raises
   * ValueError, a row without the key KeyError.
   */
  function GetFilter(g: Grid, filterBy: string, key: string): Result<seq<Value>>
  {
    if filterBy == "virtual" then Column(g.virtualRecords, key)
    else if filterBy == "selected" then Column(g.selectedRows, key)
    else Err(ValueError)
  }

  lemma GetFilterSpec(g: Grid, filterBy: string, key: string)
    ensures var r := GetFilter(g, filterBy, key);
      && (filterBy != "virtual" && filterBy != "selected" ==> r == Err(ValueError))
      && (filterBy == "virtual" || filterBy == "selected" ==>
            var rows := if filterBy == "virtual" then g.virtualRecords else g.selectedRows;
            && (r.Ok? <==> forall i :: 0 <= i < |rows| ==> key in Dicts.Keys(rows[i]))
            && (r.Ok? ==> |r.value| == |rows| && forall i :: 0 <= i < |rows| ==> Some(r.value[i]) == Dicts.Get(rows[i], key)))
  {
    if filterBy == "virtual" || filterBy == "selected" {
      var rows := if filterBy == "virtual" then g.virtualRecords else g.selectedRows;
      var r := Column(rows, key);
      assert GetFilter(g, filterBy, key) == r;
      if r.Ok? {
        forall i | 0 <= i < |rows| ensures Some(r.value[i]) == Dicts.Get(rows[i], key) {
          assert Lookup(rows[i], key) == Ok(r.value[i]);
        }
      }
    }
  }

  /** The field names of the dataclass, in declaration order. */
  const FieldNames: seq<string> := ["records", "virtual_records", "col_groups_defs", "selected_rows"]

  lemma FieldNamesDistinct()
    ensures |FieldNames| == 4 && Seqs.NoDup(FieldNames)
  {
  }

  /** The four fields, in declaration order. */
  function Fields(g: Grid): seq<seq<Record>> {
    [g.records, g.virtualRecords, g.colGroupsDefs, g.selectedRows]
  }

  /** `serialize` (`asdict`): every field as a JSON list under its name. */
  function Serialize(g: Grid): Record
  {
    Dicts.Zip(FieldNames, seq(4, i requires 0 <= i < 4 => Objects(Fields(g)[i])))
  }

  /** One keyword argument of `cls(**d)`: absent gives the default empty list, None becomes an empty list. */
  function FieldArg(d: Record, name: string): Result<Option<seq<Record>>>
  {
    var v := Dicts.Get(d, name);
    if v.None? then Ok(Some([]))
    else if v.value == JNull then Ok(None)
    else if RecordsOf(v.value).Some? then Ok(RecordsOf(v.value))
    else Err(TypeError)
  }

  /**
   * `from_dict` (`cls(**d)`): an unknown key raises TypeError; every field
   * takes its entry, a missing one its default, and None becomes an empty
   * list.
   */
  function FromDict(d: Record): Result<Grid>
  {
    if exists i :: 0 <= i < |d| && d[i].0 !in FieldNames then Err(TypeError)
    else
      var a, b, c, e := FieldArg(d, FieldNames[0]), FieldArg(d, FieldNames[1]),
                        FieldArg(d, FieldNames[2]), FieldArg(d, FieldNames[3]);
      if a.Err? || b.Err? || c.Err? || e.Err? then Err(TypeError)
      else Ok(NewGrid(a.value, b.value, c.value, e.value))
  }

  /** In a dict zipped from distinct keys, key `i` reads value `i`. */
  lemma ZipGet<V>(ks: seq<string>, vs: seq<V>, i: nat)
    requires |ks| == |vs| && Seqs.NoDup(ks) && i < |ks|
    ensures Dicts.Get(Dicts.Zip(ks, vs), ks[i]) == Some(vs[i])
  {
    var d := Dicts.Zip(ks, vs);
    assert Dicts.Keys(d) == ks;
    Dicts.GetAt(d, i);
  }

  /** Reading a serialised grid back gives the same grid. */
  lemma GridRoundTrip(g: Grid)
    ensures FromDict(Serialize(g)) == Ok(g)
  {
    var vs := seq(4, i requires 0 <= i < 4 => Objects(Fields(g)[i]));
    FieldNamesDistinct();
    forall i | 0 <= i < 4 ensures FieldArg(Serialize(g), FieldNames[i]) == Ok(Some(Fields(g)[i])) {
      ZipGet(FieldNames, vs, i);
      RecordsRoundTrip(Fields(g)[i]);
    }
    assert forall i :: 0 <= i < |Serialize(g)| ==> Serialize(g)[i].0 == FieldNames[i];
  }

  /** A dict with a key that is not a field name is refused with TypeError. */
  lemma UnknownKeyRefused(d: Record, i: nat)
    requires i < |d| && d[i].0 !in FieldNames
    ensures FromDict(d) == Err(TypeError)
  {
  }

  /** Missing and None fields come back as empty lists. */
  lemma FromDictDefaults(d: Record)
    requires forall i :: 0 <= i < |d| ==> d[i].1 == JNull && d[i].0 in FieldNames
    ensures FromDict(d) == Ok(Grid([], [], [], []))
  {
    forall name | name in FieldNames ensures FieldArg(d, name).Ok? && OrEmpty(FieldArg(d, name).value) == [] {
      if Dicts.Get(d, name).Some? {
        GetValue(d, name);
      }
    }
  }

  lemma {:induction false} GetValue(d: Record, k: string)
    requires Dicts.Get(d, k).Some?
    ensures exists i :: 0 <= i < |d| && d[i] == (k, Dicts.Get(d, k).value)
  {
    if d[0].0 != k {
      GetValue(d[1..], k);
      var i :| 0 <= i < |d[1..]| && d[1..][i] == (k, Dicts.Get(d[1..], k).value);
      assert d[i + 1] == d[1..][i];
    } else {
      assert d[0] == (k, Dicts.Get(d, k).value);
    }
  }

  // ---------------------------------------------------------------
  // The collection of the four grids
  // ---------------------------------------------------------------

  /** `GridDataCollection`: the lipidome, lipid, difference and log2fc grids. */
  datatype Collection = Collection(lipidomeData: Grid, lipidData: Grid, differenceData: Grid, log2fcData: Grid)

  /** The keys of the serialised collection, in order. */
  const GridNames: seq<string> := ["lipidome_data", "lipid_data", "difference_data", "log2fc_data"]

  lemma GridNamesDistinct()
    ensures |GridNames| == 4 && Seqs.NoDup(GridNames)
  {
  }

  function Grids(c: Collection): seq<Grid> {
    [c.lipidomeData, c.lipidData, c.differenceData, c.log2fcData]
  }

  /** `gen_serialized_dict`: every grid serialised under its name. */
  function SerializeCollection(c: Collection): Record
  {
    Dicts.Zip(GridNames, seq(4, i requires 0 <= i < 4 => JObj(Serialize(Grids(c)[i]))))
  }

  /** `input_dict[name]` read back as one grid: KeyError when missing, TypeError when not a dict. */
  function GridAt(d: Record, name: string): Result<Grid>
  {
    var v := Dicts.Get(d, name);
    if v.None? then Err(KeyError)
    else if v.value.JObj? then FromDict(v.value.entries)
    else Err(TypeError)
  }

  /** `GridDataCollection.from_dict`: the four grids in order; other keys are ignored. */
  function CollectionFromDict(d: Record): Result<Collection>
  {
    var a := GridAt(d, GridNames[0]);
    if a.Err? then Err(a.error) else
    var b := GridAt(d, GridNames[1]);
    if b.Err? then Err(b.error) else
    var c := GridAt(d, GridNames[2]);
    if c.Err? then Err(c.error) else
    var e := GridAt(d, GridNames[3]);
    if e.Err? then Err(e.error) else
    Ok(Collection(a.value, b.value, c.value, e.value))
  }

  /** `from_dict(c.gen_serialized_dict())` gives `c` back. */
  lemma CollectionRoundTrip(c: Collection)
    ensures CollectionFromDict(SerializeCollection(c)) == Ok(c)
  {
    var vs := seq(4, i requires 0 <= i < 4 => JObj(Serialize(Grids(c)[i])));
    GridNamesDistinct();
    forall i | 0 <= i < 4 ensures GridAt(SerializeCollection(c), GridNames[i]) == Ok(Grids(c)[i]) {
      ZipGet(GridNames, vs, i);
      GridRoundTrip(Grids(c)[i]);
    }
  }

  /** A collection dict without one of the four grid names raises KeyError. */
  lemma MissingGridRaises(d: Record, i: nat)
    requires i < 4 && GridNames[i] !in Dicts.Keys(d)
    requires forall j :: 0 <= j < i ==> GridAt(d, GridNames[j]).Ok?
    ensures CollectionFromDict(d) == Err(KeyError)
  {
  }

  /** `from_records`: the sixteen lists, four per grid, in order. */
  function FromRecords(lr: seq<Record>, lv: seq<Record>, ld: seq<Record>, ls: seq<Record>,
                       pr: seq<Record>, pv: seq<Record>, pd: seq<Record>, ps: seq<Record>,
                       dr: seq<Record>, dv: seq<Record>, dd: seq<Record>, ds: seq<Record>,
                       fr: seq<Record>, fv: seq<Record>, fd: seq<Record>, fs: seq<Record>): (c: Collection)
    ensures c.lipidomeData == Grid(lr, lv, ld, ls) && c.lipidData == Grid(pr, pv, pd, ps)
    ensures c.differenceData == Grid(dr, dv, dd, ds) && c.log2fcData == Grid(fr, fv, fd, fs)
  {
    Collection(Grid(lr, lv, ld, ls), Grid(pr, pv, pd, ps), Grid(dr, dv, dd, ds), Grid(fr, fv, fd, fs))
  }

  // ---------------------------------------------------------------
  // Column definitions
  // ---------------------------------------------------------------

  /** `_COMMON_COL_DEF_PARAMS`: filtering with apply/reset buttons, a floating filter, sorting. */
  const CommonParams: Record := [
    ("filter", JBool(true)),
    ("floatingFilter", JBool(true)),
    ("filterParams", JObj([("buttons", JList([JStr("apply"), JStr("reset")])), ("closeOnApply", JBool(true))])),
    ("sortable", JBool(true))]

  /**
   * A column definition `_COMMON_COL_DEF_PARAMS | {"field": name, ...extra}`:
   * the common parameters updated by the field and the extra entries.
   */
  function ColDef(name: string, extra: Record): Record {
    Dicts.Union(CommonParams, [("field", JStr(name))] + extra)
  }

  /** The extra keys are distinct and do not repeat `field`. */
  predicate WellFormedExtra(extra: Record) {
    Seqs.NoDup(Dicts.Keys(extra)) && "field" !in Dicts.Keys(extra)
  }

  lemma SpecificKeys(name: string, extra: Record)
    requires WellFormedExtra(extra)
    ensures Dicts.Keys([("field", JStr(name))] + extra) == ["field"] + Dicts.Keys(extra)
    ensures Seqs.NoDup(Dicts.Keys([("field", JStr(name))] + extra))
  {
    var sp := [("field", JStr(name))] + extra;
    assert Dicts.Keys(sp) == ["field"] + Dicts.Keys(extra);
  }

  /** A definition's `field` is its column name. */
  lemma ColDefField(name: string, extra: Record)
    requires WellFormedExtra(extra)
    ensures Dicts.Get(ColDef(name, extra), "field") == Some(JStr(name))
  {
    SpecificKeys(name, extra);
    Dicts.UnionGet(CommonParams, [("field", JStr(name))] + extra, "field");
  }

  /** An extra entry overrides the common one. */
  lemma ColDefExtra(name: string, extra: Record, i: nat)
    requires WellFormedExtra(extra) && i < |extra|
    ensures Dicts.Get(ColDef(name, extra), extra[i].0) == Some(extra[i].1)
  {
    var sp := [("field", JStr(name))] + extra;
    SpecificKeys(name, extra);
    Dicts.UnionGet(CommonParams, sp, extra[i].0);
    assert sp[i + 1] == extra[i];
    Dicts.GetAt(sp, i + 1);
  }

  /** Any other key keeps its common value. */
  lemma ColDefCommon(name: string, extra: Record, k: string)
    requires WellFormedExtra(extra) && k != "field" && k !in Dicts.Keys(extra)
    ensures Dicts.Get(ColDef(name, extra), k) == Dicts.Get(CommonParams, k)
  {
    SpecificKeys(name, extra);
    Dicts.UnionGet(CommonParams, [("field", JStr(name))] + extra, k);
  }

  /** The definition keeps the common sorting and floating filter. */
  predicate Sortable(def: Record) {
    Dicts.Get(def, "sortable") == Some(JBool(true)) && Dicts.Get(def, "floatingFilter") == Some(JBool(true))
  }

  /** The definition shows the column `name`. */
  predicate ShowsField(def: Record, name: string) {
    Dicts.Get(def, "field") == Some(JStr(name))
  }

  /** The column is shown only when its group is open. */
  predicate OpenOnly(def: Record) {
    Dicts.Get(def, "columnGroupShow") == Some(JStr("open"))
  }

  /** A definition whose extras leave `sortable` and `floatingFilter` alone is sortable. */
  lemma ColDefSortable(name: string, extra: Record)
    requires WellFormedExtra(extra)
    requires "sortable" !in Dicts.Keys(extra) && "floatingFilter" !in Dicts.Keys(extra)
    ensures Sortable(ColDef(name, extra)) && ShowsField(ColDef(name, extra), name)
  {
    CommonKeys();
    ColDefField(name, extra);
    ColDefCommon(name, extra, "sortable");
    ColDefCommon(name, extra, "floatingFilter");
  }

  /** The JavaScript formatter of numeric cells (two-digit exponential notation). */
  const ExponentialFormatter: Value := JObj([("function", JStr("params.value ? params.value.toExponential(2) : null;"))])

  /** The extras of the lipidome column: the selection checkboxes. */
  const LipidomeExtra: Record := [("checkboxSelection", JBool(true)), ("headerCheckboxSelection", JBool(true)),
                                  ("headerCheckboxSelectionFilteredOnly", JBool(true))]

  /** The extras of the colour column: shown when open, the cell painted in its value. */
  const ColorExtra: Record := [("columnGroupShow", JStr("open")),
                               ("cellStyle", JObj([("function", JStr("params.value && {'backgroundColor': params.value}"))]))]

  /** The extras of a plain feature or index column. */
  const OpenExtra: Record := [("columnGroupShow", JStr("open"))]

  /** The extras of an abundance column. */
  const AbundanceExtra: Record := [("columnGroupShow", JStr("open")), ("valueFormatter", ExponentialFormatter)]

  /** The extras of a numeric column: a number filter, the group visibility given, the formatter. */
  function NumberExtra(show: Value): Record {
    [("filter", JStr("agNumberColumnFilter")), ("columnGroupShow", show), ("valueFormatter", ExponentialFormatter)]
  }

  lemma ExtrasWellFormed(show: Value)
    ensures WellFormedExtra(LipidomeExtra) && LipidomeExtra[0].0 == "checkboxSelection"
    ensures WellFormedExtra(ColorExtra) && ColorExtra[0] == ("columnGroupShow", JStr("open"))
    ensures WellFormedExtra(OpenExtra) && OpenExtra[0] == ("columnGroupShow", JStr("open"))
    ensures WellFormedExtra(AbundanceExtra) && AbundanceExtra[0] == ("columnGroupShow", JStr("open"))
    ensures WellFormedExtra(NumberExtra(show)) && NumberExtra(show)[1] == ("columnGroupShow", show)
    ensures NumberExtra(show)[0] == ("filter", JStr("agNumberColumnFilter"))
    ensures forall k :: (k in Dicts.Keys(LipidomeExtra) + Dicts.Keys(ColorExtra) + Dicts.Keys(AbundanceExtra)
                         + Dicts.Keys(NumberExtra(show))) ==> k != "sortable" && k != "floatingFilter"
    ensures Dicts.Keys(OpenExtra) == ["columnGroupShow"] && WellFormedExtra([])
  {
    assert Dicts.Keys(LipidomeExtra) == ["checkboxSelection", "headerCheckboxSelection", "headerCheckboxSelectionFilteredOnly"];
    assert Dicts.Keys(ColorExtra) == ["columnGroupShow", "cellStyle"];
    assert Dicts.Keys(AbundanceExtra) == ["columnGroupShow", "valueFormatter"];
    assert Dicts.Keys(NumberExtra(show)) == ["filter", "columnGroupShow", "valueFormatter"];
  }

  /** The feature columns other than the lipidome and colour columns, in order. */
  function OtherFeatures(featureCols: seq<string>, lipidomeCol: string, colorCol: string): (r: seq<string>)
    ensures forall c :: c in r <==> c in featureCols && c != lipidomeCol && c != colorCol
  {
    Seqs.Filter(featureCols, c => c != lipidomeCol && c != colorCol)
  }

  /** One definition per name, with the same extras. */
  function ColDefs(names: seq<string>, extra: Record): (r: seq<Record>)
    ensures |r| == |names| && forall i :: 0 <= i < |names| ==> r[i] == ColDef(names[i], extra)
  {
    seq(|names|, i requires 0 <= i < |names| => ColDef(names[i], extra))
  }

  /** A definition shows its name, is sortable and reads extra entry `j`. */
  lemma ColDefFacts(name: string, extra: Record, j: nat)
    requires WellFormedExtra(extra) && j < |extra|
    requires "sortable" !in Dicts.Keys(extra) && "floatingFilter" !in Dicts.Keys(extra)
    ensures ShowsField(ColDef(name, extra), name) && Sortable(ColDef(name, extra))
    ensures Dicts.Get(ColDef(name, extra), extra[j].0) == Some(extra[j].1)
  {
    ColDefSortable(name, extra);
    ColDefExtra(name, extra, j);
  }

  /** `LipidomeData._gen_feature_col_defs`. */
  function FeatureColDefs(colorCol: string, lipidomeCol: string, featureCols: seq<string>): seq<Record>
  {
    [ColDef(lipidomeCol, LipidomeExtra), ColDef(colorCol, ColorExtra)]
      + ColDefs(OtherFeatures(featureCols, lipidomeCol, colorCol), OpenExtra)
  }

  /**
   * The feature column definitions are the lipidome column (with the
   * selection checkboxes), then the colour column, then every other
   * feature column in order, each of these shown only when the group is
   * open; every definition keeps the common sorting and floating filter.
   */
  lemma FeatureColDefsSpec(colorCol: string, lipidomeCol: string, featureCols: seq<string>)
    ensures var defs := FeatureColDefs(colorCol, lipidomeCol, featureCols);
      var others := OtherFeatures(featureCols, lipidomeCol, colorCol);
      && |defs| == 2 + |others|
      && ShowsField(defs[0], lipidomeCol) && Dicts.Get(defs[0], "checkboxSelection") == Some(JBool(true))
      && ShowsField(defs[1], colorCol) && OpenOnly(defs[1])
      && (forall i :: 0 <= i < |others| ==> ShowsField(defs[2 + i], others[i]) && OpenOnly(defs[2 + i]))
      && (forall i :: 0 <= i < |defs| ==> Sortable(defs[i]))
  {
    FeatureDefsOf(colorCol, lipidomeCol, OtherFeatures(featureCols, lipidomeCol, colorCol));
  }

  lemma FeatureDefsOf(colorCol: string, lipidomeCol: string, others: seq<string>)
    ensures var defs := [ColDef(lipidomeCol, LipidomeExtra), ColDef(colorCol, ColorExtra)] + ColDefs(others, OpenExtra);
      && ShowsField(defs[0], lipidomeCol) && Dicts.Get(defs[0], "checkboxSelection") == Some(JBool(true))
      && ShowsField(defs[1], colorCol) && OpenOnly(defs[1])
      && (forall i :: 0 <= i < |others| ==> ShowsField(defs[2 + i], others[i]) && OpenOnly(defs[2 + i]))
      && (forall i :: 0 <= i < |defs| ==> Sortable(defs[i]))
  {
    LipidomeDefFacts(lipidomeCol);
    ColorDefFacts(colorCol);
    OpenDefsFacts(others);
    AppendDefs([ColDef(lipidomeCol, LipidomeExtra), ColDef(colorCol, ColorExtra)], ColDefs(others, OpenExtra), others);
  }

  lemma LipidomeDefFacts(lipidomeCol: string)
    ensures ShowsField(ColDef(lipidomeCol, LipidomeExtra), lipidomeCol)
    ensures Sortable(ColDef(lipidomeCol, LipidomeExtra))
    ensures Dicts.Get(ColDef(lipidomeCol, LipidomeExtra), "checkboxSelection") == Some(JBool(true))
  {
    ExtrasWellFormed(JNull);
    ColDefFacts(lipidomeCol, LipidomeExtra, 0);
  }

  lemma ColorDefFacts(colorCol: string)
    ensures ShowsField(ColDef(colorCol, ColorExtra), colorCol) && OpenOnly(ColDef(colorCol, ColorExtra))
    ensures Sortable(ColDef(colorCol, ColorExtra))
  {
    ExtrasWellFormed(JNull);
    ColDefFacts(colorCol, ColorExtra, 0);
  }

  lemma OpenDefsFacts(names: seq<string>)
    ensures forall i :: 0 <= i < |names| ==> ShowsField(ColDefs(names, OpenExtra)[i], names[i])
    ensures forall i :: 0 <= i < |names| ==> OpenOnly(ColDefs(names, OpenExtra)[i])
    ensures forall i :: 0 <= i < |names| ==> Sortable(ColDefs(names, OpenExtra)[i])
  {
    ExtrasWellFormed(JNull);
    ColDefsSpec(names, OpenExtra, 0);
  }

  /** Sortable definitions followed by definitions of `names` keep both facts in the concatenation. */
  lemma AppendDefs(head: seq<Record>, tail: seq<Record>, names: seq<string>)
    requires |tail| == |names|
    requires forall i :: 0 <= i < |head| ==> Sortable(head[i])
    requires forall i :: 0 <= i < |tail| ==> ShowsField(tail[i], names[i]) && Sortable(tail[i])
    ensures forall i :: 0 <= i < |names| ==> ShowsField((head + tail)[|head| + i], names[i])
    ensures forall i :: 0 <= i < |head + tail| ==> Sortable((head + tail)[i])
  {
    var defs := head + tail;
    forall i | 0 <= i < |defs| ensures Sortable(defs[i]) {
      if i >= |head| {
        assert defs[i] == tail[i - |head|];
      }
    }
  }

  /** Every definition of `ColDefs` shows its name, is sortable and reads extra entry `j`. */
  lemma ColDefsSpec(names: seq<string>, extra: Record, j: nat)
    requires WellFormedExtra(extra) && j < |extra|
    requires "sortable" !in Dicts.Keys(extra) && "floatingFilter" !in Dicts.Keys(extra)
    ensures forall i :: 0 <= i < |names| ==>
      && ShowsField(ColDefs(names, extra)[i], names[i]) && Sortable(ColDefs(names, extra)[i])
      && Dicts.Get(ColDefs(names, extra)[i], extra[j].0) == Some(extra[j].1)
  {
    forall i | 0 <= i < |names|
      ensures ShowsField(ColDefs(names, extra)[i], names[i]) && Sortable(ColDefs(names, extra)[i])
      ensures Dicts.Get(ColDefs(names, extra)[i], extra[j].0) == Some(extra[j].1)
    {
      ColDefFacts(names[i], extra, j);
    }
  }

  /** Every definition of `ColDefs` without extras shows its name and is sortable. */
  lemma PlainDefsSpec(names: seq<string>)
    ensures forall i :: 0 <= i < |names| ==>
      ShowsField(ColDefs(names, [])[i], names[i]) && Sortable(ColDefs(names, [])[i])
  {
    ExtrasWellFormed(JNull);
    forall i | 0 <= i < |names| ensures ShowsField(ColDefs(names, [])[i], names[i]) && Sortable(ColDefs(names, [])[i]) {
      ColDefSortable(names[i], []);
    }
  }

  /** `LipidomeData._gen_abundance_col_defs`. */
  function AbundanceColDefs(abundanceCols: seq<string>): seq<Record> {
    ColDefs(abundanceCols, AbundanceExtra)
  }

  /** One abundance definition per column, in order, shown only when open, sortable. */
  lemma AbundanceColDefsSpec(abundanceCols: seq<string>)
    ensures var defs := AbundanceColDefs(abundanceCols);
      && |defs| == |abundanceCols|
      && forall i :: 0 <= i < |defs| ==>
           ShowsField(defs[i], abundanceCols[i]) && OpenOnly(defs[i]) && Sortable(defs[i])
           && Dicts.Get(defs[i], "valueFormatter") == Some(ExponentialFormatter)
  {
    ExtrasWellFormed(JNull);
    forall i | 0 <= i < |abundanceCols|
      ensures var def := AbundanceColDefs(abundanceCols)[i];
        ShowsField(def, abundanceCols[i]) && OpenOnly(def) && Sortable(def)
        && Dicts.Get(def, "valueFormatter") == Some(ExponentialFormatter)
    {
      ColDefFacts(abundanceCols[i], AbundanceExtra, 0);
      ColDefFacts(abundanceCols[i], AbundanceExtra, 1);
    }
  }

  /** A column group: its header and its children. */
  function ColGroup(header: string, children: seq<Record>): Record {
    [("headerName", JStr(header)), ("children", Objects(children))]
  }

  /** `GridHeaders`: the default group headers. */
  const AbundanceHeader := "ABUNDANCE"
  const FeaturesHeader := "FEATURES"
  const LipidHeader := "LIPID"
  const VecsHeader := "VECTORS"
  const ChangeHeader := "CHANGE"

  /** `LipidomeData._gen_col_group_defs`: the feature group, open by default, then the abundance group. */
  function LipidomeColGroupDefs(featureCols: seq<string>, abundanceCols: seq<string>, lipidomeCol: string,
                                colorCol: string, featureHeader: string, abundanceHeader: string): (r: seq<Record>)
    ensures |r| == 2
  {
    [ColGroup(featureHeader, FeatureColDefs(colorCol, lipidomeCol, featureCols)) + [("openByDefault", JBool(true))],
    ColGroup(abundanceHeader, AbundanceColDefs(abundanceCols))]
  }

  /** The feature group holds the feature definitions and is open by default; the abundance group holds the abundance definitions. */
  lemma LipidomeColGroupDefsSpec(featureCols: seq<string>, abundanceCols: seq<string>, lipidomeCol: string,
                                 colorCol: string, featureHeader: string, abundanceHeader: string)
    ensures var r := LipidomeColGroupDefs(featureCols, abundanceCols, lipidomeCol, colorCol, featureHeader, abundanceHeader);
      && Dicts.Get(r[0], "headerName") == Some(JStr(featureHeader))
      && Dicts.Get(r[0], "children") == Some(Objects(FeatureColDefs(colorCol, lipidomeCol, featureCols)))
      && Dicts.Get(r[0], "openByDefault") == Some(JBool(true))
      && Dicts.Get(r[1], "headerName") == Some(JStr(abundanceHeader))
      && Dicts.Get(r[1], "children") == Some(Objects(AbundanceColDefs(abundanceCols)))
      && Dicts.Get(r[1], "openByDefault") == None
  {
    var r := LipidomeColGroupDefs(featureCols, abundanceCols, lipidomeCol, colorCol, featureHeader, abundanceHeader);
    assert Dicts.Keys(r[0]) == ["headerName", "children", "openByDefault"];
    assert Dicts.Keys(r[1]) == ["headerName", "children"];
    Dicts.GetAt(r[0], 0);
    Dicts.GetAt(r[0], 1);
    Dicts.GetAt(r[0], 2);
    Dicts.GetAt(r[1], 0);
    Dicts.GetAt(r[1], 1);
  }

  /** `LipidomeData.from_serialized`: the records and the generated column groups. */
  function LipidomeFromSerialized(records: seq<Record>, featureCols: seq<string>, abundanceCols: seq<string>,
                                  lipidomeCol: string, colorCol: string, featureHeader: string,
                                  abundanceHeader: string): (g: Grid)
    ensures g.records == records && g.virtualRecords == [] && g.selectedRows == []
    ensures g.colGroupsDefs == LipidomeColGroupDefs(featureCols, abundanceCols, lipidomeCol, colorCol, featureHeader, abundanceHeader)
  {
    Grid(records, [], LipidomeColGroupDefs(featureCols, abundanceCols, lipidomeCol, colorCol, featureHeader, abundanceHeader), [])
  }

  /** The lipid columns shown as features: neither the SMILES column nor a vector column. */
  function LipidFeatures(fullCols: seq<string>, vecCols: seq<string>, smilesCol: string): (r: seq<string>)
    ensures forall c :: c in r <==> c in fullCols && c != smilesCol && c !in vecCols
  {
    Seqs.Filter(fullCols, c => c != smilesCol && c !in vecCols)
  }

  /** The group visibility of vector column `name`: always shown for the first vector column, else only when open. */
  function VecShow(name: string, first: string): Value {
    if name != first then JStr("open") else JNull
  }

  /** The vector column definitions, number-filtered and formatted. */
  function VecColDefs(vecCols: seq<string>): (r: seq<Record>)
    ensures |r| == |vecCols|
  {
    seq(|vecCols|, i requires 0 <= i < |vecCols| => ColDef(vecCols[i], NumberExtra(VecShow(vecCols[i], vecCols[0]))))
  }

  /**
   * Each vector column definition shows its column with a number filter,
   * is sortable, and has no group visibility (always shown) exactly when
   * its name is the first vector column's; otherwise it is shown only when
   * the group is open.
   */
  lemma VecColDefsSpec(vecCols: seq<string>)
    ensures forall i :: 0 <= i < |vecCols| ==>
      var def := VecColDefs(vecCols)[i];
      && ShowsField(def, vecCols[i]) && Sortable(def)
      && Dicts.Get(def, "filter") == Some(JStr("agNumberColumnFilter"))
      && (Dicts.Get(def, "columnGroupShow") == Some(JNull) <==> vecCols[i] == vecCols[0])
      && (vecCols[i] != vecCols[0] ==> OpenOnly(def))
  {
    forall i | 0 <= i < |vecCols|
      ensures var def := VecColDefs(vecCols)[i];
        && ShowsField(def, vecCols[i]) && Sortable(def)
        && Dicts.Get(def, "filter") == Some(JStr("agNumberColumnFilter"))
        && (Dicts.Get(def, "columnGroupShow") == Some(JNull) <==> vecCols[i] == vecCols[0])
        && (vecCols[i] != vecCols[0] ==> OpenOnly(def))
    {
      var show := VecShow(vecCols[i], vecCols[0]);
      ExtrasWellFormed(show);
      ColDefSortable(vecCols[i], NumberExtra(show));
      ColDefExtra(vecCols[i], NumberExtra(show), 0);
      ColDefExtra(vecCols[i], NumberExtra(show), 1);
    }
  }

  /** `LipidData._gen_col_group_defs`: the lipid group (name column first, then the features), then the vector group. */
  function LipidColGroupDefs(fullCols: seq<string>, nameCol: string, vecCols: seq<string>, smilesCol: string,
                             lipidHeader: string, vecsHeader: string): (r: seq<Record>)
    ensures |r| == 2
    ensures Dicts.Get(r[0], "children") == Some(Objects([ColDef(nameCol, [])] + ColDefs(LipidFeatures(fullCols, vecCols, smilesCol), [])))
    ensures Dicts.Get(r[1], "children") == Some(Objects(VecColDefs(vecCols)))
  {
    [ColGroup(lipidHeader, [ColDef(nameCol, [])] + ColDefs(LipidFeatures(fullCols, vecCols, smilesCol), [])),
     ColGroup(vecsHeader, VecColDefs(vecCols))]
  }

  /** The lipid group shows the name column first, then the other feature columns in order, all sortable. */
  lemma LipidFeatureDefsSpec(fullCols: seq<string>, nameCol: string, vecCols: seq<string>, smilesCol: string)
    ensures var feats := LipidFeatures(fullCols, vecCols, smilesCol);
      var defs := [ColDef(nameCol, [])] + ColDefs(feats, []);
      && |defs| == 1 + |feats| && ShowsField(defs[0], nameCol)
      && (forall i :: 0 <= i < |feats| ==> ShowsField(defs[1 + i], feats[i]))
      && (forall i :: 0 <= i < |defs| ==> Sortable(defs[i]))
  {
    LipidDefsOf(nameCol, LipidFeatures(fullCols, vecCols, smilesCol));
  }

  lemma LipidDefsOf(nameCol: string, feats: seq<string>)
    ensures var defs := [ColDef(nameCol, [])] + ColDefs(feats, []);
      && ShowsField(defs[0], nameCol)
      && (forall i :: 0 <= i < |feats| ==> ShowsField(defs[1 + i], feats[i]))
      && (forall i :: 0 <= i < |defs| ==> Sortable(defs[i]))
  {
    ExtrasWellFormed(JNull);
    ColDefSortable(nameCol, []);
    PlainDefsSpec(feats);
    AppendDefs([ColDef(nameCol, [])], ColDefs(feats, []), feats);
  }

  /** `LipidData.from_serialized`. */
  function LipidFromSerialized(records: seq<Record>, fullCols: seq<string>, nameCol: string, vecCols: seq<string>,
                               smilesCol: string, lipidHeader: string, vecsHeader: string): (g: Grid)
    ensures g.records == records && g.virtualRecords == [] && g.selectedRows == []
    ensures g.colGroupsDefs == LipidColGroupDefs(fullCols, nameCol, vecCols, smilesCol, lipidHeader, vecsHeader)
  {
    Grid(records, [], LipidColGroupDefs(fullCols, nameCol, vecCols, smilesCol, lipidHeader, vecsHeader), [])
  }

  /** `ChangeData._gen_col_group_defs`: one group, the index columns then the value columns. */
  function ChangeColGroupDefs(idxNames: seq<string>, colNames: seq<string>, changeHeader: string): (r: seq<Record>)
    ensures |r| == 1
    ensures Dicts.Get(r[0], "headerName") == Some(JStr(changeHeader))
    ensures Dicts.Get(r[0], "children") == Some(Objects(ColDefs(idxNames, OpenExtra) + ColDefs(colNames, NumberExtra(JStr("open")))))
  {
    [ColGroup(changeHeader, ColDefs(idxNames, OpenExtra) + ColDefs(colNames, NumberExtra(JStr("open"))))]
  }

  /**
   * The change group lists every index column, then every value column
   * with a number filter, all in order, all shown only when the group is
   * open and sortable.
   */
  lemma ChangeColDefsSpec(idxNames: seq<string>, colNames: seq<string>)
    ensures var defs := ColDefs(idxNames, OpenExtra) + ColDefs(colNames, NumberExtra(JStr("open")));
      && |defs| == |idxNames| + |colNames|
      && (forall i :: 0 <= i < |idxNames| ==> ShowsField(defs[i], idxNames[i]))
      && (forall i :: 0 <= i < |colNames| ==>
            ShowsField(defs[|idxNames| + i], colNames[i])
            && Dicts.Get(defs[|idxNames| + i], "filter") == Some(JStr("agNumberColumnFilter")))
      && (forall i :: 0 <= i < |defs| ==> OpenOnly(defs[i]) && Sortable(defs[i]))
  {
    OpenDefsFacts(idxNames);
    NumberDefsFacts(colNames);
    AppendDefs(ColDefs(idxNames, OpenExtra), ColDefs(colNames, NumberExtra(JStr("open"))), colNames);
    AppendOpen(ColDefs(idxNames, OpenExtra), ColDefs(colNames, NumberExtra(JStr("open"))));
  }

  lemma NumberDefsFacts(names: seq<string>)
    ensures forall i :: 0 <= i < |names| ==> ShowsField(ColDefs(names, NumberExtra(JStr("open")))[i], names[i])
    ensures forall i :: 0 <= i < |names| ==>
      Dicts.Get(ColDefs(names, NumberExtra(JStr("open")))[i], "filter") == Some(JStr("agNumberColumnFilter"))
    ensures forall i :: 0 <= i < |names| ==> OpenOnly(ColDefs(names, NumberExtra(JStr("open")))[i])
    ensures forall i :: 0 <= i < |names| ==> Sortable(ColDefs(names, NumberExtra(JStr("open")))[i])
  {
    ExtrasWellFormed(JStr("open"));
    ColDefsSpec(names, NumberExtra(JStr("open")), 0);
    ColDefsSpec(names, NumberExtra(JStr("open")), 1);
  }

  /** Two runs of definitions shown only when open stay so when concatenated. */
  lemma AppendOpen(head: seq<Record>, tail: seq<Record>)
    requires forall i :: 0 <= i < |head| ==> OpenOnly(head[i])
    requires forall i :: 0 <= i < |tail| ==> OpenOnly(tail[i])
    ensures forall i :: 0 <= i < |head + tail| ==> OpenOnly((head + tail)[i])
  {
    var defs := head + tail;
    forall i | 0 <= i < |defs| ensures OpenOnly(defs[i]) {
      if i >= |head| {
        assert defs[i] == tail[i - |head|];
      }
    }
  }

  /** `ChangeData.from_serialized`. */
  function ChangeFromSerialized(records: seq<Record>, idxNames: seq<string>, colNames: seq<string>,
                                changeHeader: string): (g: Grid)
    ensures g.records == records && g.virtualRecords == [] && g.selectedRows == []
    ensures g.colGroupsDefs == ChangeColGroupDefs(idxNames, colNames, changeHeader)
  {
    Grid(records, [], ChangeColGroupDefs(idxNames, colNames, changeHeader), [])
  }

  lemma CommonKeys()
    ensures Dicts.Get(CommonParams, "sortable") == Some(JBool(true))
    ensures Dicts.Get(CommonParams, "floatingFilter") == Some(JBool(true))
    ensures Dicts.Get(CommonParams, "filter") == Some(JBool(true))
  {
  }
}
