/**
 * The parsed-lipid record shape: how one name becomes one row of a
 * parsed dataset (status, level columns, FA/LCB slots with the MISSING
 * and N/A sentinels) and the dataset-level subsets the matching engine
 * relies on. The lipid-name parser itself is a parameter: its output is
 * the `Lipid` value below.
 */
module Parsing {
  import opened Wrappers
  import opened PyStrings
  import Seqs

  // ----- labels -----
  const SuccessLabel := "success"
  const FailureLabel := "failed"
  const MissingNameMessage := "Missing name"
  const NotParsedMessage := "Name can not be parsed"
  const Missing := "MISSING"
  const NotApplicable := "N/A"
  const UndefinedName := "UNDEFINED"

  /** The eighteen feature columns of a parsed dataset, plus its index. */
  datatype Feature =
    | OriginalNameCol | ParsedNameCol | StatusCol | MessageCol | LevelCol
    | LevelColumn(lvl: Level)
    | FaCol(slot: nat)
    | LcbCol

  /** The column label of a feature, as it appears in the table header. */
  function FeatureName(f: Feature): string {
    match f
    case OriginalNameCol => "ORIGINAL_NAME"
    case ParsedNameCol => "PARSED_NAME"
    case StatusCol => "STATUS"
    case MessageCol => "MESSAGE"
    case LevelCol => "LEVEL"
    case LevelColumn(l) => LevelName(l)
    case FaCol(k) => "FA" + NatToString(k + 1)
    case LcbCol => "LCB"
  }

  const FaColumns: seq<Feature> := [FaCol(0), FaCol(1), FaCol(2), FaCol(3)]
  const LevelColumns: seq<Feature> := [
    LevelColumn(CATEGORY), LevelColumn(CLASS), LevelColumn(SPECIES),
    LevelColumn(MOLECULAR_SPECIES), LevelColumn(SN_POSITION),
    LevelColumn(STRUCTURE_DEFINED), LevelColumn(FULL_STRUCTURE),
    LevelColumn(COMPLETE_STRUCTURE)]
  /** The feature columns in declaration order. */
  const FeatureNames: seq<Feature> :=
    [OriginalNameCol, ParsedNameCol, StatusCol, MessageCol, LevelCol]
    + LevelColumns + FaColumns + [LcbCol]
  const IndexName := "INDEX"

  /** The notation levels of the parser, in increasing order of detail. */
  datatype Level =
    | UNDEFINED | CATEGORY | CLASS | SPECIES | MOLECULAR_SPECIES
    | SN_POSITION | STRUCTURE_DEFINED | FULL_STRUCTURE | COMPLETE_STRUCTURE

  function Rank(l: Level): nat {
    match l
    case UNDEFINED => 0
    case CATEGORY => 1
    case CLASS => 2
    case SPECIES => 3
    case MOLECULAR_SPECIES => 4
    case SN_POSITION => 5
    case STRUCTURE_DEFINED => 6
    case FULL_STRUCTURE => 7
    case COMPLETE_STRUCTURE => 8
  }

  function LevelName(l: Level): string {
    match l
    case UNDEFINED => UndefinedName
    case CATEGORY => "CATEGORY"
    case CLASS => "CLASS"
    case SPECIES => "SPECIES"
    case MOLECULAR_SPECIES => "MOLECULAR_SPECIES"
    case SN_POSITION => "SN_POSITION"
    case STRUCTURE_DEFINED => "STRUCTURE_DEFINED"
    case FULL_STRUCTURE => "FULL_STRUCTURE"
    case COMPLETE_STRUCTURE => "COMPLETE_STRUCTURE"
  }

  /** The defined levels, in enumeration order; `LevelColumns` names them. */
  const DefinedLevels: seq<Level> := [
    CATEGORY, CLASS, SPECIES, MOLECULAR_SPECIES, SN_POSITION,
    STRUCTURE_DEFINED, FULL_STRUCTURE, COMPLETE_STRUCTURE]

  /**
   * What the parser reports about a lipid: its rendering at each level,
   * its default rendering, its own level, its total FA count and the
   * components it found (slot key to rendered component).
   */
  datatype Lipid = Lipid(
    nameAt: Level -> string,
    name: string,
    level: Level,
    totalFa: int,
    components: map<Feature, string>)

  /** The parser's verdict on one name: a lipid, or the text of the exception it raised. */
  datatype ParserOutcome = Parsed(lipid: Lipid) | Raised(text: string)

  datatype ParsingResults = ParsingResults(
    originalName: string, lipid: Option<Lipid>, status: string, message: string)

  /** One row of a parsed dataset: its index label and the eighteen feature columns. */
  datatype Row = Row(
    id: string,
    originalName: string, parsedName: string, status: string, message: string,
    level: string,
    category: string, cls: string, species: string, molecularSpecies: string,
    snPosition: string, structureDefined: string, fullStructure: string,
    completeStructure: string,
    fa1: string, fa2: string, fa3: string, fa4: string,
    lcb: string)

  function Fas(r: Row): seq<string> { [r.fa1, r.fa2, r.fa3, r.fa4] }

  /** The value of a level column; None for UNDEFINED, which has no column. */
  function Classification(r: Row, l: Level): (v: Option<string>)
    ensures v.Some? <==> l != UNDEFINED
  {
    match l
    case UNDEFINED => None
    case CATEGORY => Some(r.category)
    case CLASS => Some(r.cls)
    case SPECIES => Some(r.species)
    case MOLECULAR_SPECIES => Some(r.molecularSpecies)
    case SN_POSITION => Some(r.snPosition)
    case STRUCTURE_DEFINED => Some(r.structureDefined)
    case FULL_STRUCTURE => Some(r.fullStructure)
    case COMPLETE_STRUCTURE => Some(r.completeStructure)
  }

  /** The eighteen features that are columns: every level but UNDEFINED, four FA slots, the rest. */
  predicate IsFeature(f: Feature) {
    match f
    case LevelColumn(l) => l != UNDEFINED
    case FaCol(k) => k < 4
    case _ => true
  }

  lemma FeatureNamesComplete(f: Feature)
    ensures IsFeature(f) <==> f in FeatureNames
  {
    if f.LevelColumn? && f.lvl != UNDEFINED {
      assert f == LevelColumns[Rank(f.lvl) - 1];
    }
    if f.FaCol? && f.slot < 4 {
      assert f == FaColumns[f.slot];
    }
  }

  /** The value of a feature column; None for a feature that is not one of the eighteen. */
  function Column(r: Row, f: Feature): (v: Option<string>)
    ensures v.Some? <==> IsFeature(f)
  {
    match f
    case OriginalNameCol => Some(r.originalName)
    case ParsedNameCol => Some(r.parsedName)
    case StatusCol => Some(r.status)
    case MessageCol => Some(r.message)
    case LevelCol => Some(r.level)
    case LevelColumn(l) => Classification(r, l)
    case FaCol(k) => if k < 4 then Some(Fas(r)[k]) else None
    case LcbCol => Some(r.lcb)
  }

  // ----- one name -----

  function ParseName(name: string, parse: string -> ParserOutcome): (r: ParsingResults)
    ensures r.originalName == name
    ensures name == "" ==> r == ParsingResults(name, None, FailureLabel, MissingNameMessage)
    ensures name != "" && parse(name).Raised? ==>
      r == ParsingResults(name, None, FailureLabel, NotParsedMessage + ": " + parse(name).text)
    ensures name != "" && parse(name).Parsed? ==>
      r == ParsingResults(name, Some(parse(name).lipid), SuccessLabel, "")
    ensures r.lipid.Some? <==> r.status == SuccessLabel
  {
    if name == "" then ParsingResults(name, None, FailureLabel, MissingNameMessage)
    else
      match parse(name)
      case Parsed(lipid) => ParsingResults(name, Some(lipid), SuccessLabel, "")
      case Raised(e) => ParsingResults(name, None, FailureLabel, NotParsedMessage + ": " + e)
  }

  predicate HasLcb(lipid: Lipid) {
    lipid.nameAt(CATEGORY) == "SP"
  }

  /** The number of FA chains the record should show: the total, less one for the LCB of a sphingolipid. */
  function ExpectedNumFa(lipid: Lipid): (n: int)
    ensures HasLcb(lipid) ==> n == lipid.totalFa - 1
    ensures !HasLcb(lipid) ==> n == lipid.totalFa
  {
    var n := lipid.totalFa;
    if HasLcb(lipid) then n - 1 else n
  }

  /** How many of the four FA slots `fas[:ExpectedNumFa]` selects, under Python slicing. */
  function FilledFaSlots(lipid: Lipid): (n: nat)
    ensures n <= 4
    ensures 0 <= ExpectedNumFa(lipid) ==> n == if ExpectedNumFa(lipid) < 4 then ExpectedNumFa(lipid) else 4
    ensures ExpectedNumFa(lipid) < 0 ==> n == if 4 + ExpectedNumFa(lipid) < 0 then 0 else 4 + ExpectedNumFa(lipid)
  {
    SliceBound(4, ExpectedNumFa(lipid))
  }

  /** The value of FA slot `i`: the component or MISSING for the selected slots, N/A after them. */
  function FaSlot(lipid: Lipid, i: nat): string
    requires i < 4
  {
    if i < FilledFaSlots(lipid) then
      (if FaCol(i) in lipid.components then lipid.components[FaCol(i)] else Missing)
    else NotApplicable
  }

  /** Fills the FA slots one key at a time: first the selected slots, then N/A for the rest. */
  method GetFaComponents(lipid: Lipid) returns (fas: map<Feature, string>)
    ensures fas.Keys == set i | 0 <= i < 4 :: FaCol(i)
    ensures forall i :: 0 <= i < FilledFaSlots(lipid) ==>
      fas[FaCol(i)] == (if FaCol(i) in lipid.components then lipid.components[FaCol(i)] else Missing)
    ensures forall i :: FilledFaSlots(lipid) <= i < 4 ==> fas[FaCol(i)] == NotApplicable
  {
    var n := FilledFaSlots(lipid);
    fas := map[];
    var i := 0;
    while i < n
      invariant 0 <= i <= n
      invariant fas.Keys == set j | 0 <= j < i :: FaCol(j)
      invariant forall j :: 0 <= j < i ==> fas[FaCol(j)] == FaSlot(lipid, j)
    {
      var key := FaCol(i);
      if key in lipid.components {
        fas := fas[key := lipid.components[key]];
      } else {
        fas := fas[key := Missing];
      }
      i := i + 1;
    }
    while i < 4
      invariant n <= i <= 4
      invariant fas.Keys == set j | 0 <= j < i :: FaCol(j)
      invariant forall j :: 0 <= j < i ==> fas[FaCol(j)] == FaSlot(lipid, j)
    {
      fas := fas[FaCol(i) := NotApplicable];
      i := i + 1;
    }
  }

  /** The LCB value: the component or MISSING for sphingolipids, N/A for everything else. */
  function LcbSlot(lipid: Lipid): string
  {
    if HasLcb(lipid) then
      (if LcbCol in lipid.components then lipid.components[LcbCol] else Missing)
    else NotApplicable
  }

  method GetLcbComponent(lipid: Lipid) returns (lcbs: map<Feature, string>)
    ensures lcbs.Keys == {LcbCol}
    ensures HasLcb(lipid) && LcbCol in lipid.components ==> lcbs[LcbCol] == lipid.components[LcbCol]
    ensures HasLcb(lipid) && LcbCol !in lipid.components ==> lcbs[LcbCol] == Missing
    ensures !HasLcb(lipid) ==> lcbs[LcbCol] == NotApplicable
  {
    lcbs := map[];
    if HasLcb(lipid) {
      if LcbCol in lipid.components {
        lcbs := lcbs[LcbCol := lipid.components[LcbCol]];
      } else {
        lcbs := lcbs[LcbCol := Missing];
      }
    } else {
      lcbs := lcbs[LcbCol := NotApplicable];
    }
  }

  /** The rendering stored in a level column: the name at that level, or UNDEFINED beyond the lipid's own level. */
  function LevelValue(lipid: Lipid, l: Level): string
  {
    if Rank(l) <= Rank(lipid.level) then lipid.nameAt(l) else UndefinedName
  }

  /** The LEVEL entry and one entry per defined level. */
  function LevelDict(lipid: Lipid): (d: map<Feature, string>)
    ensures LevelCol in d && d[LevelCol] == LevelName(lipid.level)
    ensures forall l :: l != UNDEFINED ==> LevelColumn(l) in d && d[LevelColumn(l)] == LevelValue(lipid, l)
    ensures forall f :: f in d ==> f == LevelCol || (f.LevelColumn? && f.lvl != UNDEFINED)
  {
    map[LevelCol := LevelName(lipid.level)]
    + map l: Level | l != UNDEFINED :: LevelColumn(l) := LevelValue(lipid, l)
  }

  /** The FA slots followed by the LCB slot. */
  function ComponentsDict(lipid: Lipid): map<Feature, string>
  {
    (map i | 0 <= i < 4 :: FaCol(i) := FaSlot(lipid, i)) + map[LcbCol := LcbSlot(lipid)]
  }

  function SuccessInfo(originalName: string, lipid: Lipid): map<Feature, string>
  {
    NameDict(originalName, lipid) + ComponentsDict(lipid) + LevelDict(lipid)
  }

  function FailureInfo(res: ParsingResults): map<Feature, string>
  {
    map[OriginalNameCol := res.originalName, StatusCol := res.status, MessageCol := res.message]
  }

  function Get(info: map<Feature, string>, key: Feature): string
  {
    if key in info then info[key] else ""
  }

  /** Every feature column takes the info entry of that name, or "" when there is none. */
  function FormatInfoDict(id: string, info: map<Feature, string>): (r: Row)
    ensures r.id == id
  {
    Row(id,
      Get(info, OriginalNameCol), Get(info, ParsedNameCol), Get(info, StatusCol),
      Get(info, MessageCol), Get(info, LevelCol),
      Get(info, LevelColumn(CATEGORY)), Get(info, LevelColumn(CLASS)),
      Get(info, LevelColumn(SPECIES)), Get(info, LevelColumn(MOLECULAR_SPECIES)),
      Get(info, LevelColumn(SN_POSITION)), Get(info, LevelColumn(STRUCTURE_DEFINED)),
      Get(info, LevelColumn(FULL_STRUCTURE)), Get(info, LevelColumn(COMPLETE_STRUCTURE)),
      Get(info, FaCol(0)), Get(info, FaCol(1)), Get(info, FaCol(2)), Get(info, FaCol(3)),
      Get(info, LcbCol))
  }

  /** Every feature column of the formatted row holds the info entry of that name, or "" when there is none. */
  lemma FormatInfoDictSpec(id: string, info: map<Feature, string>, f: Feature)
    requires IsFeature(f)
    ensures Column(FormatInfoDict(id, info), f) == Some(Get(info, f))
  {
  }

  /** One name to one row: parse, build the success or failure info, format. */
  function ParseNameRow(id: string, name: string, parse: string -> ParserOutcome): Row
  {
    var res := ParseName(name, parse);
    var info := if res.status == SuccessLabel then SuccessInfo(name, res.lipid.value) else FailureInfo(res);
    FormatInfoDict(id, info)
  }

  /** A failed parse leaves every column empty except the original name, status and message. */
  lemma FailedRow(id: string, name: string, parse: string -> ParserOutcome)
    requires name == "" || parse(name).Raised?
    ensures var r := ParseNameRow(id, name, parse);
      && r.id == id && r.originalName == name && r.status == FailureLabel
      && r.message == (if name == "" then MissingNameMessage else NotParsedMessage + ": " + parse(name).text)
      && r.parsedName == "" && r.level == "" && Fas(r) == ["", "", "", ""] && r.lcb == ""
      && forall l :: l != UNDEFINED ==> Classification(r, l) == Some("")
  {
    var res := ParseName(name, parse);
    assert |FailureLabel| != |SuccessLabel|;
    assert ParseNameRow(id, name, parse) == FormatInfoDict(id, FailureInfo(res));
    FailureInfoRow(id, res);
  }

  /** The row of a failure keeps the name, status and message and leaves every other column empty. */
  lemma FailureInfoRow(id: string, res: ParsingResults)
    ensures var r := FormatInfoDict(id, FailureInfo(res));
      && r.id == id && r.originalName == res.originalName && r.status == res.status && r.message == res.message
      && r.parsedName == "" && r.level == "" && Fas(r) == ["", "", "", ""] && r.lcb == ""
      && forall l :: l != UNDEFINED ==> Classification(r, l) == Some("")
  {
    var info := FailureInfo(res);
    var r := Row(id, res.originalName, "", res.status, res.message, "", "", "", "", "", "", "", "", "", "", "", "", "", "");
    assert FormatInfoDict(id, info) == r;
  }

  lemma GetUnion(a: map<Feature, string>, b: map<Feature, string>, k: Feature)
    ensures Get(a + b, k) == if k in b then b[k] else Get(a, k)
  {
  }

  function NameDict(originalName: string, lipid: Lipid): map<Feature, string>
  {
    map[OriginalNameCol := originalName, ParsedNameCol := lipid.name]
  }

  lemma ComponentsDictKeys(lipid: Lipid)
    ensures ComponentsDict(lipid).Keys == {FaCol(0), FaCol(1), FaCol(2), FaCol(3), LcbCol}
  {
  }

  /** The entries the name and component dictionaries contribute survive the level dictionary. */
  lemma SuccessInfoLower(name: string, lipid: Lipid, k: Feature)
    requires !k.LevelColumn? && k != LevelCol
    ensures Get(SuccessInfo(name, lipid), k) == Get(NameDict(name, lipid) + ComponentsDict(lipid), k)
  {
    GetUnion(NameDict(name, lipid) + ComponentsDict(lipid), LevelDict(lipid), k);
  }

  lemma SuccessInfoNames(name: string, lipid: Lipid)
    ensures Get(SuccessInfo(name, lipid), OriginalNameCol) == name
    ensures Get(SuccessInfo(name, lipid), ParsedNameCol) == lipid.name
    ensures Get(SuccessInfo(name, lipid), StatusCol) == ""
    ensures Get(SuccessInfo(name, lipid), MessageCol) == ""
  {
    ComponentsDictKeys(lipid);
    var names := NameDict(name, lipid);
    var comps := ComponentsDict(lipid);
    SuccessInfoLower(name, lipid, OriginalNameCol);
    GetUnion(names, comps, OriginalNameCol);
    SuccessInfoLower(name, lipid, ParsedNameCol);
    GetUnion(names, comps, ParsedNameCol);
    SuccessInfoLower(name, lipid, StatusCol);
    GetUnion(names, comps, StatusCol);
    SuccessInfoLower(name, lipid, MessageCol);
    GetUnion(names, comps, MessageCol);
  }

  lemma SuccessInfoComponents(name: string, lipid: Lipid)
    ensures forall i :: 0 <= i < 4 ==> Get(SuccessInfo(name, lipid), FaCol(i)) == FaSlot(lipid, i)
    ensures Get(SuccessInfo(name, lipid), LcbCol) == LcbSlot(lipid)
  {
    var names := NameDict(name, lipid);
    var comps := ComponentsDict(lipid);
    forall i | 0 <= i < 4 ensures Get(SuccessInfo(name, lipid), FaCol(i)) == FaSlot(lipid, i) {
      SuccessInfoLower(name, lipid, FaCol(i));
      GetUnion(names, comps, FaCol(i));
    }
    SuccessInfoLower(name, lipid, LcbCol);
    GetUnion(names, comps, LcbCol);
  }

  lemma SuccessInfoLevels(name: string, lipid: Lipid)
    ensures Get(SuccessInfo(name, lipid), LevelCol) == LevelName(lipid.level)
    ensures forall l :: l != UNDEFINED ==> Get(SuccessInfo(name, lipid), LevelColumn(l)) == LevelValue(lipid, l)
  {
    var lower := NameDict(name, lipid) + ComponentsDict(lipid);
    GetUnion(lower, LevelDict(lipid), LevelCol);
    forall l | l != UNDEFINED ensures Get(SuccessInfo(name, lipid), LevelColumn(l)) == LevelValue(lipid, l) {
      GetUnion(lower, LevelDict(lipid), LevelColumn(l));
    }
  }

  /**
   * What a successfully parsed name's row holds: the original and parsed
   * names, empty status and message, the level name, the per-level
   * renderings, the FA slots (component or MISSING up to the expected
   * count, N/A after) and the LCB slot.
   */
  predicate SuccessRowShape(r: Row, name: string, lipid: Lipid) {
    && r.originalName == name && r.parsedName == lipid.name
    && r.status == "" && r.message == ""
    && r.level == LevelName(lipid.level)
    && (forall l :: l != UNDEFINED ==> Classification(r, l) == Some(LevelValue(lipid, l)))
    && (forall i :: 0 <= i < FilledFaSlots(lipid) ==>
          Fas(r)[i] == (if FaCol(i) in lipid.components then lipid.components[FaCol(i)] else Missing))
    && (forall i :: FilledFaSlots(lipid) <= i < 4 ==> Fas(r)[i] == NotApplicable)
    && r.lcb == LcbSlot(lipid)
  }

  /** The row formatted from any dictionary holding the success entries. */
  lemma FormatSuccessEntries(id: string, info: map<Feature, string>, name: string, lipid: Lipid)
    requires Get(info, OriginalNameCol) == name && Get(info, ParsedNameCol) == lipid.name
    requires Get(info, StatusCol) == "" && Get(info, MessageCol) == ""
    requires Get(info, LevelCol) == LevelName(lipid.level)
    requires forall l :: l != UNDEFINED ==> Get(info, LevelColumn(l)) == LevelValue(lipid, l)
    requires forall i :: 0 <= i < 4 ==> Get(info, FaCol(i)) == FaSlot(lipid, i)
    requires Get(info, LcbCol) == LcbSlot(lipid)
    ensures FormatInfoDict(id, info).id == id
    ensures SuccessRowShape(FormatInfoDict(id, info), name, lipid)
  {
    var r := FormatInfoDict(id, info);
    forall l | l != UNDEFINED ensures Classification(r, l) == Some(LevelValue(lipid, l)) {
      FormatInfoDictSpec(id, info, LevelColumn(l));
    }
    forall i | 0 <= i < 4 ensures Fas(r)[i] == FaSlot(lipid, i) {
      FormatInfoDictSpec(id, info, FaCol(i));
    }
  }

  lemma ParseNameRowSuccess(id: string, name: string, parse: string -> ParserOutcome)
    requires name != "" && parse(name).Parsed?
    ensures ParseNameRow(id, name, parse) == FormatInfoDict(id, SuccessInfo(name, parse(name).lipid))
  {
  }

  /** A successful parse: status and message stay empty, everything else comes from the parser. */
  lemma ParsedRow(id: string, name: string, parse: string -> ParserOutcome)
    requires name != "" && parse(name).Parsed?
    ensures ParseNameRow(id, name, parse).id == id
    ensures SuccessRowShape(ParseNameRow(id, name, parse), name, parse(name).lipid)
  {
    var lipid := parse(name).lipid;
    ParseNameRowSuccess(id, name, parse);
    SuccessInfoNames(name, lipid);
    SuccessInfoComponents(name, lipid);
    SuccessInfoLevels(name, lipid);
    FormatSuccessEntries(id, SuccessInfo(name, lipid), name, lipid);
  }

  /** With its own level at COMPLETE_STRUCTURE nothing is UNDEFINED; at CATEGORY everything finer is. */
  lemma LevelColumnsMonotone(lipid: Lipid, l: Level)
    requires l != UNDEFINED
    ensures Rank(lipid.level) < Rank(l) ==> LevelValue(lipid, l) == UndefinedName
    ensures Rank(l) <= Rank(lipid.level) ==> LevelValue(lipid, l) == lipid.nameAt(l)
  {
  }

  // ----- datasets -----

  datatype ParsedDataset = ParsedDataset(rows: seq<Row>)

  function Ids(rows: seq<Row>): (ids: seq<string>)
    ensures |ids| == |rows|
    ensures forall i :: 0 <= i < |rows| ==> ids[i] == rows[i].id
  {
    seq(|rows|, i requires 0 <= i < |rows| => rows[i].id)
  }

  predicate IsSuccess(r: Row) {
    r.status != FailureLabel && r.parsedName != UndefinedName
  }

  predicate IsFailure(r: Row) {
    r.status == FailureLabel || r.parsedName == UndefinedName
  }

  function SuccessRows(ds: ParsedDataset): seq<Row>
  {
    Seqs.Filter(ds.rows, IsSuccess)
  }

  function FailureRows(ds: ParsedDataset): seq<Row>
  {
    Seqs.Filter(ds.rows, IsFailure)
  }

  /** The success and failure subsets split the rows: disjoint, covering, sizes adding up. */
  lemma {:induction false} SuccessFailurePartition(ds: ParsedDataset)
    ensures forall r :: r in ds.rows ==> (r in SuccessRows(ds) <==> r !in FailureRows(ds))
    ensures |SuccessRows(ds)| + |FailureRows(ds)| == |ds.rows|
    decreases |ds.rows|
  {
    if |ds.rows| > 0 {
      SuccessFailurePartition(ParsedDataset(ds.rows[1..]));
      assert ds.rows == [ds.rows[0]] + ds.rows[1..];
      Seqs.FilterAppend([ds.rows[0]], ds.rows[1..], IsSuccess);
      Seqs.FilterAppend([ds.rows[0]], ds.rows[1..], IsFailure);
    }
  }

  /**
   * The header check: the index must be named INDEX and every feature
   * column must be present (the index itself always is, once reset into a column).
   */
  function ValidateHeader(indexName: Option<string>, columns: set<string>): (r: Result<()>)
    ensures r.Ok? <==> indexName == Some(IndexName) && forall f :: f in FeatureNames ==> FeatureName(f) in columns
    ensures r.Err? ==> r.error == ValueError
  {
    if indexName != Some(IndexName) then Err(ValueError)
    else
      var missing := set f | f in FeatureNames && FeatureName(f) !in columns :: FeatureName(f);
      if missing != {} then Err(ValueError)
      else
        assert forall f :: f in FeatureNames ==> FeatureName(f) in columns by {
          forall f | f in FeatureNames ensures FeatureName(f) in columns {
            assert FeatureName(f) !in columns ==> FeatureName(f) in missing;
          }
        }
        Ok(())
  }

  /** `df.loc[[id]]`: the rows carrying that label. */
  function RowsWithId(rows: seq<Row>, id: string): seq<Row>
  {
    Seqs.Filter(rows, (r: Row) => r.id == id)
  }

  function RowsAt(rows: seq<Row>, ids: seq<string>): seq<Row>
  {
    Seqs.Flatten(Seqs.Map(ids, (id: string) => RowsWithId(rows, id)))
  }

  function GetSubset(ds: ParsedDataset, ids: seq<string>, intersection: bool): Result<ParsedDataset>
  {
    var dsIds := Ids(ds.rows);
    if intersection then
      Ok(ParsedDataset(RowsAt(ds.rows, Seqs.Distinct(Seqs.Filter(ids, (id: string) => id in dsIds)))))
    else if !(forall id :: id in ids ==> id in dsIds) then Err(ValueError)
    else Ok(ParsedDataset(RowsAt(ds.rows, ids)))
  }

  lemma {:induction false} RowsAtMember(rows: seq<Row>, ids: seq<string>, r: Row)
    ensures r in RowsAt(rows, ids) <==> r in rows && r.id in ids
  {
    var parts := Seqs.Map(ids, (id: string) => RowsWithId(rows, id));
    Seqs.FlattenMember(parts, r);
    if r in rows && r.id in ids {
      var k :| 0 <= k < |ids| && ids[k] == r.id;
      assert r in parts[k];
    }
  }

  /** Without `intersection` an absent id raises; otherwise the subset holds exactly the rows of the requested ids. */
  lemma {:induction false} GetSubsetSpec(ds: ParsedDataset, ids: seq<string>, intersection: bool)
    ensures GetSubset(ds, ids, intersection).Err? <==> !intersection && exists id :: id in ids && id !in Ids(ds.rows)
    ensures GetSubset(ds, ids, intersection).Ok? ==>
      forall r :: r in GetSubset(ds, ids, intersection).value.rows <==> r in ds.rows && r.id in ids
  {
    var dsIds := Ids(ds.rows);
    var picked := if intersection then Seqs.Distinct(Seqs.Filter(ids, (id: string) => id in dsIds)) else ids;
    if GetSubset(ds, ids, intersection).Ok? {
      assert GetSubset(ds, ids, intersection).value.rows == RowsAt(ds.rows, picked);
      forall r ensures r in RowsAt(ds.rows, picked) <==> r in ds.rows && r.id in ids {
        RowsAtMember(ds.rows, picked, r);
        if r in ds.rows {
          var k :| 0 <= k < |ds.rows| && ds.rows[k] == r;
          assert r.id in dsIds by { assert dsIds[k] == r.id; }
        }
      }
    }
  }

  predicate IsComponentComplete(r: Row) {
    var noMissing := Missing !in Fas(r) + [r.lcb];
    var lcbOk := !(r.category == "SP" && r.lcb == "");
    var faExempt := (r.category in ["ST", "PK", "PL"] && !StartsWith(r.cls, "CE")) || StartsWith(r.cls, "SPB");
    var hasNoFa := forall fa :: fa in Fas(r) ==> fa == "";
    noMissing && lcbOk && (faExempt || !hasNoFa)
  }

  function ComponentCompleteSubset(ds: ParsedDataset): ParsedDataset
  {
    ParsedDataset(Seqs.Filter(ds.rows, IsComponentComplete))
  }

  /** A row survives iff no component is MISSING, an SP row has an LCB, and the row is FA-exempt or has an FA. */
  lemma ComponentCompleteSpec(ds: ParsedDataset, r: Row)
    requires r in ds.rows
    ensures r in ComponentCompleteSubset(ds).rows <==>
      && r.fa1 != Missing && r.fa2 != Missing && r.fa3 != Missing && r.fa4 != Missing && r.lcb != Missing
      && !(r.category == "SP" && r.lcb == "")
      && (((r.category == "ST" || r.category == "PK" || r.category == "PL") && !StartsWith(r.cls, "CE"))
          || StartsWith(r.cls, "SPB")
          || r.fa1 != "" || r.fa2 != "" || r.fa3 != "" || r.fa4 != "")
  {
    var all := Fas(r) + [r.lcb];
    assert all == [r.fa1, r.fa2, r.fa3, r.fa4, r.lcb];
    assert Fas(r) == [r.fa1, r.fa2, r.fa3, r.fa4];
    assert (Missing !in all) <==> r.fa1 != Missing && r.fa2 != Missing && r.fa3 != Missing && r.fa4 != Missing && r.lcb != Missing;
    assert (r.category in ["ST", "PK", "PL"]) <==> (r.category == "ST" || r.category == "PK" || r.category == "PL");
    assert (forall fa :: fa in Fas(r) ==> fa == "") <==> (r.fa1 == "" && r.fa2 == "" && r.fa3 == "" && r.fa4 == "") by {
      assert r.fa1 in Fas(r) && r.fa2 in Fas(r) && r.fa3 in Fas(r) && r.fa4 in Fas(r);
    }
  }
}
