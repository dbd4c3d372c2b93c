/**
 * The constrained matching engine: candidate pairs between a to-match
 * parsed dataset and a reference parsed dataset (by parsed name at the
 * row's own level, by parsed name after class-synonym substitution, by
 * original name), the FA/LCB constraint filter on the reference side, and
 * the split of the to-match rows into accepted, filtered and unmatched.
 */
module Matching {
  import opened Wrappers
  import opened PyStrings
  import Seqs
  import Dicts
  import opened Parsing

  /** A candidate pairing of a to-match row with a reference row, by index label. */
  datatype Pair = Pair(toMatch: string, matchTo: string)

  function ToMatchIds(pairs: seq<Pair>): (ids: seq<string>)
    ensures |ids| == |pairs|
    ensures forall i :: 0 <= i < |pairs| ==> ids[i] == pairs[i].toMatch
  {
    Seqs.Map(pairs, (p: Pair) => p.toMatch)
  }

  lemma ToMatchIdsMember(pairs: seq<Pair>, id: string)
    ensures id in ToMatchIds(pairs) <==> exists p :: p in pairs && p.toMatch == id
  {
    if id in ToMatchIds(pairs) {
      var i :| 0 <= i < |pairs| && ToMatchIds(pairs)[i] == id;
      assert pairs[i] in pairs;
    }
    if p :| p in pairs && p.toMatch == id {
      var i :| 0 <= i < |pairs| && pairs[i] == p;
      assert ToMatchIds(pairs)[i] == id;
    }
  }

  /** `df.loc[id]` on a table whose labels are unique: the first row with that label, if any. */
  function Find(rows: seq<Row>, id: string): (r: Option<Row>)
    ensures r.Some? <==> id in Ids(rows)
    ensures r.Some? ==> r.value in rows && r.value.id == id
  {
    if |rows| == 0 then None
    else if rows[0].id == id then Some(rows[0])
    else
      assert Ids(rows) == [rows[0].id] + Ids(rows[1..]);
      Find(rows[1..], id)
  }

  lemma IdsMember(rows: seq<Row>, r: Row)
    requires r in rows
    ensures r.id in Ids(rows)
  {
    var k :| 0 <= k < |rows| && rows[k] == r;
    assert Ids(rows)[k] == r.id;
  }

  /** Every pair names a to-match row and a reference row. */
  predicate PairsFrom(pairs: seq<Pair>, toMatch: seq<Row>, matchTo: seq<Row>) {
    forall p :: p in pairs ==> p.toMatch in Ids(toMatch) && p.matchTo in Ids(matchTo)
  }

  // ----- strategy 1: parsed name at the row's own level -----

  /** The classification column a LEVEL value names, if it names one. */
  function ColumnLevel(level: string): (l: Option<Level>)
    ensures l.Some? ==> l.value != UNDEFINED && LevelName(l.value) == level
    ensures l.None? ==> forall lv :: lv != UNDEFINED ==> LevelName(lv) != level
  {
    if level == "CATEGORY" then Some(CATEGORY)
    else if level == "CLASS" then Some(CLASS)
    else if level == "SPECIES" then Some(SPECIES)
    else if level == "MOLECULAR_SPECIES" then Some(MOLECULAR_SPECIES)
    else if level == "SN_POSITION" then Some(SN_POSITION)
    else if level == "STRUCTURE_DEFINED" then Some(STRUCTURE_DEFINED)
    else if level == "FULL_STRUCTURE" then Some(FULL_STRUCTURE)
    else if level == "COMPLETE_STRUCTURE" then Some(COMPLETE_STRUCTURE)
    else None
  }

  /** A to-match row matches a reference row when the column its LEVEL names holds its parsed name. */
  predicate ParsedNameMatch(t: Row, m: Row) {
    ColumnLevel(t.level).Some? && Classification(m, ColumnLevel(t.level).value) == Some(t.parsedName)
  }

  /** The LEVEL groups in groupby order: the distinct values, sorted. */
  function LevelGroups(toMatch: seq<Row>): seq<string>
  {
    Sort(Seqs.Distinct(Seqs.Map(toMatch, (t: Row) => t.level)))
  }

  function RowPairs(t: Row, matchTo: seq<Row>): seq<Pair>
  {
    Seqs.Map(Seqs.Filter(matchTo, (m: Row) => ParsedNameMatch(t, m)), (m: Row) => Pair(t.id, m.id))
  }

  /** The pairs of one LEVEL group; a group whose level names no classification column yields none. */
  function LevelPairs(toMatch: seq<Row>, matchTo: seq<Row>, level: string): seq<Pair>
  {
    if ColumnLevel(level).None? then []
    else Seqs.Flatten(Seqs.Map(Seqs.Filter(toMatch, (t: Row) => t.level == level), (t: Row) => RowPairs(t, matchTo)))
  }

  function MatchByParsedName(toMatch: seq<Row>, matchTo: seq<Row>): seq<Pair>
  {
    Seqs.Flatten(Seqs.Map(LevelGroups(toMatch), (level: string) => LevelPairs(toMatch, matchTo, level)))
  }

  lemma {:induction false} RowPairsMember(t: Row, matchTo: seq<Row>, p: Pair)
    ensures p in RowPairs(t, matchTo) <==> exists m :: m in matchTo && ParsedNameMatch(t, m) && p == Pair(t.id, m.id)
  {
    var ms := Seqs.Filter(matchTo, (m: Row) => ParsedNameMatch(t, m));
    if p in RowPairs(t, matchTo) {
      var i :| 0 <= i < |ms| && RowPairs(t, matchTo)[i] == p;
      assert ms[i] in ms;
    }
    if m :| m in matchTo && ParsedNameMatch(t, m) && p == Pair(t.id, m.id) {
      assert m in ms;
      var i :| 0 <= i < |ms| && ms[i] == m;
      assert RowPairs(t, matchTo)[i] == p;
    }
  }

  lemma {:induction false} LevelPairsMember(toMatch: seq<Row>, matchTo: seq<Row>, level: string, p: Pair)
    ensures p in LevelPairs(toMatch, matchTo, level) <==>
      exists t, m :: t in toMatch && m in matchTo && t.level == level && ParsedNameMatch(t, m) && p == Pair(t.id, m.id)
  {
    if p in LevelPairs(toMatch, matchTo, level) {
      LevelPairsSound(toMatch, matchTo, level, p);
    }
    if t, m :| t in toMatch && m in matchTo && t.level == level && ParsedNameMatch(t, m) && p == Pair(t.id, m.id) {
      LevelPairsComplete(toMatch, matchTo, level, t, m);
    }
  }

  /** A pair of a LEVEL group comes from a row of that level and a row it matches. */
  lemma LevelPairsSound(toMatch: seq<Row>, matchTo: seq<Row>, level: string, p: Pair)
    requires p in LevelPairs(toMatch, matchTo, level)
    ensures exists t, m :: t in toMatch && m in matchTo && t.level == level && ParsedNameMatch(t, m) && p == Pair(t.id, m.id)
  {
    var ts := Seqs.Filter(toMatch, (t: Row) => t.level == level);
    var parts := Seqs.Map(ts, (t: Row) => RowPairs(t, matchTo));
    Seqs.FlattenMember(parts, p);
    var i :| 0 <= i < |parts| && p in parts[i];
    RowPairsMember(ts[i], matchTo, p);
    assert ts[i] in ts;
  }

  /** A row of the group's level and a row it matches give a pair of the group. */
  lemma LevelPairsComplete(toMatch: seq<Row>, matchTo: seq<Row>, level: string, t: Row, m: Row)
    requires t in toMatch && m in matchTo && t.level == level && ParsedNameMatch(t, m)
    ensures Pair(t.id, m.id) in LevelPairs(toMatch, matchTo, level)
  {
    var p := Pair(t.id, m.id);
    var ts := Seqs.Filter(toMatch, (t: Row) => t.level == level);
    var parts := Seqs.Map(ts, (t: Row) => RowPairs(t, matchTo));
    Seqs.FlattenMember(parts, p);
    assert t in ts;
    var i :| 0 <= i < |ts| && ts[i] == t;
    RowPairsMember(t, matchTo, p);
    assert p in parts[i];
  }

  lemma LevelGroupsMember(toMatch: seq<Row>, x: string)
    ensures x in LevelGroups(toMatch) <==> exists t :: t in toMatch && t.level == x
  {
    var levels := Seqs.Map(toMatch, (t: Row) => t.level);
    assert x in LevelGroups(toMatch) <==> x in multiset(LevelGroups(toMatch));
    if x in levels {
      var k :| 0 <= k < |toMatch| && levels[k] == x;
      assert toMatch[k] in toMatch;
    }
    if t :| t in toMatch && t.level == x {
      var k :| 0 <= k < |toMatch| && toMatch[k] == t;
      assert levels[k] == x;
    }
  }

  /** A pair is produced iff the reference column named by the to-match row's LEVEL equals its parsed name. */
  lemma {:induction false} MatchByParsedNameSpec(toMatch: seq<Row>, matchTo: seq<Row>, p: Pair)
    ensures p in MatchByParsedName(toMatch, matchTo) <==>
      exists t, m :: t in toMatch && m in matchTo && ParsedNameMatch(t, m) && p == Pair(t.id, m.id)
  {
    var levels := LevelGroups(toMatch);
    var parts := Seqs.Map(levels, (level: string) => LevelPairs(toMatch, matchTo, level));
    Seqs.FlattenMember(parts, p);
    if p in MatchByParsedName(toMatch, matchTo) {
      var i :| 0 <= i < |parts| && p in parts[i];
      LevelPairsMember(toMatch, matchTo, levels[i], p);
    }
    if t, m :| t in toMatch && m in matchTo && ParsedNameMatch(t, m) && p == Pair(t.id, m.id) {
      LevelGroupsMember(toMatch, t.level);
      var i :| 0 <= i < |levels| && levels[i] == t.level;
      LevelPairsMember(toMatch, matchTo, t.level, p);
      assert p in parts[i];
    }
  }

  // ----- strategy 2: parsed name after class-synonym substitution -----

  /** Class synonyms: a class prefix and the names to try in its place, in dictionary order. */
  type Synonyms = Dicts.Dict<string, seq<string>>

  const DefaultSynonyms: Synonyms := [("HexCer", ["GlcCer", "GalCer"])]

  /** The built-in table, overridden key by key by the caller's table. */
  function ProcClassSynonyms(caller: Option<Synonyms>): Synonyms
  {
    Dicts.Union(DefaultSynonyms, if caller.Some? then caller.value else [])
  }

  /** A caller entry wins over the built-in one; the built-in classes keep their place at the front. */
  lemma ProcClassSynonymsSpec(caller: Option<Synonyms>, cls: string)
    ensures var given := if caller.Some? then caller.value else [];
      && Dicts.Get(ProcClassSynonyms(caller), cls) ==
           (if Dicts.LastValue(given, cls).Some? then Dicts.LastValue(given, cls) else Dicts.Get(DefaultSynonyms, cls))
      && Dicts.Keys(ProcClassSynonyms(caller)) == Seqs.Distinct(["HexCer"] + Dicts.Keys(given))
  {
    var given := if caller.Some? then caller.value else [];
    Dicts.SetAllGet(DefaultSynonyms, given, cls);
    assert Dicts.Keys(DefaultSynonyms) == ["HexCer"];
    Dicts.SetAllKeys(DefaultSynonyms, given);
  }

  predicate ClassExists(toMatch: seq<Row>, cls: string) {
    exists t :: t in toMatch && StartsWith(t.parsedName, cls)
  }

  /** Every parsed name with each occurrence of `cls` replaced by `syn`; nothing else changes. */
  function RenameClass(toMatch: seq<Row>, cls: string, syn: string): (renamed: seq<Row>)
    ensures |renamed| == |toMatch|
    ensures forall i :: 0 <= i < |toMatch| ==>
      renamed[i] == toMatch[i].(parsedName := ReplaceAll(toMatch[i].parsedName, cls, syn))
  {
    Seqs.Map(toMatch, (t: Row) => t.(parsedName := ReplaceAll(t.parsedName, cls, syn)))
  }

  /** The (class, synonym) substitutions tried, in dictionary order; a class no parsed name starts with is skipped. */
  function SynonymRuns(toMatch: seq<Row>, synonyms: Synonyms): seq<(string, string)>
  {
    Seqs.Flatten(Seqs.Map(synonyms, (e: (string, seq<string>)) =>
      if ClassExists(toMatch, e.0) then Seqs.Map(e.1, (s: string) => (e.0, s)) else []))
  }

  function MatchByParsedNameWithSynonyms(toMatch: seq<Row>, matchTo: seq<Row>, synonyms: Synonyms): (pairs: seq<Pair>)
    ensures Seqs.NoDup(pairs)
  {
    Seqs.Distinct(Seqs.Flatten(Seqs.Map(SynonymRuns(toMatch, synonyms), (run: (string, string)) =>
      MatchByParsedName(RenameClass(toMatch, run.0, run.1), matchTo))))
  }

  lemma {:induction false} SynonymRunsMember(toMatch: seq<Row>, synonyms: Synonyms, cls: string, syn: string)
    ensures (cls, syn) in SynonymRuns(toMatch, synonyms) <==>
      ClassExists(toMatch, cls) && exists e :: e in synonyms && e.0 == cls && syn in e.1
  {
    var parts := Seqs.Map(synonyms, (e: (string, seq<string>)) =>
      if ClassExists(toMatch, e.0) then Seqs.Map(e.1, (s: string) => (e.0, s)) else []);
    Seqs.FlattenMember(parts, (cls, syn));
    if (cls, syn) in SynonymRuns(toMatch, synonyms) {
      var i :| 0 <= i < |parts| && (cls, syn) in parts[i];
      var j :| 0 <= j < |synonyms[i].1| && parts[i][j] == (cls, syn);
      assert synonyms[i] in synonyms;
    }
    if e :| e in synonyms && e.0 == cls && syn in e.1 {
      if ClassExists(toMatch, cls) {
        var i :| 0 <= i < |synonyms| && synonyms[i] == e;
        var j :| 0 <= j < |e.1| && e.1[j] == syn;
        assert parts[i][j] == (cls, syn);
      }
    }
  }

  /**
   * A pair comes from synonym matching iff, for some class that starts a
   * parsed name and one of its synonyms, it is a parsed-name match once
   * the class is replaced by the synonym.
   */
  lemma {:induction false} MatchByParsedNameWithSynonymsSpec(toMatch: seq<Row>, matchTo: seq<Row>, synonyms: Synonyms, p: Pair)
    ensures p in MatchByParsedNameWithSynonyms(toMatch, matchTo, synonyms) <==>
      exists cls, syn :: ClassExists(toMatch, cls) && (exists e :: e in synonyms && e.0 == cls && syn in e.1)
        && p in MatchByParsedName(RenameClass(toMatch, cls, syn), matchTo)
  {
    if p in MatchByParsedNameWithSynonyms(toMatch, matchTo, synonyms) {
      SynonymPairSound(toMatch, matchTo, synonyms, p);
    }
    if cls, syn :| (ClassExists(toMatch, cls) && (exists e :: e in synonyms && e.0 == cls && syn in e.1)
        && p in MatchByParsedName(RenameClass(toMatch, cls, syn), matchTo)) {
      SynonymPairComplete(toMatch, matchTo, synonyms, p, cls, syn);
    }
  }

  /** A synonym pair comes from renaming an existing class to one of its synonyms. */
  lemma SynonymPairSound(toMatch: seq<Row>, matchTo: seq<Row>, synonyms: Synonyms, p: Pair)
    requires p in MatchByParsedNameWithSynonyms(toMatch, matchTo, synonyms)
    ensures exists cls, syn ::
      ClassExists(toMatch, cls) && (exists e :: e in synonyms && e.0 == cls && syn in e.1)
      && p in MatchByParsedName(RenameClass(toMatch, cls, syn), matchTo)
  {
    var runs := SynonymRuns(toMatch, synonyms);
    var parts := Seqs.Map(runs, (run: (string, string)) => MatchByParsedName(RenameClass(toMatch, run.0, run.1), matchTo));
    Seqs.FlattenMember(parts, p);
    var i :| 0 <= i < |parts| && p in parts[i];
    SynonymRunsMember(toMatch, synonyms, runs[i].0, runs[i].1);
  }

  /** Renaming an existing class to one of its synonyms contributes its pairs. */
  lemma SynonymPairComplete(toMatch: seq<Row>, matchTo: seq<Row>, synonyms: Synonyms, p: Pair, cls: string, syn: string)
    requires ClassExists(toMatch, cls) && (exists e :: e in synonyms && e.0 == cls && syn in e.1)
    requires p in MatchByParsedName(RenameClass(toMatch, cls, syn), matchTo)
    ensures p in MatchByParsedNameWithSynonyms(toMatch, matchTo, synonyms)
  {
    var runs := SynonymRuns(toMatch, synonyms);
    var parts := Seqs.Map(runs, (run: (string, string)) => MatchByParsedName(RenameClass(toMatch, run.0, run.1), matchTo));
    Seqs.FlattenMember(parts, p);
    SynonymRunsMember(toMatch, synonyms, cls, syn);
    var i :| 0 <= i < |runs| && runs[i] == (cls, syn);
    assert p in parts[i];
  }

  /** Renaming touches only the parsed names that contain the class. */
  lemma RenameClassUntouched(toMatch: seq<Row>, cls: string, syn: string, i: nat)
    requires i < |toMatch| && |cls| > 0 && !Contains(toMatch[i].parsedName, cls)
    ensures RenameClass(toMatch, cls, syn)[i] == toMatch[i]
  {
    ReplaceAllAbsent(toMatch[i].parsedName, cls, syn);
  }

  lemma RenameClassIds(toMatch: seq<Row>, cls: string, syn: string)
    ensures Ids(RenameClass(toMatch, cls, syn)) == Ids(toMatch)
  {
  }

  // ----- strategy 3: original name -----

  function OriginalNames(rows: seq<Row>): (names: seq<string>)
    ensures |names| == |rows|
    ensures forall i :: 0 <= i < |rows| ==> names[i] == rows[i].originalName
  {
    Seqs.Map(rows, (r: Row) => r.originalName)
  }

  function OriginalNameRowPairs(t: Row, matchTo: seq<Row>): seq<Pair>
  {
    Seqs.Map(Seqs.Filter(matchTo, (m: Row) => m.originalName == t.originalName), (m: Row) => Pair(t.id, m.id))
  }

  /**
   * Left merge on the original name, validated one-to-many: a repeated
   * to-match original name is a merge error. Every row takes part, parse
   * failures and empty names included.
   */
  function MatchByOriginalName(toMatch: seq<Row>, matchTo: seq<Row>): (r: Result<seq<Pair>>)
    ensures r.Err? <==> !Seqs.NoDup(OriginalNames(toMatch))
    ensures r.Err? ==> r.error == MergeError
  {
    if !Seqs.NoDup(OriginalNames(toMatch)) then Err(MergeError)
    else Ok(Seqs.Flatten(Seqs.Map(toMatch, (t: Row) => OriginalNameRowPairs(t, matchTo))))
  }

  lemma {:induction false} MatchByOriginalNameSpec(toMatch: seq<Row>, matchTo: seq<Row>, p: Pair)
    requires MatchByOriginalName(toMatch, matchTo).Ok?
    ensures p in MatchByOriginalName(toMatch, matchTo).value <==>
      exists t, m :: t in toMatch && m in matchTo && t.originalName == m.originalName && p == Pair(t.id, m.id)
  {
    var parts := Seqs.Map(toMatch, (t: Row) => OriginalNameRowPairs(t, matchTo));
    Seqs.FlattenMember(parts, p);
    if p in MatchByOriginalName(toMatch, matchTo).value {
      var i :| 0 <= i < |parts| && p in parts[i];
      OriginalNameRowPairsMember(toMatch[i], matchTo, p);
      assert toMatch[i] in toMatch;
    }
    if t, m :| t in toMatch && m in matchTo && t.originalName == m.originalName && p == Pair(t.id, m.id) {
      var i :| 0 <= i < |toMatch| && toMatch[i] == t;
      OriginalNameRowPairsMember(t, matchTo, p);
      assert p in parts[i];
    }
  }

  /** The pairs of one to-match row: its label with the label of every row of the same original name. */
  lemma OriginalNameRowPairsMember(t: Row, matchTo: seq<Row>, p: Pair)
    ensures p in OriginalNameRowPairs(t, matchTo) <==>
      exists m :: m in matchTo && t.originalName == m.originalName && p == Pair(t.id, m.id)
  {
    var ms := Seqs.Filter(matchTo, (m: Row) => m.originalName == t.originalName);
    if p in OriginalNameRowPairs(t, matchTo) {
      var j :| 0 <= j < |ms| && OriginalNameRowPairs(t, matchTo)[j] == p;
      assert ms[j] in ms;
    }
    if m :| m in matchTo && t.originalName == m.originalName && p == Pair(t.id, m.id) {
      assert m in ms;
      var j :| 0 <= j < |ms| && ms[j] == m;
      assert OriginalNameRowPairs(t, matchTo)[j] == p;
    }
  }

  // ----- combining the strategies -----

  /**
   * The non-empty strategy tables concatenated, each pair kept once at its
   * first position. With all three empty there is nothing to concatenate,
   * and pandas raises ValueError.
   */
  function CombineCaseMatches(generic: seq<Pair>, synonym: seq<Pair>, original: seq<Pair>): (r: Result<seq<Pair>>)
    ensures r.Err? <==> generic == [] && synonym == [] && original == []
    ensures r.Err? ==> r.error == ValueError
    ensures r.Ok? ==> Seqs.NoDup(r.value)
    ensures r.Ok? ==> forall p :: p in r.value <==> p in generic || p in synonym || p in original
  {
    if generic == [] && synonym == [] && original == [] then Err(ValueError)
    else Ok(Seqs.Distinct(generic + synonym + original))
  }

  function MatchCases(toMatch: seq<Row>, matchTo: seq<Row>, caller: Option<Synonyms>): Result<seq<Pair>>
  {
    var generic := MatchByParsedName(toMatch, matchTo);
    var synonym := MatchByParsedNameWithSynonyms(toMatch, matchTo, ProcClassSynonyms(caller));
    match MatchByOriginalName(toMatch, matchTo)
    case Err(e) => Err(e)
    case Ok(original) => CombineCaseMatches(generic, synonym, original)
  }

  /** Every candidate pair names a to-match row and a reference row, and no pair repeats. */
  lemma MatchCasesFrom(toMatch: seq<Row>, matchTo: seq<Row>, caller: Option<Synonyms>)
    requires MatchCases(toMatch, matchTo, caller).Ok?
    ensures PairsFrom(MatchCases(toMatch, matchTo, caller).value, toMatch, matchTo)
    ensures Seqs.NoDup(MatchCases(toMatch, matchTo, caller).value)
  {
    var synonyms := ProcClassSynonyms(caller);
    forall p | p in MatchCases(toMatch, matchTo, caller).value
      ensures p.toMatch in Ids(toMatch) && p.matchTo in Ids(matchTo)
    {
      if p in MatchByParsedName(toMatch, matchTo) {
        MatchByParsedNameSpec(toMatch, matchTo, p);
        var t, m :| t in toMatch && m in matchTo && ParsedNameMatch(t, m) && p == Pair(t.id, m.id);
        IdsMember(toMatch, t);
        IdsMember(matchTo, m);
      } else if p in MatchByParsedNameWithSynonyms(toMatch, matchTo, synonyms) {
        MatchByParsedNameWithSynonymsSpec(toMatch, matchTo, synonyms, p);
        var cls, syn :| ClassExists(toMatch, cls) && (exists e :: e in synonyms && e.0 == cls && syn in e.1)
          && p in MatchByParsedName(RenameClass(toMatch, cls, syn), matchTo);
        var renamed := RenameClass(toMatch, cls, syn);
        MatchByParsedNameSpec(renamed, matchTo, p);
        var t, m :| t in renamed && m in matchTo && ParsedNameMatch(t, m) && p == Pair(t.id, m.id);
        IdsMember(renamed, t);
        RenameClassIds(toMatch, cls, syn);
        IdsMember(matchTo, m);
      } else {
        MatchByOriginalNameSpec(toMatch, matchTo, p);
        var t, m :| t in toMatch && m in matchTo && t.originalName == m.originalName && p == Pair(t.id, m.id);
        IdsMember(toMatch, t);
        IdsMember(matchTo, m);
      }
    }
  }

  // ----- rows without any candidate -----

  /** The name columns of a to-match row. */
  datatype NameRow = NameRow(parsedName: string, originalName: string)

  function NameOf(t: Row): NameRow { NameRow(t.parsedName, t.originalName) }

  function ParsedNoMatchRows(toMatch: seq<Row>, pairs: seq<Pair>): seq<Row>
  {
    Seqs.Filter(toMatch, (t: Row) => t.parsedName != "" && t.id !in ToMatchIds(pairs))
  }

  function OriginalNameNoMatchRows(toMatch: seq<Row>, pairs: seq<Pair>): seq<Row>
  {
    Seqs.Filter(toMatch, (t: Row) => t.parsedName == "" && t.id !in ToMatchIds(pairs))
  }

  function PairedRows(toMatch: seq<Row>, pairs: seq<Pair>): seq<Row>
  {
    Seqs.Filter(toMatch, (t: Row) => t.id in ToMatchIds(pairs))
  }

  /** Rows with a parsed name and no pair, in table order. */
  function ParsedNoMatch(toMatch: seq<Row>, pairs: seq<Pair>): seq<NameRow>
  {
    Seqs.Map(ParsedNoMatchRows(toMatch, pairs), NameOf)
  }

  /** Rows without a parsed name and no pair, in table order. */
  function OriginalNameNoMatch(toMatch: seq<Row>, pairs: seq<Pair>): seq<NameRow>
  {
    Seqs.Map(OriginalNameNoMatchRows(toMatch, pairs), NameOf)
  }

  /**
   * Every to-match row is paired, parsed-no-match or original-name-no-match,
   * and exactly one of them; the three sizes add up to the table's.
   */
  lemma {:induction false} NoMatchPartition(toMatch: seq<Row>, pairs: seq<Pair>)
    ensures forall t :: t in toMatch ==>
      (t in PairedRows(toMatch, pairs) <==> t.id in ToMatchIds(pairs))
      && (t in ParsedNoMatchRows(toMatch, pairs) <==> t.parsedName != "" && t.id !in ToMatchIds(pairs))
      && (t in OriginalNameNoMatchRows(toMatch, pairs) <==> t.parsedName == "" && t.id !in ToMatchIds(pairs))
    ensures |PairedRows(toMatch, pairs)| + |ParsedNoMatchRows(toMatch, pairs)| + |OriginalNameNoMatchRows(toMatch, pairs)| == |toMatch|
  {
    if |toMatch| > 0 {
      var rest := toMatch[1..];
      NoMatchPartition(rest, pairs);
      assert toMatch == [toMatch[0]] + rest;
      Seqs.FilterAppend([toMatch[0]], rest, (t: Row) => t.id in ToMatchIds(pairs));
      Seqs.FilterAppend([toMatch[0]], rest, (t: Row) => t.parsedName != "" && t.id !in ToMatchIds(pairs));
      Seqs.FilterAppend([toMatch[0]], rest, (t: Row) => t.parsedName == "" && t.id !in ToMatchIds(pairs));
    }
  }

  // ----- FA / LCB constraints -----

  /** The FA and LCB whitelists. */
  datatype Constraints = Constraints(fas: seq<string>, lcbs: seq<string>)

  /** Both whitelists must be non-empty. */
  function MakeConstraints(fas: seq<string>, lcbs: seq<string>): (r: Result<Constraints>)
    ensures r.Ok? <==> |fas| > 0 && |lcbs| > 0
    ensures r.Ok? ==> r.value.fas == fas && r.value.lcbs == lcbs
    ensures r.Err? ==> r.error == ValueError
  {
    if |fas| == 0 then Err(ValueError)
    else if |lcbs| == 0 then Err(ValueError)
    else Ok(Constraints(fas, lcbs))
  }

  predicate BondAlterationAt(s: string, i: nat) {
    i + 1 < |s| && (s[i] == 'O' || s[i] == 'P') && s[i + 1] == '-'
  }

  /** Deletes each `O-` / `P-`, scanning left to right once, without rescanning what the deletion joins. */
  function RemoveBondAlterations(s: string): (r: string)
    ensures |r| <= |s|
  {
    if |s| < 2 then s
    else if BondAlterationAt(s, 0) then RemoveBondAlterations(s[2..])
    else [s[0]] + RemoveBondAlterations(s[1..])
  }

  /** The length of the run of decimal digits at the front of `s`. */
  function DigitRun(s: string): (n: nat)
    ensures n <= |s|
    ensures forall i :: 0 <= i < n ==> IsDecimalDigit(s[i])
    ensures n < |s| ==> !IsDecimalDigit(s[n])
  {
    if |s| == 0 || !IsDecimalDigit(s[0]) then 0 else 1 + DigitRun(s[1..])
  }

  /** `;<digits>OH` starts at position i; its length is then HydroxylationLength. */
  predicate HydroxylationAt(s: string, i: nat) {
    i < |s| && s[i] == ';' && DigitRun(s[i + 1..]) >= 1
    && i + 1 + DigitRun(s[i + 1..]) + 2 <= |s|
    && s[i + 1 + DigitRun(s[i + 1..])] == 'O' && s[i + 2 + DigitRun(s[i + 1..])] == 'H'
  }

  function HydroxylationLength(s: string, i: nat): nat
    requires i < |s|
  {
    DigitRun(s[i + 1..]) + 3
  }

  /** Deletes each `;<digits>OH`, scanning left to right once. */
  function RemoveHydroxylations(s: string): (r: string)
    ensures |r| <= |s|
    decreases |s|
  {
    if |s| == 0 then s
    else if HydroxylationAt(s, 0) then RemoveHydroxylations(s[HydroxylationLength(s, 0)..])
    else [s[0]] + RemoveHydroxylations(s[1..])
  }

  /** Bond alterations are removed first, hydroxylations second. */
  function NormalizeFa(fa: string): string
  {
    RemoveHydroxylations(RemoveBondAlterations(fa))
  }

  predicate FaPasses(fa: string, allowed: seq<string>) {
    var n := NormalizeFa(fa);
    n == "" || n == NotApplicable || n == "0:0" || n in allowed
  }

  /** The LCB is compared as it is, without normalisation. */
  predicate LcbPasses(lcb: string, allowed: seq<string>) {
    lcb == "" || lcb == NotApplicable || lcb in allowed
  }

  /** A reference row passes when all four FA slots and its LCB pass. */
  predicate RowPasses(m: Row, c: Constraints) {
    FaPasses(m.fa1, c.fas) && FaPasses(m.fa2, c.fas) && FaPasses(m.fa3, c.fas) && FaPasses(m.fa4, c.fas)
    && LcbPasses(m.lcb, c.lcbs)
  }

  /** A string without `O-` / `P-` is left as it is. */
  lemma {:induction false} RemoveBondAlterationsAbsent(s: string)
    requires forall i: nat :: !BondAlterationAt(s, i)
    ensures RemoveBondAlterations(s) == s
  {
    if |s| >= 2 {
      assert !BondAlterationAt(s, 0);
      forall i: nat ensures !BondAlterationAt(s[1..], i) {
        assert !BondAlterationAt(s, i + 1);
      }
      RemoveBondAlterationsAbsent(s[1..]);
      assert s == [s[0]] + s[1..];
    }
  }

  /** A string without `;<digits>OH` is left as it is. */
  lemma {:induction false} RemoveHydroxylationsAbsent(s: string)
    requires forall i: nat :: !HydroxylationAt(s, i)
    ensures RemoveHydroxylations(s) == s
  {
    if |s| > 0 {
      assert !HydroxylationAt(s, 0);
      forall i: nat ensures !HydroxylationAt(s[1..], i) {
        if i < |s[1..]| {
          assert s[1..][i + 1..] == s[i + 2..];
        }
        assert !HydroxylationAt(s, i + 1);
      }
      RemoveHydroxylationsAbsent(s[1..]);
      assert s == [s[0]] + s[1..];
    }
  }

  /** A deleted `O-` / `P-` does not reappear by itself: `OO--` becomes `O-`. */
  lemma SinglePassExample()
    ensures RemoveBondAlterations("OO--") == "O-"
    ensures RemoveBondAlterations("O-16:0") == "16:0"
  {
    assert BondAlterationAt("OO--", 1);
    assert "OO--"[1..] == "O--";
    assert "O--"[2..] == "-";
    assert "O-16:0"[2..] == "16:0";
    RemoveBondAlterationsAbsent("16:0");
  }

  /** The slot sentinel MISSING gets no exemption: it passes only if it is itself whitelisted. */
  lemma MissingNotExempt(allowed: seq<string>)
    ensures FaPasses(Missing, allowed) <==> Missing in allowed
    ensures LcbPasses(Missing, allowed) <==> Missing in allowed
  {
    forall i: nat ensures !BondAlterationAt(Missing, i) { }
    RemoveBondAlterationsAbsent(Missing);
    forall i: nat ensures !HydroxylationAt(Missing, i) { }
    RemoveHydroxylationsAbsent(Missing);
  }

  /** An ether or plasmalogen prefix on an otherwise plain chain does not change the verdict. */
  lemma EtherPrefixIgnored(core: string, allowed: seq<string>)
    requires forall i: nat :: !BondAlterationAt(core, i)
    requires forall i: nat :: !HydroxylationAt(core, i)
    ensures FaPasses("O-" + core, allowed) <==> FaPasses(core, allowed)
    ensures FaPasses("P-" + core, allowed) <==> FaPasses(core, allowed)
  {
    RemoveBondAlterationsAbsent(core);
    assert ("O-" + core)[2..] == core;
    assert ("P-" + core)[2..] == core;
    assert BondAlterationAt("O-" + core, 0) && BondAlterationAt("P-" + core, 0);
  }

  // ----- filtering the candidates -----

  /** Whether the reference row a pair names passes; a label not in the reference table never passes. */
  predicate PairPasses(p: Pair, matchTo: seq<Row>, c: Constraints) {
    var m := Find(matchTo, p.matchTo);
    m.Some? && RowPasses(m.value, c)
  }

  /** The candidates whose reference row passes, in candidate order. */
  function ConstrainedPairs(pairs: seq<Pair>, matchTo: seq<Row>, c: Constraints): seq<Pair>
  {
    Seqs.Filter(pairs, (p: Pair) => PairPasses(p, matchTo, c))
  }

  /** One row of the matches table: the pair and the names of both sides. */
  datatype MatchInfo = MatchInfo(
    toMatch: string, matchTo: string,
    toMatchParsedName: string, toMatchOriginalName: string,
    matchToParsedName: string, matchToOriginalName: string)

  /** The names of both sides of a pair; an absent label would leave NaN, which GenMatchesInfo rejects. */
  function InfoOf(p: Pair, toMatch: seq<Row>, matchTo: seq<Row>): (info: MatchInfo)
    ensures info.toMatch == p.toMatch && info.matchTo == p.matchTo
  {
    var t := Find(toMatch, p.toMatch);
    var m := Find(matchTo, p.matchTo);
    MatchInfo(p.toMatch, p.matchTo,
      if t.Some? then t.value.parsedName else "", if t.Some? then t.value.originalName else "",
      if m.Some? then m.value.parsedName else "", if m.Some? then m.value.originalName else "")
  }

  /**
   * The pairs, in order, with the names of both sides merged in. A label
   * missing from either table leaves a NaN name, and the table's check
   * rejects NaN with a ValueError.
   */
  function GenMatchesInfo(pairs: seq<Pair>, toMatch: seq<Row>, matchTo: seq<Row>): (r: Result<seq<MatchInfo>>)
    ensures r.Ok? <==> PairsFrom(pairs, toMatch, matchTo)
    ensures r.Err? ==> r.error == ValueError
    ensures r.Ok? ==> |r.value| == |pairs|
    ensures r.Ok? ==> forall i :: 0 <= i < |pairs| ==>
      var t := Find(toMatch, pairs[i].toMatch).value;
      var m := Find(matchTo, pairs[i].matchTo).value;
      r.value[i] == MatchInfo(pairs[i].toMatch, pairs[i].matchTo, t.parsedName, t.originalName, m.parsedName, m.originalName)
  {
    if !PairsFrom(pairs, toMatch, matchTo) then Err(ValueError)
    else Ok(Seqs.Map(pairs, (p: Pair) => InfoOf(p, toMatch, matchTo)))
  }

  /** The matches rows whose reference row passes; an empty table is returned as it is. */
  function ConstrainedMatchesInfo(info: seq<MatchInfo>, matchTo: seq<Row>, c: Constraints): seq<MatchInfo>
  {
    if |info| == 0 then info
    else Seqs.Filter(info, (i: MatchInfo) => PairPasses(Pair(i.toMatch, i.matchTo), matchTo, c))
  }

  /** The constrained matches table is the matches table of exactly the passing pairs, in pair order. */
  lemma ConstrainedMatchesInfoSpec(pairs: seq<Pair>, toMatch: seq<Row>, matchTo: seq<Row>, c: Constraints)
    requires PairsFrom(pairs, toMatch, matchTo)
    ensures PairsFrom(ConstrainedPairs(pairs, matchTo, c), toMatch, matchTo)
    ensures ConstrainedMatchesInfo(GenMatchesInfo(pairs, toMatch, matchTo).value, matchTo, c)
         == GenMatchesInfo(ConstrainedPairs(pairs, matchTo, c), toMatch, matchTo).value
  {
    var f := (p: Pair) => InfoOf(p, toMatch, matchTo);
    var g := (i: MatchInfo) => PairPasses(Pair(i.toMatch, i.matchTo), matchTo, c);
    var h := (p: Pair) => PairPasses(p, matchTo, c);
    Seqs.FilterMap(pairs, f, g, h);
  }

  /** The candidates of one to-match label, in candidate order. */
  function GroupPairs(pairs: seq<Pair>, id: string): seq<Pair>
  {
    Seqs.Filter(pairs, (p: Pair) => p.toMatch == id)
  }

  predicate AnyPassed(pairs: seq<Pair>, id: string, matchTo: seq<Row>, c: Constraints) {
    exists p :: p in pairs && p.toMatch == id && PairPasses(p, matchTo, c)
  }

  /** The FA values of a reference row that fail the whitelist, as they are written (not normalised). */
  function FaViolationsOf(p: Pair, matchTo: seq<Row>, c: Constraints): seq<string>
  {
    match Find(matchTo, p.matchTo)
    case None => []
    case Some(m) => Seqs.Filter(Fas(m), (fa: string) => !FaPasses(fa, c.fas))
  }

  function LcbViolationsOf(p: Pair, matchTo: seq<Row>, c: Constraints): seq<string>
  {
    match Find(matchTo, p.matchTo)
    case None => []
    case Some(m) => if LcbPasses(m.lcb, c.lcbs) then [] else [m.lcb]
  }

  /** A to-match lipid none of whose candidates passed, with the distinct offending values. */
  datatype FilteredLipid = FilteredLipid(
    parsedName: string, originalName: string,
    faViolations: seq<string>, lcbViolations: seq<string>)

  /** The to-match labels with candidates, in groupby order, none of whose candidates passed. */
  function FilteredIds(pairs: seq<Pair>, matchTo: seq<Row>, c: Constraints): seq<string>
  {
    Seqs.Filter(Sort(Seqs.Distinct(ToMatchIds(pairs))), (id: string) => !AnyPassed(pairs, id, matchTo, c))
  }

  function FilteredEntry(pairs: seq<Pair>, id: string, toMatch: seq<Row>, matchTo: seq<Row>, c: Constraints): FilteredLipid
  {
    var group := GroupPairs(pairs, id);
    var t := Find(toMatch, id);
    FilteredLipid(
      if t.Some? then t.value.parsedName else "",
      if t.Some? then t.value.originalName else "",
      Seqs.Distinct(Seqs.Flatten(Seqs.Map(group, (p: Pair) => FaViolationsOf(p, matchTo, c)))),
      Seqs.Distinct(Seqs.Flatten(Seqs.Map(group, (p: Pair) => LcbViolationsOf(p, matchTo, c)))))
  }

  function FilteredLipids(pairs: seq<Pair>, toMatch: seq<Row>, matchTo: seq<Row>, c: Constraints): (r: seq<FilteredLipid>)
    ensures |r| == |FilteredIds(pairs, matchTo, c)|
  {
    if |pairs| == 0 then []
    else Seqs.Map(FilteredIds(pairs, matchTo, c), (id: string) => FilteredEntry(pairs, id, toMatch, matchTo, c))
  }

  /** A label is filtered iff it has candidates and none of them passed; the labels are strictly increasing. */
  lemma FilteredIdsSpec(pairs: seq<Pair>, matchTo: seq<Row>, c: Constraints, id: string)
    ensures id in FilteredIds(pairs, matchTo, c) <==> id in ToMatchIds(pairs) && !AnyPassed(pairs, id, matchTo, c)
    ensures StrictlySorted(FilteredIds(pairs, matchTo, c))
  {
    var d := Seqs.Distinct(ToMatchIds(pairs));
    SortDistinct(d);
    var sorted := Sort(d);
    var f := (id: string) => !AnyPassed(pairs, id, matchTo, c);
    FilterSubsequenceSorted(sorted, f);
  }

  lemma {:induction false} FilterSubsequenceSorted(s: seq<string>, f: string -> bool)
    requires StrictlySorted(s)
    ensures StrictlySorted(Seqs.Filter(s, f))
  {
    if |s| > 0 {
      FilterSubsequenceSorted(s[1..], f);
      assert s == [s[0]] + s[1..];
      Seqs.FilterAppend([s[0]], s[1..], f);
      var rest := Seqs.Filter(s[1..], f);
      forall y | y in rest ensures LexLess(s[0], y) {
        var j :| 0 <= j < |s[1..]| && s[1..][j] == y;
        assert s[j + 1] == y;
      }
    }
  }

  /** Among labels with candidates, a label is accepted (some candidate passed) iff it is not filtered. */
  lemma AcceptedOrFiltered(pairs: seq<Pair>, matchTo: seq<Row>, c: Constraints, id: string)
    requires id in ToMatchIds(pairs)
    ensures id in ToMatchIds(ConstrainedPairs(pairs, matchTo, c)) <==> id !in FilteredIds(pairs, matchTo, c)
  {
    FilteredIdsSpec(pairs, matchTo, c, id);
    ToMatchIdsMember(ConstrainedPairs(pairs, matchTo, c), id);
  }

  /** Each listed FA violation fails the whitelist and is a slot value of a reference row of that lipid's candidates. */
  lemma FaViolationsSound(pairs: seq<Pair>, id: string, toMatch: seq<Row>, matchTo: seq<Row>, c: Constraints, v: string)
    requires v in FilteredEntry(pairs, id, toMatch, matchTo, c).faViolations
    ensures !FaPasses(v, c.fas)
    ensures exists p, m :: p in pairs && p.toMatch == id && Find(matchTo, p.matchTo) == Some(m) && v in Fas(m)
  {
    var group := GroupPairs(pairs, id);
    var parts := Seqs.Map(group, (p: Pair) => FaViolationsOf(p, matchTo, c));
    Seqs.FlattenMember(parts, v);
    var i :| 0 <= i < |parts| && v in parts[i];
    var p := group[i];
    assert p in group;
    var m := Find(matchTo, p.matchTo).value;
    assert v in Fas(m);
  }

  /** Each listed LCB violation fails the whitelist and is the LCB of a reference row of that lipid's candidates. */
  lemma LcbViolationsSound(pairs: seq<Pair>, id: string, toMatch: seq<Row>, matchTo: seq<Row>, c: Constraints, v: string)
    requires v in FilteredEntry(pairs, id, toMatch, matchTo, c).lcbViolations
    ensures !LcbPasses(v, c.lcbs)
    ensures exists p, m :: p in pairs && p.toMatch == id && Find(matchTo, p.matchTo) == Some(m) && v == m.lcb
  {
    var group := GroupPairs(pairs, id);
    var parts := Seqs.Map(group, (p: Pair) => LcbViolationsOf(p, matchTo, c));
    Seqs.FlattenMember(parts, v);
    var i :| 0 <= i < |parts| && v in parts[i];
    var p := group[i];
    assert p in group;
    LcbViolationOf(p, matchTo, c, v);
    assert p in pairs && p.toMatch == id && Find(matchTo, p.matchTo) == Some(Find(matchTo, p.matchTo).value);
  }

  /** The LCB violation of one candidate is its reference row's LCB, which fails the whitelist. */
  lemma LcbViolationOf(p: Pair, matchTo: seq<Row>, c: Constraints, v: string)
    requires v in LcbViolationsOf(p, matchTo, c)
    ensures Find(matchTo, p.matchTo).Some? && v == Find(matchTo, p.matchTo).value.lcb
    ensures !LcbPasses(v, c.lcbs)
  {
  }

  /** A filtered lipid always lists at least one violation: every candidate failed somewhere. */
  lemma FilteredEntryNonEmpty(pairs: seq<Pair>, id: string, toMatch: seq<Row>, matchTo: seq<Row>, c: Constraints)
    requires PairsFrom(pairs, toMatch, matchTo)
    requires id in FilteredIds(pairs, matchTo, c)
    ensures var e := FilteredEntry(pairs, id, toMatch, matchTo, c);
      |e.faViolations| + |e.lcbViolations| > 0
  {
    FilteredIdsSpec(pairs, matchTo, c, id);
    ToMatchIdsMember(pairs, id);
    var p :| p in pairs && p.toMatch == id;
    var m := Find(matchTo, p.matchTo).value;
    assert !RowPasses(m, c);
    var group := GroupPairs(pairs, id);
    assert p in group;
    var i :| 0 <= i < |group| && group[i] == p;
    FailingRowViolates(p, matchTo, c);
    if |FaViolationsOf(p, matchTo, c)| > 0 {
      FaViolationListed(group, i, matchTo, c, FaViolationsOf(p, matchTo, c)[0]);
    } else {
      LcbViolationListed(group, i, matchTo, c, LcbViolationsOf(p, matchTo, c)[0]);
    }
  }

  /** A candidate whose reference row fails the constraints violates the FA whitelist or the LCB whitelist. */
  lemma FailingRowViolates(p: Pair, matchTo: seq<Row>, c: Constraints)
    requires Find(matchTo, p.matchTo).Some? && !RowPasses(Find(matchTo, p.matchTo).value, c)
    ensures |FaViolationsOf(p, matchTo, c)| > 0 || |LcbViolationsOf(p, matchTo, c)| > 0
  {
    var m := Find(matchTo, p.matchTo).value;
    if LcbPasses(m.lcb, c.lcbs) {
      var fa :| fa in Fas(m) && !FaPasses(fa, c.fas);
      assert fa in FaViolationsOf(p, matchTo, c);
    }
  }

  /** An FA value that one candidate of the group violates is among the group's FA violations. */
  lemma FaViolationListed(group: seq<Pair>, i: nat, matchTo: seq<Row>, c: Constraints, fa: string)
    requires i < |group| && fa in FaViolationsOf(group[i], matchTo, c)
    ensures fa in Seqs.Distinct(Seqs.Flatten(Seqs.Map(group, (p: Pair) => FaViolationsOf(p, matchTo, c))))
    ensures |Seqs.Distinct(Seqs.Flatten(Seqs.Map(group, (p: Pair) => FaViolationsOf(p, matchTo, c))))| > 0
  {
    var faParts := Seqs.Map(group, (p: Pair) => FaViolationsOf(p, matchTo, c));
    assert fa in faParts[i];
    Seqs.FlattenMember(faParts, fa);
  }

  /** An LCB value that one candidate of the group violates is among the group's LCB violations. */
  lemma LcbViolationListed(group: seq<Pair>, i: nat, matchTo: seq<Row>, c: Constraints, lcb: string)
    requires i < |group| && lcb in LcbViolationsOf(group[i], matchTo, c)
    ensures lcb in Seqs.Distinct(Seqs.Flatten(Seqs.Map(group, (p: Pair) => LcbViolationsOf(p, matchTo, c))))
    ensures |Seqs.Distinct(Seqs.Flatten(Seqs.Map(group, (p: Pair) => LcbViolationsOf(p, matchTo, c))))| > 0
  {
    var lcbParts := Seqs.Map(group, (p: Pair) => LcbViolationsOf(p, matchTo, c));
    assert lcb in lcbParts[i];
    Seqs.FlattenMember(lcbParts, lcb);
  }

  // ----- the whole match -----

  datatype MatchingResults = MatchingResults(
    matchesInfo: seq<MatchInfo>,
    parsedNoMatch: seq<NameRow>,
    originalNameNoMatch: seq<NameRow>,
    constrainedMatchesInfo: seq<MatchInfo>,
    filteredLipids: seq<FilteredLipid>)

  /** Candidates, the unfiltered tables, then the constraint filter; a merge error propagates. */
  function PerformConstrainedMatch(toMatch: ParsedDataset, matchTo: ParsedDataset, c: Constraints,
                                   caller: Option<Synonyms>): Result<MatchingResults>
  {
    var T := toMatch.rows;
    var R := matchTo.rows;
    match MatchCases(T, R, caller)
    case Err(e) => Err(e)
    case Ok(pairs) =>
      MatchCasesFrom(T, R, caller);
      var info := GenMatchesInfo(pairs, T, R).value;
      Ok(MatchingResults(
        info,
        ParsedNoMatch(T, pairs),
        OriginalNameNoMatch(T, pairs),
        ConstrainedMatchesInfo(info, R, c),
        FilteredLipids(pairs, T, R, c)))
  }

  /**
   * The four outcomes of a to-match row: accepted (a candidate passed),
   * filtered (candidates, none passed), parsed-no-match, original-name-no-match.
   * Exactly one applies to each row.
   */
  lemma FourWayPartition(toMatch: ParsedDataset, matchTo: ParsedDataset, c: Constraints, caller: Option<Synonyms>, t: Row)
    requires MatchCases(toMatch.rows, matchTo.rows, caller).Ok?
    requires t in toMatch.rows
    ensures var pairs := MatchCases(toMatch.rows, matchTo.rows, caller).value;
      var accepted := t.id in ToMatchIds(ConstrainedPairs(pairs, matchTo.rows, c));
      var filtered := t.id in FilteredIds(pairs, matchTo.rows, c);
      var parsedNoMatch := t in ParsedNoMatchRows(toMatch.rows, pairs);
      var originalNoMatch := t in OriginalNameNoMatchRows(toMatch.rows, pairs);
      (if accepted then 1 else 0) + (if filtered then 1 else 0)
      + (if parsedNoMatch then 1 else 0) + (if originalNoMatch then 1 else 0) == 1
  {
    var pairs := MatchCases(toMatch.rows, matchTo.rows, caller).value;
    NoMatchPartition(toMatch.rows, pairs);
    FilteredIdsSpec(pairs, matchTo.rows, c, t.id);
    ToMatchIdsMember(ConstrainedPairs(pairs, matchTo.rows, c), t.id);
    ToMatchIdsMember(pairs, t.id);
    if t.id in ToMatchIds(pairs) {
      AcceptedOrFiltered(pairs, matchTo.rows, c, t.id);
    }
  }
}
