/**
 * The summary of one matching run: counts of lipids and of the three kinds
 * of failure, the failure proportion, the report dictionaries, the printed
 * report and the table of failed lipids with their reasons.
 */
module MatchingSummary {
  import opened Wrappers
  import opened PyStrings
  import Seqs
  import Dicts
  import opened Parsing
  import opened Matching

  /** A non-negative fraction `num / den`; the source keeps its float value. */
  datatype Fraction = Fraction(num: nat, den: nat)

  datatype Statistics = Statistics(
    numLipids: nat,
    numParsingFailures: nat,
    numParsedNoMatchLipids: nat,
    numOriginalNameNoMatchLipids: nat,
    numFilteredLipids: nat,
    numFailures: nat,
    failureProportion: Fraction)

  /**
   * The counts of a matching run over `ds`. The proportion divides by the
   * number of lipids, so an empty dataset raises ZeroDivisionError.
   */
  function SetStatistics(ds: ParsedDataset, res: MatchingResults): (r: Result<Statistics>)
    ensures r.Err? <==> |ds.rows| == 0
    ensures r.Err? ==> r.error == ZeroDivisionError
    ensures r.Ok? ==> (r.value.numLipids == |ds.rows|
      && r.value.numParsingFailures == |FailureRows(ds)|
      && r.value.numParsedNoMatchLipids == |res.parsedNoMatch|
      && r.value.numOriginalNameNoMatchLipids == |res.originalNameNoMatch|
      && r.value.numFilteredLipids == |res.filteredLipids|)
    ensures r.Ok? ==> (r.value.numFailures == r.value.numParsedNoMatchLipids
      + r.value.numOriginalNameNoMatchLipids + r.value.numFilteredLipids)
    ensures r.Ok? ==> (r.value.failureProportion.den == r.value.numLipids > 0
      && r.value.failureProportion.num == r.value.numFailures)
  {
    var numLipids := |ds.rows|;
    var numFailures := |res.parsedNoMatch| + |res.originalNameNoMatch| + |res.filteredLipids|;
    if numLipids == 0 then Err(ZeroDivisionError)
    else Ok(Statistics(numLipids, |FailureRows(ds)|, |res.parsedNoMatch|, |res.originalNameNoMatch|,
                       |res.filteredLipids|, numFailures, Fraction(numFailures, numLipids)))
  }

  /**
   * Over the results of matching `toMatch`, each lipid fails in at most one
   * way, so there are never more failures than lipids: the proportion is
   * at most one.
   */
  lemma FailuresAtMostLipids(toMatch: ParsedDataset, matchTo: ParsedDataset, c: Constraints, caller: Option<Synonyms>)
    requires PerformConstrainedMatch(toMatch, matchTo, c, caller).Ok?
    ensures var res := PerformConstrainedMatch(toMatch, matchTo, c, caller).value;
      |res.parsedNoMatch| + |res.originalNameNoMatch| + |res.filteredLipids| <= |toMatch.rows|
  {
    var T := toMatch.rows;
    var R := matchTo.rows;
    var pairs := MatchCases(T, R, caller).value;
    MatchCasesFrom(T, R, caller);
    NoMatchPartition(T, pairs);
    FilteredAtMostPaired(pairs, T, R, c);
  }

  /** Filtered labels are distinct labels of paired rows, so there are no more of them than paired rows. */
  lemma FilteredAtMostPaired(pairs: seq<Pair>, T: seq<Row>, R: seq<Row>, c: Constraints)
    requires PairsFrom(pairs, T, R)
    ensures |FilteredIds(pairs, R, c)| <= |PairedRows(T, pairs)|
  {
    var filtered := FilteredIds(pairs, R, c);
    var paired := PairedRows(T, pairs);
    forall id | id in filtered ensures id in Ids(paired) {
      FilteredIdsSpec(pairs, R, c, id);
      ToMatchIdsMember(pairs, id);
      var p :| p in pairs && p.toMatch == id;
      var k :| 0 <= k < |T| && Ids(T)[k] == id;
      assert T[k] in T;
      assert T[k] in paired;
      IdsMember(paired, T[k]);
    }
    FilteredIdsSpec(pairs, R, c, "");
    forall i, j | 0 <= i < j < |filtered| ensures filtered[i] != filtered[j] {
      if filtered[i] == filtered[j] { LexLessIrreflexive(filtered[i]); }
    }
    Seqs.NoDupSubLength(filtered, Ids(paired));
  }

  /** Hence the failure proportion of a summary built on those results is at most one. */
  lemma ProportionAtMostOne(toMatch: ParsedDataset, matchTo: ParsedDataset, c: Constraints, caller: Option<Synonyms>)
    requires PerformConstrainedMatch(toMatch, matchTo, c, caller).Ok?
    requires |toMatch.rows| > 0
    ensures var st := SetStatistics(toMatch, PerformConstrainedMatch(toMatch, matchTo, c, caller).value).value;
      st.failureProportion.num <= st.failureProportion.den
  {
    FailuresAtMostLipids(toMatch, matchTo, c, caller);
  }

  // ----- report dictionaries -----

  /** A summary entry is a count or the failure proportion. */
  datatype SummaryValue = Count(n: nat) | Proportion(p: Fraction)

  /** The keys of the summary dictionary. */
  datatype SummaryKey =
    | NumLipids | NumFailures | FailureProportion | NumParsingFailures
    | NumParsedNoMatchLipids | NumOriginalNameNoMatchLipids | NumFilteredLipids

  function SummaryKeyName(k: SummaryKey): string
  {
    match k
    case NumLipids => "num_lipids"
    case NumFailures => "num_failures"
    case FailureProportion => "failure_proportion"
    case NumParsingFailures => "num_parsing_failures"
    case NumParsedNoMatchLipids => "num_parsed_no_match_lipids"
    case NumOriginalNameNoMatchLipids => "num_original_name_no_match_lipids"
    case NumFilteredLipids => "num_filtered_lipids"
  }

  const SummaryKeys: seq<SummaryKey> := [
    NumLipids, NumFailures, FailureProportion, NumParsingFailures,
    NumParsedNoMatchLipids, NumOriginalNameNoMatchLipids, NumFilteredLipids]

  function SummaryDict(st: Statistics): Dicts.Dict<SummaryKey, SummaryValue>
  {
    [(NumLipids, Count(st.numLipids)),
     (NumFailures, Count(st.numFailures)),
     (FailureProportion, Proportion(st.failureProportion)),
     (NumParsingFailures, Count(st.numParsingFailures)),
     (NumParsedNoMatchLipids, Count(st.numParsedNoMatchLipids)),
     (NumOriginalNameNoMatchLipids, Count(st.numOriginalNameNoMatchLipids)),
     (NumFilteredLipids, Count(st.numFilteredLipids))]
  }

  /** The summary has exactly the seven keys, in this order, each once. */
  lemma SummaryDictKeys(st: Statistics)
    ensures Dicts.Keys(SummaryDict(st)) == SummaryKeys
    ensures Seqs.NoDup(SummaryKeys)
  {
    var ks := Dicts.Keys(SummaryDict(st));
    forall i | 0 <= i < 7 ensures ks[i] == SummaryKeys[i] {
    }
    forall i | 0 <= i < 7 ensures SummaryPosition(SummaryKeys[i]) == i {
    }
  }

  /** The place of each key in the summary. */
  function SummaryPosition(k: SummaryKey): nat
  {
    match k
    case NumLipids => 0
    case NumFailures => 1
    case FailureProportion => 2
    case NumParsingFailures => 3
    case NumParsedNoMatchLipids => 4
    case NumOriginalNameNoMatchLipids => 5
    case NumFilteredLipids => 6
  }

  /** Each summary key holds its statistic. */
  lemma SummaryDictSpec(st: Statistics)
    ensures Dicts.Get(SummaryDict(st), NumLipids) == Some(Count(st.numLipids))
    ensures Dicts.Get(SummaryDict(st), NumFailures) == Some(Count(st.numFailures))
    ensures Dicts.Get(SummaryDict(st), FailureProportion) == Some(Proportion(st.failureProportion))
    ensures Dicts.Get(SummaryDict(st), NumParsingFailures) == Some(Count(st.numParsingFailures))
    ensures Dicts.Get(SummaryDict(st), NumParsedNoMatchLipids) == Some(Count(st.numParsedNoMatchLipids))
    ensures Dicts.Get(SummaryDict(st), NumOriginalNameNoMatchLipids) == Some(Count(st.numOriginalNameNoMatchLipids))
    ensures Dicts.Get(SummaryDict(st), NumFilteredLipids) == Some(Count(st.numFilteredLipids))
  {
    var d := SummaryDict(st);
    SummaryDictKeys(st);
    Dicts.GetAt(d, 0); Dicts.GetAt(d, 1); Dicts.GetAt(d, 2); Dicts.GetAt(d, 3);
    Dicts.GetAt(d, 4); Dicts.GetAt(d, 5); Dicts.GetAt(d, 6);
  }

  /** The lines of the printed report. */
  datatype ReportKey =
    | DatasetName | DatabaseName | NumberOfLipids | NumberOfFailures | FailurePercentage
    | NumberOfParsingFailures | NumberOfParsedNoMatchLipids | NumberOfOriginalNameNoMatchLipids
    | NumberOfFilteredLipids

  function ReportLabel(k: ReportKey): string
  {
    match k
    case DatasetName => "Dataset name"
    case DatabaseName => "Database name"
    case NumberOfLipids => "Number of lipids"
    case NumberOfFailures => "Number of failures"
    case FailurePercentage => "Failure proportion"
    case NumberOfParsingFailures => "Number of parsing failures"
    case NumberOfParsedNoMatchLipids => "Number of parsed no match lipids"
    case NumberOfOriginalNameNoMatchLipids => "Number of original name no match lipids"
    case NumberOfFilteredLipids => "Number of filtered lipids"
  }

  lemma ReportLabelOneLine(k: ReportKey)
    ensures '\n' !in ReportLabel(k)
  {
    FirstLabelsOneLine();
    MiddleLabelsOneLine();
    LastLabelsOneLine();
    assert OneLine(ReportLabel(k));
  }

  predicate OneLine(s: string) {
    forall i :: 0 <= i < |s| ==> s[i] != '\n'
  }

  lemma FirstLabelsOneLine()
    ensures OneLine(ReportLabel(DatasetName)) && OneLine(ReportLabel(DatabaseName))
    ensures OneLine(ReportLabel(NumberOfLipids)) && OneLine(ReportLabel(NumberOfFailures))
  {
  }

  lemma MiddleLabelsOneLine()
    ensures OneLine(ReportLabel(FailurePercentage)) && OneLine(ReportLabel(NumberOfParsingFailures))
    ensures OneLine(ReportLabel(NumberOfParsedNoMatchLipids))
  {
  }

  lemma LastLabelsOneLine()
    ensures OneLine(ReportLabel(NumberOfOriginalNameNoMatchLipids)) && OneLine(ReportLabel(NumberOfFilteredLipids))
  {
  }

  /**
   * The printable report. `percentText` stands for the proportion rendered
   * as a percentage with four decimals; float formatting is not modelled.
   */
  function PrintDict(datasetName: string, databaseName: string, st: Statistics, percentText: string)
    : Dicts.Dict<ReportKey, string>
  {
    [(DatasetName, datasetName),
     (DatabaseName, databaseName),
     (NumberOfLipids, NatToString(st.numLipids)),
     (NumberOfFailures, NatToString(st.numFailures)),
     (FailurePercentage, percentText),
     (NumberOfParsingFailures, NatToString(st.numParsingFailures)),
     (NumberOfParsedNoMatchLipids, NatToString(st.numParsedNoMatchLipids)),
     (NumberOfOriginalNameNoMatchLipids, NatToString(st.numOriginalNameNoMatchLipids)),
     (NumberOfFilteredLipids, NatToString(st.numFilteredLipids))]
  }

  function EntryLine(e: (ReportKey, string)): string { ReportLabel(e.0) + ": " + e.1 }

  /** The `key: value` lines of the dictionary, in insertion order, joined by newlines. */
  function PrintString(d: Dicts.Dict<ReportKey, string>): string
  {
    Join(Seqs.Map(d, EntryLine), "\n")
  }

  /** When no value holds a newline, splitting the printed text at newlines gives back the lines. */
  lemma PrintStringLines(d: Dicts.Dict<ReportKey, string>)
    requires |d| > 0
    requires forall i :: 0 <= i < |d| ==> '\n' !in d[i].1
    ensures Split(PrintString(d), '\n') == Seqs.Map(d, EntryLine)
  {
    var lines := Seqs.Map(d, EntryLine);
    forall l | l in lines ensures '\n' !in l {
      var i :| 0 <= i < |lines| && lines[i] == l;
      ReportLabelOneLine(d[i].0);
      assert l == ReportLabel(d[i].0) + ": " + d[i].1;
    }
    SplitJoin(lines, '\n');
  }

  /** The printed report has nine lines, one per entry of the print dictionary, in order. */
  lemma PrintedReport(datasetName: string, databaseName: string, st: Statistics, percentText: string)
    requires '\n' !in datasetName && '\n' !in databaseName && '\n' !in percentText
    ensures var d := PrintDict(datasetName, databaseName, st, percentText);
      var lines := Split(PrintString(d), '\n');
      |lines| == 9 && forall i :: 0 <= i < 9 ==> lines[i] == ReportLabel(d[i].0) + ": " + d[i].1
  {
    var d := PrintDict(datasetName, databaseName, st, percentText);
    NatToStringDigits(st.numLipids);
    NatToStringDigits(st.numFailures);
    NatToStringDigits(st.numParsingFailures);
    NatToStringDigits(st.numParsedNoMatchLipids);
    NatToStringDigits(st.numOriginalNameNoMatchLipids);
    NatToStringDigits(st.numFilteredLipids);
    PrintStringLines(d);
  }

  lemma NatToStringDigits(n: nat)
    ensures '\n' !in NatToString(n)
  {
    var r := NatToString(n);
    forall i | 0 <= i < |r| ensures r[i] != '\n' {
      assert IsDecimalDigit(r[i]);
    }
  }

  // ----- failure table -----

  /**
   * One row of the failures table. The concatenation aligns columns, so a
   * column a part lacks is NaN (None) in that part's rows.
   */
  datatype FailureRecord = FailureRecord(
    originalName: string,
    parsedName: Option<string>,
    reason: Option<string>,
    faViolations: Option<seq<string>>,
    lcbViolations: Option<seq<string>>)

  const ParsedNoMatchReason: string := "Parsed but no matches."
  const OriginalNameNoMatchReason: string := "Parsing failed and no original name matches."

  function ParsedNoMatchRecord(n: NameRow): FailureRecord
  {
    FailureRecord(n.originalName, Some(n.parsedName), Some(ParsedNoMatchReason), None, None)
  }

  function OriginalNameNoMatchRecord(n: NameRow): FailureRecord
  {
    FailureRecord(n.originalName, None, Some(OriginalNameNoMatchReason), None, None)
  }

  function FilteredRecord(f: FilteredLipid): FailureRecord
  {
    FailureRecord(f.originalName, Some(f.parsedName), None, Some(f.faViolations), Some(f.lcbViolations))
  }

  /** The non-empty parts, in order: parsed-no-match, original-name-no-match, filtered. */
  function CompileFailures(res: MatchingResults): seq<FailureRecord>
  {
    var groups := [Seqs.Map(res.parsedNoMatch, ParsedNoMatchRecord),
                   Seqs.Map(res.originalNameNoMatch, OriginalNameNoMatchRecord),
                   Seqs.Map(res.filteredLipids, FilteredRecord)];
    Seqs.Flatten(Seqs.Filter(groups, (g: seq<FailureRecord>) => |g| > 0))
  }

  /** Dropping empty parts before concatenating changes no row. */
  lemma {:induction false} FlattenNonEmpty(gs: seq<seq<FailureRecord>>)
    ensures Seqs.Flatten(Seqs.Filter(gs, (g: seq<FailureRecord>) => |g| > 0)) == Seqs.Flatten(gs)
  {
    if |gs| > 0 {
      FlattenNonEmpty(gs[1..]);
      var f := (g: seq<FailureRecord>) => |g| > 0;
      var rest := Seqs.Filter(gs[1..], f);
      if |gs[0]| > 0 {
        assert Seqs.Filter(gs, f) == [gs[0]] + rest;
        assert ([gs[0]] + rest)[1..] == rest;
      } else {
        assert Seqs.Filter(gs, f) == rest;
        assert gs[0] + Seqs.Flatten(gs[1..]) == Seqs.Flatten(gs[1..]);
      }
    }
  }

  /**
   * The failures table lists the parsed-no-match lipids, then the
   * original-name-no-match lipids, then the filtered lipids, one row each,
   * with the reason of its part (none for filtered lipids); its length is
   * the number of failures.
   */
  lemma CompileFailuresSpec(res: MatchingResults)
    ensures var fs := CompileFailures(res);
      var a := |res.parsedNoMatch|;
      var b := |res.originalNameNoMatch|;
      |fs| == a + b + |res.filteredLipids|
      && (forall i :: 0 <= i < a ==>
            fs[i].reason == Some(ParsedNoMatchReason)
            && fs[i].originalName == res.parsedNoMatch[i].originalName
            && fs[i].parsedName == Some(res.parsedNoMatch[i].parsedName))
      && (forall i :: a <= i < a + b ==>
            fs[i].reason == Some(OriginalNameNoMatchReason)
            && fs[i].originalName == res.originalNameNoMatch[i - a].originalName
            && fs[i].parsedName.None?)
      && (forall i :: a + b <= i < |fs| ==>
            fs[i].reason.None? && fs[i] == FilteredRecord(res.filteredLipids[i - a - b]))
  {
    var g0 := Seqs.Map(res.parsedNoMatch, ParsedNoMatchRecord);
    var g1 := Seqs.Map(res.originalNameNoMatch, OriginalNameNoMatchRecord);
    var g2 := Seqs.Map(res.filteredLipids, FilteredRecord);
    CompileFailuresParts(res);
    var fs := g0 + g1 + g2;
    var a, b := |g0|, |g1|;
    forall i | a <= i < a + b ensures fs[i] == g1[i - a] {
    }
    forall i | a + b <= i < |fs| ensures fs[i] == g2[i - a - b] {
    }
  }

  /** The failures table is the three parts, concatenated. */
  lemma CompileFailuresParts(res: MatchingResults)
    ensures CompileFailures(res) ==
      Seqs.Map(res.parsedNoMatch, ParsedNoMatchRecord) + Seqs.Map(res.originalNameNoMatch, OriginalNameNoMatchRecord)
      + Seqs.Map(res.filteredLipids, FilteredRecord)
  {
    var g0 := Seqs.Map(res.parsedNoMatch, ParsedNoMatchRecord);
    var g1 := Seqs.Map(res.originalNameNoMatch, OriginalNameNoMatchRecord);
    var g2 := Seqs.Map(res.filteredLipids, FilteredRecord);
    var gs := [g0, g1, g2];
    FlattenNonEmpty(gs);
    assert gs[1..][1..][1..] == [];
    assert Seqs.Flatten(gs[1..][1..]) == g2 + [];
    assert Seqs.Flatten(gs[1..]) == g1 + Seqs.Flatten(gs[1..][1..]);
    assert Seqs.Flatten(gs) == g0 + Seqs.Flatten(gs[1..]);
  }

  /** With statistics available, the failures table has exactly `numFailures` rows. */
  lemma FailuresCount(ds: ParsedDataset, res: MatchingResults)
    requires SetStatistics(ds, res).Ok?
    ensures |CompileFailures(res)| == SetStatistics(ds, res).value.numFailures
  {
    CompileFailuresSpec(res);
  }

  // ----- the whole summary -----

  datatype Summary = Summary(
    datasetName: string,
    databaseName: string,
    statistics: Statistics,
    summaryDict: Dicts.Dict<SummaryKey, SummaryValue>,
    printDict: Dicts.Dict<ReportKey, string>,
    printString: string,
    failures: seq<FailureRecord>)

  /** All derived fields, computed once; an empty dataset fails at the proportion. */
  function MakeSummary(datasetName: string, databaseName: string, ds: ParsedDataset, res: MatchingResults,
                       percentText: string): (r: Result<Summary>)
    ensures r.Err? <==> |ds.rows| == 0
    ensures r.Err? ==> r.error == ZeroDivisionError
    ensures r.Ok? ==> (r.value.statistics == SetStatistics(ds, res).value
      && |r.value.failures| == r.value.statistics.numFailures
      && Dicts.Keys(r.value.summaryDict) == SummaryKeys)
  {
    match SetStatistics(ds, res)
    case Err(e) => Err(e)
    case Ok(st) =>
      var pd := PrintDict(datasetName, databaseName, st, percentText);
      FailuresCount(ds, res);
      SummaryDictKeys(st);
      Ok(Summary(datasetName, databaseName, st, SummaryDict(st), pd, PrintString(pd), CompileFailures(res)))
  }
}
