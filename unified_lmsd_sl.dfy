/**
 * The union of the unified LIPID MAPS (LMSD) and SwissLipids (SL)
 * databases. Lipids present in both, recognised through the SL
 * `LIPID MAPS` cross-reference, can be kept from one side only.
 */
module UnifiedLmsdSl {
  import opened Wrappers
  import opened PyStrings
  import Seqs
  import opened BaseDb

  /** A SwissLipids source row: its SL id and its LIPID MAPS cross-reference (None for NaN). */
  datatype SlSourceRow = SlSourceRow(id: string, lipidMaps: Option<string>)

  /** One entry of the overlap series: SL id to LMSD id. */
  datatype OverlapEntry = OverlapEntry(slId: string, lmsdId: string)

  function LmsdIdsOf(overlap: seq<OverlapEntry>): (ids: seq<string>)
    ensures |ids| == |overlap|
    ensures forall i :: 0 <= i < |overlap| ==> ids[i] == overlap[i].lmsdId
  {
    Seqs.Map(overlap, (e: OverlapEntry) => e.lmsdId)
  }

  function SlIdsOf(overlap: seq<OverlapEntry>): (ids: seq<string>)
    ensures |ids| == |overlap|
    ensures forall i :: 0 <= i < |overlap| ==> ids[i] == overlap[i].slId
  {
    Seqs.Map(overlap, (e: OverlapEntry) => e.slId)
  }

  /**
   * The SL rows whose cross-reference is an LMSD id, keeping only the
   * first SL row for each LMSD id (`drop_duplicates` on the values).
   */
  function Overlap(lmsdIds: seq<string>, sl: seq<SlSourceRow>): seq<OverlapEntry>
  {
    if |sl| == 0 then []
    else
      var prefix := Overlap(lmsdIds, sl[..|sl| - 1]);
      var last := sl[|sl| - 1];
      if last.lipidMaps.Some? && last.lipidMaps.value in lmsdIds && last.lipidMaps.value !in LmsdIdsOf(prefix)
      then prefix + [OverlapEntry(last.id, last.lipidMaps.value)]
      else prefix
  }

  /** `e` pairs an SL row with its cross-reference, and no earlier SL row references the same LMSD id. */
  predicate FirstReference(sl: seq<SlSourceRow>, e: OverlapEntry) {
    exists j :: 0 <= j < |sl| && sl[j] == SlSourceRow(e.slId, Some(e.lmsdId)) && NoEarlierReference(sl, j, e.lmsdId)
  }

  predicate NoEarlierReference(sl: seq<SlSourceRow>, j: nat, x: string)
    requires j <= |sl|
  {
    forall k :: 0 <= k < j ==> sl[k].lipidMaps != Some(x)
  }

  /** The overlap holds each LMSD id at most once. */
  lemma {:induction false} OverlapNoDup(lmsdIds: seq<string>, sl: seq<SlSourceRow>)
    ensures Seqs.NoDup(LmsdIdsOf(Overlap(lmsdIds, sl)))
  {
    if |sl| > 0 {
      var prefix := sl[..|sl| - 1];
      var last := sl[|sl| - 1];
      OverlapNoDup(lmsdIds, prefix);
      var o := Overlap(lmsdIds, prefix);
      if last.lipidMaps.Some? && last.lipidMaps.value in lmsdIds && last.lipidMaps.value !in LmsdIdsOf(o) {
        assert LmsdIdsOf(Overlap(lmsdIds, sl)) == LmsdIdsOf(o) + [last.lipidMaps.value];
      }
    }
  }

  /** An LMSD id is in the overlap iff it is an LMSD id some SL row references. */
  lemma {:induction false} OverlapMember(lmsdIds: seq<string>, sl: seq<SlSourceRow>, x: string)
    ensures x in LmsdIdsOf(Overlap(lmsdIds, sl)) <==>
      x in lmsdIds && exists j :: 0 <= j < |sl| && sl[j].lipidMaps == Some(x)
  {
    if |sl| > 0 {
      var prefix := sl[..|sl| - 1];
      var last := sl[|sl| - 1];
      OverlapMember(lmsdIds, prefix, x);
      var o := Overlap(lmsdIds, prefix);
      if last.lipidMaps.Some? && last.lipidMaps.value in lmsdIds && last.lipidMaps.value !in LmsdIdsOf(o) {
        assert LmsdIdsOf(Overlap(lmsdIds, sl)) == LmsdIdsOf(o) + [last.lipidMaps.value];
      }
      if x in lmsdIds && exists j :: 0 <= j < |sl| && sl[j].lipidMaps == Some(x) {
        var j :| 0 <= j < |sl| && sl[j].lipidMaps == Some(x);
        if j < |sl| - 1 { assert prefix[j] == sl[j]; }
      }
      if x in LmsdIdsOf(o) {
        var j :| 0 <= j < |prefix| && prefix[j].lipidMaps == Some(x);
        assert sl[j] == prefix[j];
      }
    }
  }

  /** Each overlap entry comes from the first SL row that references its LMSD id. */
  lemma {:induction false} OverlapFirst(lmsdIds: seq<string>, sl: seq<SlSourceRow>, e: OverlapEntry)
    requires e in Overlap(lmsdIds, sl)
    ensures FirstReference(sl, e)
  {
    var prefix := sl[..|sl| - 1];
    var last := sl[|sl| - 1];
    var o := Overlap(lmsdIds, prefix);
    if e in o {
      OverlapFirst(lmsdIds, prefix, e);
      var j :| 0 <= j < |prefix| && prefix[j] == SlSourceRow(e.slId, Some(e.lmsdId)) && NoEarlierReference(prefix, j, e.lmsdId);
      assert sl[j] == prefix[j];
      assert NoEarlierReference(sl, j, e.lmsdId) by {
        forall k | 0 <= k < j ensures sl[k].lipidMaps != Some(e.lmsdId) { assert sl[k] == prefix[k]; }
      }
    } else {
      assert e == OverlapEntry(last.id, last.lipidMaps.value);
      OverlapMember(lmsdIds, prefix, e.lmsdId);
      assert NoEarlierReference(sl, |sl| - 1, e.lmsdId) by {
        forall k | 0 <= k < |sl| - 1 ensures sl[k].lipidMaps != Some(e.lmsdId) {
          assert sl[k] == prefix[k];
        }
      }
    }
  }

  /** `index.difference(removed)`: the labels not removed, sorted, each once. */
  function IndexDifference(ids: seq<string>, removed: seq<string>): seq<string>
  {
    Sort(Seqs.Distinct(Seqs.Filter(ids, (id: string) => id !in removed)))
  }

  lemma IndexDifferenceSpec(ids: seq<string>, removed: seq<string>, x: string)
    ensures x in IndexDifference(ids, removed) <==> x in ids && x !in removed
    ensures StrictlySorted(IndexDifference(ids, removed))
  {
    SortDistinct(Seqs.Distinct(Seqs.Filter(ids, (id: string) => id !in removed)));
  }

  /** The unified table restricted to the given labels. */
  function Restrict(db: UnifiedDatabase, ids: seq<string>): UnifiedDatabase
  {
    UnifiedDatabase(db.indexName, db.columns, DbRowsAt(db.rows, ids))
  }

  /**
   * Drops the overlap from one side: with "lmsd" the overlapping SL rows
   * go, with "sl" the overlapping LMSD rows go; anything else raises.
   */
  function RemoveOverlap(lmsdDb: UnifiedDatabase, lmsdIds: seq<string>, slDb: UnifiedDatabase,
                         sl: seq<SlSourceRow>, keepOverlapFrom: string)
    : Result<(UnifiedDatabase, UnifiedDatabase)>
  {
    var overlap := Overlap(lmsdIds, sl);
    if keepOverlapFrom == "lmsd" then
      Ok((lmsdDb, Restrict(slDb, IndexDifference(DbIds(slDb.rows), SlIdsOf(overlap)))))
    else if keepOverlapFrom == "sl" then
      Ok((Restrict(lmsdDb, IndexDifference(DbIds(lmsdDb.rows), LmsdIdsOf(overlap))), slDb))
    else Err(ValueError)
  }

  /** The LMSD part followed by the SL part, after the optional overlap removal. */
  function FromSourceData(lmsdDb: UnifiedDatabase, lmsdIds: seq<string>, slDb: UnifiedDatabase,
                          sl: seq<SlSourceRow>, keepOverlapFrom: string): Result<UnifiedDatabase>
  {
    if keepOverlapFrom == "both" then Concat(lmsdDb, [slDb], None)
    else match RemoveOverlap(lmsdDb, lmsdIds, slDb, sl, keepOverlapFrom)
      case Err(e) => Err(e)
      case Ok(parts) => Concat(parts.0, [parts.1], None)
  }

  lemma RowsAtMember(rows: seq<DbRow>, ids: seq<string>, r: DbRow)
    ensures r in DbRowsAt(rows, ids) <==> r in rows && r.id in ids
  {
    var parts := Seqs.Map(ids, (id: string) => DbRowsWithId(rows, id));
    Seqs.FlattenMember(parts, r);
    if r in rows && r.id in ids {
      var k :| 0 <= k < |ids| && ids[k] == r.id;
      assert r in parts[k];
    }
  }

  /** Keeping both sides removes nothing: the LMSD rows, then the SL rows. */
  lemma KeepBoth(lmsdDb: UnifiedDatabase, lmsdIds: seq<string>, slDb: UnifiedDatabase, sl: seq<SlSourceRow>)
    requires ValidHeader(lmsdDb.indexName, lmsdDb.columns) && ValidHeader(slDb.indexName, slDb.columns)
    requires Rectangular(lmsdDb) && Rectangular(slDb) && lmsdDb.columns == slDb.columns
    ensures FromSourceData(lmsdDb, lmsdIds, slDb, sl, "both").Ok?
    ensures FromSourceData(lmsdDb, lmsdIds, slDb, sl, "both").value.rows == lmsdDb.rows + slDb.rows
  {
    ConcatSpec(lmsdDb, [slDb]);
    assert Seqs.Flatten(Seqs.Map([slDb], (d: UnifiedDatabase) => d.rows)) == slDb.rows + [];
  }

  /**
   * Keeping the overlap from LMSD leaves LMSD untouched and keeps an SL row
   * iff its id is not an overlap SL id.
   */
  lemma KeepLmsd(lmsdDb: UnifiedDatabase, lmsdIds: seq<string>, slDb: UnifiedDatabase, sl: seq<SlSourceRow>, r: DbRow)
    ensures RemoveOverlap(lmsdDb, lmsdIds, slDb, sl, "lmsd").Ok?
    ensures RemoveOverlap(lmsdDb, lmsdIds, slDb, sl, "lmsd").value.0 == lmsdDb
    ensures r in RemoveOverlap(lmsdDb, lmsdIds, slDb, sl, "lmsd").value.1.rows <==>
      r in slDb.rows && r.id !in SlIdsOf(Overlap(lmsdIds, sl))
  {
    var removed := SlIdsOf(Overlap(lmsdIds, sl));
    var keep := IndexDifference(DbIds(slDb.rows), removed);
    RowsAtMember(slDb.rows, keep, r);
    IndexDifferenceSpec(DbIds(slDb.rows), removed, r.id);
    if r in slDb.rows {
      var k :| 0 <= k < |slDb.rows| && slDb.rows[k] == r;
      assert DbIds(slDb.rows)[k] == r.id;
    }
  }

  /**
   * Keeping the overlap from SL leaves SL untouched and keeps an LMSD row
   * iff its id is not cross-referenced by an SL row.
   */
  lemma KeepSl(lmsdDb: UnifiedDatabase, lmsdIds: seq<string>, slDb: UnifiedDatabase, sl: seq<SlSourceRow>, r: DbRow)
    ensures RemoveOverlap(lmsdDb, lmsdIds, slDb, sl, "sl").Ok?
    ensures RemoveOverlap(lmsdDb, lmsdIds, slDb, sl, "sl").value.1 == slDb
    ensures r in RemoveOverlap(lmsdDb, lmsdIds, slDb, sl, "sl").value.0.rows <==>
      r in lmsdDb.rows && !(r.id in lmsdIds && exists j :: 0 <= j < |sl| && sl[j].lipidMaps == Some(r.id))
  {
    var removed := LmsdIdsOf(Overlap(lmsdIds, sl));
    var keep := IndexDifference(DbIds(lmsdDb.rows), removed);
    RowsAtMember(lmsdDb.rows, keep, r);
    IndexDifferenceSpec(DbIds(lmsdDb.rows), removed, r.id);
    OverlapMember(lmsdIds, sl, r.id);
    if r in lmsdDb.rows {
      var k :| 0 <= k < |lmsdDb.rows| && lmsdDb.rows[k] == r;
      assert DbIds(lmsdDb.rows)[k] == r.id;
    }
  }

  /** Any other choice raises ValueError. */
  lemma KeepOther(lmsdDb: UnifiedDatabase, lmsdIds: seq<string>, slDb: UnifiedDatabase, sl: seq<SlSourceRow>, keep: string)
    requires keep != "lmsd" && keep != "sl" && keep != "both"
    ensures FromSourceData(lmsdDb, lmsdIds, slDb, sl, keep) == Err(ValueError)
  {
  }

  /**
   * Only the first SL row per LMSD id is in the overlap, so with "lmsd" a
   * second SL row referencing the same LMSD lipid stays in the table.
   */
  lemma SecondReferenceKept(lmsdDb: UnifiedDatabase, slDb: UnifiedDatabase)
    requires DbRow("SLM:2", map[]) in slDb.rows
    ensures var sl := [SlSourceRow("SLM:1", Some("LM1")), SlSourceRow("SLM:2", Some("LM1"))];
      DbRow("SLM:2", map[]) in RemoveOverlap(lmsdDb, ["LM1"], slDb, sl, "lmsd").value.1.rows
  {
    var sl := [SlSourceRow("SLM:1", Some("LM1")), SlSourceRow("SLM:2", Some("LM1"))];
    assert sl[..1] == [sl[0]] && sl[..|sl| - 1] == sl[..1];
    assert sl[..1][..0] == [];
    assert Overlap(["LM1"], sl[..1][..0]) == [];
    var first := Overlap(["LM1"], sl[..1]);
    assert first == [OverlapEntry("SLM:1", "LM1")];
    assert LmsdIdsOf(first)[0] == "LM1";
    assert Overlap(["LM1"], sl) == [OverlapEntry("SLM:1", "LM1")];
    assert "SLM:2" != "SLM:1" by { assert "SLM:2"[4] != "SLM:1"[4]; }
    KeepLmsd(lmsdDb, ["LM1"], slDb, sl, DbRow("SLM:2", map[]));
  }
}
