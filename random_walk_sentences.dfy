/**
 * Random-walk sentences: for every covering random walk and every radius,
 * the bits of the walk's atoms at that radius, in walk order. The loader
 * pairs each bit-map file with the random-walk file at the same place,
 * permuting both lists with the same shuffle index.
 */
module WalkSentences {
  import opened Wrappers
  import Seqs
  import opened AtomRadiusBits
  import opened BaseSentences

  /** Every atom of every walk has an entry in the dict. */
  predicate AllKnown(d: BitDict, walks: seq<seq<int>>) {
    forall i :: 0 <= i < |walks| ==> Known(d, walks[i])
  }

  /** The generator per walk: block `i` holds walk `i`'s candidate sentence for each radius. */
  function Blocks(d: BitDict, walks: seq<seq<int>>, radii: seq<int>): (bs: seq<seq<Sentence>>)
    requires AllKnown(d, walks)
    ensures |bs| == |walks|
    ensures forall i :: 0 <= i < |walks| ==> bs[i] == Candidates(d, walks[i], radii)
    decreases |walks|
  {
    if |walks| == 0 then []
    else [Candidates(d, walks[0], radii)] + Blocks(d, walks[1..], radii)
  }

  /** The generator before the filter, walk-major and radius-minor: the blocks one after another. */
  function WalkCandidates(d: BitDict, walks: seq<seq<int>>, radii: seq<int>): seq<Sentence>
    requires AllKnown(d, walks)
  {
    Seqs.Flatten(Blocks(d, walks, radii))
  }

  /**
   * There is one candidate per walk and radius, and a candidate is the
   * sentence of some walk at some radius.
   */
  lemma WalkCandidatesSpec(d: BitDict, walks: seq<seq<int>>, radii: seq<int>)
    requires AllKnown(d, walks)
    ensures |WalkCandidates(d, walks, radii)| == |walks| * |radii|
    ensures forall s :: s in WalkCandidates(d, walks, radii) <==>
      exists i, j :: 0 <= i < |walks| && 0 <= j < |radii| && s == RadiusWords(d, walks[i], radii[j])
  {
    var bs := Blocks(d, walks, radii);
    Seqs.FlattenUniformLength(bs, |radii|);
    forall s ensures s in WalkCandidates(d, walks, radii) <==>
      exists i, j :: 0 <= i < |walks| && 0 <= j < |radii| && s == RadiusWords(d, walks[i], radii[j])
    {
      Seqs.FlattenMember(bs, s);
      if s in WalkCandidates(d, walks, radii) {
        var i :| 0 <= i < |bs| && s in bs[i];
        var j :| 0 <= j < |radii| && bs[i][j] == s;
      }
      if exists i, j :: 0 <= i < |walks| && 0 <= j < |radii| && s == RadiusWords(d, walks[i], radii[j]) {
        var i, j :| 0 <= i < |walks| && 0 <= j < |radii| && s == RadiusWords(d, walks[i], radii[j]);
        assert bs[i][j] == s;
      }
    }
  }

  lemma {:induction false} BlocksAppend(d: BitDict, a: seq<seq<int>>, b: seq<seq<int>>, radii: seq<int>)
    requires AllKnown(d, a) && AllKnown(d, b) && AllKnown(d, a + b)
    ensures Blocks(d, a + b, radii) == Blocks(d, a, radii) + Blocks(d, b, radii)
    decreases |a|
  {
    if |a| > 0 {
      assert (a + b)[1..] == a[1..] + b;
      assert AllKnown(d, a[1..]) by {
        forall i | 0 <= i < |a[1..]| ensures Known(d, a[1..][i]) {
          assert a[1..][i] == a[i + 1];
        }
      }
      BlocksAppend(d, a[1..], b, radii);
    } else {
      assert a + b == b;
    }
  }

  /** The candidates of two runs of walks are those of the first run, then those of the second. */
  lemma WalkCandidatesAppend(d: BitDict, a: seq<seq<int>>, b: seq<seq<int>>, radii: seq<int>)
    requires AllKnown(d, a) && AllKnown(d, b)
    ensures AllKnown(d, a + b)
    ensures WalkCandidates(d, a + b, radii) == WalkCandidates(d, a, radii) + WalkCandidates(d, b, radii)
  {
    forall i | 0 <= i < |a + b| ensures Known(d, (a + b)[i]) {
      if i < |a| {
        assert (a + b)[i] == a[i];
      } else {
        assert (a + b)[i] == b[i - |a|];
      }
    }
    BlocksAppend(d, a, b, radii);
    Seqs.FlattenAppend(Blocks(d, a, radii), Blocks(d, b, radii));
  }

  /**
   * `RandomWalkSentences.get_structured_sentences`: for every walk and
   * radius, the bits of the walk's atoms at that radius, empty sentences
   * dropped. A walk atom missing from the bit map raises KeyError, but only
   * once some radius is asked for.
   */
  function StructuredSentences(m: AtomRadiusBitMap, walks: seq<seq<int>>, radii: seq<int>): Result<seq<Sentence>>
  {
    if |radii| == 0 then Ok([])
    else if !AllKnown(m.dict, walks) then Err(KeyError)
    else Ok(DropEmpty(WalkCandidates(m.dict, walks, radii)))
  }

  /**
   * The sentences fail exactly on an unknown walk atom with some radius
   * asked for; otherwise they are non-empty, at most one per walk and
   * radius, and a sentence is there iff it is the non-empty sentence of some
   * walk at some radius.
   */
  lemma StructuredSentencesSpec(m: AtomRadiusBitMap, walks: seq<seq<int>>, radii: seq<int>)
    ensures StructuredSentences(m, walks, radii).Err? <==> |radii| > 0 && !AllKnown(m.dict, walks)
    ensures StructuredSentences(m, walks, radii).Err? ==> StructuredSentences(m, walks, radii).error == KeyError
    ensures StructuredSentences(m, walks, radii).Ok? ==>
      var ss := StructuredSentences(m, walks, radii).value;
      && |ss| <= |walks| * |radii|
      && (forall s :: s in ss ==> s != [])
      && (forall s :: s in ss <==> (s != [] &&
            exists i, j :: 0 <= i < |walks| && 0 <= j < |radii| && s == RadiusWords(m.dict, walks[i], radii[j])))
  {
    if |radii| > 0 && AllKnown(m.dict, walks) {
      WalkCandidatesSpec(m.dict, walks, radii);
    }
  }

  /** Walk-major order: the sentences of two runs of walks are those of the first run, then the second's. */
  lemma WalkMajor(m: AtomRadiusBitMap, a: seq<seq<int>>, b: seq<seq<int>>, radii: seq<int>)
    requires AllKnown(m.dict, a) && AllKnown(m.dict, b)
    ensures StructuredSentences(m, a + b, radii).Ok?
    ensures StructuredSentences(m, a + b, radii).value ==
      StructuredSentences(m, a, radii).value + StructuredSentences(m, b, radii).value
  {
    WalkCandidatesAppend(m.dict, a, b, radii);
    if |radii| > 0 {
      DropEmptyAppend(WalkCandidates(m.dict, a, radii), WalkCandidates(m.dict, b, radii));
    }
  }

  lemma {:induction false} DropEmptyAppend(a: seq<Sentence>, b: seq<Sentence>)
    ensures DropEmpty(a + b) == DropEmpty(a) + DropEmpty(b)
    decreases |a|
  {
    if |a| > 0 {
      assert (a + b)[1..] == a[1..] + b;
      DropEmptyAppend(a[1..], b);
    } else {
      assert a + b == b;
    }
  }

  /**
   * A single walk through the map's atoms in their own order gives the
   * radius-major sentences of the base class.
   */
  lemma OneWalkIsRadiusMajor(m: AtomRadiusBitMap, radii: seq<int>)
    requires Valid(m)
    ensures StructuredSentences(m, [m.keys], radii) == Ok(RadiusAtomSentences(m, radii))
  {
    var walks := [m.keys];
    assert AllKnown(m.dict, walks);
    var bs := Blocks(m.dict, walks, radii);
    assert bs == [Candidates(m.dict, m.keys, radii)];
    assert bs[1..] == [];
    var cs := Candidates(m.dict, m.keys, radii);
    assert Seqs.Flatten(bs) == cs + Seqs.Flatten(bs[1..]);
    assert cs + [] == cs;
    assert WalkCandidates(m.dict, walks, radii) == cs;
  }

  // ---------------------------------------------------------------
  // The loader: bit-map files and random-walk files, paired by place.
  // ---------------------------------------------------------------

  /** `zip`: pairs by place, as long as the shorter list. */
  function Zip<P, Q>(a: seq<P>, b: seq<Q>): (z: seq<(P, Q)>)
    ensures |z| == if |a| <= |b| then |a| else |b|
    ensures forall i :: 0 <= i < |z| ==> z[i] == (a[i], b[i])
  {
    var n := if |a| <= |b| then |a| else |b|;
    seq(n, i requires 0 <= i < n => (a[i], b[i]))
  }

  /**
   * `RandomWalkSentencesLoader._gen_sentences_series_iter` with the base
   * loader's bit-map order: both path lists are taken as they are or picked
   * by the same shuffle index, then combined place by place.
   */
  function PairedPaths<P, Q>(bitMapPaths: seq<P>, walkPaths: seq<Q>, shuffleIndex: Option<seq<int>>): Result<seq<(P, Q)>>
  {
    var bits := BitMapPaths(bitMapPaths, shuffleIndex);
    var walks := BitMapPaths(walkPaths, shuffleIndex);
    if bits.Err? then Err(bits.error)
    else if walks.Err? then Err(walks.error)
    else Ok(Zip(bits.value, walks.value))
  }

  /** Without shuffling, bit map `i` is combined with random walks `i`. */
  lemma PairedInOrder<P, Q>(bitMapPaths: seq<P>, walkPaths: seq<Q>)
    ensures PairedPaths(bitMapPaths, walkPaths, None) == Ok(Zip(bitMapPaths, walkPaths))
  {
  }

  /**
   * With a shuffle index drawn for the bit maps, the random-walk files are
   * permuted alike, so the bit map from place `idx[i]` is still combined
   * with the random walks from place `idx[i]`; with fewer random-walk files
   * than bit maps the shuffle raises IndexError.
   */
  lemma PairedWhenShuffled<P, Q>(bitMapPaths: seq<P>, walkPaths: seq<Q>, idx: seq<int>)
    requires IsPermutation(idx, |bitMapPaths|)
    ensures |walkPaths| < |bitMapPaths| ==> PairedPaths(bitMapPaths, walkPaths, Some(idx)) == Err(IndexError)
    ensures |walkPaths| >= |bitMapPaths| ==>
      var r := PairedPaths(bitMapPaths, walkPaths, Some(idx));
      && InRange(idx, |bitMapPaths|)
      && r.Ok? && |r.value| == |bitMapPaths|
      && forall i :: 0 <= i < |bitMapPaths| ==> r.value[i] == (bitMapPaths[idx[i]], walkPaths[idx[i]])
  {
    ShuffledPathsPermute(bitMapPaths, idx);
    PermutationEntries(idx, |bitMapPaths|);
    if |walkPaths| < |bitMapPaths| {
      var last := |bitMapPaths| - 1;
      assert last in idx;
      var k :| 0 <= k < |idx| && idx[k] == last;
      assert !(-|walkPaths| <= idx[k] < |walkPaths|);
    }
  }
}
