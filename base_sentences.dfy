/**
 * Mol sentences over an atom radius bit map: each word is `str(bit)` for
 * the bit an atom's environment of some radius sets. The base class builds
 * one sentence per radius over the map's atoms; the loader optionally
 * permutes the bit-map files with one shuffle index chosen up front.
 */
module BaseSentences {
  import opened Wrappers
  import Seqs
  import PyStrings
  import opened AtomRadiusBits

  type Sentence = seq<string>
  type BitDict = map<int, map<int, int>>

  /** Every atom of `atoms` has an entry in the dict (otherwise `dict[atom]` raises KeyError). */
  predicate Known(d: BitDict, atoms: seq<int>) {
    forall i :: 0 <= i < |atoms| ==> atoms[i] in d
  }

  /** A bit map whose atom list consists of its dict's keys, as `atoms` derives it. */
  predicate Valid(m: AtomRadiusBitMap) {
    Known(m.dict, m.keys)
  }

  /** The word of one atom at one radius: `str(bit)`, or nothing when the atom lacks the radius. */
  function Word(d: BitDict, atom: int, r: int): (w: Sentence)
    requires atom in d
    ensures |w| <= 1
    ensures w == [] <==> r !in d[atom]
  {
    if r in d[atom] then [PyStrings.IntToString(d[atom][r])] else []
  }

  /** The sentence of radius `r`: the words of the atoms that have the radius, in atom order. */
  function RadiusWords(d: BitDict, atoms: seq<int>, r: int): (w: Sentence)
    requires Known(d, atoms)
    decreases |atoms|
  {
    if |atoms| == 0 then []
    else Word(d, atoms[0], r) + RadiusWords(d, atoms[1..], r)
  }

  /**
   * A radius sentence holds exactly the words of the atoms that have the
   * radius; it is empty iff none has it, and no longer than the atom list.
   */
  lemma {:induction false} RadiusWordsSpec(d: BitDict, atoms: seq<int>, r: int)
    requires Known(d, atoms)
    ensures |RadiusWords(d, atoms, r)| <= |atoms|
    ensures RadiusWords(d, atoms, r) == [] <==> forall i :: 0 <= i < |atoms| ==> r !in d[atoms[i]]
    ensures forall w :: w in RadiusWords(d, atoms, r) <==>
      exists i :: 0 <= i < |atoms| && r in d[atoms[i]] && w == PyStrings.IntToString(d[atoms[i]][r])
    decreases |atoms|
  {
    RadiusWordsEmpty(d, atoms, r);
    forall w ensures w in RadiusWords(d, atoms, r) <==>
      exists i :: 0 <= i < |atoms| && r in d[atoms[i]] && w == PyStrings.IntToString(d[atoms[i]][r])
    {
      RadiusWordsMember(d, atoms, r, w);
    }
  }

  lemma {:induction false} RadiusWordsEmpty(d: BitDict, atoms: seq<int>, r: int)
    requires Known(d, atoms)
    ensures |RadiusWords(d, atoms, r)| <= |atoms|
    ensures RadiusWords(d, atoms, r) == [] <==> forall i :: 0 <= i < |atoms| ==> r !in d[atoms[i]]
    decreases |atoms|
  {
    if |atoms| > 0 {
      RadiusWordsEmpty(d, atoms[1..], r);
      if RadiusWords(d, atoms, r) == [] {
        forall i | 0 <= i < |atoms| ensures r !in d[atoms[i]] {
          if i > 0 {
            assert atoms[1..][i - 1] == atoms[i];
          }
        }
      }
    }
  }

  lemma {:induction false} RadiusWordsMember(d: BitDict, atoms: seq<int>, r: int, w: string)
    requires Known(d, atoms)
    ensures w in RadiusWords(d, atoms, r) <==>
      exists i :: 0 <= i < |atoms| && r in d[atoms[i]] && w == PyStrings.IntToString(d[atoms[i]][r])
    decreases |atoms|
  {
    if |atoms| > 0 {
      RadiusWordsMember(d, atoms[1..], r, w);
      if w in RadiusWords(d, atoms[1..], r) {
        var i :| 0 <= i < |atoms[1..]| && r in d[atoms[1..][i]] && w == PyStrings.IntToString(d[atoms[1..][i]][r]);
        assert atoms[1..][i] == atoms[i + 1];
      }
      if exists i :: 0 <= i < |atoms| && r in d[atoms[i]] && w == PyStrings.IntToString(d[atoms[i]][r]) {
        var i :| 0 <= i < |atoms| && r in d[atoms[i]] && w == PyStrings.IntToString(d[atoms[i]][r]);
        if i > 0 {
          assert atoms[1..][i - 1] == atoms[i];
        }
      }
    }
  }

  /** Atom order is kept: the sentence of a concatenation is the concatenation of the sentences. */
  lemma {:induction false} RadiusWordsAppend(d: BitDict, a: seq<int>, b: seq<int>, r: int)
    requires Known(d, a) && Known(d, b)
    ensures Known(d, a + b)
    ensures RadiusWords(d, a + b, r) == RadiusWords(d, a, r) + RadiusWords(d, b, r)
    decreases |a|
  {
    assert forall i :: 0 <= i < |a + b| ==> (a + b)[i] == if i < |a| then a[i] else b[i - |a|];
    if |a| > 0 {
      assert (a + b)[1..] == a[1..] + b;
      RadiusWordsAppend(d, a[1..], b, r);
    } else {
      assert a + b == b;
    }
  }

  /** The generator before the filter: one candidate sentence per radius, in radii order. */
  function Candidates(d: BitDict, atoms: seq<int>, radii: seq<int>): (cs: seq<Sentence>)
    requires Known(d, atoms)
    ensures |cs| == |radii|
    ensures forall j :: 0 <= j < |radii| ==> cs[j] == RadiusWords(d, atoms, radii[j])
    decreases |radii|
  {
    if |radii| == 0 then []
    else [RadiusWords(d, atoms, radii[0])] + Candidates(d, atoms, radii[1..])
  }

  /** `[sentence for sentence in gen if sentence]`: the non-empty sentences, in order. */
  function DropEmpty(ss: seq<Sentence>): (r: seq<Sentence>)
    ensures |r| <= |ss|
    ensures forall s :: s in r <==> s in ss && s != []
    ensures Seqs.Flatten(r) == Seqs.Flatten(ss)
  {
    if |ss| == 0 then []
    else
      var rest := DropEmpty(ss[1..]);
      assert forall s :: s in ss <==> s == ss[0] || s in ss[1..];
      if ss[0] == [] then rest else [ss[0]] + rest
  }

  /**
   * `get_radius_atom_sentences`: per radius, in radii order, the words of
   * the map's atoms that have it; empty sentences dropped.
   */
  function RadiusAtomSentences(m: AtomRadiusBitMap, radii: seq<int>): seq<Sentence>
    requires Valid(m)
  {
    DropEmpty(Candidates(m.dict, m.keys, radii))
  }

  /**
   * Every radius sentence is non-empty, there are at most as many as radii,
   * and a sentence is there iff it is the (non-empty) sentence of one of the
   * radii.
   */
  lemma RadiusAtomSentencesSpec(m: AtomRadiusBitMap, radii: seq<int>)
    requires Valid(m)
    ensures |RadiusAtomSentences(m, radii)| <= |radii|
    ensures forall s :: s in RadiusAtomSentences(m, radii) ==> s != []
    ensures forall s :: s in RadiusAtomSentences(m, radii) <==>
      s != [] && exists j :: 0 <= j < |radii| && s == RadiusWords(m.dict, m.keys, radii[j])
  {
    var cs := Candidates(m.dict, m.keys, radii);
    forall s ensures s in cs <==> exists j :: 0 <= j < |radii| && s == RadiusWords(m.dict, m.keys, radii[j]) {
      if s in cs {
        var j :| 0 <= j < |cs| && cs[j] == s;
      }
    }
  }

  /** When no radius is asked for, there are no sentences. */
  lemma NoRadiiNoSentences(m: AtomRadiusBitMap)
    requires Valid(m)
    ensures RadiusAtomSentences(m, []) == []
  {
  }

  /** `get_flattened_atom_radius_sentences`: the radius sentences' words, one after another. */
  function FlattenedSentences(m: AtomRadiusBitMap, radii: seq<int>): seq<string>
    requires Valid(m)
  {
    Seqs.Flatten(RadiusAtomSentences(m, radii))
  }

  /** The words in the flattened form, radius after radius; the dropped empty sentences contribute nothing. */
  function ByRadius(d: BitDict, atoms: seq<int>, radii: seq<int>): seq<string>
    requires Known(d, atoms)
    decreases |radii|
  {
    if |radii| == 0 then []
    else RadiusWords(d, atoms, radii[0]) + ByRadius(d, atoms, radii[1..])
  }

  /** The flattened sentences are all radius sentences joined in radii order. */
  lemma {:induction false} FlattenedSentencesSpec(m: AtomRadiusBitMap, radii: seq<int>)
    requires Valid(m)
    ensures FlattenedSentences(m, radii) == ByRadius(m.dict, m.keys, radii)
  {
    FlattenCandidates(m.dict, m.keys, radii);
  }

  lemma {:induction false} FlattenCandidates(d: BitDict, atoms: seq<int>, radii: seq<int>)
    requires Known(d, atoms)
    ensures Seqs.Flatten(Candidates(d, atoms, radii)) == ByRadius(d, atoms, radii)
    decreases |radii|
  {
    if |radii| > 0 {
      FlattenCandidates(d, atoms, radii[1..]);
      assert Candidates(d, atoms, radii)[1..] == Candidates(d, atoms, radii[1..]);
    }
  }

  // ---------------------------------------------------------------
  // The loader's shuffle: one index, a permutation of 0..n-1, picks
  // the files in a new order.
  // ---------------------------------------------------------------

  /** `0, 1, ..., n - 1`. */
  function Range(n: nat): (r: seq<int>)
    ensures |r| == n
    ensures forall i :: 0 <= i < n ==> r[i] == i
  {
    seq(n, i => i)
  }

  /** `idx` is a permutation of `0..n-1`. */
  predicate IsPermutation(idx: seq<int>, n: nat) {
    multiset(idx) == multiset(Range(n))
  }

  /**
   * `_gen_shuffle_index`: `random.sample(range(n), n)`. The random choice is
   * left open: at each step any of the remaining numbers may be drawn.
   */
  method GenShuffleIndex(n: nat) returns (idx: seq<int>)
    ensures |idx| == n
    ensures IsPermutation(idx, n)
  {
    var remaining := Range(n);
    idx := [];
    while |remaining| > 0
      invariant multiset(idx) + multiset(remaining) == multiset(Range(n))
      invariant |idx| + |remaining| == n
      decreases |remaining|
    {
      var k :| 0 <= k < |remaining|;
      assert remaining == remaining[..k] + [remaining[k]] + remaining[k + 1..];
      idx := idx + [remaining[k]];
      remaining := remaining[..k] + remaining[k + 1..];
    }
  }

  /** A permutation of `0..n-1` holds every number below `n` exactly once and nothing else. */
  lemma PermutationEntries(idx: seq<int>, n: nat)
    requires IsPermutation(idx, n)
    ensures |idx| == n
    ensures forall i :: 0 <= i < |idx| ==> 0 <= idx[i] < n
    ensures forall k :: 0 <= k < n ==> k in idx
    ensures Seqs.NoDup(idx)
  {
    assert |multiset(idx)| == |multiset(Range(n))|;
    forall i | 0 <= i < |idx| ensures 0 <= idx[i] < n {
      assert idx[i] in multiset(idx);
      assert idx[i] in multiset(Range(n));
    }
    forall k | 0 <= k < n ensures k in idx {
      assert Range(n)[k] == k;
      assert k in multiset(Range(n));
    }
    forall i, j | 0 <= i < j < |idx| ensures idx[i] != idx[j] {
      if idx[i] == idx[j] {
        TwoOccurrences(idx, i, j);
        RangeOnce(n, idx[i]);
      }
    }
  }

  lemma TwoOccurrences(s: seq<int>, i: nat, j: nat)
    requires i < j < |s| && s[i] == s[j]
    ensures multiset(s)[s[i]] >= 2
  {
    assert s == s[..i] + [s[i]] + s[i + 1..j] + [s[j]] + s[j + 1..];
  }

  lemma {:induction false} RangeOnce(n: nat, k: int)
    ensures multiset(Range(n))[k] <= 1
  {
    if n > 0 {
      RangeOnce(n - 1, k);
      assert Range(n) == Range(n - 1) + [n - 1];
      if k == n - 1 {
        assert k !in Range(n - 1);
      }
    }
  }

  /**
   * `_get_shuffled_paths`: `[paths[i] for i in shuffle_index]`, with
   * Python's indexing (a negative index counts from the end, and an index
   * out of range raises IndexError).
   */
  function ShuffledPaths<P>(paths: seq<P>, idx: seq<int>): (r: Result<seq<P>>)
    ensures r.Ok? <==> forall i :: 0 <= i < |idx| ==> -|paths| <= idx[i] < |paths|
    ensures r.Err? ==> r.error == IndexError
    ensures r.Ok? ==> |r.value| == |idx|
    ensures r.Ok? ==> forall i :: 0 <= i < |idx| ==> r.value[i] == paths[if idx[i] < 0 then idx[i] + |paths| else idx[i]]
  {
    if forall i :: 0 <= i < |idx| ==> -|paths| <= idx[i] < |paths| then
      Ok(seq(|idx|, i requires 0 <= i < |idx| => paths[if idx[i] < 0 then idx[i] + |paths| else idx[i]]))
    else Err(IndexError)
  }

  /** Every index lies in `0..n-1`. */
  predicate InRange(idx: seq<int>, n: int) {
    forall i :: 0 <= i < |idx| ==> 0 <= idx[i] < n
  }

  /** The paths at the given indices, for indices in range. */
  function Pick<P>(paths: seq<P>, idx: seq<int>): (r: seq<P>)
    requires InRange(idx, |paths|)
    ensures |r| == |idx|
    ensures forall i :: 0 <= i < |idx| ==> r[i] == paths[idx[i]]
    decreases |idx|
  {
    if |idx| == 0 then [] else [paths[idx[0]]] + Pick(paths, idx[1..])
  }

  /** Taking index `k` out of `b` takes one copy of path `b[k]` out of the picked paths. */
  lemma PickRemove<P>(paths: seq<P>, b: seq<int>, k: nat, b': seq<int>)
    requires InRange(b, |paths|) && k < |b|
    requires b' == b[..k] + b[k + 1..]
    ensures InRange(b', |paths|)
    ensures multiset(Pick(paths, b)) == multiset{paths[b[k]]} + multiset(Pick(paths, b'))
  {
    forall i | 0 <= i < |b'| ensures 0 <= b'[i] < |paths| {
      if i < k { assert b'[i] == b[i]; } else { assert b'[i] == b[i + 1]; }
    }
    var p, p' := Pick(paths, b), Pick(paths, b');
    var q := p'[..k] + [paths[b[k]]] + p'[k..];
    forall i | 0 <= i < |p| ensures p[i] == q[i] {
      if i < k {
        assert b'[i] == b[i];
        assert q[i] == p'[i];
      } else if i > k {
        assert b'[i - 1] == b[i];
        assert q[i] == p'[i - 1];
      }
    }
    assert p == q;
    MultisetInsert(p'[..k], paths[b[k]], p'[k..]);
    assert p' == p'[..k] + p'[k..];
  }

  lemma MultisetInsert<T>(a: seq<T>, x: T, b: seq<T>)
    ensures multiset(a + [x] + b) == multiset{x} + multiset(a + b)
  {
  }

  /** Picking by two orderings of the same indices picks the same paths, each as often. */
  lemma {:induction false} PickReordered<P>(paths: seq<P>, a: seq<int>, b: seq<int>)
    requires InRange(a, |paths|) && InRange(b, |paths|)
    requires multiset(a) == multiset(b)
    ensures multiset(Pick(paths, a)) == multiset(Pick(paths, b))
    decreases |a|
  {
    if |a| == 0 {
      assert |multiset(b)| == 0;
    } else {
      var x := a[0];
      assert a == [x] + a[1..];
      assert multiset(a) == multiset{x} + multiset(a[1..]);
      assert x in multiset(b);
      assert x in b;
      var k := Seqs.IndexOf(b, x);
      var b' := b[..k] + b[k + 1..];
      assert b == b[..k] + [x] + b[k + 1..];
      assert multiset(b) == multiset{x} + multiset(b');
      PickRemove(paths, b, k, b');
      assert InRange(a[1..], |paths|) by {
        forall i | 0 <= i < |a[1..]| ensures 0 <= a[1..][i] < |paths| {
          assert a[1..][i] == a[i + 1];
        }
      }
      MultisetCancel(multiset(a[1..]), multiset(b'), x);
      PickReordered(paths, a[1..], b');
      assert Pick(paths, a) == [paths[x]] + Pick(paths, a[1..]);
    }
  }

  lemma MultisetCancel(p: multiset<int>, q: multiset<int>, x: int)
    requires multiset{x} + p == multiset{x} + q
    ensures p == q
  {
    forall y ensures p[y] == q[y] {
      assert (multiset{x} + p)[y] == (multiset{x} + q)[y];
    }
  }

  /**
   * With a shuffle index of the right length, the shuffled paths are the
   * same paths, each as often, with path `idx[i]` in place `i`.
   */
  lemma ShuffledPathsPermute<P>(paths: seq<P>, idx: seq<int>)
    requires IsPermutation(idx, |paths|)
    ensures InRange(idx, |paths|)
    ensures ShuffledPaths(paths, idx).Ok?
    ensures forall i :: 0 <= i < |idx| ==> ShuffledPaths(paths, idx).value[i] == paths[idx[i]]
    ensures multiset(ShuffledPaths(paths, idx).value) == multiset(paths)
  {
    PermutationEntries(idx, |paths|);
    var r := ShuffledPaths(paths, idx);
    assert r.value == Pick(paths, idx);
    var n := Range(|paths|);
    assert InRange(n, |paths|);
    PickReordered(paths, idx, n);
    assert Pick(paths, n) == paths;
  }

  /**
   * `_load_atom_radius_bit_map_series_iter`: the bit-map files in their
   * original order without a shuffle index, else picked by it.
   */
  function BitMapPaths<P>(paths: seq<P>, shuffleIndex: Option<seq<int>>): (r: Result<seq<P>>)
    ensures shuffleIndex.None? ==> r == Ok(paths)
  {
    match shuffleIndex
    case None => Ok(paths)
    case Some(idx) => ShuffledPaths(paths, idx)
  }

  /**
   * `get_sentences_series_iter`'s path order: without shuffle the files in
   * their original order; with shuffle a permutation of them drawn by
   * `_gen_shuffle_index`.
   */
  method LoadOrder<P>(paths: seq<P>, shuffle: bool) returns (shuffleIndex: Option<seq<int>>, loaded: seq<P>)
    ensures !shuffle ==> shuffleIndex == None && loaded == paths
    ensures shuffle ==> shuffleIndex.Some? && IsPermutation(shuffleIndex.value, |paths|)
    ensures shuffle ==> |shuffleIndex.value| == |paths| && InRange(shuffleIndex.value, |paths|)
    ensures shuffle ==> |loaded| == |paths| && multiset(loaded) == multiset(paths)
    ensures shuffle ==> forall i :: 0 <= i < |paths| ==> loaded[i] == paths[shuffleIndex.value[i]]
  {
    if shuffle {
      var idx := GenShuffleIndex(|paths|);
      shuffleIndex := Some(idx);
      ShuffledPathsPermute(paths, idx);
      loaded := BitMapPaths(paths, shuffleIndex).value;
    } else {
      shuffleIndex := None;
      loaded := paths;
    }
  }
}
