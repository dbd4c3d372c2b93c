/**
 * `gen_pd_chunks`: the rows of a table or series split into a given number
 * of consecutive chunks, as `numpy.array_split` splits its index — the
 * first `len % n` chunks one row longer than the rest.
 */
module Chunking {
  import opened Wrappers
  import Seqs

  /** The length of chunk `i`: one more than `len / n` for the first `len % n` chunks. */
  function ChunkSize(len: nat, n: nat, i: nat): nat
    requires n >= 1
  {
    len / n + (if i < len % n then 1 else 0)
  }

  /** Where chunk `i` of `n` starts in a sequence of length `len`: after the chunks before it. */
  function Start(len: nat, n: nat, i: nat): (p: nat)
    requires n >= 1
  {
    if i == 0 then 0 else Start(len, n, i - 1) + ChunkSize(len, n, i - 1)
  }

  /** The starts in closed form: `i * (len / n)` plus one for each longer chunk before `i`. */
  lemma {:induction false} StartClosed(len: nat, n: nat, i: nat)
    requires n >= 1
    ensures Start(len, n, i) == i * (len / n) + (if i < len % n then i else len % n)
  {
    if i > 0 {
      StartClosed(len, n, i - 1);
      assert i * (len / n) == (i - 1) * (len / n) + len / n;
    }
  }

  /** Consecutive starts are a chunk size apart, and the last start is the end. */
  lemma StartStep(len: nat, n: nat, i: nat)
    requires n >= 1
    ensures Start(len, n, i + 1) == Start(len, n, i) + ChunkSize(len, n, i)
    ensures Start(len, n, n) == len
    ensures Start(len, n, 0) == 0
  {
    StartClosed(len, n, n);
    assert len % n < n;
    assert len == n * (len / n) + len % n;
  }

  /** Starts never decrease. */
  lemma {:induction false} StartMonotone(len: nat, n: nat, i: nat, j: nat)
    requires n >= 1 && i <= j
    ensures Start(len, n, i) <= Start(len, n, j)
    decreases j - i
  {
    if i < j {
      StartStep(len, n, i);
      StartMonotone(len, n, i + 1, j);
    }
  }

  /** Chunk `i` of `n` is the stretch between its start and the next one. */
  function Chunk<T>(s: seq<T>, n: nat, i: nat): (c: seq<T>)
    requires 1 <= n && i < n
    ensures Start(|s|, n, i) <= Start(|s|, n, i + 1) <= |s|
    ensures |c| == ChunkSize(|s|, n, i)
    ensures c == s[Start(|s|, n, i)..Start(|s|, n, i + 1)]
  {
    StartStep(|s|, n, i);
    StartStep(|s|, n, n);
    StartMonotone(|s|, n, i + 1, n);
    s[Start(|s|, n, i)..Start(|s|, n, i + 1)]
  }

  /** `np.array_split(index, n)` followed by `.loc` per chunk: the `n` consecutive chunks of `s`. */
  function Split<T>(s: seq<T>, n: nat): (chunks: seq<seq<T>>)
    requires 1 <= n
    ensures |chunks| == n
    ensures forall i :: 0 <= i < n ==> chunks[i] == Chunk(s, n, i)
  {
    seq(n, (i: int) requires 0 <= i < n => Chunk(s, n, i))
  }

  /**
   * `gen_pd_chunks`: more chunks than rows raise ValueError, and so does a
   * non-positive number of chunks (`array_split` refuses it).
   */
  function Chunks<T>(s: seq<T>, n: int): Result<seq<seq<T>>>
  {
    if n > |s| then Err(ValueError)
    else if n <= 0 then Err(ValueError)
    else Ok(Split(s, n))
  }

  /** The chunks before chunk `k`, joined, are the rows before its start. */
  lemma {:induction false} SplitPrefix<T>(s: seq<T>, n: nat, k: nat)
    requires 1 <= n && k <= n
    ensures Start(|s|, n, k) <= |s|
    ensures Seqs.Flatten(Split(s, n)[..k]) == s[..Start(|s|, n, k)]
  {
    StartStep(|s|, n, n);
    StartMonotone(|s|, n, k, n);
    var chunks := Split(s, n);
    StartStep(|s|, n, 0);
    if k > 0 {
      SplitPrefix(s, n, k - 1);
      var a, b := Start(|s|, n, k - 1), Start(|s|, n, k);
      assert chunks[k - 1] == s[a..b];
      assert chunks[..k] == chunks[..k - 1] + [chunks[k - 1]];
      Seqs.FlattenAppend(chunks[..k - 1], [chunks[k - 1]]);
      assert Seqs.Flatten([chunks[k - 1]]) == chunks[k - 1] + Seqs.Flatten([]);
      assert s[..b] == s[..a] + s[a..b];
    }
  }

  /**
   * The chunking fails exactly when `n` is not between 1 and the number of
   * rows; otherwise there are exactly `n` chunks, none empty, which joined
   * in order give back the rows, with sizes differing by at most one and
   * the longer chunks first.
   */
  lemma ChunksSpec<T>(s: seq<T>, n: int)
    ensures Chunks(s, n).Err? <==> n > |s| || n <= 0
    ensures Chunks(s, n).Err? ==> Chunks(s, n).error == ValueError
    ensures Chunks(s, n).Ok? ==>
      var chunks := Chunks(s, n).value;
      && |chunks| == n
      && Seqs.Flatten(chunks) == s
      && (forall i :: 0 <= i < n ==> |chunks[i]| == ChunkSize(|s|, n, i) >= 1)
      && (forall i, j :: 0 <= i < j < n ==> |chunks[j]| <= |chunks[i]| <= |chunks[j]| + 1)
  {
    if 1 <= n <= |s| {
      var chunks := Split(s, n);
      SplitPrefix(s, n, n);
      StartStep(|s|, n, n);
      assert chunks[..n] == chunks;
      DivAtLeastOne(|s|, n);
    }
  }

  lemma DivAtLeastOne(len: nat, n: nat)
    requires 1 <= n <= len
    ensures len / n >= 1
  {
    assert len == n * (len / n) + len % n;
    assert len % n < n;
  }

  /** Position `p` lies in chunk `i`. */
  predicate InChunk(len: nat, n: nat, i: nat, p: nat)
    requires n >= 1
  {
    Start(len, n, i) <= p < Start(len, n, i + 1)
  }

  /** Every row lies in exactly one chunk, and it sits there unchanged. */
  lemma {:induction false} RowInOneChunk<T>(s: seq<T>, n: nat, p: nat)
    requires 1 <= n <= |s| && p < |s|
    ensures exists i :: 0 <= i < n && InChunk(|s|, n, i, p)
    ensures forall i, j :: 0 <= i < n && 0 <= j < n && InChunk(|s|, n, i, p) && InChunk(|s|, n, j, p) ==> i == j
    ensures forall i :: 0 <= i < n && InChunk(|s|, n, i, p) ==> Chunk(s, n, i)[p - Start(|s|, n, i)] == s[p]
  {
    StartStep(|s|, n, 0);
    LocateChunk(|s|, n, p, 0);
    forall i, j | 0 <= i < n && 0 <= j < n && InChunk(|s|, n, i, p) && InChunk(|s|, n, j, p)
      ensures i == j
    {
      if i < j {
        LaterChunkStartsAfter(|s|, n, p, i, j);
      } else if j < i {
        LaterChunkStartsAfter(|s|, n, p, j, i);
      }
    }
  }

  /** A chunk after the one holding position `p` starts beyond `p`. */
  lemma LaterChunkStartsAfter(len: nat, n: nat, p: nat, i: nat, j: nat)
    requires 1 <= n && i < j
    requires p < Start(len, n, i + 1)
    ensures p < Start(len, n, j)
  {
    StartMonotone(len, n, i + 1, j);
  }

  /** Searching from chunk `k` onwards finds the chunk that holds position `p`. */
  lemma {:induction false} LocateChunk(len: nat, n: nat, p: nat, k: nat)
    requires 1 <= n && k < n && Start(len, n, k) <= p < len
    ensures exists i :: k <= i < n && InChunk(len, n, i, p)
    decreases n - k
  {
    StartStep(len, n, k);
    if p < Start(len, n, k + 1) {
      assert InChunk(len, n, k, p);
    } else if k + 1 < n {
      LocateChunk(len, n, p, k + 1);
    }
  }
}
