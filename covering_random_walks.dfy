/**
 * Covering random walks over a molecule's atom graph: walks are started
 * from least-visited atoms until every atom has been visited, each walk
 * stepping to a least-visited neighbour it has not yet visited, for at most
 * `max_len` atoms. The random choices among equally visited atoms are left
 * open: every statement below holds whichever atom is chosen.
 */
module RandomWalks {
  import opened Wrappers
  import Seqs

  /** An atom graph: every atom's neighbours, which are atoms of the graph themselves. */
  predicate Closed(adj: map<int, seq<int>>) {
    forall a, b :: a in adj && b in adj[a] ==> b in adj
  }

  // ---------------------------------------------------------------
  // What a covering set of walks is.
  // ---------------------------------------------------------------

  /**
   * Step `k` of walk `w` (started after the atoms `before` were visited)
   * goes to a neighbour not yet in the walk, and no such neighbour had
   * fewer visits at that moment.
   */
  ghost predicate LeastVisitedStep(adj: map<int, seq<int>>, before: seq<int>, w: seq<int>, k: nat)
    requires k + 1 < |w| && w[k] in adj
  {
    && w[k + 1] in adj[w[k]]
    && w[k + 1] !in w[..k + 1]
    && forall nb :: nb in adj[w[k]] && nb !in w[..k + 1] ==>
         Seqs.Count(before + w[..k + 1], w[k + 1]) <= Seqs.Count(before + w[..k + 1], nb)
  }

  /**
   * One walk: between 1 and `maxLen` atoms of the graph, starting at an atom
   * no earlier walk visited, each step a least-visited new neighbour, no
   * atom twice, and stopped only at `maxLen` atoms or when every neighbour
   * of the last atom is already in the walk.
   */
  ghost predicate WalkOk(adj: map<int, seq<int>>, maxLen: int, before: seq<int>, w: seq<int>) {
    && 1 <= |w| <= maxLen
    && (forall k :: 0 <= k < |w| ==> w[k] in adj)
    && w[0] !in before
    && Seqs.NoDup(w)
    && (forall k :: 0 <= k < |w| - 1 ==> LeastVisitedStep(adj, before, w, k))
    && (|w| == maxLen || forall nb :: nb in adj[w[|w| - 1]] ==> nb in w)
  }

  /** Every walk is a valid walk given the atoms visited by the walks before it. */
  ghost predicate WalksOk(adj: map<int, seq<int>>, maxLen: int, walks: seq<seq<int>>)
    decreases |walks|
  {
    |walks| == 0 ||
    (WalksOk(adj, maxLen, walks[..|walks| - 1]) &&
     WalkOk(adj, maxLen, Seqs.Flatten(walks[..|walks| - 1]), walks[|walks| - 1]))
  }

  /** The walks are valid and together visit every atom. */
  ghost predicate Covering(adj: map<int, seq<int>>, maxLen: int, walks: seq<seq<int>>) {
    && WalksOk(adj, maxLen, walks)
    && forall a :: a in adj ==> a in Seqs.Flatten(walks)
  }

  /** The recursive validity, walk by walk. */
  lemma {:induction false} WalksOkEach(adj: map<int, seq<int>>, maxLen: int, walks: seq<seq<int>>)
    requires WalksOk(adj, maxLen, walks)
    ensures forall i :: 0 <= i < |walks| ==> WalkOk(adj, maxLen, Seqs.Flatten(walks[..i]), walks[i])
  {
    if |walks| > 0 {
      var init := walks[..|walks| - 1];
      WalksOkEach(adj, maxLen, init);
      forall i | 0 <= i < |walks| ensures WalkOk(adj, maxLen, Seqs.Flatten(walks[..i]), walks[i]) {
        if i < |init| {
          assert walks[..i] == init[..i];
          assert walks[i] == init[i];
        }
      }
    }
  }

  /** Every walk holds between 1 and `maxLen` atoms, and a non-empty graph needs at least one walk. */
  lemma WalksAreNonEmptyAndBounded(adj: map<int, seq<int>>, maxLen: int, walks: seq<seq<int>>)
    requires Covering(adj, maxLen, walks)
    ensures forall i :: 0 <= i < |walks| ==> 1 <= |walks[i]| <= maxLen
    ensures (exists a :: a in adj) ==> |walks| > 0
  {
    WalksOkEach(adj, maxLen, walks);
    if exists a :: a in adj {
      var a :| a in adj;
      assert a in Seqs.Flatten(walks);
    }
  }

  // ---------------------------------------------------------------
  // The sampling and the walk generation.
  // ---------------------------------------------------------------

  /**
   * `_sample_least_visited_atom`: one of the atoms with the fewest visits,
   * chosen freely. The dict is given as its keys in order and the counts.
   */
  method SampleLeastVisited(keys: seq<int>, counts: map<int, int>) returns (a: int)
    requires |keys| > 0
    requires (forall j :: 0 <= j < |keys| ==> keys[j] in counts) && forall b :: b in counts ==> b in keys
    ensures a in counts
    ensures forall b :: b in counts ==> counts[a] <= counts[b]
  {
    var least := keys[0];
    var i := 1;
    while i < |keys|
      invariant 1 <= i <= |keys| && least in counts
      invariant forall j :: 0 <= j < i ==> counts[least] <= counts[keys[j]]
    {
      if counts[keys[i]] < counts[least] {
        least := keys[i];
      }
      i := i + 1;
    }
    a :| a in counts && counts[a] == counts[least];
  }

  /** How many of the atoms have not been visited yet. */
  function Unvisited(atoms: seq<int>, counts: map<int, int>): nat
    requires forall i :: 0 <= i < |atoms| ==> atoms[i] in counts
  {
    if |atoms| == 0 then 0
    else (if counts[atoms[0]] == 0 then 1 else 0) + Unvisited(atoms[1..], counts)
  }

  /** Visits only grow, so fewer atoms stay unvisited, strictly fewer once a new one is visited. */
  lemma {:induction false} UnvisitedShrinks(atoms: seq<int>, before: map<int, int>, after: map<int, int>, x: int)
    requires forall i :: 0 <= i < |atoms| ==>
      atoms[i] in before && atoms[i] in after && (after[atoms[i]] == 0 ==> before[atoms[i]] == 0)
    requires x in before && x in after && before[x] == 0 && after[x] != 0
    ensures Unvisited(atoms, after) <= Unvisited(atoms, before)
    ensures x in atoms ==> Unvisited(atoms, after) < Unvisited(atoms, before)
  {
    if |atoms| > 0 {
      UnvisitedShrinks(atoms[1..], before, after, x);
      if x in atoms && atoms[0] != x {
        Seqs.InTail(atoms, x);
      }
    }
  }

  lemma FlattenSnoc(walks: seq<seq<int>>, w: seq<int>)
    ensures Seqs.Flatten(walks + [w]) == Seqs.Flatten(walks) + w
  {
    Seqs.FlattenAppend(walks, [w]);
    assert Seqs.Flatten([w]) == w + Seqs.Flatten([]);
  }

  /**
   * `_get_random_walks`: a graph without atoms raises ValueError (`min` of
   * no visit counts); otherwise the walks cover the graph as `Covering`
   * says. The graph is given as its atoms in key order and the neighbours.
   */
  method GenerateWalks(atoms: seq<int>, adj: map<int, seq<int>>, maxLen: int) returns (r: Result<seq<seq<int>>>)
    requires Closed(adj) && maxLen >= 1
    requires (forall i :: 0 <= i < |atoms| ==> atoms[i] in adj) && forall a :: a in adj ==> a in atoms
    ensures r.Err? <==> |atoms| == 0
    ensures r.Err? ==> r.error == ValueError
    ensures r.Ok? ==> Covering(adj, maxLen, r.value)
  {
    if |atoms| == 0 {
      return Err(ValueError);
    }
    var counts: map<int, int> := map a | a in adj :: 0;
    var walks: seq<seq<int>> := [];
    while exists a :: a in counts && counts[a] == 0
      invariant counts.Keys == adj.Keys
      invariant forall a :: a in counts ==> counts[a] == Seqs.Count(Seqs.Flatten(walks), a)
      invariant WalksOk(adj, maxLen, walks)
      decreases Unvisited(atoms, counts)
    {
      ghost var before := Seqs.Flatten(walks);
      ghost var countsBefore := counts;
      var start := SampleLeastVisited(atoms, counts);
      var z :| z in counts && counts[z] == 0;
      assert counts[start] == 0;
      Seqs.CountPositive(before, start);
      var walk;
      walk, counts := Walk(adj, maxLen, before, counts, start);
      FlattenSnoc(walks, walk);
      assert (walks + [walk])[..|walks|] == walks;
      walks := walks + [walk];
      forall i | 0 <= i < |atoms|
        ensures atoms[i] in countsBefore && atoms[i] in counts
        ensures counts[atoms[i]] == 0 ==> countsBefore[atoms[i]] == 0
      {
        var a := atoms[i];
        Seqs.CountAppend(before, walk, a);
      }
      Seqs.CountAppend(before, walk, start);
      assert walk[0] in walk;
      Seqs.CountPositive(walk, start);
      UnvisitedShrinks(atoms, countsBefore, counts, start);
    }
    forall a | a in adj ensures a in Seqs.Flatten(walks) {
      Seqs.CountPositive(Seqs.Flatten(walks), a);
    }
    return Ok(walks);
  }

  /**
   * The inner loop of `_get_random_walks`: one walk from `start`, counting
   * every visit, until `maxLen` atoms or until every neighbour of the last
   * atom is already in the walk. `before` are the atoms visited so far,
   * which the counts reflect on entry.
   */
  method Walk(adj: map<int, seq<int>>, maxLen: int, ghost before: seq<int>, counts: map<int, int>, start: int)
    returns (walk: seq<int>, after: map<int, int>)
    requires Closed(adj) && maxLen >= 1
    requires counts.Keys == adj.Keys && start in adj && start !in before
    requires forall a :: a in counts ==> counts[a] == Seqs.Count(before, a)
    ensures WalkOk(adj, maxLen, before, walk) && walk[0] == start
    ensures after.Keys == adj.Keys
    ensures forall a :: a in after ==> after[a] == Seqs.Count(before + walk, a)
  {
    after := counts;
    walk := [];
    var current := start;
    var stopped := false;
    assert before + [] == before;
    while |walk| < maxLen && !stopped
      invariant |walk| <= maxLen
      invariant after.Keys == adj.Keys && current in adj
      invariant forall a :: a in after ==> after[a] == Seqs.Count(before + walk, a)
      invariant |walk| == 0 <==> !stopped && current == start
      invariant WalkSoFar(adj, before, walk, start)
      invariant stopped ==> forall nb :: nb in adj[walk[|walk| - 1]] ==> nb in walk
      invariant !stopped && |walk| > 0 ==> LeastVisitedStep(adj, before, walk + [current], |walk| - 1)
      decreases maxLen - |walk|
    {
      CountSnoc(before, walk, current);
      Extend(adj, before, walk, start, current);
      walk := walk + [current];
      after := after[current := after[current] + 1];
      var candidates := Seqs.Filter(adj[current], (nb: int) => nb !in walk);
      var neighbours := map nb | nb in candidates :: after[nb];
      if |candidates| == 0 {
        stopped := true;
      } else {
        var next := SampleLeastVisited(candidates, neighbours);
        LeastStep(adj, before, walk, next, neighbours);
        current := next;
      }
    }
    WalkFinished(adj, maxLen, before, walk, start);
  }

  /** A walk built this far, stopped at `maxLen` atoms or at a dead end, is a valid walk. */
  lemma WalkFinished(adj: map<int, seq<int>>, maxLen: int, before: seq<int>, walk: seq<int>, start: int)
    requires WalkSoFar(adj, before, walk, start) && start !in before
    requires 1 <= |walk| <= maxLen
    requires |walk| == maxLen || forall nb :: nb in adj[walk[|walk| - 1]] ==> nb in walk
    ensures WalkOk(adj, maxLen, before, walk) && walk[0] == start
  {
  }

  /** The walk so far: from `start`, over atoms of the graph, no atom twice, every step least-visited. */
  ghost predicate WalkSoFar(adj: map<int, seq<int>>, before: seq<int>, walk: seq<int>, start: int) {
    && (|walk| > 0 ==> walk[0] == start)
    && (forall k :: 0 <= k < |walk| ==> walk[k] in adj)
    && Seqs.NoDup(walk)
    && (forall k :: 0 <= k < |walk| - 1 ==> LeastVisitedStep(adj, before, walk, k))
  }

  /** Appending the start, or a least-visited new neighbour, keeps the walk valid. */
  lemma Extend(adj: map<int, seq<int>>, before: seq<int>, walk: seq<int>, start: int, x: int)
    requires WalkSoFar(adj, before, walk, start) && x in adj
    requires |walk| == 0 ==> x == start
    requires |walk| > 0 ==> LeastVisitedStep(adj, before, walk + [x], |walk| - 1)
    ensures WalkSoFar(adj, before, walk + [x], start)
  {
    NoDupSnoc(adj, before, walk, x);
    StepsKept(adj, before, walk, x);
  }

  /** The atom about to be appended is new to the walk. */
  lemma NoDupSnoc(adj: map<int, seq<int>>, before: seq<int>, walk: seq<int>, x: int)
    requires Seqs.NoDup(walk)
    requires |walk| > 0 ==> walk[|walk| - 1] in adj && LeastVisitedStep(adj, before, walk + [x], |walk| - 1)
    ensures Seqs.NoDup(walk + [x])
  {
    if |walk| > 0 {
      assert (walk + [x])[..|walk|] == walk;
      assert x !in walk;
    }
  }

  /** Visiting one more atom adds one occurrence of it and none of any other. */
  lemma CountSnoc(before: seq<int>, walk: seq<int>, x: int)
    ensures forall a :: Seqs.Count(before + (walk + [x]), a) == Seqs.Count(before + walk, a) + (if a == x then 1 else 0)
  {
    forall a ensures Seqs.Count(before + (walk + [x]), a) == Seqs.Count(before + walk, a) + (if a == x then 1 else 0) {
      assert before + (walk + [x]) == (before + walk) + [x];
      Seqs.CountAppend(before + walk, [x], a);
      assert [x][1..] == [];
    }
  }

  /** Earlier steps of a walk stay valid when the walk grows. */
  lemma StepsKept(adj: map<int, seq<int>>, before: seq<int>, walk: seq<int>, x: int)
    requires forall k :: 0 <= k < |walk| ==> walk[k] in adj
    requires forall k :: 0 <= k < |walk| - 1 ==> LeastVisitedStep(adj, before, walk, k)
    requires |walk| > 0 ==> LeastVisitedStep(adj, before, walk + [x], |walk| - 1)
    ensures forall k :: 0 <= k < |walk + [x]| - 1 ==> (walk + [x])[k] in adj && LeastVisitedStep(adj, before, walk + [x], k)
  {
    var w := walk + [x];
    forall k | 0 <= k < |w| - 1 ensures w[k] in adj && LeastVisitedStep(adj, before, w, k) {
      if k < |walk| - 1 {
        assert LeastVisitedStep(adj, before, walk, k);
        assert w[..k + 1] == walk[..k + 1];
        assert w[k] == walk[k] && w[k + 1] == walk[k + 1];
      }
    }
  }

  /** The sampled neighbour makes a least-visited step. */
  lemma LeastStep(adj: map<int, seq<int>>, before: seq<int>, walk: seq<int>, next: int, neighbours: map<int, int>)
    requires |walk| > 0 && walk[|walk| - 1] in adj
    requires forall nb :: nb in neighbours <==> nb in adj[walk[|walk| - 1]] && nb !in walk
    requires forall nb :: nb in neighbours ==> neighbours[nb] == Seqs.Count(before + walk, nb)
    requires next in neighbours && forall b :: b in neighbours ==> neighbours[next] <= neighbours[b]
    ensures LeastVisitedStep(adj, before, walk + [next], |walk| - 1)
  {
    var w := walk + [next];
    assert w[..|walk|] == walk;
    assert w[|walk| - 1] == walk[|walk| - 1];
  }

  // ---------------------------------------------------------------
  // The descriptor and its serialisation.
  // ---------------------------------------------------------------

  /** `CoveringRandomWalks`: the walks and the graph's atoms in key order. */
  datatype Descriptor = Descriptor(walks: seq<seq<int>>, atoms: seq<int>)

  /** A serialised value: the dict `{"walks": ..., "atoms": ...}`. */
  datatype Field = WalksField(walks: seq<seq<int>>) | AtomsField(atoms: seq<int>)

  /** `serialize`: the walks under "walks" and the atoms under "atoms". */
  function Serialize(d: Descriptor): (data: map<string, Field>)
    ensures data.Keys == {"walks", "atoms"}
  {
    map["walks" := WalksField(d.walks), "atoms" := AtomsField(d.atoms)]
  }

  /** `deserialize`: a missing key raises KeyError; so does a value of the wrong shape here. */
  function Deserialize(data: map<string, Field>): Result<Descriptor>
  {
    if "walks" !in data || "atoms" !in data then Err(KeyError)
    else if !data["walks"].WalksField? || !data["atoms"].AtomsField? then Err(KeyError)
    else Ok(Descriptor(data["walks"].walks, data["atoms"].atoms))
  }

  /** Deserialising a serialised descriptor gives it back; only dicts holding both keys deserialise. */
  lemma SerializeRoundTrip(d: Descriptor, data: map<string, Field>)
    ensures Deserialize(Serialize(d)) == Ok(d)
    ensures Deserialize(data).Ok? ==> "walks" in data && "atoms" in data && Serialize(Deserialize(data).value) == data - (data.Keys - {"walks", "atoms"})
  {
    if Deserialize(data).Ok? {
      var s := Serialize(Deserialize(data).value);
      var t := data - (data.Keys - {"walks", "atoms"});
      assert s.Keys == t.Keys;
    }
  }

  /**
   * `from_mol` once the adjacency is built: the graph's atoms in key order
   * (`atoms` lists each key once) and covering walks over it.
   */
  method FromAdjacency(atoms: seq<int>, adj: map<int, seq<int>>, maxLen: int) returns (r: Result<Descriptor>)
    requires Closed(adj) && maxLen >= 1
    requires Seqs.NoDup(atoms)
    requires (forall i :: 0 <= i < |atoms| ==> atoms[i] in adj) && forall a :: a in adj ==> a in atoms
    ensures r.Err? <==> |atoms| == 0
    ensures r.Ok? ==> r.value.atoms == atoms && Covering(adj, maxLen, r.value.walks)
  {
    var walks := GenerateWalks(atoms, adj, maxLen);
    if walks.Err? {
      return Err(walks.error);
    }
    return Ok(Descriptor(walks.value, atoms));
  }
}
