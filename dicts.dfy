/**
 * Python dictionaries as insertion-ordered association lists.
 * `Set` is `d[k] = v` (an existing key keeps its position), `SetAll` is
 * `d |= other` and also what `dict(zip(ks, vs))` and a dict
 * comprehension build: the last value written for a key wins, while the
 * key stays where it was first inserted.
 */
module Dicts {
  import opened Wrappers
  import Seqs

  type Dict<K, V> = seq<(K, V)>

  function Keys<K, V>(d: Dict<K, V>): (ks: seq<K>)
    ensures |ks| == |d|
    ensures forall i :: 0 <= i < |d| ==> ks[i] == d[i].0
  {
    seq(|d|, i requires 0 <= i < |d| => d[i].0)
  }

  lemma KeysAppend<K, V>(a: Dict<K, V>, b: Dict<K, V>)
    ensures Keys(a + b) == Keys(a) + Keys(b)
  {
  }

  /** The value stored under `k`, or None (Python raises KeyError on `d[k]`). */
  function Get<K(==), V>(d: Dict<K, V>, k: K): (r: Option<V>)
    ensures r.None? <==> k !in Keys(d)
  {
    if |d| == 0 then None
    else if d[0].0 == k then Some(d[0].1)
    else
      assert Keys(d) == [d[0].0] + Keys(d[1..]);
      Get(d[1..], k)
  }

  /** In a dictionary whose keys are distinct, each entry is what its key looks up. */
  lemma {:induction false} GetAt<K, V>(d: Dict<K, V>, i: nat)
    requires Seqs.NoDup(Keys(d))
    requires i < |d|
    ensures Get(d, d[i].0) == Some(d[i].1)
  {
    if i > 0 {
      assert Keys(d)[0] != Keys(d)[i];
      assert Keys(d[1..]) == Keys(d)[1..];
      GetAt(d[1..], i - 1);
    }
  }

  function Set<K(==), V>(d: Dict<K, V>, k: K, v: V): Dict<K, V>
  {
    if |d| == 0 then [(k, v)]
    else if d[0].0 == k then [(k, v)] + d[1..]
    else [d[0]] + Set(d[1..], k, v)
  }

  lemma SetSpec<K, V>(d: Dict<K, V>, k: K, v: V)
    ensures Get(Set(d, k, v), k) == Some(v)
    ensures forall k' :: k' != k ==> Get(Set(d, k, v), k') == Get(d, k')
    ensures Keys(Set(d, k, v)) == if k in Keys(d) then Keys(d) else Keys(d) + [k]
  {
    SetGet(d, k, v);
    SetKeys(d, k, v);
  }

  /** After `d[k] = v`, `k` reads `v` and every other key reads as before. */
  lemma {:induction false} SetGet<K, V>(d: Dict<K, V>, k: K, v: V)
    ensures Get(Set(d, k, v), k) == Some(v)
    ensures forall k' :: k' != k ==> Get(Set(d, k, v), k') == Get(d, k')
  {
    if |d| > 0 && d[0].0 != k {
      SetGet(d[1..], k, v);
    }
  }

  /** `d[k] = v` keeps the key order and appends a new key at the end. */
  lemma {:induction false} SetKeys<K, V>(d: Dict<K, V>, k: K, v: V)
    ensures Keys(Set(d, k, v)) == if k in Keys(d) then Keys(d) else Keys(d) + [k]
  {
    if |d| > 0 {
      KeysOfCons(d);
      var rest := Set(d[1..], k, v);
      if d[0].0 != k {
        SetKeys(d[1..], k, v);
        KeysAppend([d[0]], rest);
        assert Keys([d[0]]) == [d[0].0];
        assert k in Keys(d) <==> k in Keys(d[1..]);
      } else {
        KeysAppend([(k, v)], d[1..]);
        assert Keys([(k, v)]) == [k];
      }
    }
  }

  function SetAll<K(==), V>(d: Dict<K, V>, es: seq<(K, V)>): Dict<K, V>
    decreases |es|
  {
    if |es| == 0 then d else SetAll(Set(d, es[0].0, es[0].1), es[1..])
  }

  /** The value of the last entry with key `k`, if any. */
  function LastValue<K(==), V>(es: seq<(K, V)>, k: K): Option<V>
  {
    if |es| == 0 then None
    else if es[|es| - 1].0 == k then Some(es[|es| - 1].1)
    else LastValue(es[..|es| - 1], k)
  }

  lemma {:induction false} LastValueCons<K, V>(e: (K, V), es: seq<(K, V)>, k: K)
    ensures LastValue([e] + es, k) == if LastValue(es, k).Some? then LastValue(es, k) else if e.0 == k then Some(e.1) else None
  {
    if |es| > 0 {
      assert ([e] + es)[..|[e] + es| - 1] == [e] + es[..|es| - 1];
      LastValueCons(e, es[..|es| - 1], k);
    }
  }

  /** Reading after `SetAll`: the last new entry for the key if there is one, else the old value. */
  lemma {:induction false} SetAllGet<K, V>(d: Dict<K, V>, es: seq<(K, V)>, k: K)
    ensures Get(SetAll(d, es), k) == if LastValue(es, k).Some? then LastValue(es, k) else Get(d, k)
    decreases |es|
  {
    if |es| > 0 {
      var d' := Set(d, es[0].0, es[0].1);
      SetAllGet(d', es[1..], k);
      SetSpec(d, es[0].0, es[0].1);
      assert es == [es[0]] + es[1..];
      LastValueCons(es[0], es[1..], k);
    }
  }

  /** The keys after `SetAll`: the old keys, then new keys in order of first appearance. */
  lemma {:induction false} SetAllKeys<K(!new), V>(d: Dict<K, V>, es: seq<(K, V)>)
    requires Seqs.NoDup(Keys(d))
    ensures Keys(SetAll(d, es)) == Seqs.Distinct(Keys(d) + Keys(es))
    decreases |es|
  {
    if |es| == 0 {
      assert Keys(d) + Keys(es) == Keys(d);
      Seqs.DistinctOfNoDup(Keys(d));
    } else {
      var k := es[0].0;
      var d' := Set(d, k, es[0].1);
      var ke := Keys(es[1..]);
      calc {
        Keys(SetAll(d, es));
        Keys(SetAll(d', es[1..]));
        { KeysAfterSet(d, k, es[0].1); SetAllKeys(d', es[1..]); }
        Seqs.Distinct(Keys(d') + ke);
        { KeysAfterSet(d, k, es[0].1); DistinctPrefixRewrite(Keys(d'), Keys(d) + [k], ke); }
        Seqs.Distinct((Keys(d) + [k]) + ke);
        { KeysOfCons(es); assert (Keys(d) + [k]) + ke == Keys(d) + ([k] + ke); }
        Seqs.Distinct(Keys(d) + Keys(es));
      }
    }
  }

  lemma KeysOfCons<K, V>(es: seq<(K, V)>)
    requires |es| > 0
    ensures Keys(es) == [es[0].0] + Keys(es[1..])
  {
  }

  lemma KeysAfterSet<K(!new), V>(d: Dict<K, V>, k: K, v: V)
    requires Seqs.NoDup(Keys(d))
    ensures Seqs.NoDup(Keys(Set(d, k, v)))
    ensures Seqs.Distinct(Keys(Set(d, k, v))) == Seqs.Distinct(Keys(d) + [k])
  {
    SetSpec(d, k, v);
    Seqs.DistinctOfNoDup(Keys(d));
    Seqs.DistinctSnoc(Keys(d), k);
    Seqs.DistinctOfNoDup(Keys(Set(d, k, v)));
  }

  /** Two prefixes with the same distinct list give the same distinct list when extended alike. */
  lemma {:induction false} DistinctPrefixRewrite<K(!new)>(a: seq<K>, b: seq<K>, c: seq<K>)
    requires Seqs.Distinct(a) == Seqs.Distinct(b)
    ensures Seqs.Distinct(a + c) == Seqs.Distinct(b + c)
    decreases |c|
  {
    if |c| > 0 {
      var c' := c[..|c| - 1];
      var x := c[|c| - 1];
      DistinctPrefixRewrite(a, b, c');
      assert a + c == (a + c') + [x];
      assert b + c == (b + c') + [x];
      Seqs.DistinctSnoc(a + c', x);
      Seqs.DistinctSnoc(b + c', x);
      assert x in a + c' <==> x in Seqs.Distinct(a + c');
      assert x in b + c' <==> x in Seqs.Distinct(b + c');
    } else {
      assert a + c == a && b + c == b;
    }
  }

  /** `a | b`. */
  function Union<K(==), V>(a: Dict<K, V>, b: Dict<K, V>): Dict<K, V>
  {
    SetAll(a, b)
  }

  /** `dict(entries)`, `dict(zip(ks, vs))`, `{k: v for ...}`. */
  function FromEntries<K(==), V>(es: seq<(K, V)>): Dict<K, V>
  {
    SetAll([], es)
  }

  function Zip<K, V>(ks: seq<K>, vs: seq<V>): (r: seq<(K, V)>)
    ensures |r| == if |ks| <= |vs| then |ks| else |vs|
    ensures forall i :: 0 <= i < |r| ==> r[i] == (ks[i], vs[i])
  {
    if |ks| == 0 || |vs| == 0 then [] else [(ks[0], vs[0])] + Zip(ks[1..], vs[1..])
  }

  function Values<K, V>(d: Dict<K, V>): (vs: seq<V>)
    ensures |vs| == |d|
    ensures forall i :: 0 <= i < |d| ==> vs[i] == d[i].1
  {
    seq(|d|, i requires 0 <= i < |d| => d[i].1)
  }

  lemma {:induction false} SetAbsent<K, V>(d: Dict<K, V>, k: K, v: V)
    requires k !in Keys(d)
    ensures Set(d, k, v) == d + [(k, v)]
  {
    if |d| > 0 {
      assert Keys(d) == [d[0].0] + Keys(d[1..]);
      SetAbsent(d[1..], k, v);
      assert d == [d[0]] + d[1..];
    }
  }

  /** Writing entries whose keys are all new and distinct appends them in order. */
  lemma {:induction false} SetAllFresh<K, V>(d: Dict<K, V>, es: seq<(K, V)>)
    requires Seqs.NoDup(Keys(d) + Keys(es))
    ensures SetAll(d, es) == d + es
    decreases |es|
  {
    if |es| > 0 {
      var e := es[0];
      var d' := d + [e];
      FreshStep(d, es);
      SetAllFresh(d', es[1..]);
      assert SetAll(d, es) == SetAll(Set(d, e.0, e.1), es[1..]);
      assert d' + es[1..] == d + es;
    }
  }

  lemma {:induction false} FreshStep<K, V>(d: Dict<K, V>, es: seq<(K, V)>)
    requires |es| > 0
    requires Seqs.NoDup(Keys(d) + Keys(es))
    ensures Set(d, es[0].0, es[0].1) == d + [es[0]]
    ensures Seqs.NoDup(Keys(d + [es[0]]) + Keys(es[1..]))
  {
    var e := es[0];
    FreshKeys(d, es);
    Seqs.NoDupAppendDisjoint(Keys(d), Keys(es), e.0);
    SetAbsent(d, e.0, e.1);
  }

  lemma FreshKeys<K, V>(d: Dict<K, V>, es: seq<(K, V)>)
    requires |es| > 0
    ensures Keys(d + [es[0]]) + Keys(es[1..]) == Keys(d) + Keys(es)
    ensures es[0].0 in Keys(es)
  {
    KeysAppend(d + [es[0]], es[1..]);
    assert (d + [es[0]]) + es[1..] == d + es;
    KeysAppend(d, es);
    assert Keys(es)[0] == es[0].0;
  }

  /** A dictionary built from entries with distinct keys holds exactly those entries, in order. */
  lemma FromEntriesFresh<K, V>(es: seq<(K, V)>)
    requires Seqs.NoDup(Keys(es))
    ensures FromEntries(es) == es
  {
    var empty: Dict<K, V> := [];
    assert Keys(empty) + Keys(es) == Keys(es);
    SetAllFresh(empty, es);
  }
  /** Some entry carries `k` iff the last one with that key exists. */
  lemma {:induction false} LastValueSome<K, V>(es: seq<(K, V)>, k: K)
    ensures LastValue(es, k).Some? <==> k in Keys(es)
  {
    if |es| > 0 {
      var init := es[..|es| - 1];
      LastValueSome(init, k);
      assert es == init + [es[|es| - 1]];
      KeysAppend(init, [es[|es| - 1]]);
    }
  }

  /** `zip(ks, itertools.cycle(vs))`: key `i` paired with value `i % |vs|`. */
  function ZipCycle<K, V>(ks: seq<K>, vs: seq<V>): (r: seq<(K, V)>)
    requires |vs| > 0
    ensures |r| == |ks|
    ensures forall i :: 0 <= i < |ks| ==> r[i] == (ks[i], vs[i % |vs|])
  {
    seq(|ks|, i requires 0 <= i < |ks| => (ks[i], vs[i % |vs|]))
  }

  /** The last position of `k` in `ks`. */
  function LastIndex<K(==)>(ks: seq<K>, k: K): (i: nat)
    requires k in ks
    ensures i < |ks| && ks[i] == k
    ensures forall j :: i < j < |ks| ==> ks[j] != k
  {
    if ks[|ks| - 1] == k then |ks| - 1
    else
      assert k in ks[..|ks| - 1] by {
        var j :| 0 <= j < |ks| && ks[j] == k;
        assert ks[..|ks| - 1][j] == k;
      }
      LastIndex(ks[..|ks| - 1], k)
  }

  /** The last entry for `k` in the cycled pairs carries the value of its last position. */
  lemma {:induction false} ZipCycleLastValue<K, V>(ks: seq<K>, vs: seq<V>, k: K)
    requires |vs| > 0
    ensures LastValue(ZipCycle(ks, vs), k) == if k in ks then Some(vs[LastIndex(ks, k) % |vs|]) else None
    decreases |ks|
  {
    if |ks| > 0 {
      var init := ks[..|ks| - 1];
      ZipCycleLastValue(init, vs, k);
      assert ZipCycle(ks, vs)[..|ks| - 1] == ZipCycle(init, vs);
      assert k in ks <==> k in init || ks[|ks| - 1] == k;
    }
  }

  /** `dict(zip(ks, cycle(vs)))` holds the distinct keys in order of first appearance. */
  lemma ZipCycleKeys<K(!new), V>(ks: seq<K>, vs: seq<V>)
    requires |vs| > 0
    ensures Keys(FromEntries(ZipCycle(ks, vs))) == Seqs.Distinct(ks)
  {
    var es := ZipCycle(ks, vs);
    var empty: Dict<K, V> := [];
    SetAllKeys(empty, es);
    assert Keys(empty) + Keys(es) == ks;
  }

  /**
   * In `dict(zip(ks, cycle(vs)))` a key maps to the value of its last
   * position modulo `|vs|`, and anything else is missing.
   */
  lemma ZipCycleGet<K, V>(ks: seq<K>, vs: seq<V>, k: K)
    requires |vs| > 0
    ensures Get(FromEntries(ZipCycle(ks, vs)), k) == if k in ks then Some(vs[LastIndex(ks, k) % |vs|]) else None
  {
    var empty: Dict<K, V> := [];
    SetAllGet(empty, ZipCycle(ks, vs), k);
    ZipCycleLastValue(ks, vs, k);
  }

  /** With distinct keys, key `i` maps to `vs[i % |vs|]`. */
  lemma ZipCycleDistinct<K, V>(ks: seq<K>, vs: seq<V>)
    requires |vs| > 0 && Seqs.NoDup(ks)
    ensures forall i :: 0 <= i < |ks| ==> Get(FromEntries(ZipCycle(ks, vs)), ks[i]) == Some(vs[i % |vs|])
  {
    forall i | 0 <= i < |ks| ensures Get(FromEntries(ZipCycle(ks, vs)), ks[i]) == Some(vs[i % |vs|]) {
      ZipCycleGet(ks, vs, ks[i]);
    }
  }

  /** Looking up in a concatenation: the first part's entry if it has one, else the second's. */
  lemma {:induction false} GetAppend<K, V>(a: Dict<K, V>, b: Dict<K, V>, k: K)
    ensures Get(a + b, k) == if Get(a, k).Some? then Get(a, k) else Get(b, k)
  {
    if |a| > 0 {
      assert (a + b)[1..] == a[1..] + b;
      GetAppend(a[1..], b, k);
    } else {
      assert a + b == b;
    }
  }

  /** With distinct keys, the last entry for a key is its only one, the one `Get` finds. */
  lemma {:induction false} LastValueNoDup<K, V>(es: seq<(K, V)>, k: K)
    requires Seqs.NoDup(Keys(es))
    ensures LastValue(es, k) == Get(es, k)
  {
    if |es| > 0 {
      var init, e := es[..|es| - 1], es[|es| - 1];
      assert es == init + [e];
      assert Keys(init) == Keys(es)[..|es| - 1];
      LastValueNoDup(init, k);
      GetAppend(init, [e], k);
      if e.0 == k {
        assert k !in Keys(init) by {
          forall i | 0 <= i < |init| ensures Keys(init)[i] != k {
            assert Keys(es)[i] != Keys(es)[|es| - 1];
          }
        }
      }
    }
  }

  /** `a | b` for a dict `b`: `b`'s entry where it has one, else `a`'s. */
  lemma UnionGet<K, V>(a: Dict<K, V>, b: Dict<K, V>, k: K)
    requires Seqs.NoDup(Keys(b))
    ensures Get(Union(a, b), k) == if Get(b, k).Some? then Get(b, k) else Get(a, k)
  {
    SetAllGet(a, b, k);
    LastValueNoDup(b, k);
  }

  /** In a list without repeats, the last position of an element is its first. */
  lemma LastIndexNoDup<K>(ks: seq<K>, k: K)
    requires Seqs.NoDup(ks) && k in ks
    ensures LastIndex(ks, k) == Seqs.IndexOf(ks, k)
  {
  }
}
