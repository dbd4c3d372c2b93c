/**
 * Sequence helpers shared by the table models: pandas' `unique` /
 * `drop_duplicates` (first occurrence kept), flattening and filtering.
 */
module Seqs {
  predicate NoDup<T(==)>(s: seq<T>) {
    forall i, j :: 0 <= i < j < |s| ==> s[i] != s[j]
  }

  lemma AppendAssoc<T>(a: seq<T>, b: seq<T>, c: seq<T>)
    ensures (a + b) + c == a + (b + c)
  {
  }

  /** The distinct elements of `s`, each at the position of its first occurrence. */
  function Distinct<T(==,!new)>(s: seq<T>): (r: seq<T>)
    ensures NoDup(r)
    ensures forall x :: x in r <==> x in s
    ensures |r| <= |s|
  {
    if |s| == 0 then []
    else
      var d := Distinct(s[..|s| - 1]);
      assert forall x :: x in s <==> x in s[..|s| - 1] || x == s[|s| - 1];
      if s[|s| - 1] in d then d else d + [s[|s| - 1]]
  }

  /** Appending one element either leaves the distinct list alone or appends it. */
  lemma DistinctSnoc<T(!new)>(s: seq<T>, x: T)
    ensures Distinct(s + [x]) == if x in s then Distinct(s) else Distinct(s) + [x]
  {
    assert (s + [x])[..|s + [x]| - 1] == s;
  }

  /** A list without duplicates is its own distinct list. */
  lemma {:induction false} DistinctOfNoDup<T(!new)>(s: seq<T>)
    requires NoDup(s)
    ensures Distinct(s) == s
  {
    if |s| > 0 {
      var p := s[..|s| - 1];
      DistinctOfNoDup(p);
      assert s[|s| - 1] !in p;
      assert s == p + [s[|s| - 1]];
    }
  }

  /** `Distinct` of a concatenation starts with `Distinct` of the first part. */
  lemma {:induction false} DistinctAppend<T(!new)>(a: seq<T>, b: seq<T>)
    ensures |Distinct(a)| <= |Distinct(a + b)|
    ensures Distinct(a + b)[..|Distinct(a)|] == Distinct(a)
  {
    if |b| > 0 {
      var b' := b[..|b| - 1];
      DistinctAppend(a, b');
      assert a + b == (a + b') + [b[|b| - 1]];
      DistinctSnoc(a + b', b[|b| - 1]);
    } else {
      assert a + b == a;
    }
  }

  /** The concatenation of the parts, in order. */
  function Flatten<T>(ss: seq<seq<T>>): seq<T>
  {
    if |ss| == 0 then [] else ss[0] + Flatten(ss[1..])
  }

  lemma {:induction false} FlattenMember<T>(ss: seq<seq<T>>, x: T)
    ensures x in Flatten(ss) <==> exists i :: 0 <= i < |ss| && x in ss[i]
  {
    if |ss| > 0 {
      FlattenMember(ss[1..], x);
      if x in Flatten(ss[1..]) {
        var i :| 0 <= i < |ss[1..]| && x in ss[1..][i];
        assert x in ss[i + 1];
      }
      if exists i :: 0 <= i < |ss| && x in ss[i] {
        var i :| 0 <= i < |ss| && x in ss[i];
        if i > 0 { assert x in ss[1..][i - 1]; }
      }
    }
  }

  lemma FlattenAppend<T>(a: seq<seq<T>>, b: seq<seq<T>>)
    ensures Flatten(a + b) == Flatten(a) + Flatten(b)
  {
    if |a| > 0 {
      assert (a + b)[1..] == a[1..] + b;
      FlattenAppend(a[1..], b);
    } else {
      assert a + b == b;
    }
  }

  /** The elements of `s` that satisfy `f`, in order. */
  function Filter<T(!new)>(s: seq<T>, f: T -> bool): (r: seq<T>)
    ensures |r| <= |s|
    ensures forall x :: x in r <==> x in s && f(x)
  {
    if |s| == 0 then []
    else
      var rest := Filter(s[1..], f);
      assert forall x :: x in s <==> x == s[0] || x in s[1..];
      if f(s[0]) then [s[0]] + rest else rest
  }

  lemma FilterAppend<T(!new)>(a: seq<T>, b: seq<T>, f: T -> bool)
    ensures Filter(a + b, f) == Filter(a, f) + Filter(b, f)
  {
    if |a| > 0 {
      assert (a + b)[1..] == a[1..] + b;
      FilterAppend(a[1..], b, f);
    } else {
      assert a + b == b;
    }
  }

  lemma FilterAll<T(!new)>(s: seq<T>, f: T -> bool)
    requires forall x :: x in s ==> f(x)
    ensures Filter(s, f) == s
  {
    if |s| > 0 {
      FilterAll(s[1..], f);
    }
  }

  function Map<T, U>(s: seq<T>, f: T -> U): (r: seq<U>)
    ensures |r| == |s|
    ensures forall i :: 0 <= i < |s| ==> r[i] == f(s[i])
  {
    seq(|s|, i requires 0 <= i < |s| => f(s[i]))
  }

  /** Filtering the images equals mapping the elements whose image passes. */
  lemma {:induction false} FilterMap<T(!new), U(!new)>(s: seq<T>, f: T -> U, g: U -> bool, h: T -> bool)
    requires forall x :: x in s ==> h(x) == g(f(x))
    ensures Filter(Map(s, f), g) == Map(Filter(s, h), f)
  {
    if |s| > 0 {
      var ms := Map(s, f);
      FilterMap(s[1..], f, g, h);
      assert ms[1..] == Map(s[1..], f);
      assert ms[0] == f(s[0]);
      var rest := Filter(s[1..], h);
      if h(s[0]) {
        assert Filter(s, h) == [s[0]] + rest;
        assert Map([s[0]] + rest, f) == [f(s[0])] + Map(rest, f);
      } else {
        assert Filter(s, h) == rest;
      }
    }
  }

  /** A duplicate-free list whose elements all occur in `ys` is no longer than `ys`. */
  lemma {:induction false} NoDupSubLength<T>(xs: seq<T>, ys: seq<T>)
    requires NoDup(xs)
    requires forall x :: x in xs ==> x in ys
    ensures |xs| <= |ys|
    decreases |ys|
  {
    if |xs| > 0 {
      assert xs[0] in ys;
      var y := ys[0];
      var rest := ys[1..];
      if y in xs {
        var i :| 0 <= i < |xs| && xs[i] == y;
        var xs' := xs[..i] + xs[i + 1..];
        forall a, b | 0 <= a < b < |xs'| ensures xs'[a] != xs'[b] {
          var a' := if a < i then a else a + 1;
          var b' := if b < i then b else b + 1;
          assert xs'[a] == xs[a'] && xs'[b] == xs[b'];
        }
        forall x | x in xs' ensures x in rest {
          var k :| 0 <= k < |xs'| && xs'[k] == x;
          var k' := if k < i then k else k + 1;
          assert xs[k'] == x && k' != i;
          InTail(ys, x);
        }
        NoDupSubLength(xs', rest);
      } else {
        forall x | x in xs ensures x in rest { InTail(ys, x); }
        NoDupSubLength(xs, rest);
      }
    }
  }

  lemma InTail<T>(ys: seq<T>, x: T)
    requires |ys| > 0 && x in ys && x != ys[0]
    ensures x in ys[1..]
  {
    var j :| 0 <= j < |ys| && ys[j] == x;
    assert ys[1..][j - 1] == x;
  }

  /** Number of occurrences of `x` in `s`. */
  function Count<T(==)>(s: seq<T>, x: T): nat
  {
    if |s| == 0 then 0 else (if s[0] == x then 1 else 0) + Count(s[1..], x)
  }

  /** Occurrences in a concatenation add up. */
  lemma {:induction false} CountAppend<T>(a: seq<T>, b: seq<T>, x: T)
    ensures Count(a + b, x) == Count(a, x) + Count(b, x)
  {
    if |a| > 0 {
      assert (a + b)[1..] == a[1..] + b;
      CountAppend(a[1..], b, x);
    } else {
      assert a + b == b;
    }
  }

  lemma {:induction false} CountPositive<T>(s: seq<T>, x: T)
    ensures Count(s, x) > 0 <==> x in s
  {
    if |s| > 0 {
      CountPositive(s[1..], x);
      assert s == [s[0]] + s[1..];
    }
  }

  /** No element repeats iff every element occurs exactly once. */
  lemma {:induction false} NoDupCount<T>(s: seq<T>)
    ensures NoDup(s) <==> forall x :: x in s ==> Count(s, x) == 1
  {
    if |s| > 0 {
      var h, t := s[0], s[1..];
      assert s == [h] + t;
      NoDupCount(t);
      CountPositive(t, h);
      if NoDup(s) {
        assert h !in t;
        assert NoDup(t) by {
          forall i, j | 0 <= i < j < |t| ensures t[i] != t[j] { assert t[i] == s[i + 1] && t[j] == s[j + 1]; }
        }
      }
      if forall x :: x in s ==> Count(s, x) == 1 {
        assert h in s;
        assert Count(s, h) == 1 + Count(t, h);
        assert h !in t;
        forall x | x in t ensures Count(t, x) == 1 {
          assert x in s;
          assert Count(s, x) == Count(t, x);
        }
        forall i, j | 0 <= i < j < |s| ensures s[i] != s[j] {
          if i > 0 { assert s[i] == t[i - 1] && s[j] == t[j - 1]; } else { assert s[j] == t[j - 1]; }
        }
      }
    }
  }

  /** The position of the first occurrence of `x` in `s`. */
  function IndexOf<T(==)>(s: seq<T>, x: T): (i: nat)
    requires x in s
    ensures i < |s| && s[i] == x
    ensures forall j :: 0 <= j < i ==> s[j] != x
  {
    if s[0] == x then 0
    else
      assert x in s[1..] by { InTail(s, x); }
      1 + IndexOf(s[1..], x)
  }

  /** In a duplicate-free sequence equal elements sit at the same position. */
  lemma NoDupSamePosition<T>(s: seq<T>, i: nat, j: nat)
    requires NoDup(s) && i < |s| && j < |s| && s[i] == s[j]
    ensures i == j
  {
  }

  lemma NoDupAppendDisjoint<T>(a: seq<T>, b: seq<T>, x: T)
    requires NoDup(a + b) && x in b
    ensures x !in a
  {
    var j :| 0 <= j < |b| && b[j] == x;
    assert (a + b)[|a| + j] == x;
    forall i | 0 <= i < |a| ensures a[i] != x { assert (a + b)[i] == a[i]; }
  }

  /** A filter keeps nothing iff no element passes it. */
  lemma FilterEmpty<T(!new)>(s: seq<T>, f: T -> bool)
    ensures |Filter(s, f)| == 0 <==> forall x :: x in s ==> !f(x)
  {
    var r := Filter(s, f);
    if |r| > 0 { assert r[0] in r; }
  }
  /** Parts that all have length `k` flatten to `|ss| * k` elements. */
  lemma {:induction false} FlattenUniformLength<T>(ss: seq<seq<T>>, k: nat)
    requires forall i :: 0 <= i < |ss| ==> |ss[i]| == k
    ensures |Flatten(ss)| == |ss| * k
  {
    if |ss| > 0 {
      FlattenUniformLength(ss[1..], k);
      assert |Flatten(ss)| == k + (|ss| - 1) * k;
    }
  }

  /** Two duplicate-free lists with no common element concatenate to a duplicate-free list. */
  lemma NoDupConcat<T>(a: seq<T>, b: seq<T>)
    requires NoDup(a) && NoDup(b)
    requires forall x :: x in a ==> x !in b
    ensures NoDup(a + b)
  {
    forall i, j | 0 <= i < j < |a + b| ensures (a + b)[i] != (a + b)[j] {
      if j >= |a| && i < |a| {
        assert (a + b)[i] == a[i] && (a + b)[j] == b[j - |a|];
        assert a[i] in a && b[j - |a|] in b;
      } else if i >= |a| {
        assert (a + b)[i] == b[i - |a|] && (a + b)[j] == b[j - |a|];
      }
    }
  }

  /** Duplicate-free parts with pairwise disjoint contents flatten to a duplicate-free list. */
  lemma {:induction false} FlattenNoDup<T>(ss: seq<seq<T>>)
    requires forall i :: 0 <= i < |ss| ==> NoDup(ss[i])
    requires forall i, j, x :: 0 <= i < j < |ss| && x in ss[i] ==> x !in ss[j]
    ensures NoDup(Flatten(ss))
  {
    if |ss| > 0 {
      FlattenNoDup(ss[1..]);
      forall x | x in ss[0] ensures x !in Flatten(ss[1..]) {
        FlattenMember(ss[1..], x);
        forall j | 0 <= j < |ss[1..]| ensures x !in ss[1..][j] {
          assert ss[1..][j] == ss[j + 1];
        }
      }
      NoDupConcat(ss[0], Flatten(ss[1..]));
    }
  }
  lemma FilterCons<T(!new)>(s: seq<T>, f: T -> bool)
    requires |s| > 0
    ensures Filter(s, f) == if f(s[0]) then [s[0]] + Filter(s[1..], f) else Filter(s[1..], f)
  {
  }
}
