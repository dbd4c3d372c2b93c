/**
 * Python `str` behaviour the modelled code relies on: `startswith`,
 * `replace`, `split`, `join`, slicing with negative bounds, `str(int)`,
 * `int(s, base)`, `format(n, "02x")` and the code-point order that
 * `sorted` and pandas `groupby` use on strings.
 */
module PyStrings {
  import opened Wrappers
  import Seqs

  predicate StartsWith(s: string, p: string) {
    |p| <= |s| && s[..|p|] == p
  }

  predicate OccursAt(s: string, p: string, i: nat) {
    i + |p| <= |s| && s[i..i + |p|] == p
  }

  predicate Contains(s: string, p: string) {
    exists i: nat | i <= |s| :: OccursAt(s, p, i)
  }

  // ---------------------------------------------------------------
  // str.replace(old, new): every non-overlapping occurrence, scanning
  // left to right; an empty `old` inserts `new` around every character.
  // ---------------------------------------------------------------

  function ReplaceEmpty(s: string, rep: string): string
  {
    if |s| == 0 then rep else rep + [s[0]] + ReplaceEmpty(s[1..], rep)
  }

  function ReplaceAll(s: string, pat: string, rep: string): string
    decreases |s|
  {
    if |pat| == 0 then ReplaceEmpty(s, rep)
    else if |s| < |pat| then s
    else if s[..|pat|] == pat then rep + ReplaceAll(s[|pat|..], pat, rep)
    else [s[0]] + ReplaceAll(s[1..], pat, rep)
  }

  /** A name without an occurrence of the pattern is left unchanged. */
  lemma {:induction false} ReplaceAllAbsent(s: string, pat: string, rep: string)
    requires |pat| > 0 && !Contains(s, pat)
    ensures ReplaceAll(s, pat, rep) == s
  {
    if |s| >= |pat| {
      assert !OccursAt(s, pat, 0);
      assert !Contains(s[1..], pat) by {
        forall i: nat | OccursAt(s[1..], pat, i)
          ensures false
        {
          assert s[1..][i..i + |pat|] == s[i + 1..i + 1 + |pat|];
          assert OccursAt(s, pat, i + 1);
        }
      }
      ReplaceAllAbsent(s[1..], pat, rep);
    }
  }

  /** Replacing a pattern by itself changes nothing. */
  lemma {:induction false} ReplaceAllSelf(s: string, pat: string)
    requires |pat| > 0
    ensures ReplaceAll(s, pat, pat) == s
    decreases |s|
  {
    if |s| >= |pat| {
      if s[..|pat|] == pat {
        ReplaceAllSelf(s[|pat|..], pat);
        assert s == s[..|pat|] + s[|pat|..];
      } else {
        ReplaceAllSelf(s[1..], pat);
        assert s == [s[0]] + s[1..];
      }
    }
  }

  /** A name that starts with the pattern starts with the replacement afterwards. */
  lemma ReplaceAllLeading(s: string, pat: string, rep: string)
    requires |pat| > 0 && StartsWith(s, pat)
    ensures StartsWith(ReplaceAll(s, pat, rep), rep)
    ensures ReplaceAll(s, pat, rep) == rep + ReplaceAll(s[|pat|..], pat, rep)
  {
  }

  // ---------------------------------------------------------------
  // sep.join(parts) and s.split(c) for a one-character separator.
  // ---------------------------------------------------------------

  function Join(parts: seq<string>, sep: string): string
  {
    if |parts| == 0 then ""
    else if |parts| == 1 then parts[0]
    else parts[0] + sep + Join(parts[1..], sep)
  }

  /** `s.split(c)`: the maximal pieces between separators; `"".split(c) == [""]`. */
  function Split(s: string, c: char): (r: seq<string>)
    ensures |r| >= 1
    ensures forall p :: p in r ==> c !in p
  {
    if |s| == 0 then [""]
    else
      var rest := Split(s[1..], c);
      if s[0] == c then [""] + rest
      else
        assert rest[0] in rest;
        assert forall p :: p in rest[1..] ==> p in rest;
        [[s[0]] + rest[0]] + rest[1..]
  }

  lemma {:induction false} JoinSplit(s: string, c: char)
    ensures Join(Split(s, c), [c]) == s
  {
    if |s| > 0 {
      var rest := Split(s[1..], c);
      JoinSplit(s[1..], c);
      if s[0] == c {
        assert Split(s, c) == [""] + rest;
      } else {
        var ps := [[s[0]] + rest[0]] + rest[1..];
        assert Split(s, c) == ps;
        if |rest| == 1 {
          assert Join(rest, [c]) == rest[0];
        } else {
          assert Join(rest, [c]) == rest[0] + [c] + Join(rest[1..], [c]);
          assert ps[1..] == rest[1..];
        }
      }
    }
  }

  lemma {:induction false} SplitJoin(ps: seq<string>, c: char)
    requires |ps| >= 1
    requires forall p :: p in ps ==> c !in p
    ensures Split(Join(ps, [c]), c) == ps
    decreases |ps|, |ps[0]|
  {
    if |ps[0]| > 0 {
      var head := ps[0];
      var ps' := [head[1..]] + ps[1..];
      forall p | p in ps' ensures c !in p {
        if p != head[1..] {
          assert p in ps[1..];
          assert p in ps;
        } else {
          assert head in ps;
        }
      }
      SplitJoin(ps', c);
      JoinFirstChar(ps, c);
      assert head[0] != c by { assert head[0] in head; assert head in ps; }
      SplitNonSeparator(head[0], Join(ps', [c]), c);
      assert [head[0]] + head[1..] == head;
      assert ps == [head] + ps[1..];
    } else if |ps| > 1 {
      forall p | p in ps[1..] ensures c !in p {
        assert p in ps;
      }
      SplitJoin(ps[1..], c);
      assert Join(ps, [c]) == [c] + Join(ps[1..], [c]);
      assert ([c] + Join(ps[1..], [c]))[1..] == Join(ps[1..], [c]);
      assert ps == [""] + ps[1..];
    }
  }

  /** Joining parts whose first part is non-empty starts with that part's first character. */
  lemma JoinFirstChar(ps: seq<string>, c: char)
    requires |ps| >= 1 && |ps[0]| > 0
    ensures Join(ps, [c]) == [ps[0][0]] + Join([ps[0][1..]] + ps[1..], [c])
  {
    var ps' := [ps[0][1..]] + ps[1..];
    var h, t := ps[0][0], ps[0][1..];
    assert ps'[0] == t && ps'[1..] == ps[1..];
    assert ps[0] == [h] + t;
    if |ps| > 1 {
      var j := Join(ps[1..], [c]);
      assert Join(ps, [c]) == (([h] + t) + [c]) + j;
      assert |ps'| > 1;
      assert Join(ps', [c]) == (t + [c]) + j;
      Seqs.AppendAssoc([h], t, [c]);
      Seqs.AppendAssoc([h], t + [c], j);
    }
  }

  /** Splitting a string that starts with a character other than the separator puts it at the front of the first piece. */
  lemma SplitNonSeparator(ch: char, s: string, c: char)
    requires ch != c
    ensures Split([ch] + s, c) == [[ch] + Split(s, c)[0]] + Split(s, c)[1..]
  {
    assert ([ch] + s)[1..] == s;
  }

  /** Joining is injective on non-empty lists whose parts avoid the separator's first character. */
  lemma {:induction false} JoinInjective(a: seq<string>, b: seq<string>, sep: string)
    requires |a| >= 1 && |b| >= 1 && |sep| >= 1
    requires forall p :: p in a ==> sep[0] !in p
    requires forall p :: p in b ==> sep[0] !in p
    requires Join(a, sep) == Join(b, sep)
    ensures a == b
    decreases |a|
  {
    var s := Join(a, sep);
    JoinHasSeparator(a, sep);
    JoinHasSeparator(b, sep);
    if |a| > 1 {
      SeparatorPosition(a[0], Join(a[1..], sep), sep);
      SeparatorPosition(b[0], Join(b[1..], sep), sep);
      assert |a[0]| == |b[0]|;
      assert a[0] == s[..|a[0]|] == b[0];
      assert Join(a[1..], sep) == s[|a[0]| + |sep|..] == Join(b[1..], sep);
      assert forall p :: p in a[1..] ==> p in a;
      assert forall p :: p in b[1..] ==> p in b;
      JoinInjective(a[1..], b[1..], sep);
      assert a == [a[0]] + a[1..] && b == [b[0]] + b[1..];
    }
  }

  /** The joined string contains the separator's first character iff there are two or more parts. */
  lemma JoinHasSeparator(a: seq<string>, sep: string)
    requires |a| >= 1 && |sep| >= 1
    requires forall p :: p in a ==> sep[0] !in p
    ensures sep[0] in Join(a, sep) <==> |a| > 1
  {
    assert a[0] in a;
    if |a| > 1 {
      assert Join(a, sep)[|a[0]|] == sep[0];
    }
  }

  /** In `p + sep + rest`, the first occurrence of the separator's first character is right after `p`. */
  lemma SeparatorPosition(p: string, rest: string, sep: string)
    requires |sep| >= 1 && sep[0] !in p
    ensures (p + sep + rest)[|p|] == sep[0]
    ensures forall i :: 0 <= i < |p| ==> (p + sep + rest)[i] != sep[0]
  {
    forall i | 0 <= i < |p| ensures (p + sep + rest)[i] != sep[0] {
      assert (p + sep + rest)[i] == p[i];
      assert p[i] in p;
    }
  }

  // ---------------------------------------------------------------
  // Slicing s[start:stop] with Python's negative indices and clamping.
  // ---------------------------------------------------------------

  /** The position a Python slice bound denotes in a sequence of length n. */
  function SliceBound(n: nat, k: int): (r: nat)
    ensures r <= n
    ensures k >= 0 ==> r == if k <= n then k else n
    ensures k < 0 ==> r == if n + k >= 0 then n + k else 0
  {
    if k >= 0 then (if k <= n then k else n)
    else if n + k >= 0 then n + k else 0
  }

  function Slice<T>(s: seq<T>, start: int, stop: int): seq<T>
  {
    var a := SliceBound(|s|, start);
    var b := SliceBound(|s|, stop);
    if a <= b then s[a..b] else []
  }

  // ---------------------------------------------------------------
  // str(n) for integers.
  // ---------------------------------------------------------------

  predicate IsDecimalDigit(c: char) { '0' <= c <= '9' }

  function DecimalDigit(d: nat): char
    requires d < 10
  {
    "0123456789"[d]
  }

  function NatToString(n: nat): (r: string)
    ensures |r| >= 1
    ensures forall i :: 0 <= i < |r| ==> IsDecimalDigit(r[i])
    ensures r[0] == '0' ==> n == 0
  {
    if n < 10 then [DecimalDigit(n)]
    else NatToString(n / 10) + [DecimalDigit(n % 10)]
  }

  function IntToString(n: int): string
  {
    if n < 0 then "-" + NatToString(-n) else NatToString(n)
  }

  // ---------------------------------------------------------------
  // format(n, "02x"): lower-case hexadecimal, zero-padded to width 2;
  // a negative number gets a minus sign in front of its digits.
  // ---------------------------------------------------------------

  predicate IsHexDigit(c: char) {
    '0' <= c <= '9' || 'a' <= c <= 'f' || 'A' <= c <= 'F'
  }

  function HexDigit(d: nat): (c: char)
    requires d < 16
    ensures IsHexDigit(c) && !('A' <= c <= 'F')
  {
    "0123456789abcdef"[d]
  }

  function HexDigits(n: nat): (r: string)
    ensures |r| >= 1
    ensures forall i :: 0 <= i < |r| ==> IsHexDigit(r[i])
  {
    if n < 16 then [HexDigit(n)] else HexDigits(n / 16) + [HexDigit(n % 16)]
  }

  function Format02x(n: int): string
  {
    if n < 0 then "-" + HexDigits(-n)
    else if n < 16 then "0" + HexDigits(n)
    else HexDigits(n)
  }

  // ---------------------------------------------------------------
  // int(s, base) for base 10 and 16: surrounding whitespace, an optional
  // sign, for base 16 an optional 0x prefix, then digits with single
  // underscores between them. Whitespace and decimal digits are Unicode's,
  // as Python reads them. None stands for ValueError.
  // ---------------------------------------------------------------

  /**
   * The whitespace `int` skips: it maps every character `str.isspace`
   * accepts above ASCII to a blank, then strips the ASCII blanks (tab to
   * carriage return, and space; not the separators 0x1C to 0x1F).
   */
  predicate IsSpace(c: char) {
    || c == ' ' || '\t' <= c <= '\r'
    || c == '\U{85}' || c == '\U{A0}' || c == '\U{1680}' || '\U{2000}' <= c <= '\U{200A}'
    || c == '\U{2028}' || c == '\U{2029}' || c == '\U{202F}' || c == '\U{205F}' || c == '\U{3000}'
  }

  function StripLeft(s: string): (r: string)
    ensures |r| <= |s|
  {
    if |s| > 0 && IsSpace(s[0]) then StripLeft(s[1..]) else s
  }

  function StripRight(s: string): (r: string)
    ensures |r| <= |s|
  {
    if |s| > 0 && IsSpace(s[|s| - 1]) then StripRight(s[..|s| - 1]) else s
  }

  function Strip(s: string): string
  {
    StripRight(StripLeft(s))
  }

  /**
   * The zero digits of the Unicode decimal digit blocks above ASCII
   * (general category Nd, Unicode 15.0); each block holds the digits 0 to
   * 9 at consecutive code points.
   */
  const DecimalZeros: seq<int> :=
    [0x660, 0x6F0, 0x7C0, 0x966, 0x9E6, 0xA66, 0xAE6, 0xB66]
    + [0xBE6, 0xC66, 0xCE6, 0xD66, 0xDE6, 0xE50, 0xED0, 0xF20]
    + [0x1040, 0x1090, 0x17E0, 0x1810, 0x1946, 0x19D0, 0x1A80, 0x1A90]
    + [0x1B50, 0x1BB0, 0x1C40, 0x1C50, 0xA620, 0xA8D0, 0xA900, 0xA9D0]
    + [0xA9F0, 0xAA50, 0xABF0, 0xFF10, 0x104A0, 0x10D30, 0x11066, 0x110F0]
    + [0x11136, 0x111D0, 0x112F0, 0x11450, 0x114D0, 0x11650, 0x116C0, 0x11730]
    + [0x118E0, 0x11950, 0x11C50, 0x11D50, 0x11DA0, 0x11F50, 0x16A60, 0x16AC0]
    + [0x16B50, 0x1D7CE, 0x1D7D8, 0x1D7E2, 0x1D7EC, 0x1D7F6, 0x1E140, 0x1E2F0]
    + [0x1E4F0, 0x1E950, 0x1FBF0]

  /** The value of `n` as a digit of one of the blocks starting at `zs`, or -1. */
  function BlockDigit(zs: seq<int>, n: int): (r: int)
    ensures -1 <= r < 10
    ensures r >= 0 <==> exists i :: 0 <= i < |zs| && zs[i] <= n < zs[i] + 10
  {
    if |zs| == 0 then -1
    else if zs[0] <= n < zs[0] + 10 then n - zs[0]
    else
      var r := BlockDigit(zs[1..], n);
      assert forall i :: 1 <= i < |zs| ==> zs[i] == zs[1..][i - 1];
      r
  }

  /**
   * The value of a digit character in `base`, or -1 if it is not one:
   * `int` reads every Unicode decimal digit as its ASCII digit, and the
   * letters of either case from 10 up.
   */
  function DigitValue(c: char, base: nat): (r: int)
    ensures r == -1 || 0 <= r < base
  {
    var v :=
      if '0' <= c <= '9' then c as int - '0' as int
      else if 'a' <= c <= 'z' then c as int - 'a' as int + 10
      else if 'A' <= c <= 'Z' then c as int - 'A' as int + 10
      else if c as int < 0x80 then -1
      else BlockDigit(DecimalZeros, c as int);
    if 0 <= v < base then v else -1
  }

  /** The Arabic-Indic digits U+0660 to U+0669 read as 0 to 9. */
  lemma ArabicIndicDigit(k: nat)
    requires k < 10
    ensures DigitValue((0x660 + k) as char, 10) == k
    ensures DigitValue((0x660 + k) as char, 16) == k
  {
    assert DecimalZeros[0] == 0x660;
  }

  /** Digits, optionally separated by single underscores, with a digit at both ends. */
  predicate ValidDigitBody(t: string, base: nat) {
    |t| > 0
    && (forall i :: 0 <= i < |t| ==> t[i] == '_' || DigitValue(t[i], base) >= 0)
    && t[0] != '_' && t[|t| - 1] != '_'
    && (forall i :: 0 <= i < |t| - 1 ==> !(t[i] == '_' && t[i + 1] == '_'))
  }

  /** The value of a digit body, underscores skipped. */
  function BodyValue(t: string, base: nat): nat
  {
    if |t| == 0 then 0
    else
      var d := DigitValue(t[|t| - 1], base);
      var rest := BodyValue(t[..|t| - 1], base);
      if d < 0 then rest else rest * base + d
  }

  function ParseUnsigned(t: string, base: nat): Option<nat>
  {
    if base == 16 && |t| >= 2 && t[0] == '0' && (t[1] == 'x' || t[1] == 'X') then
      var u := t[2..];
      var body := if |u| > 0 && u[0] == '_' then u[1..] else u;
      if ValidDigitBody(body, 16) then Some(BodyValue(body, 16)) else None
    else if ValidDigitBody(t, base) then Some(BodyValue(t, base))
    else None
  }

  function PyInt(s: string, base: nat): Option<int>
  {
    var t := Strip(s);
    if |t| > 0 && (t[0] == '+' || t[0] == '-') then
      match ParseUnsigned(t[1..], base)
      case None => None
      case Some(v) =>
        var signed: int := if t[0] == '-' then -(v as int) else v;
        Some(signed)
    else
      match ParseUnsigned(t, base)
      case None => None
      case Some(v) => Some(v)
  }

  // ---------------------------------------------------------------
  // Code-point order on strings, as used by `sorted` and `groupby`.
  // ---------------------------------------------------------------

  predicate LexLess(a: string, b: string)
  {
    if |a| == 0 then |b| > 0
    else if |b| == 0 then false
    else if a[0] != b[0] then a[0] < b[0]
    else LexLess(a[1..], b[1..])
  }

  lemma {:induction false} LexLessIrreflexive(a: string)
    ensures !LexLess(a, a)
  {
    if |a| > 0 { LexLessIrreflexive(a[1..]); }
  }

  lemma {:induction false} LexLessTransitive(a: string, b: string, c: string)
    requires LexLess(a, b) && LexLess(b, c)
    ensures LexLess(a, c)
  {
    if |a| > 0 && |b| > 0 && |c| > 0 && a[0] == b[0] && b[0] == c[0] {
      LexLessTransitive(a[1..], b[1..], c[1..]);
    }
  }

  lemma {:induction false} LexLessTotal(a: string, b: string)
    requires a != b
    ensures LexLess(a, b) || LexLess(b, a)
  {
    if |a| > 0 && |b| > 0 && a[0] == b[0] {
      LexLessTotal(a[1..], b[1..]);
    }
  }

  lemma LexLessAsymmetric(a: string, b: string)
    requires LexLess(a, b)
    ensures !LexLess(b, a)
  {
    if LexLess(b, a) {
      LexLessTransitive(a, b, a);
      LexLessIrreflexive(a);
    }
  }

  predicate LexLe(a: string, b: string) { a == b || LexLess(a, b) }

  predicate Sorted(s: seq<string>) {
    forall i, j :: 0 <= i < j < |s| ==> LexLe(s[i], s[j])
  }

  predicate StrictlySorted(s: seq<string>) {
    forall i, j :: 0 <= i < j < |s| ==> LexLess(s[i], s[j])
  }

  function InsertSorted(x: string, s: seq<string>): (r: seq<string>)
    requires Sorted(s)
    ensures Sorted(r)
    ensures multiset(r) == multiset(s) + multiset{x}
  {
    if |s| == 0 then [x]
    else if LexLe(x, s[0]) then
      InsertFront(x, s);
      [x] + s
    else
      var rest := InsertSorted(x, s[1..]);
      InsertAfterHead(x, s, rest);
      [s[0]] + rest
  }

  /** A sorted list stays sorted with an element in front that is at most all of it. */
  lemma SortedCons(y: string, r: seq<string>)
    requires Sorted(r) && forall j :: 0 <= j < |r| ==> LexLe(y, r[j])
    ensures Sorted([y] + r)
  {
    var t := [y] + r;
    forall i, j | 0 <= i < j < |t| ensures LexLe(t[i], t[j]) {
      assert t[j] == r[j - 1];
      if i > 0 {
        assert t[i] == r[i - 1];
      }
    }
  }

  /** An element at most the head of a sorted list goes in front. */
  lemma InsertFront(x: string, s: seq<string>)
    requires Sorted(s) && |s| > 0 && LexLe(x, s[0])
    ensures Sorted([x] + s)
  {
    forall j | 0 <= j < |s| ensures LexLe(x, s[j]) {
      if x != s[0] && s[0] != s[j] { LexLessTransitive(x, s[0], s[j]); }
    }
    SortedCons(x, s);
  }

  /** An element above the head goes into the tail, after the head. */
  lemma InsertAfterHead(x: string, s: seq<string>, rest: seq<string>)
    requires Sorted(s) && |s| > 0 && !LexLe(x, s[0])
    requires Sorted(rest) && multiset(rest) == multiset(s[1..]) + multiset{x}
    ensures Sorted([s[0]] + rest)
    ensures multiset([s[0]] + rest) == multiset(s) + multiset{x}
  {
    assert LexLess(s[0], x) by { LexLessTotal(x, s[0]); }
    forall j | 0 <= j < |rest| ensures LexLe(s[0], rest[j]) {
      var y := rest[j];
      assert y in multiset(rest);
      assert y in multiset(s[1..]) || y == x;
      if y != x {
        var k :| 0 <= k < |s[1..]| && s[1..][k] == y;
        assert s[k + 1] == y;
      }
    }
    SortedCons(s[0], rest);
    assert s == [s[0]] + s[1..];
  }

  /** `sorted(s)` on strings. */
  function Sort(s: seq<string>): (r: seq<string>)
    ensures Sorted(r)
    ensures multiset(r) == multiset(s)
  {
    if |s| == 0 then []
    else
      assert s == [s[0]] + s[1..];
      InsertSorted(s[0], Sort(s[1..]))
  }

  /** Sorting a list without duplicates gives a strictly increasing list with the same elements. */
  lemma SortDistinct(s: seq<string>)
    requires forall i, j :: 0 <= i < j < |s| ==> s[i] != s[j]
    ensures StrictlySorted(Sort(s))
    ensures forall x :: x in Sort(s) <==> x in s
  {
    var r := Sort(s);
    assert forall x :: x in r <==> x in multiset(r);
    assert forall x :: x in s <==> x in multiset(s);
    forall i, j | 0 <= i < j < |r| ensures LexLess(r[i], r[j]) {
      if r[i] == r[j] {
        RepeatedTwice(r, i, j);
        MultisetNoDup(s, r[i]);
      }
    }
  }

  lemma RepeatedTwice(r: seq<string>, i: nat, j: nat)
    requires i < j < |r| && r[i] == r[j]
    ensures multiset(r)[r[i]] >= 2
  {
    var x := r[i];
    assert r == r[..i] + [x] + r[i + 1..j] + [x] + r[j + 1..];
    assert multiset(r) == multiset(r[..i]) + multiset{x} + multiset(r[i + 1..j]) + multiset{x} + multiset(r[j + 1..]);
  }

  lemma MultisetNoDup(s: seq<string>, x: string)
    requires forall i, j :: 0 <= i < j < |s| ==> s[i] != s[j]
    ensures multiset(s)[x] <= 1
  {
    if |s| > 0 {
      MultisetNoDup(s[1..], x);
      assert s == [s[0]] + s[1..];
      if s[0] == x { assert x !in s[1..]; }
    }
  }
}
