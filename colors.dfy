/**
 * Colours as `#rrggbb` strings and (r, g, b) triples: formatting, parsing
 * and validation, the discrete colormap of a palette cycled over class
 * names, and the average of several colours.
 */
module Colors {
  import opened Wrappers
  import opened PyStrings
  import Dicts
  import Seqs

  type Rgb = (int, int, int)

  /** Every component in 0..255. */
  predicate InByteRange(c: Rgb) {
    0 <= c.0 < 256 && 0 <= c.1 < 256 && 0 <= c.2 < 256
  }

  predicate IsLowerHexDigit(ch: char) {
    '0' <= ch <= '9' || 'a' <= ch <= 'f'
  }

  /** `"#{:02x}{:02x}{:02x}".format(*rgb)`. */
  function RgbToHex(c: Rgb): string {
    "#" + Format02x(c.0) + Format02x(c.1) + Format02x(c.2)
  }

  /** A component in 0..255 is written as exactly two lower-case hex digits, high digit first. */
  lemma Format02xByte(n: int)
    requires 0 <= n < 256
    ensures Format02x(n) == [HexDigit(n / 16), HexDigit(n % 16)]
  {
    if n >= 16 {
      assert HexDigits(n / 16) == [HexDigit(n / 16)];
    }
  }

  /**
   * `rgb_to_hex` of a colour with components in 0..255 is `#` and two
   * lower-case hex digits per component: seven characters.
   */
  lemma RgbToHexSpec(c: Rgb)
    requires InByteRange(c)
    ensures RgbToHex(c) == ['#', HexDigit(c.0 / 16), HexDigit(c.0 % 16), HexDigit(c.1 / 16), HexDigit(c.1 % 16),
                            HexDigit(c.2 / 16), HexDigit(c.2 % 16)]
  {
    var a, b, d := Format02x(c.0), Format02x(c.1), Format02x(c.2);
    Format02xByte(c.0);
    Format02xByte(c.1);
    Format02xByte(c.2);
    assert RgbToHex(c) == "#" + a + b + d;
  }

  /** `rgb_to_hex` given the six digits it writes. */
  lemma RgbToHexDigits(c: Rgb, h0: char, l0: char, h1: char, l1: char, h2: char, l2: char)
    requires InByteRange(c)
    requires HexDigit(c.0 / 16) == h0 && HexDigit(c.0 % 16) == l0
    requires HexDigit(c.1 / 16) == h1 && HexDigit(c.1 % 16) == l1
    requires HexDigit(c.2 / 16) == h2 && HexDigit(c.2 % 16) == l2
    ensures RgbToHex(c) == ['#', h0, l0, h1, l1, h2, l2]
  {
    RgbToHexSpec(c);
  }

  /** Every digit `rgb_to_hex` writes is a lower-case hex digit, after the `#`. */
  lemma RgbToHexLowerCase(c: Rgb)
    requires InByteRange(c)
    ensures |RgbToHex(c)| == 7 && RgbToHex(c)[0] == '#'
    ensures forall i :: 1 <= i < 7 ==> IsLowerHexDigit(RgbToHex(c)[i])
  {
    RgbToHexSpec(c);
    var d1, d2, d3 := HexDigit(c.0 / 16), HexDigit(c.1 / 16), HexDigit(c.2 / 16);
    var e1, e2, e3 := HexDigit(c.0 % 16), HexDigit(c.1 % 16), HexDigit(c.2 % 16);
    var s := ['#', d1, e1, d2, e2, d3, e3];
    assert RgbToHex(c) == s;
    assert IsLowerHexDigit(d1) && IsLowerHexDigit(d2) && IsLowerHexDigit(d3);
    assert IsLowerHexDigit(e1) && IsLowerHexDigit(e2) && IsLowerHexDigit(e3);
    forall i | 1 <= i < 7 ensures IsLowerHexDigit(s[i]) {
      if i == 1 {} else if i == 2 {} else if i == 3 {} else if i == 4 {} else if i == 5 {} else {}
    }
  }

  /** Reading back a digit written by `HexDigit`. */
  lemma HexDigitValue(d: nat)
    requires d < 16
    ensures DigitValue(HexDigit(d), 16) == d
  {
  }

  /** `int(s, 16)` of two hex digits is their value. */
  lemma PyIntTwoHexDigits(a: char, b: char)
    requires IsHexDigit(a) && IsHexDigit(b)
    ensures PyInt([a, b], 16) == Some(DigitValue(a, 16) * 16 + DigitValue(b, 16))
  {
    var t := [a, b];
    assert StripLeft(t) == t;
    assert StripRight(t) == t;
    assert ValidDigitBody(t, 16);
    assert t[..1] == [a] && [a][..0] == [];
    assert BodyValue([a], 16) == DigitValue(a, 16);
  }

  // ---------------------------------------------------------------
  // `is_valid_hex_string` and `hex_to_rgb` as the program has them: each
  // pair goes through `int(pair, 16)`, which also accepts a sign or
  // surrounding whitespace and raises ValueError on anything else. The
  // operations below read colours with these.
  // ---------------------------------------------------------------

  /** `int(s[i:i + 2], 16)`; None stands for ValueError. */
  function Pair(s: string, i: nat): Option<int>
    requires i + 2 <= |s|
  {
    PyInt(s[i..i + 2], 16)
  }

  /** `all(0 <= int(s[i:i+2], 16) <= 255 for i in ps)`: stops at the first false, raises on a pair that is no number. */
  function PairsInRange(s: string, ps: seq<nat>): Result<bool>
    requires forall k :: 0 <= k < |ps| ==> ps[k] + 2 <= |s|
    decreases |ps|
  {
    if |ps| == 0 then Ok(true)
    else match Pair(s, ps[0])
      case None => Err(ValueError)
      case Some(v) => if 0 <= v <= 255 then PairsInRange(s, ps[1..]) else Ok(false)
  }

  /** `is_valid_hex_string`: length 7, then the three pairs, then the leading `#`. */
  function IsValidHexString(s: string): Result<bool>
  {
    if |s| != 7 then Ok(false)
    else match PairsInRange(s, [1, 3, 5])
      case Err(e) => Err(e)
      case Ok(inRange) => Ok(inRange && s[0] == '#')
  }

  /** `hex_to_rgb`: the validity check, then `int(pair, 16)` of each pair. */
  function HexToRgb(s: string): Result<Rgb>
  {
    match IsValidHexString(s)
    case Err(e) => Err(e)
    case Ok(valid) =>
      if !valid then Err(ValueError)
      else match (Pair(s, 1), Pair(s, 3), Pair(s, 5))
        case (Some(r), Some(g), Some(b)) => Ok((r, g, b))
        case _ => Err(ValueError)
  }

  /** The pair at `i` reads as a number in 0..255. */
  predicate PairInRange(s: string, i: nat)
    requires i + 2 <= |s|
  {
    Pair(s, i).Some? && 0 <= Pair(s, i).value <= 255
  }

  /** The strings `hex_to_rgb` reads: `#` and three pairs that `int(pair, 16)` reads as numbers in 0..255. */
  predicate ReadsAsColor(s: string) {
    |s| == 7 && s[0] == '#' && PairInRange(s, 1) && PairInRange(s, 3) && PairInRange(s, 5)
  }

  /** The check succeeds exactly on the strings it reads, and raises only ValueError. */
  lemma IsValidHexStringSpec(s: string)
    ensures IsValidHexString(s) == Ok(true) <==> ReadsAsColor(s)
    ensures IsValidHexString(s).Err? ==> IsValidHexString(s).error == ValueError
  {
    if |s| == 7 {
      var ps: seq<nat> := [1, 3, 5];
      assert ps[1..] == [3, 5] && ps[1..][1..] == [5] && ps[1..][1..][1..] == [];
    }
  }

  /**
   * `hex_to_rgb` succeeds exactly on the strings it reads, with the three
   * pairs' values, all in 0..255, and raises ValueError otherwise; every
   * `#` and six hex digits is read.
   */
  lemma HexToRgbInRange(s: string)
    ensures HexToRgb(s).Ok? <==> ReadsAsColor(s)
    ensures HexToRgb(s).Err? ==> HexToRgb(s).error == ValueError
    ensures HexToRgb(s).Ok? ==>
      && InByteRange(HexToRgb(s).value)
      && HexToRgb(s).value == (Pair(s, 1).value, Pair(s, 3).value, Pair(s, 5).value)
    ensures IsValidHex(s) ==> HexToRgb(s).Ok?
  {
    IsValidHexStringSpec(s);
    if IsValidHex(s) {
      AsWrittenAgreesOnValid(s);
    }
  }

  /**
   * The check as written lets a pair with a sign through (`"#+f0000"` is
   * accepted and reads as (15, 0, 0), which formats back as `"#0f0000"`),
   * and raises ValueError on a pair that is no number (`"#zz0000"`) where
   * it promises to answer false.
   */
  lemma SignedPairAccepted()
    ensures IsValidHexString("#+f0000") == Ok(true)
    ensures HexToRgb("#+f0000") == Ok((15, 0, 0))
    ensures RgbToHex((15, 0, 0)) == "#0f0000" != "#+f0000"
    ensures IsValidHexString("#zz0000") == Err(ValueError)
  {
    SignedPairs();
    AsWrittenFromPairs("#+f0000", 15, 0, 0);
    RgbToHexDigits((15, 0, 0), '0', 'f', '0', '0', '0', '0');
    assert Pair("#zz0000", 1) == None by {
      NotANumber();
    }
  }

  /** The pairs of `"#+f0000"`: a signed digit and two zeros. */
  lemma SignedPairs()
    ensures Pair("#+f0000", 1) == Some(15)
    ensures Pair("#+f0000", 3) == Some(0) && Pair("#+f0000", 5) == Some(0)
  {
    var s := "#+f0000";
    assert s[1..3] == "+f" by { assert s[1] == '+' && s[2] == 'f'; }
    assert s[3..5] == "00" by { assert s[3] == '0' && s[4] == '0'; }
    assert s[5..7] == "00" by { assert s[5] == '0' && s[6] == '0'; }
    PlusF();
    PyIntTwoHexDigits('0', '0');
  }

  /** `int("+f", 16) == 15`. */
  lemma PlusF()
    ensures PyInt("+f", 16) == Some(15)
  {
    assert StripLeft("+f") == "+f" && StripRight("+f") == "+f";
    assert "+f"[1..] == "f";
    assert ValidDigitBody("f", 16);
    assert "f"[..0] == [];
    assert BodyValue("f", 16) == 15;
  }

  /** `int("zz", 16)` raises ValueError. */
  lemma NotANumber()
    ensures Pair("#zz0000", 1) == None
  {
    var z := "#zz0000";
    assert z[1..3] == "zz";
    assert StripLeft("zz") == "zz" && StripRight("zz") == "zz";
    assert !ValidDigitBody("zz", 16);
  }

  /**
   * `int` reads Unicode forms too: a no-break space counts as whitespace
   * and an Arabic-Indic digit as its ASCII digit, so `"#\u00a0f0000"`
   * passes the check and reads as (15, 0, 0), and `"#\u0663\u06630000"`
   * as (51, 0, 0).
   */
  lemma UnicodeFormsAccepted()
    ensures IsValidHexString("#\U{A0}f0000") == Ok(true)
    ensures HexToRgb("#\U{A0}f0000") == Ok((15, 0, 0))
    ensures IsValidHexString("#\U{663}\U{663}0000") == Ok(true)
    ensures HexToRgb("#\U{663}\U{663}0000") == Ok((51, 0, 0))
  {
    PyIntTwoHexDigits('0', '0');
    var s := "#\U{A0}f0000";
    assert s[1..3] == "\U{A0}f" by { assert s[1] == '\U{A0}' && s[2] == 'f'; }
    assert s[3..5] == "00" by { assert s[3] == '0' && s[4] == '0'; }
    assert s[5..7] == "00" by { assert s[5] == '0' && s[6] == '0'; }
    BlankF();
    AsWrittenFromPairs(s, 15, 0, 0);
    var u := "#\U{663}\U{663}0000";
    assert u[1..3] == "\U{663}\U{663}" by { assert u[1] == '\U{663}' && u[2] == '\U{663}'; }
    assert u[3..5] == "00" by { assert u[3] == '0' && u[4] == '0'; }
    assert u[5..7] == "00" by { assert u[5] == '0' && u[6] == '0'; }
    ArabicThrees();
    AsWrittenFromPairs(u, 51, 0, 0);
  }

  /** `int("\u00a0f", 16) == 15`: the no-break space is stripped. */
  lemma BlankF()
    ensures PyInt("\U{A0}f", 16) == Some(15)
  {
    var t := "\U{A0}f";
    assert IsSpace(t[0]) && t[1..] == "f";
    assert StripLeft("f") == "f" && StripRight("f") == "f";
    assert Strip(t) == "f";
    assert ValidDigitBody("f", 16);
    assert "f"[..0] == [];
    assert BodyValue("f", 16) == 15;
  }

  /** `int("\u0663\u0663", 16) == 51`: each Arabic-Indic three reads as 3. */
  lemma ArabicThrees()
    ensures PyInt("\U{663}\U{663}", 16) == Some(51)
  {
    var t := "\U{663}\U{663}";
    assert DigitValue('\U{663}', 16) == 3 by {
      ArabicIndicDigit(3);
    }
    assert !IsSpace(t[0]) && !IsSpace(t[1]);
    assert StripLeft(t) == t && StripRight(t) == t;
    assert ValidDigitBody(t, 16);
    assert t[..1] == "\U{663}" && "\U{663}"[..0] == [];
    assert BodyValue("\U{663}", 16) == 3;
  }

  // ---------------------------------------------------------------
  // The intended check: `#` and six hex digits.
  // ---------------------------------------------------------------

  /** `#` followed by exactly six hex digits (either case). */
  predicate IsValidHex(s: string) {
    |s| == 7 && s[0] == '#' && forall i :: 1 <= i < 7 ==> IsHexDigit(s[i])
  }

  /** The value of the two hex digits at `i` and `i + 1`. */
  function HexPair(s: string, i: nat): int
    requires i + 2 <= |s|
  {
    DigitValue(s[i], 16) * 16 + DigitValue(s[i + 1], 16)
  }

  /** `hex_to_rgb` as intended: ValueError unless the string is `#` and six hex digits, else the three pairs' values. */
  function HexToRgbIntended(s: string): Result<Rgb>
  {
    if !IsValidHex(s) then Err(ValueError)
    else Ok((HexPair(s, 1), HexPair(s, 3), HexPair(s, 5)))
  }

  /** On the strings meant to be valid, the check as written agrees and reads the same colour. */
  lemma AsWrittenAgreesOnValid(s: string)
    requires IsValidHex(s)
    ensures IsValidHexString(s) == Ok(true)
    ensures HexToRgb(s) == HexToRgbIntended(s)
  {
    PairOfValid(s, 1);
    PairOfValid(s, 3);
    PairOfValid(s, 5);
    AsWrittenFromPairs(s, HexPair(s, 1), HexPair(s, 3), HexPair(s, 5));
  }

  /** A `#` and three pairs that read as numbers in 0..255 pass the check as written, which reads them as the colour. */
  lemma AsWrittenFromPairs(s: string, r: int, g: int, b: int)
    requires |s| == 7 && s[0] == '#'
    requires Pair(s, 1) == Some(r) && Pair(s, 3) == Some(g) && Pair(s, 5) == Some(b)
    requires InByteRange((r, g, b))
    ensures IsValidHexString(s) == Ok(true)
    ensures HexToRgb(s) == Ok((r, g, b))
  {
    var ps: seq<nat> := [1, 3, 5];
    assert ps[1..] == [3, 5] && ps[1..][1..] == [5] && ps[1..][1..][1..] == [];
    assert PairsInRange(s, ps[1..][1..]) == Ok(true);
    assert PairsInRange(s, ps[1..]) == Ok(true);
    assert PairsInRange(s, ps) == Ok(true);
  }

  /** A pair of hex digits reads as its value, which lies in 0..255. */
  lemma PairOfValid(s: string, i: nat)
    requires IsValidHex(s) && 1 <= i <= 5
    ensures Pair(s, i) == Some(HexPair(s, i))
    ensures 0 <= HexPair(s, i) <= 255
  {
    PyIntTwoHexDigits(s[i], s[i + 1]);
    assert s[i..i + 2] == [s[i], s[i + 1]];
  }

  /** Every string the intended check accepts, the check as written accepts too (the converse fails, see `SignedPairAccepted`). */
  lemma IsValidHexStringWeaker(s: string)
    ensures IsValidHex(s) ==> IsValidHexString(s) == Ok(true)
  {
    if IsValidHex(s) {
      AsWrittenAgreesOnValid(s);
    }
  }

  /** The intended reading succeeds exactly on `#` and six hex digits, with components in 0..255. */
  lemma HexToRgbIntendedSpec(s: string)
    ensures HexToRgbIntended(s).Ok? <==> IsValidHex(s)
    ensures HexToRgbIntended(s).Err? ==> HexToRgbIntended(s).error == ValueError
    ensures HexToRgbIntended(s).Ok? ==> InByteRange(HexToRgbIntended(s).value)
  {
  }

  /** `hex_to_rgb(rgb_to_hex(c)) == c` for every colour with components in 0..255, for either check. */
  lemma HexRoundTrip(c: Rgb)
    requires InByteRange(c)
    ensures IsValidHex(RgbToHex(c))
    ensures HexToRgbIntended(RgbToHex(c)) == Ok(c)
    ensures HexToRgb(RgbToHex(c)) == Ok(c)
  {
    RgbToHexLowerCase(c);
    RgbToHexSpec(c);
    var s := RgbToHex(c);
    assert IsValidHex(s);
    ByteDigits(c.0);
    ByteDigits(c.1);
    ByteDigits(c.2);
    assert HexPair(s, 1) == c.0 && HexPair(s, 3) == c.1 && HexPair(s, 5) == c.2;
    AsWrittenAgreesOnValid(s);
  }

  /** The two digits written for a byte read back as the byte. */
  lemma ByteDigits(n: int)
    requires 0 <= n < 256
    ensures DigitValue(HexDigit(n / 16), 16) * 16 + DigitValue(HexDigit(n % 16), 16) == n
  {
    HexDigitValue(n / 16);
    HexDigitValue(n % 16);
  }

  /** A hex digit in lower case. */
  function LowerHexDigit(ch: char): char {
    if 'A' <= ch <= 'F' then (ch as int - 'A' as int + 'a' as int) as char else ch
  }

  /** A hex digit read and written again comes back in lower case. */
  lemma HexDigitLowered(ch: char)
    requires IsHexDigit(ch)
    ensures 0 <= DigitValue(ch, 16) < 16
    ensures HexDigit(DigitValue(ch, 16)) == LowerHexDigit(ch)
  {
  }

  /** The two hex digits of `hi * 16 + lo`. */
  lemma SplitByte(hi: int, lo: int)
    requires 0 <= hi < 16 && 0 <= lo < 16
    ensures (hi * 16 + lo) / 16 == hi && (hi * 16 + lo) % 16 == lo
  {
  }

  /** Formatting a valid string's colour gives the string back, its digits in lower case. */
  lemma RgbRoundTrip(s: string)
    requires IsValidHex(s)
    ensures HexToRgb(s).Ok?
    ensures RgbToHex(HexToRgb(s).value) ==
      ['#', LowerHexDigit(s[1]), LowerHexDigit(s[2]), LowerHexDigit(s[3]),
            LowerHexDigit(s[4]), LowerHexDigit(s[5]), LowerHexDigit(s[6])]
  {
    AsWrittenAgreesOnValid(s);
    var c := HexToRgb(s).value;
    LoweredPair(s, 1, c.0);
    LoweredPair(s, 3, c.1);
    LoweredPair(s, 5, c.2);
    RgbToHexDigits(c, LowerHexDigit(s[1]), LowerHexDigit(s[2]), LowerHexDigit(s[3]),
                   LowerHexDigit(s[4]), LowerHexDigit(s[5]), LowerHexDigit(s[6]));
  }

  /** The two digits written for the value of a pair are the pair's digits in lower case. */
  lemma LoweredPair(s: string, i: nat, v: int)
    requires IsValidHex(s) && 1 <= i <= 5 && v == HexPair(s, i)
    ensures 0 <= v < 256
    ensures HexDigit(v / 16) == LowerHexDigit(s[i]) && HexDigit(v % 16) == LowerHexDigit(s[i + 1])
  {
    assert IsHexDigit(s[i]) && IsHexDigit(s[i + 1]);
    LoweredDigits(s[i], s[i + 1], v);
  }

  /** The two digits written for the value of two hex digits are those digits in lower case. */
  lemma LoweredDigits(hi: char, lo: char, v: int)
    requires IsHexDigit(hi) && IsHexDigit(lo) && v == DigitValue(hi, 16) * 16 + DigitValue(lo, 16)
    ensures 0 <= v < 256
    ensures HexDigit(v / 16) == LowerHexDigit(hi) && HexDigit(v % 16) == LowerHexDigit(lo)
  {
    HexDigitLowered(hi);
    HexDigitLowered(lo);
    var h, l := DigitValue(hi, 16), DigitValue(lo, 16);
    SplitByte(h, l);
    assert v / 16 == h && v % 16 == l;
  }

  // ---------------------------------------------------------------
  // `rgb_str_to_hex`: "rgb(r, g, b)" to "#rrggbb".
  // ---------------------------------------------------------------

  /** `int(val)` for each piece, in order; None when one of them is no number (ValueError). */
  function ParseInts(parts: seq<string>): (r: Option<seq<int>>)
    ensures r.Some? ==> |r.value| == |parts|
    ensures r.Some? <==> forall i :: 0 <= i < |parts| ==> PyInt(parts[i], 10).Some?
    ensures r.Some? ==> forall i :: 0 <= i < |parts| ==> r.value[i] == PyInt(parts[i], 10).value
    decreases |parts|
  {
    if |parts| == 0 then Some([])
    else
      var v := PyInt(parts[0], 10);
      var vs := ParseInts(parts[1..]);
      if v.Some? && vs.Some? then Some([v.value] + vs.value) else None
  }

  /**
   * `rgb_str_to_hex`: drop the first four characters and the last one,
   * split on commas and read each piece as an integer (ValueError if one is
   * no number); fewer than three values leave a format field unfilled
   * (IndexError), and values after the third are ignored.
   */
  function RgbStrToHex(rgb: string): Result<string>
  {
    var parts := Split(Slice(rgb, 4, -1), ',');
    match ParseInts(parts)
    case None => Err(ValueError)
    case Some(vs) =>
      if |vs| < 3 then Err(IndexError)
      else Ok(RgbToHex((vs[0], vs[1], vs[2])))
  }

  /** Plotly's `"rgb(r, g, b)"` rendering of a colour. */
  function RgbString(c: Rgb): string
    requires c.0 >= 0 && c.1 >= 0 && c.2 >= 0
  {
    "rgb(" + NatToString(c.0) + ", " + NatToString(c.1) + ", " + NatToString(c.2) + ")"
  }

  /** Reading back a decimal digit. */
  lemma DecimalDigitValue(d: nat)
    requires d < 10
    ensures DigitValue(DecimalDigit(d), 10) == d
  {
  }

  /** The digits of `str(n)` form a valid body whose value is `n`. */
  lemma {:induction false} NatToStringValue(n: nat)
    ensures ValidDigitBody(NatToString(n), 10)
    ensures BodyValue(NatToString(n), 10) == n
    decreases n
  {
    var t := NatToString(n);
    DecimalDigitValue(n % 10);
    if n < 10 {
      assert t[..0] == [];
    } else {
      NatToStringValue(n / 10);
      assert t[..|t| - 1] == NatToString(n / 10);
    }
  }

  /** `int(" " * k + str(n))` is `n` for `k` at most one. */
  lemma PyIntOfNatString(n: nat, pad: string)
    requires pad == "" || pad == " "
    ensures PyInt(pad + NatToString(n), 10) == Some(n)
  {
    var t := NatToString(n);
    NatToStringValue(n);
    StripPadded(t, pad);
    assert IsDecimalDigit(t[0]);
    assert ParseUnsigned(t, 10) == Some(n);
    PyIntUnsigned(pad + t, t, n);
  }

  /** `int(u)` of a string that strips to an unsigned number is that number. */
  lemma PyIntUnsigned(u: string, t: string, v: nat)
    requires Strip(u) == t && |t| > 0 && t[0] != '+' && t[0] != '-'
    requires ParseUnsigned(t, 10) == Some(v)
    ensures PyInt(u, 10) == Some(v)
  {
  }

  /** At most one leading blank before a word with no blank at either end is stripped away. */
  lemma StripPadded(t: string, pad: string)
    requires |t| > 0 && !IsSpace(t[0]) && !IsSpace(t[|t| - 1])
    requires pad == "" || pad == " "
    ensures Strip(pad + t) == t
  {
    assert StripLeft(t) == t;
    if pad == " " {
      assert (pad + t)[1..] == t;
    } else {
      assert pad + t == t;
    }
    assert StripRight(t) == t;
  }

  /** `rgb_str_to_hex` of plotly's rendering of a colour with non-negative components formats that colour. */
  lemma RgbStrRoundTrip(c: Rgb)
    requires c.0 >= 0 && c.1 >= 0 && c.2 >= 0
    ensures RgbStrToHex(RgbString(c)) == Ok(RgbToHex(c))
  {
    var a, b, d := NatToString(c.0), NatToString(c.1), NatToString(c.2);
    var parts := [a, " " + b, " " + d];
    NoCommaInNumber(a);
    NoCommaInNumber(b);
    NoCommaInNumber(d);
    SplitPieces(parts);
    JoinThree(a, b, d);
    SliceWrapped(Join(parts, ","));
    PyIntOfNatString(c.0, "");
    PyIntOfNatString(c.1, " ");
    PyIntOfNatString(c.2, " ");
    assert "" + a == a;
    ParseThree(parts, c.0, c.1, c.2);
    RgbStrToHexOf(RgbString(c), parts, [c.0, c.1, c.2]);
  }

  /** Plotly's rendering is `"rgb("`, the three numbers joined by `", "`, and `")"`. */
  lemma JoinThree(a: string, b: string, d: string)
    ensures Join([a, " " + b, " " + d], ",") == a + ", " + b + ", " + d
    ensures "rgb(" + a + ", " + b + ", " + d + ")" == "rgb(" + Join([a, " " + b, " " + d], ",") + ")"
  {
    var parts := [a, " " + b, " " + d];
    assert parts[1..][1..] == [" " + d];
    assert Join(parts[1..], ",") == " " + b + "," + (" " + d);
  }

  /** `"rgb(1, 2)"` and the like: with two values the third format field has nothing to fill it. */
  lemma TwoValuesRaise(x: nat, y: nat)
    ensures RgbStrToHex("rgb(" + NatToString(x) + ", " + NatToString(y) + ")") == Err(IndexError)
  {
    var a, b := NatToString(x), NatToString(y);
    var parts := [a, " " + b];
    NoCommaInNumber(a);
    NoCommaInNumber(b);
    SplitPieces(parts);
    JoinTwo(a, b);
    SliceWrapped(Join(parts, ","));
    PyIntOfNatString(x, "");
    PyIntOfNatString(y, " ");
    assert "" + a == a;
    var vs := ParseInts(parts);
    assert vs.Some? && |vs.value| == 2;
  }

  /** Two numbers rendered the same way. */
  lemma JoinTwo(a: string, b: string)
    ensures "rgb(" + a + ", " + b + ")" == "rgb(" + Join([a, " " + b], ",") + ")"
  {
    var parts := [a, " " + b];
    assert Join(parts[1..], ",") == " " + b;
  }

  /** Dropping `"rgb("` and the closing parenthesis leaves what was between them. */
  lemma SliceWrapped(inner: string)
    ensures Slice("rgb(" + inner + ")", 4, -1) == inner
  {
    var s := "rgb(" + inner + ")";
    assert s[4..|s| - 1] == inner;
  }

  /** The decimal digits of a number hold no comma. */
  lemma NoCommaInNumber(t: string)
    requires forall i :: 0 <= i < |t| ==> IsDecimalDigit(t[i])
    ensures ',' !in t && ',' !in " " + t
  {
    assert forall i :: 0 <= i < |" " + t| ==> (" " + t)[i] != ',';
  }

  /** Pieces with no comma, joined by commas, split back into the pieces. */
  lemma SplitPieces(parts: seq<string>)
    requires |parts| >= 1
    requires forall k :: 0 <= k < |parts| ==> ',' !in parts[k]
    ensures Split(Join(parts, ","), ',') == parts
  {
    forall p | p in parts ensures ',' !in p {
      var k :| 0 <= k < |parts| && parts[k] == p;
    }
    SplitJoin(parts, ',');
  }

  /** Three pieces that read as numbers parse to those numbers. */
  lemma ParseThree(parts: seq<string>, x: int, y: int, z: int)
    requires |parts| == 3
    requires PyInt(parts[0], 10) == Some(x) && PyInt(parts[1], 10) == Some(y) && PyInt(parts[2], 10) == Some(z)
    ensures ParseInts(parts) == Some([x, y, z])
  {
    var p1, p2 := parts[1..], parts[1..][1..];
    assert p2[1..] == [] && p2[0] == parts[2] && p1[0] == parts[1] && p1[1..] == p2;
    assert ParseInts(p2) == Some([z] + []);
    assert [z] + [] == [z];
    assert ParseInts(p1) == Some([y] + [z]);
    assert ParseInts(parts) == Some([x] + ([y] + [z]));
    assert [x] + ([y] + [z]) == [x, y, z];
  }

  /** `rgb_str_to_hex` of a string whose pieces parse to at least three values formats the first three. */
  lemma RgbStrToHexOf(rgb: string, parts: seq<string>, vs: seq<int>)
    requires Split(Slice(rgb, 4, -1), ',') == parts
    requires ParseInts(parts) == Some(vs) && |vs| >= 3
    ensures RgbStrToHex(rgb) == Ok(RgbToHex((vs[0], vs[1], vs[2])))
  {
  }

  // ---------------------------------------------------------------
  // `generate_discrete_hex_colormap` and `average_hex_color`.
  // ---------------------------------------------------------------

  /** Plotly's qualitative T10 palette. */
  const T10: seq<string> := ["#4C78A8", "#F58518", "#E45756", "#72B7B2", "#54A24B",
                             "#EECA3B", "#B279A2", "#FF9DA6", "#9D755D", "#BAB0AC"]

  /** The colormap styles there are. */
  datatype Style = T10Style | OtherStyle(name: string)

  /**
   * `generate_discrete_hex_colormap`: `dict(zip(classes, cycle(T10)))`;
   * any style but T10 raises ValueError.
   */
  function DiscreteHexColormap(classes: seq<string>, style: Style): Result<Dicts.Dict<string, string>>
  {
    if style.OtherStyle? then Err(ValueError)
    else Ok(Dicts.FromEntries(Dicts.ZipCycle(classes, T10)))
  }

  /**
   * The colormap's keys are the distinct classes in order of first
   * appearance, and a class gets the T10 colour of its last position
   * modulo ten; distinct classes get `T10[i % 10]`.
   */
  lemma DiscreteHexColormapSpec(classes: seq<string>, style: Style)
    ensures DiscreteHexColormap(classes, style).Err? <==> style.OtherStyle?
    ensures DiscreteHexColormap(classes, style).Err? ==> DiscreteHexColormap(classes, style).error == ValueError
    ensures DiscreteHexColormap(classes, style).Ok? ==>
      var m := DiscreteHexColormap(classes, style).value;
      && Dicts.Keys(m) == Seqs.Distinct(classes)
      && (forall c :: c in classes ==> Dicts.Get(m, c) == Some(T10[Dicts.LastIndex(classes, c) % 10]))
      && (Seqs.NoDup(classes) ==> forall i :: 0 <= i < |classes| ==> Dicts.Get(m, classes[i]) == Some(T10[i % 10]))
  {
    if style.T10Style? {
      Dicts.ZipCycleKeys(classes, T10);
      forall c | c in classes ensures Dicts.Get(Dicts.FromEntries(Dicts.ZipCycle(classes, T10)), c) == Some(T10[Dicts.LastIndex(classes, c) % 10]) {
        Dicts.ZipCycleGet(classes, T10, c);
      }
      if Seqs.NoDup(classes) {
        Dicts.ZipCycleDistinct(classes, T10);
      }
    }
  }

  /** The components of the colours, one list per channel, and their sums. */
  function Channel(cs: seq<Rgb>, k: nat): (r: seq<int>)
    requires k < 3
    ensures |r| == |cs|
  {
    if |cs| == 0 then []
    else [if k == 0 then cs[0].0 else if k == 1 then cs[0].1 else cs[0].2] + Channel(cs[1..], k)
  }

  function Sum(xs: seq<int>): int
  {
    if |xs| == 0 then 0 else xs[0] + Sum(xs[1..])
  }

  /** `[hex_to_rgb(h) for h in colors]`: the first colour that cannot be read raises ValueError. */
  function HexToRgbAll(colors: seq<string>): (r: Result<seq<Rgb>>)
    ensures r.Ok? <==> forall i :: 0 <= i < |colors| ==> ReadsAsColor(colors[i])
    ensures r.Err? ==> r.error == ValueError
    ensures r.Ok? ==> |r.value| == |colors| && forall i :: 0 <= i < |colors| ==> Ok(r.value[i]) == HexToRgb(colors[i])
    decreases |colors|
  {
    if |colors| == 0 then Ok([])
    else
      HexToRgbInRange(colors[0]);
      match (HexToRgb(colors[0]), HexToRgbAll(colors[1..]))
      case (Ok(c), Ok(cs)) => Ok([c] + cs)
      case (Err(e), _) => Err(e)
      case (_, Err(e)) => Err(e)
  }

  /**
   * `average_hex_color`: the colours read as triples, then per channel
   * `int(sum / n)` (the sums are non-negative, so truncation is floor
   * division); no colours at all divide by zero.
   */
  function AverageHexColor(colors: seq<string>): Result<string>
  {
    match HexToRgbAll(colors)
    case Err(e) => Err(e)
    case Ok(cs) =>
      if |cs| == 0 then Err(ZeroDivisionError)
      else
        var n := |cs|;
        Ok(RgbToHex((Sum(Channel(cs, 0)) / n, Sum(Channel(cs, 1)) / n, Sum(Channel(cs, 2)) / n)))
  }

  /** A channel of colours in 0..255 sums to between 0 and 255 per colour. */
  lemma {:induction false} ChannelSumBounds(cs: seq<Rgb>, k: nat)
    requires k < 3
    requires forall i :: 0 <= i < |cs| ==> InByteRange(cs[i])
    ensures 0 <= Sum(Channel(cs, k)) <= 255 * |cs|
    decreases |cs|
  {
    if |cs| > 0 {
      ChannelSumBounds(cs[1..], k);
    }
  }

  /** The floor of a mean of values in 0..255 lies in 0..255. */
  lemma MeanInByteRange(sum: int, n: nat)
    requires n > 0 && 0 <= sum <= 255 * n
    ensures 0 <= sum / n < 256
  {
  }

  /**
   * The average fails with ValueError on a colour `hex_to_rgb` cannot read
   * and with ZeroDivisionError on an empty list; otherwise it is `#` and
   * six hex digits.
   */
  lemma AverageHexColorSpec(colors: seq<string>)
    ensures AverageHexColor(colors).Err? <==> |colors| == 0 || exists i :: 0 <= i < |colors| && !ReadsAsColor(colors[i])
    ensures (exists i :: 0 <= i < |colors| && !ReadsAsColor(colors[i])) ==> AverageHexColor(colors) == Err(ValueError)
    ensures |colors| == 0 ==> AverageHexColor(colors) == Err(ZeroDivisionError)
    ensures AverageHexColor(colors).Ok? ==> IsValidHex(AverageHexColor(colors).value)
  {
    var r := HexToRgbAll(colors);
    if r.Ok? && |colors| > 0 {
      var cs := r.value;
      forall i | 0 <= i < |cs| ensures InByteRange(cs[i]) {
        HexToRgbInRange(colors[i]);
      }
      ChannelSumBounds(cs, 0);
      ChannelSumBounds(cs, 1);
      ChannelSumBounds(cs, 2);
      var n := |cs|;
      MeanInByteRange(Sum(Channel(cs, 0)), n);
      MeanInByteRange(Sum(Channel(cs, 1)), n);
      MeanInByteRange(Sum(Channel(cs, 2)), n);
      HexRoundTrip((Sum(Channel(cs, 0)) / n, Sum(Channel(cs, 1)) / n, Sum(Channel(cs, 2)) / n));
    }
  }

  /** A channel of `n` copies of one colour sums to `n` times its component. */
  lemma {:induction false} ChannelOfCopies(c: Rgb, n: nat, k: nat)
    requires k < 3
    ensures Sum(Channel(seq(n, _ => c), k)) == n * (if k == 0 then c.0 else if k == 1 then c.1 else c.2)
    decreases n
  {
    if n > 0 {
      ChannelOfCopies(c, n - 1, k);
      assert seq(n, _ => c)[1..] == seq(n - 1, _ => c);
    }
  }

  /**
   * Averaging copies of one colour gives that colour as `rgb_to_hex`
   * writes it: in lower case, and with a sign or blank in a pair written
   * as a digit.
   */
  lemma AverageOfCopies(s: string, n: nat)
    requires ReadsAsColor(s) && n > 0
    ensures AverageHexColor(seq(n, _ => s)) == Ok(RgbToHex(HexToRgb(s).value))
  {
    var c := HexToRgb(s).value;
    var cs := HexToRgbAll(seq(n, _ => s)).value;
    assert cs == seq(n, _ => c);
    ChannelOfCopies(c, n, 0);
    ChannelOfCopies(c, n, 1);
    ChannelOfCopies(c, n, 2);
    MulDivCancel(n, c.0);
    MulDivCancel(n, c.1);
    MulDivCancel(n, c.2);
  }

  /** `(n * x) / n == x`. */
  lemma MulDivCancel(n: nat, x: int)
    requires n > 0
    ensures (n * x) / n == x
  {
    var q, r := (n * x) / n, (n * x) % n;
    assert n * x == n * q + r && 0 <= r < n;
    assert n * (x - q) == r;
    if x - q >= 1 {
      MulMonotone(n, x - q);
    } else if x - q <= -1 {
      MulMonotone(n, q - x);
    }
  }

  /** A positive multiple of `n` is at least `n`. */
  lemma MulMonotone(n: nat, k: int)
    requires k >= 1
    ensures n * k >= n
  {
    assert n * k == n * (k - 1) + n;
  }
}
