/** The hexadecimal codec of Utility: HexToDouble parses a colour-style hex string
    into a C# `int`, IntToHex formats an `int` with the .NET "X3" format.
    Everything here is a pure function of strings and integers. */
module Hex {

  datatype Result<T, E> = Ok(value: T) | Err(error: E)

  /** The two exceptions `int.Parse` raises for a non-null string. */
  datatype ParseError = FormatError | OverflowError

  const TwoPow31: int := 0x8000_0000
  const TwoPow32: int := 0x1_0000_0000

  /** A C# `int`: 32-bit two's complement. */
  type Int32 = x: int | -0x8000_0000 <= x < 0x8000_0000

  // ---------------------------------------------------------------------------
  // Digits and values

  predicate IsHexDigit(c: char) {
    '0' <= c <= '9' || 'a' <= c <= 'f' || 'A' <= c <= 'F'
  }

  /** The digits the "X" format emits. */
  predicate IsUpperHexDigit(c: char) {
    '0' <= c <= '9' || 'A' <= c <= 'F'
  }

  predicate AllHex(s: string) {
    forall i :: 0 <= i < |s| ==> IsHexDigit(s[i])
  }

  predicate AllUpperHex(s: string) {
    forall i :: 0 <= i < |s| ==> IsUpperHexDigit(s[i])
  }

  function DigitValue(c: char): (d: nat)
    requires IsHexDigit(c)
    ensures d < 16
    ensures d < 10 <==> '0' <= c <= '9'
  {
    if '0' <= c <= '9' then c as int - '0' as int
    else if 'a' <= c <= 'f' then c as int - 'a' as int + 10
    else c as int - 'A' as int + 10
  }

  /** The digit character the "X" format writes for `d`. */
  function UpperDigit(d: nat): (c: char)
    requires d < 16
    ensures IsUpperHexDigit(c) && DigitValue(c) == d
  {
    if d < 10 then ('0' as int + d) as char else ('A' as int + d - 10) as char
  }

  /** The base-16 value of a digit string, most significant digit first. */
  function HexValue(s: string): nat
    requires AllHex(s)
  {
    if s == [] then 0 else 16 * HexValue(s[..|s| - 1]) + DigitValue(s[|s| - 1])
  }

  function Pow16(k: nat): nat
  {
    if k == 0 then 1 else 16 * Pow16(k - 1)
  }

  /** k hex digits hold a value below 16^k. */
  lemma {:induction false} HexValueBound(s: string)
    requires AllHex(s)
    ensures HexValue(s) < Pow16(|s|)
  {
    if s != [] {
      HexValueBound(s[..|s| - 1]);
    }
  }

  lemma {:induction false} ZerosValue(z: string)
    requires forall i :: 0 <= i < |z| ==> z[i] == '0'
    ensures AllHex(z) && HexValue(z) == 0
  {
    if z != [] {
      ZerosValue(z[..|z| - 1]);
    }
  }

  /** Leading zeros do not change the value of a digit string. */
  lemma {:induction false} LeadingZerosValue(z: string, s: string)
    requires forall i :: 0 <= i < |z| ==> z[i] == '0'
    requires AllHex(s)
    ensures AllHex(z + s) && HexValue(z + s) == HexValue(s)
  {
    if s == [] {
      assert z + s == z;
      ZerosValue(z);
    } else {
      var t := z + s;
      assert t[..|t| - 1] == z + s[..|s| - 1];
      assert t[|t| - 1] == s[|s| - 1];
      LeadingZerosValue(z, s[..|s| - 1]);
    }
  }

  // ---------------------------------------------------------------------------
  // Two's complement

  /** The `int` whose 32 bits read as the unsigned value `u` (the reinterpretation
      int.Parse applies to a hex number). */
  function ToInt32(u: nat): (n: Int32)
    requires u < TwoPow32
    ensures n >= 0 <==> u < TwoPow31
    ensures n % TwoPow32 == u
  {
    if u < TwoPow31 then u else u - TwoPow32
  }

  /** The 32 bits of `n` read as an unsigned value (what the "X" format prints). */
  function ToUInt32(n: Int32): (u: nat)
    ensures u < TwoPow32
    ensures u % TwoPow32 == n % TwoPow32
    ensures ToInt32(u) == n
  {
    if n < 0 then n + TwoPow32 else n
  }

  // ---------------------------------------------------------------------------
  // IntToHex: number.ToString("X3")

  /** The shortest upper-case hex spelling of `u`. */
  function HexDigits(u: nat): (r: string)
    ensures |r| >= 1 && AllUpperHex(r)
    ensures r[0] == '0' <==> u == 0
  {
    if u < 16 then [UpperDigit(u)] else HexDigits(u / 16) + [UpperDigit(u % 16)]
  }

  lemma UpperHexIsHex(s: string)
    requires AllUpperHex(s)
    ensures AllHex(s)
  {
  }

  lemma {:induction false} HexDigitsValue(u: nat)
    ensures AllHex(HexDigits(u)) && HexValue(HexDigits(u)) == u
  {
    var r := HexDigits(u);
    UpperHexIsHex(r);
    if u >= 16 {
      HexDigitsValue(u / 16);
      assert r[..|r| - 1] == HexDigits(u / 16);
    }
  }

  /** `HexDigits(u)` has exactly k digits when 16^(k-1) <= u < 16^k. */
  lemma {:induction false} HexDigitsLength(u: nat, k: nat)
    requires 1 <= k && u < Pow16(k)
    requires k > 1 ==> Pow16(k - 1) <= u
    ensures |HexDigits(u)| == k
  {
    if u >= 16 {
      assert k > 1;
      HexDigitsLength(u / 16, k - 1);
    }
  }

  /** A 32-bit value has at most eight hex digits, and exactly eight from 16^7 on. */
  lemma HexDigitsOf32Bits(u: nat)
    requires u < TwoPow32
    ensures |HexDigits(u)| <= 8
    ensures u >= 0x1000_0000 ==> |HexDigits(u)| == 8
  {
    assert Pow16(7) == 0x1000_0000;
    assert Pow16(8) == TwoPow32;
    var k := 1;
    while k < 8 && Pow16(k) <= u
      invariant 1 <= k <= 8
      invariant Pow16(k - 1) <= u || k == 1
      decreases 8 - k
    {
      k := k + 1;
    }
    HexDigitsLength(u, k);
  }

  /** Left-pads `s` with `pad` up to `width`; a longer `s` is kept whole. */
  function PadLeft(s: string, width: nat, pad: char): (r: string)
    ensures |r| == if |s| >= width then |s| else width
    ensures r[|r| - |s|..] == s
    ensures forall i :: 0 <= i < |r| - |s| ==> r[i] == pad
  {
    if |s| >= width then s else seq(width - |s|, _ => pad) + s
  }

  /** `number.ToString("X3")` for a C# `int`. */
  function IntToHex(number: Int32): string
  {
    PadLeft(HexDigits(ToUInt32(number)), 3, '0')
  }

  /** The output of IntToHex: upper-case hex digits only, at least three, at most
      eight, zero-padded only up to three, whose value is the 32-bit pattern of
      `number` (nothing is truncated); a negative `number` always gives eight digits. */
  lemma IntToHexShape(number: Int32)
    ensures var r := IntToHex(number);
      && AllUpperHex(r) && 3 <= |r| <= 8
      && (|r| > 3 ==> r[0] != '0')
      && AllHex(r) && HexValue(r) == ToUInt32(number)
      && (number < 0 ==> |r| == 8)
  {
    var u := ToUInt32(number);
    var d := HexDigits(u);
    var r := IntToHex(number);
    HexDigitsOf32Bits(u);
    HexDigitsValue(u);
    var z := r[..|r| - |d|];
    assert r == z + d;
    LeadingZerosValue(z, d);
  }

  // ---------------------------------------------------------------------------
  // HexToDouble: int.Parse(hex.Replace("#", ""), NumberStyles.HexNumber)

  /** `s.Replace("#", "")`: every '#' goes, wherever it stands. */
  function RemoveHashes(s: string): (r: string)
    ensures forall i :: 0 <= i < |r| ==> r[i] != '#'
  {
    if s == [] then []
    else if s[0] == '#' then RemoveHashes(s[1..])
    else [s[0]] + RemoveHashes(s[1..])
  }

  /** RemoveHashes drops the '#' characters and keeps every other character, as
      often as it occurs. */
  lemma {:induction false} RemoveHashesKeeps(s: string)
    ensures multiset(RemoveHashes(s)) == multiset(s)['#' := 0]
  {
    if s != [] {
      assert s == [s[0]] + s[1..];
      RemoveHashesKeeps(s[1..]);
    }
  }

  lemma {:induction false} RemoveHashesAppend(a: string, b: string)
    ensures RemoveHashes(a + b) == RemoveHashes(a) + RemoveHashes(b)
  {
    if a != [] {
      assert (a + b)[1..] == a[1..] + b;
      RemoveHashesAppend(a[1..], b);
    } else {
      assert a + b == b;
    }
  }

  lemma {:induction false} RemoveHashesNone(s: string)
    requires forall i :: 0 <= i < |s| ==> s[i] != '#'
    ensures RemoveHashes(s) == s
  {
    if s != [] {
      RemoveHashesNone(s[1..]);
    }
  }

  /** The white space NumberStyles.AllowLeadingWhite / AllowTrailingWhite skip. */
  predicate IsWhite(c: char) {
    c == ' ' || '\t' <= c <= '\r'
  }

  function TrimLeadingWhite(s: string): (r: string)
    ensures |r| <= |s| && r == s[|s| - |r|..]
    ensures forall i :: 0 <= i < |s| - |r| ==> IsWhite(s[i])
    ensures r == [] || !IsWhite(r[0])
  {
    if s != [] && IsWhite(s[0]) then TrimLeadingWhite(s[1..]) else s
  }

  function TrimTrailingWhite(s: string): (r: string)
    ensures |r| <= |s| && r == s[..|r|]
    ensures forall i :: |r| <= i < |s| ==> IsWhite(s[i])
    ensures r == [] || !IsWhite(r[|r| - 1])
  {
    if s != [] && IsWhite(s[|s| - 1]) then TrimTrailingWhite(s[..|s| - 1]) else s
  }

  /** .NET accepts NUL characters after everything else in the string. */
  function TrimTrailingNuls(s: string): (r: string)
    ensures |r| <= |s| && r == s[..|r|]
    ensures forall i :: |r| <= i < |s| ==> s[i] == '\0'
    ensures r == [] || r[|r| - 1] != '\0'
  {
    if s != [] && s[|s| - 1] == '\0' then TrimTrailingNuls(s[..|s| - 1]) else s
  }

  /** The part of `s` that must be hex digits: `s` without leading white space,
      trailing white space and trailing NULs. */
  function NumberBody(s: string): string
  {
    TrimLeadingWhite(TrimTrailingWhite(TrimTrailingNuls(s)))
  }

  /** `int.Parse(s, NumberStyles.HexNumber)`: no sign, no "0x"; any case; any
      number of leading zeros; a value above 0xFFFFFFFF overflows, and one from
      0x80000000 on comes back negative. A bad format is reported before an overflow. */
  function ParseHex(s: string): Result<Int32, ParseError>
  {
    ParseBody(NumberBody(s))
  }

  /** The digits-only part of the parse. */
  function ParseBody(body: string): Result<Int32, ParseError>
  {
    if body == [] || !AllHex(body) then Err(FormatError)
    else if HexValue(body) >= TwoPow32 then Err(OverflowError)
    else Ok(ToInt32(HexValue(body)))
  }

  /** `Utility.HexToDouble`. */
  function HexToDouble(hex: string): Result<Int32, ParseError>
  {
    ParseHex(RemoveHashes(hex))
  }

  /** A hex digit string is its own number body. */
  lemma DigitsAreBody(s: string)
    requires AllHex(s)
    ensures NumberBody(s) == s
  {
  }

  /** On a string of hex digits alone, HexToDouble succeeds exactly when the
      string is non-empty and its value fits in 32 bits, and then returns that
      value read as a two's-complement `int`; otherwise it fails with the
      exception .NET raises. */
  lemma HexToDoubleDigits(s: string)
    requires AllHex(s)
    ensures HexToDouble(s).Ok? <==> s != [] && HexValue(s) < TwoPow32
    ensures HexToDouble(s).Ok? ==> HexToDouble(s).value == ToInt32(HexValue(s))
    ensures s == [] ==> HexToDouble(s) == Err(FormatError)
    ensures s != [] && HexValue(s) >= TwoPow32 ==> HexToDouble(s) == Err(OverflowError)
  {
    RemoveHashesNone(s);
    DigitsAreBody(s);
  }

  /** Up to eight hex digits, in either case, always parse. */
  lemma AtMostEightDigits(s: string)
    requires AllHex(s) && 1 <= |s| <= 8
    ensures HexValue(s) < TwoPow32
    ensures HexToDouble(s) == Ok(ToInt32(HexValue(s)))
    ensures HexToDouble(s).Ok? && (HexToDouble(s).value < 0 <==> HexValue(s) >= TwoPow31)
  {
    HexValueBound(s);
    assert Pow16(8) == TwoPow32;
    Pow16Monotone(|s|, 8);
    HexToDoubleDigits(s);
  }

  lemma {:induction false} Pow16Monotone(j: nat, k: nat)
    requires j <= k
    ensures Pow16(j) <= Pow16(k)
  {
    if j < k {
      Pow16Monotone(j, k - 1);
    }
  }

  /** A '#' anywhere in the input is ignored. */
  lemma HashIgnored(a: string, b: string)
    ensures HexToDouble(a + "#" + b) == HexToDouble(a + b)
  {
    var hash: string := ['#'];
    RemoveHashesAppend(a + hash, b);
    RemoveHashesAppend(a, hash);
    RemoveHashesAppend(a, b);
    assert RemoveHashes(hash) == [];
    assert RemoveHashes(a + hash) == RemoveHashes(a);
  }

  /** The number body is a slice of the input; only white space and NULs lie outside it. */
  lemma NumberBodySlice(s: string) returns (lo: nat, hi: nat)
    ensures lo <= hi <= |s| && NumberBody(s) == s[lo..hi]
    ensures forall i :: 0 <= i < lo || hi <= i < |s| ==> IsWhite(s[i]) || s[i] == '\0'
  {
    var n := TrimTrailingNuls(s);
    var w := TrimTrailingWhite(n);
    var b := TrimLeadingWhite(w);
    lo, hi := |w| - |b|, |w|;
    assert w == s[..hi];
    assert b == w[lo..];
  }

  /** Only '#', white space and NULs: there is no number, so a format error. */
  lemma NoDigitsIsFormatError(s: string)
    requires forall i :: 0 <= i < |s| ==> s[i] == '#' || IsWhite(s[i]) || s[i] == '\0'
    ensures HexToDouble(s) == Err(FormatError)
  {
    var h := RemoveHashes(s);
    RemoveHashesKeeps(s);
    var lo, hi := NumberBodySlice(h);
    if lo < hi {
      assert h[lo] in multiset(h);
      assert h[lo] in s;
      assert !IsHexDigit(NumberBody(h)[0]);
    }
  }

  /** Any character other than a hex digit, '#', white space or NUL makes the
      input malformed, wherever it stands. */
  lemma StrayCharIsFormatError(s: string, k: nat)
    requires k < |s|
    requires !IsHexDigit(s[k]) && s[k] != '#' && !IsWhite(s[k]) && s[k] != '\0'
    ensures HexToDouble(s) == Err(FormatError)
  {
    var c := s[k];
    var h := RemoveHashes(s);
    RemoveHashesKeeps(s);
    assert c in multiset(s);
    assert c in multiset(h);
    assert c in h;
    var j :| 0 <= j < |h| && h[j] == c;
    var lo, hi := NumberBodySlice(h);
    assert NumberBody(h)[j - lo] == c;
  }

  // ---------------------------------------------------------------------------
  // Case

  function UpperChar(c: char): char {
    if 'a' <= c <= 'z' then (c as int - 32) as char else c
  }

  /** Upper-casing keeps every character class the parser looks at. */
  lemma UpperCharClass(c: char)
    ensures UpperChar(c) == '#' <==> c == '#'
    ensures UpperChar(c) == '\0' <==> c == '\0'
    ensures IsWhite(UpperChar(c)) <==> IsWhite(c)
    ensures IsHexDigit(UpperChar(c)) <==> IsHexDigit(c)
    ensures IsHexDigit(c) ==> DigitValue(UpperChar(c)) == DigitValue(c)
  {
  }

  /** ASCII upper-casing, character by character. */
  function ToUpper(s: string): (r: string)
    ensures |r| == |s|
    ensures forall i :: 0 <= i < |s| ==> r[i] == UpperChar(s[i])
  {
    seq(|s|, i requires 0 <= i < |s| => UpperChar(s[i]))
  }

  lemma ToUpperAppend(a: string, b: string)
    ensures ToUpper(a + b) == ToUpper(a) + ToUpper(b)
  {
    assert forall i :: 0 <= i < |a + b| ==> ToUpper(a + b)[i] == (ToUpper(a) + ToUpper(b))[i];
  }

  lemma ToUpperSlice(s: string, lo: nat, hi: nat)
    requires lo <= hi <= |s|
    ensures ToUpper(s[lo..hi]) == ToUpper(s)[lo..hi]
  {
  }

  lemma {:induction false} RemoveHashesUpper(s: string)
    ensures RemoveHashes(ToUpper(s)) == ToUpper(RemoveHashes(s))
  {
    if s != [] {
      var u := ToUpper(s);
      ToUpperSlice(s, 1, |s|);
      assert u[1..] == ToUpper(s[1..]);
      UpperCharClass(s[0]);
      RemoveHashesUpper(s[1..]);
      var rest := RemoveHashes(s[1..]);
      if s[0] != '#' {
        ToUpperAppend([s[0]], rest);
        assert ToUpper([s[0]]) == [u[0]];
        calc {
          RemoveHashes(u);
          [u[0]] + RemoveHashes(u[1..]);
          [u[0]] + ToUpper(rest);
          ToUpper([s[0]] + rest);
        }
      }
    }
  }

  lemma {:induction false} TrimTrailingNulsUpper(s: string)
    ensures TrimTrailingNuls(ToUpper(s)) == ToUpper(TrimTrailingNuls(s))
  {
    if s != [] {
      ToUpperSlice(s, 0, |s| - 1);
      UpperCharClass(s[|s| - 1]);
      TrimTrailingNulsUpper(s[..|s| - 1]);
    }
  }

  lemma {:induction false} TrimTrailingWhiteUpper(s: string)
    ensures TrimTrailingWhite(ToUpper(s)) == ToUpper(TrimTrailingWhite(s))
  {
    if s != [] {
      ToUpperSlice(s, 0, |s| - 1);
      UpperCharClass(s[|s| - 1]);
      TrimTrailingWhiteUpper(s[..|s| - 1]);
    }
  }

  lemma {:induction false} TrimLeadingWhiteUpper(s: string)
    ensures TrimLeadingWhite(ToUpper(s)) == ToUpper(TrimLeadingWhite(s))
  {
    if s != [] {
      var u := ToUpper(s);
      ToUpperSlice(s, 1, |s|);
      assert u[1..] == ToUpper(s[1..]);
      UpperCharClass(s[0]);
      if IsWhite(s[0]) {
        TrimLeadingWhiteUpper(s[1..]);
        calc {
          TrimLeadingWhite(u);
          TrimLeadingWhite(u[1..]);
          TrimLeadingWhite(ToUpper(s[1..]));
          ToUpper(TrimLeadingWhite(s[1..]));
        }
      }
    }
  }

  lemma {:induction false} HexValueUpper(s: string)
    requires AllHex(s)
    ensures AllHex(ToUpper(s)) && HexValue(ToUpper(s)) == HexValue(s)
  {
    if s != [] {
      ToUpperSlice(s, 0, |s| - 1);
      UpperCharClass(s[|s| - 1]);
      HexValueUpper(s[..|s| - 1]);
    }
  }

  lemma NumberBodyUpper(s: string)
    ensures NumberBody(ToUpper(s)) == ToUpper(NumberBody(s))
  {
    TrimTrailingNulsUpper(s);
    var n := TrimTrailingNuls(s);
    TrimTrailingWhiteUpper(n);
    TrimLeadingWhiteUpper(TrimTrailingWhite(n));
  }

  lemma ParseHexUpper(s: string)
    ensures ParseHex(ToUpper(s)) == ParseHex(s)
  {
    NumberBodyUpper(s);
    ParseBodyUpper(NumberBody(s));
  }

  lemma ParseBodyUpper(b: string)
    ensures ParseBody(ToUpper(b)) == ParseBody(b)
  {
    var ub := ToUpper(b);
    if AllHex(b) {
      HexValueUpper(b);
    } else {
      var i :| 0 <= i < |b| && !IsHexDigit(b[i]);
      UpperCharClass(b[i]);
      assert !IsHexDigit(ub[i]);
    }
  }

  /** HexToDouble does not care about the case of the letters. */
  lemma CaseInsensitive(hex: string)
    ensures HexToDouble(ToUpper(hex)) == HexToDouble(hex)
  {
    RemoveHashesUpper(hex);
    ParseHexUpper(RemoveHashes(hex));
  }

  // ---------------------------------------------------------------------------
  // Round trip

  /** IntToHex followed by HexToDouble gives back every `int`, negative ones included. */
  lemma RoundTrip(number: Int32)
    ensures HexToDouble(IntToHex(number)) == Ok(number)
  {
    var r := IntToHex(number);
    IntToHexShape(number);
    HexToDoubleDigits(r);
  }

  /** Formatting example: a short value is zero-padded to three digits. */
  lemma IntToHexPaddedExample()
    ensures IntToHex(255) == "0FF"
  {
    assert HexDigits(0xF) == "F";
    assert HexDigits(0xFF) == "FF";
  }

  /** Formatting example: a value above 0xFFF keeps all its digits. */
  lemma IntToHexWideExample()
    ensures IntToHex(0xFF_FFFF) == "FFFFFF"
  {
    var f := UpperDigit(15);
    assert f == 'F';
    assert HexDigits(0xF) == [f];
    assert HexDigits(0xFF) == HexDigits(0xF) + [f];
    assert HexDigits(0xFFF) == HexDigits(0xFF) + [f];
    assert HexDigits(0xFFFF) == HexDigits(0xFFF) + [f];
    assert HexDigits(0xF_FFFF) == HexDigits(0xFFFF) + [f];
    assert HexDigits(0xFF_FFFF) == HexDigits(0xF_FFFF) + [f];
    assert HexDigits(0xFF_FFFF) == "FFFFFF";
  }

  /** Formatting example: -1 prints as its 32-bit two's-complement pattern. */
  lemma IntToHexNegativeExample()
    ensures IntToHex(-1) == "FFFFFFFF"
  {
    var f := UpperDigit(15);
    assert f == 'F';
    assert ToUInt32(-1) == 0xFFFF_FFFF;
    assert HexDigits(0xF) == [f];
    assert HexDigits(0xFF) == HexDigits(0xF) + [f];
    assert HexDigits(0xFFF) == HexDigits(0xFF) + [f];
    assert HexDigits(0xFFFF) == HexDigits(0xFFF) + [f];
    assert HexDigits(0xF_FFFF) == HexDigits(0xFFFF) + [f];
    assert HexDigits(0xFF_FFFF) == HexDigits(0xF_FFFF) + [f];
    assert HexDigits(0xFFF_FFFF) == HexDigits(0xFF_FFFF) + [f];
    assert HexDigits(0xFFFF_FFFF) == HexDigits(0xFFF_FFFF) + [f];
    assert HexDigits(0xFFFF_FFFF) == "FFFFFFFF";
  }

  /** Parsing example: a leading '#' is ignored. */
  lemma HashPrefixExample()
    ensures HexToDouble("#FF00FF") == Ok(16711935)
  {
    var s := "#FF00FF";
    MagentaValue();
    assert s[1..] == "FF00FF";
    assert RemoveHashes(s) == RemoveHashes("FF00FF");
  }

  /** Parsing example: a '#' inside the digits is ignored too. */
  lemma HashInsideExample()
    ensures HexToDouble("FF#00FF") == Ok(16711935)
  {
    InnerHashRemoved();
    MagentaValue();
  }

  lemma InnerHashRemoved()
    ensures RemoveHashes("FF#00FF") == "FF00FF"
  {
    var s := "FF#00FF";
    RemoveHashesNone("00FF");
    assert s[1..][1..][1..] == "00FF";
    assert RemoveHashes(s[1..][1..]) == "00FF";
    assert RemoveHashes(s[1..]) == "F00FF";
  }

  /** Parsing example: "FF00FF" is magenta, 16711935. */
  lemma MagentaValue()
    ensures HexToDouble("FF00FF") == Ok(16711935)
  {
    var s := "FF00FF";
    assert forall k :: 1 <= k <= 6 ==> AllHex(s[..k]);
    assert HexValue(s[..1]) == 0xF;
    assert s[..2][..1] == s[..1];
    assert HexValue(s[..2]) == 0xFF;
    assert s[..3][..2] == s[..2];
    assert HexValue(s[..3]) == 0xFF0;
    assert s[..4][..3] == s[..3];
    assert HexValue(s[..4]) == 0xFF00;
    assert s[..5][..4] == s[..4];
    assert HexValue(s[..5]) == 0xFF00F;
    assert s[..6][..5] == s[..5];
    assert s[..6] == s;
    assert HexValue(s) == 16711935;
    AtMostEightDigits(s);
  }

  /** Parsing example: lower case, and a value from 0x80000000 on reads as negative. */
  lemma HexToDoubleNegativeExample()
    ensures HexToDouble("ffffffff") == Ok(-1)
  {
    var s := "ffffffff";
    assert forall k :: 1 <= k <= 8 ==> AllHex(s[..k]);
    assert HexValue(s[..1]) == 0xF;
    assert s[..2][..1] == s[..1];
    assert HexValue(s[..2]) == 0xFF;
    assert s[..3][..2] == s[..2];
    assert HexValue(s[..3]) == 0xFFF;
    assert s[..4][..3] == s[..3];
    assert HexValue(s[..4]) == 0xFFFF;
    assert s[..5][..4] == s[..4];
    assert HexValue(s[..5]) == 0xF_FFFF;
    assert s[..6][..5] == s[..5];
    assert HexValue(s[..6]) == 0xFF_FFFF;
    assert s[..7][..6] == s[..6];
    assert HexValue(s[..7]) == 0xFFF_FFFF;
    assert s[..8][..7] == s[..7];
    assert s[..8] == s;
    assert HexValue(s) == 0xFFFF_FFFF;
    AtMostEightDigits(s);
  }
}
