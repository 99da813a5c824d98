/** Character and string helpers standing for the Python string built-ins the
    code relies on: `str(int)`, integer format specs, slicing, `lstrip`,
    `strip`, `lower` and `endswith`. Only the ASCII behaviour of `lower` and of
    whitespace stripping is modelled. */
module Text {

  // ---------------------------------------------------------------- decimal

  predicate IsDigit(c: char) { '0' <= c <= '9' }

  predicate AllDigits(s: string) { forall i :: 0 <= i < |s| ==> IsDigit(s[i]) }

  function DigitChar(d: nat): (c: char)
    requires d < 10
    ensures IsDigit(c)
  {
    "0123456789"[d]
  }

  function DigitValue(c: char): (d: nat)
    requires IsDigit(c)
    ensures d < 10
  {
    (c as int - '0' as int) as nat
  }

  /** Decimal notation of a natural number, as Python's `str` writes it:
      no leading zeros, "0" for zero. */
  function NatString(n: nat): (s: string)
    ensures |s| >= 1
    ensures AllDigits(s)
    ensures |s| > 1 ==> s[0] != '0'
    decreases n
  {
    if n < 10 then [DigitChar(n)] else NatString(n / 10) + [DigitChar(n % 10)]
  }

  /** Reads a string of decimal digits back as a number. */
  function ParseDigits(s: string): nat
    requires AllDigits(s)
  {
    if |s| == 0 then 0 else ParseDigits(s[..|s| - 1]) * 10 + DigitValue(s[|s| - 1])
  }

  /** Leading zeros do not change the value a digit string denotes. */
  lemma {:induction false} ParseLeadingZeros(z: nat, s: string)
    requires AllDigits(s)
    ensures AllDigits(Zeros(z) + s)
    ensures ParseDigits(Zeros(z) + s) == ParseDigits(s)
    decreases |s|
  {
    var t := Zeros(z) + s;
    assert forall i :: 0 <= i < |t| ==> IsDigit(t[i]) by {
      forall i | 0 <= i < |t| ensures IsDigit(t[i]) {
        if i < z { assert t[i] == Zeros(z)[i]; } else { assert t[i] == s[i - z]; }
      }
    }
    if |s| == 0 {
      assert t == Zeros(z);
      ParseAllZeros(z);
    } else {
      var s' := s[..|s| - 1];
      assert t[..|t| - 1] == Zeros(z) + s';
      ParseLeadingZeros(z, s');
    }
  }

  lemma {:induction false} ParseAllZeros(z: nat)
    ensures AllDigits(Zeros(z))
    ensures ParseDigits(Zeros(z)) == 0
  {
    if z > 0 {
      assert Zeros(z)[..z - 1] == Zeros(z - 1);
      ParseAllZeros(z - 1);
    }
  }

  function Zeros(n: nat): (s: string)
    ensures |s| == n
    ensures forall i :: 0 <= i < n ==> s[i] == '0'
  {
    seq(n, _ => '0')
  }

  /** `ParseDigits` inverts `NatString`. */
  lemma {:induction false} NatStringRoundTrip(n: nat)
    ensures ParseDigits(NatString(n)) == n
    decreases n
  {
    if n >= 10 {
      var s := NatString(n);
      assert s[..|s| - 1] == NatString(n / 10);
      NatStringRoundTrip(n / 10);
    }
  }

  /** Python `str(n)` for an int. */
  function IntString(n: int): (s: string)
    ensures n >= 0 ==> s == NatString(n)
    ensures n < 0 ==> s == "-" + NatString(-n)
  {
    if n < 0 then "-" + NatString(-n) else NatString(n)
  }

  /** Left-pads `s` with `c` up to `width` characters. */
  function PadLeft(s: string, width: nat, c: char): (r: string)
    ensures |r| == if |s| >= width then |s| else width
    ensures r[|r| - |s|..] == s
    ensures forall i :: 0 <= i < |r| - |s| ==> r[i] == c
  {
    if |s| >= width then s else seq(width - |s|, _ => c) + s
  }

  /** Python's `format(n, "0<width>d")`: sign-aware zero padding, the width
      counting the sign. */
  function FormatZeroPadded(n: int, width: nat): (s: string)
    requires width >= 1
  {
    if n < 0 then "-" + PadLeft(NatString(-n), width - 1, '0')
    else PadLeft(NatString(n), width, '0')
  }

  /** A non-negative number formatted with zero padding reads back as itself
      and is exactly `width` characters long while it fits. */
  lemma ZeroPaddedRoundTrip(n: nat, width: nat)
    requires width >= 1
    ensures AllDigits(FormatZeroPadded(n, width))
    ensures ParseDigits(FormatZeroPadded(n, width)) == n
    ensures |NatString(n)| <= width ==> |FormatZeroPadded(n, width)| == width
  {
    var d := NatString(n);
    NatStringRoundTrip(n);
    if |d| < width {
      PadZeros(d, width);
      ParseLeadingZeros(width - |d|, d);
    }
  }

  lemma PadZeros(d: string, width: nat)
    requires |d| < width
    ensures PadLeft(d, width, '0') == Zeros(width - |d|) + d
  {
  }

  // -------------------------------------------------------------------- hex

  predicate IsHexDigit(c: char) {
    IsDigit(c) || 'a' <= c <= 'f' || 'A' <= c <= 'F'
  }

  predicate AllHexDigits(s: string) { forall i :: 0 <= i < |s| ==> IsHexDigit(s[i]) }

  predicate IsLowerHexDigit(c: char) { IsDigit(c) || 'a' <= c <= 'f' }

  function HexValue(c: char): (d: nat)
    requires IsHexDigit(c)
    ensures d < 16
  {
    if IsDigit(c) then DigitValue(c)
    else if 'a' <= c <= 'f' then (c as int - 'a' as int + 10) as nat
    else (c as int - 'A' as int + 10) as nat
  }

  function HexChar(d: nat): (c: char)
    requires d < 16
    ensures IsLowerHexDigit(c) && IsHexDigit(c)
    ensures HexValue(c) == d
  {
    "0123456789abcdef"[d]
  }

  /** Value of a string of hex digits, most significant first. */
  function HexDigitsValue(s: string): nat
    requires AllHexDigits(s)
  {
    if |s| == 0 then 0 else HexDigitsValue(s[..|s| - 1]) * 16 + HexValue(s[|s| - 1])
  }

  lemma HexDigitsValuePair(hi: char, lo: char)
    requires IsHexDigit(hi) && IsHexDigit(lo)
    ensures AllHexDigits([hi, lo])
    ensures HexDigitsValue([hi, lo]) == 16 * HexValue(hi) + HexValue(lo)
  {
    assert [hi, lo][..1] == [hi];
    assert [hi][..0] == [];
    assert HexDigitsValue([hi]) == HexValue(hi);
    assert HexDigitsValue([hi, lo]) == HexDigitsValue([hi]) * 16 + HexValue(lo);
  }

  /** Lower-case hex notation of a natural number without leading zeros, as
      Python's `format(n, "x")` writes it. */
  function NatHex(n: nat): (s: string)
    ensures |s| >= 1
    ensures forall i :: 0 <= i < |s| ==> IsLowerHexDigit(s[i])
    decreases n
  {
    if n < 16 then [HexChar(n)] else NatHex(n / 16) + [HexChar(n % 16)]
  }

  /** Python's `format(n, "02x")`. */
  function FormatHex2(n: int): (s: string)
  {
    if n < 0 then "-" + NatHex(-n) else PadLeft(NatHex(n), 2, '0')
  }

  /** A byte formats as exactly its two hex digits, high nibble first. */
  lemma FormatHex2Byte(n: int)
    requires 0 <= n <= 255
    ensures FormatHex2(n) == [HexChar(n / 16), HexChar(n % 16)]
  {
    if n < 16 {
      SmallHex2(n);
    } else {
      assert NatHex(n / 16) == [HexChar(n / 16)];
    }
  }

  lemma SmallHex2(n: nat)
    requires n < 16
    ensures FormatHex2(n) == [HexChar(0), HexChar(n)]
  {
    assert NatHex(n) == [HexChar(n)];
    assert PadLeft(NatHex(n), 2, '0') == ['0'] + [HexChar(n)];
  }

  // ---------------------------------------------------- slicing and strips

  /** Python `s[i:j]` for `0 <= i <= j`: indices past the end are clipped. */
  function Slice(s: string, i: nat, j: nat): (r: string)
    requires i <= j
    ensures |r| == if j <= |s| then j - i else if i <= |s| then |s| - i else 0
    ensures forall k :: 0 <= k < |r| ==> r[k] == s[i + k]
  {
    if i >= |s| then "" else if j >= |s| then s[i..] else s[i..j]
  }

  /** Python `s.lstrip(c)`: removes every leading `c`. */
  function LStrip(s: string, c: char): (r: string)
    ensures |r| <= |s|
    ensures r == s[|s| - |r|..]
    ensures forall i :: 0 <= i < |s| - |r| ==> s[i] == c
    ensures |r| > 0 ==> r[0] != c
  {
    if |s| > 0 && s[0] == c then LStrip(s[1..], c) else s
  }

  /** The whitespace `int()` skips around the digits of an ASCII string: the
      C-level space test, which is narrower than `str.isspace` (the file,
      group, record and unit separators 0x1C-0x1F are not spaces here). */
  predicate IsSpace(c: char) {
    c == ' ' || '\t' <= c <= '\r'
  }

  function StripSpaceLeft(s: string): (r: string)
    ensures |r| <= |s| && r == s[|s| - |r|..]
    ensures |r| > 0 ==> !IsSpace(r[0])
    ensures forall i :: 0 <= i < |s| - |r| ==> IsSpace(s[i])
  {
    if |s| > 0 && IsSpace(s[0]) then StripSpaceLeft(s[1..]) else s
  }

  function StripSpaceRight(s: string): (r: string)
    ensures |r| <= |s| && r == s[..|r|]
    ensures |r| > 0 ==> !IsSpace(r[|r| - 1])
    ensures forall i :: |r| <= i < |s| ==> IsSpace(s[i])
  {
    if |s| > 0 && IsSpace(s[|s| - 1]) then StripSpaceRight(s[..|s| - 1]) else s
  }

  /** The surrounding whitespace `int()` drops, as `IsSpace` defines it. */
  function StripSpace(s: string): string {
    StripSpaceRight(StripSpaceLeft(s))
  }

  lemma StripNoSpace(s: string)
    requires forall i :: 0 <= i < |s| ==> !IsSpace(s[i])
    ensures StripSpace(s) == s
  {
  }

  // ------------------------------------------------------------ case, ends

  function LowerChar(c: char): char {
    if 'A' <= c <= 'Z' then (c as int - 'A' as int + 'a' as int) as char else c
  }

  /** Python `str.lower()` on ASCII letters. */
  function Lower(s: string): (r: string)
    ensures |r| == |s|
    ensures forall i :: 0 <= i < |s| ==> r[i] == LowerChar(s[i])
  {
    seq(|s|, i requires 0 <= i < |s| => LowerChar(s[i]))
  }

  /** Lower-casing twice is lower-casing once, and it leaves no upper-case
      ASCII letter behind. */
  lemma LowerIdempotent(s: string)
    ensures Lower(Lower(s)) == Lower(s)
    ensures forall i :: 0 <= i < |s| ==> !('A' <= Lower(s)[i] <= 'Z')
  {
    var l := Lower(s);
    forall i | 0 <= i < |s| ensures LowerChar(l[i]) == l[i] && !('A' <= l[i] <= 'Z') {
      assert l[i] == LowerChar(s[i]);
    }
  }

  /** Lower-casing commutes with taking a tail. */
  lemma LowerTail(s: string, k: int)
    ensures 0 <= k <= |s| ==> Lower(s)[k..] == Lower(s[k..])
  {
    if 0 <= k <= |s| {
      var a, b := Lower(s)[k..], Lower(s[k..]);
      assert forall i :: 0 <= i < |a| ==> a[i] == LowerChar(s[k + i]) == b[i];
    }
  }

  predicate EndsWith(s: string, suffix: string) {
    |suffix| <= |s| && s[|s| - |suffix|..] == suffix
  }
}
