/** The pure helpers of the application's utility class: colour strings,
    elapsed-time display and file-name cleaning. */
module Helpers {
  import opened Wrappers
  import opened Text

  // ------------------------------------------------- Python int(s, 16)

  /** Hex digits, optionally separated by single underscores, neither leading
      nor trailing: the digit part Python's `int(s, 16)` accepts. */
  predicate IsDigitRun(s: string)
    decreases |s|
  {
    && |s| >= 1
    && IsHexDigit(s[0])
    && (|s| == 1 || IsDigitRun(s[1..]) || (s[1] == '_' && IsDigitRun(s[2..])))
  }

  predicate DigitsOrUnderscores(s: string) {
    forall i :: 0 <= i < |s| ==> IsHexDigit(s[i]) || s[i] == '_'
  }

  lemma {:induction false} DigitRunChars(s: string)
    requires IsDigitRun(s)
    ensures DigitsOrUnderscores(s)
    decreases |s|
  {
    if |s| > 1 {
      if IsDigitRun(s[1..]) {
        DigitRunChars(s[1..]);
        assert forall i :: 1 <= i < |s| ==> s[i] == s[1..][i - 1];
      } else {
        DigitRunChars(s[2..]);
        assert forall i :: 2 <= i < |s| ==> s[i] == s[2..][i - 2];
      }
    }
  }

  function RemoveUnderscores(s: string): (r: string)
    ensures DigitsOrUnderscores(s) ==> AllHexDigits(r)
    ensures AllHexDigits(s) ==> r == s
  {
    if |s| == 0 then ""
    else if s[0] == '_' then RemoveUnderscores(s[1..])
    else [s[0]] + RemoveUnderscores(s[1..])
  }

  /** Whether the text starts with the minus sign `int` reads after the
      whitespace. */
  predicate IsNegative(t: string) {
    |t| > 0 && t[0] == '-'
  }

  /** The text after one leading `+` or `-`. */
  function Unsigned(t: string): string {
    if |t| > 0 && (t[0] == '+' || t[0] == '-') then t[1..] else t
  }

  /** Drops a `0x`/`0X` prefix together with one underscore after it. */
  function DropHexPrefix(u: string): string {
    if |u| >= 2 && u[0] == '0' && (u[1] == 'x' || u[1] == 'X') then
      (if |u| >= 3 && u[2] == '_' then u[3..] else u[2..])
    else u
  }

  /** The characters `int(s, 16)` can accept anywhere in an ASCII string:
      whitespace, a sign, the `x` of a prefix, underscores and hex digits. */
  predicate IsIntChar(c: char) {
    IsSpace(c) || IsHexDigit(c) || c == '_' || c == '+' || c == '-' || c == 'x' || c == 'X'
  }

  /** Python `int(s, 16)`: surrounding whitespace, one sign, an optional
      `0x`/`0X` prefix (which may be followed by one underscore), then a digit
      run. `None` stands for the `ValueError` it raises otherwise. */
  function ParseHexInt(s: string): (r: Option<int>)
    ensures |s| >= 1 && AllHexDigits(s) ==> r == Some(HexDigitsValue(s))
    ensures r.Some? ==> forall i :: 0 <= i < |s| ==> IsIntChar(s[i])
  {
    PlainHexParts(s);
    var t := StripSpace(s);
    var body := DropHexPrefix(Unsigned(t));
    if IsDigitRun(body) then
      ParsedChars(s);
      DigitRunChars(body);
      var v: int := HexDigitsValue(RemoveUnderscores(body));
      Some(if IsNegative(t) then -v else v)
    else None
  }

  /** A plain run of hex digits passes every stage of `int` untouched. */
  lemma PlainHexParts(s: string)
    ensures |s| >= 1 && AllHexDigits(s) ==>
      && StripSpace(s) == s && !IsNegative(s)
      && DropHexPrefix(Unsigned(s)) == s && IsDigitRun(s)
  {
    if |s| >= 1 && AllHexDigits(s) {
      HexDigitsNoSpace(s);
      PlainDigitsUnsigned(s);
      HexDigitsRun(s);
    }
  }

  /** Every character of a string whose digit run `int` finds is one it can
      accept. */
  lemma ParsedChars(s: string)
    ensures IsDigitRun(DropHexPrefix(Unsigned(StripSpace(s)))) ==>
      forall i :: 0 <= i < |s| ==> IsIntChar(s[i])
  {
    var l := StripSpaceLeft(s);
    var t := StripSpaceRight(l);
    if IsDigitRun(DropHexPrefix(Unsigned(t))) {
      SignedChars(t);
      IntCharsBefore(l, |t|);
      IntCharsAfter(s, |s| - |l|);
    }
  }

  /** The same for the text once its whitespace is gone. */
  lemma SignedChars(t: string)
    requires IsDigitRun(DropHexPrefix(Unsigned(t)))
    ensures forall i :: 0 <= i < |t| ==> IsIntChar(t[i])
  {
    var u := Unsigned(t);
    var body := DropHexPrefix(u);
    DigitRunChars(body);
    assert forall i :: 0 <= i < |body| ==> IsIntChar(body[i]);
    PrefixChars(u);
    IntCharsAfter(u, |u| - |body|);
    SignChars(t);
    IntCharsAfter(t, |t| - |u|);
  }

  /** `Unsigned` drops at most one character, a sign. */
  lemma SignChars(t: string)
    ensures var u := Unsigned(t);
      |u| <= |t| <= |u| + 1 && t[|t| - |u|..] == u
      && forall i :: 0 <= i < |t| - |u| ==> IsIntChar(t[i])
  {
  }

  /** `DropHexPrefix` drops `0x`, `0X`, `0x_` or `0X_`, or nothing. */
  lemma PrefixChars(u: string)
    ensures var body := DropHexPrefix(u);
      |body| <= |u| && u[|u| - |body|..] == body
      && forall i :: 0 <= i < |u| - |body| ==> IsIntChar(u[i])
  {
  }

  lemma IntCharsAfter(s: string, k: int)
    requires 0 <= k <= |s|
    requires forall i :: 0 <= i < k ==> IsIntChar(s[i])
    requires forall i :: 0 <= i < |s| - k ==> IsIntChar(s[k..][i])
    ensures forall i :: 0 <= i < |s| ==> IsIntChar(s[i])
  {
    forall i | k <= i < |s| ensures IsIntChar(s[i]) {
      assert s[i] == s[k..][i - k];
    }
  }

  lemma IntCharsBefore(s: string, k: int)
    requires 0 <= k <= |s|
    requires forall i :: 0 <= i < k ==> IsIntChar(s[..k][i])
    requires forall i :: k <= i < |s| ==> IsIntChar(s[i])
    ensures forall i :: 0 <= i < |s| ==> IsIntChar(s[i])
  {
    forall i | 0 <= i < k ensures IsIntChar(s[i]) {
      assert s[i] == s[..k][i];
    }
  }

  /** `int(s, 16)` once the digit run has been located. */
  lemma ParseHexIntOf(s: string, body: string)
    requires DropHexPrefix(Unsigned(StripSpace(s))) == body
    requires IsDigitRun(body) && AllHexDigits(body)
    ensures ParseHexInt(s) ==
      Some(if IsNegative(StripSpace(s)) then -(HexDigitsValue(body) as int) else HexDigitsValue(body))
  {
  }

  lemma HexDigitsNoSpace(s: string)
    requires AllHexDigits(s)
    ensures StripSpace(s) == s
  {
    StripNoSpace(s);
  }

  lemma {:induction false} HexDigitsRun(s: string)
    requires |s| >= 1 && AllHexDigits(s)
    ensures IsDigitRun(s)
    decreases |s|
  {
    assert IsHexDigit(s[0]);
    if |s| > 1 {
      HexDigitsRun(s[1..]);
    }
  }

  lemma PlainDigitsUnsigned(s: string)
    requires AllHexDigits(s)
    ensures !IsNegative(s)
    ensures Unsigned(s) == s && DropHexPrefix(s) == s
  {
    if |s| >= 2 { assert IsHexDigit(s[1]); }
    if |s| >= 1 { assert IsHexDigit(s[0]); }
  }

  lemma MinusNoSpace(s: string)
    requires AllHexDigits(s)
    ensures StripSpace("-" + s) == "-" + s
  {
    MinusNoSpaceChars(s);
    StripNoSpace("-" + s);
  }

  lemma MinusNoSpaceChars(s: string)
    requires AllHexDigits(s)
    ensures forall i :: 0 <= i < |"-" + s| ==> !IsSpace(("-" + s)[i])
  {
    var t := "-" + s;
    forall i | 0 <= i < |t| ensures !IsSpace(t[i]) {
      if i > 0 { assert t[i] == s[i - 1]; }
    }
  }

  lemma MinusSign(s: string)
    ensures IsNegative("-" + s) && Unsigned("-" + s) == s
  {
    assert ("-" + s)[1..] == s;
  }

  /** A minus sign before hex digits negates their value. */
  lemma ParseNegatedDigits(s: string)
    requires |s| >= 1 && AllHexDigits(s)
    ensures ParseHexInt("-" + s) == Some(-(HexDigitsValue(s) as int))
  {
    MinusNoSpace(s);
    MinusSign(s);
    PlainDigitsUnsigned(s);
    HexDigitsRun(s);
    ParseHexIntOf("-" + s, s);
  }

  // -------------------------------------------------------------- colours

  datatype Rgb = Rgb(r: int, g: int, b: int)

  predicate IsByte(n: int) { 0 <= n <= 255 }

  /** Whether `color` is accepted as a colour: non-empty, six characters once
      the leading `#`s are stripped, and readable by `int(_, 16)`. */
  function IsValidColor(color: string): (ok: bool)
    ensures color == "" ==> !ok
    ensures |LStrip(color, '#')| != 6 ==> !ok
    ensures |LStrip(color, '#')| == 6 && AllHexDigits(LStrip(color, '#')) ==> ok
  {
    if |color| == 0 then false
    else
      var c := LStrip(color, '#');
      if |c| != 6 then false
      else
        ParseHexInt(c).Some?
  }

  /** `"#rrggbb"` from three components, each written with format `02x`. */
  function GetColorFromRgb(r: int, g: int, b: int): (s: string)
    ensures IsByte(r) && IsByte(g) && IsByte(b) ==>
      && |s| == 7 && s[0] == '#'
      && (forall i :: 1 <= i < 7 ==> IsLowerHexDigit(s[i]))
      && IsValidColor(s)
  {
    var s := "#" + FormatHex2(r) + FormatHex2(g) + FormatHex2(b);
    if IsByte(r) && IsByte(g) && IsByte(b) then
      ByteColorShape(r, g, b);
      HashColorValid(ByteDigits(r, g, b));
      s
    else s
  }

  /** The digits of a colour written from byte components. */
  function ByteDigits(r: int, g: int, b: int): (d: string)
    requires IsByte(r) && IsByte(g) && IsByte(b)
    ensures |d| == 6 && forall i :: 0 <= i < 6 ==> IsLowerHexDigit(d[i]) && IsHexDigit(d[i])
  {
    [HexChar(r / 16), HexChar(r % 16), HexChar(g / 16), HexChar(g % 16),
     HexChar(b / 16), HexChar(b % 16)]
  }

  lemma ByteColorShape(r: int, g: int, b: int)
    requires IsByte(r) && IsByte(g) && IsByte(b)
    ensures "#" + FormatHex2(r) + FormatHex2(g) + FormatHex2(b) == "#" + ByteDigits(r, g, b)
  {
    FormatHex2Byte(r); FormatHex2Byte(g); FormatHex2Byte(b);
    ConcatPairs(FormatHex2(r), FormatHex2(g), FormatHex2(b));
  }

  lemma ConcatPairs(p: string, q: string, t: string)
    requires |p| == |q| == |t| == 2
    ensures "#" + p + q + t == "#" + [p[0], p[1], q[0], q[1], t[0], t[1]]
  {
  }

  lemma HashColorValid(d: string)
    requires |d| == 6 && AllHexDigits(d)
    ensures IsValidColor("#" + d)
  {
    HashDigits(d);
  }

  /** One `#` before hex digits is stripped again by `lstrip("#")`. */
  lemma HashDigits(d: string)
    requires AllHexDigits(d)
    ensures LStrip("#" + d, '#') == d
  {
    assert ("#" + d)[1..] == d;
    if |d| > 0 {
      assert IsHexDigit(d[0]);
    }
  }

  /** The component encoded by the two characters at `i` of `c`, or `None`
      where `int(c[i:i+2], 16)` raises. */
  function Component(c: string, i: nat): Option<int> {
    ParseHexInt(Slice(c, i, i + 2))
  }

  /** `(r, g, b)` read from hex pairs 0, 2 and 4 after stripping leading `#`s;
      `None` where one of the three conversions raises. */
  function GetRgbFromColor(color: string): (r: Option<Rgb>)
    ensures var c := LStrip(color, '#');
      r.Some? <==> Component(c, 0).Some? && Component(c, 2).Some? && Component(c, 4).Some?
    ensures var c := LStrip(color, '#');
      r.Some? ==> r.value == Rgb(Component(c, 0).value, Component(c, 2).value, Component(c, 4).value)
    ensures LStrip(color, '#') == "" ==> r.None?
  {
    var c := LStrip(color, '#');
    var r :- Component(c, 0);
    var g :- Component(c, 2);
    var b :- Component(c, 4);
    Some(Rgb(r, g, b))
  }

  /** At least six characters, the first six hex digits. */
  predicate HexTriple(c: string) {
    && |c| >= 6
    && IsHexDigit(c[0]) && IsHexDigit(c[1]) && IsHexDigit(c[2])
    && IsHexDigit(c[3]) && IsHexDigit(c[4]) && IsHexDigit(c[5])
  }

  lemma GetRgbOfComponents(color: string, r: int, g: int, b: int)
    requires Component(LStrip(color, '#'), 0) == Some(r)
    requires Component(LStrip(color, '#'), 2) == Some(g)
    requires Component(LStrip(color, '#'), 4) == Some(b)
    ensures GetRgbFromColor(color) == Some(Rgb(r, g, b))
  {
  }

  /** The byte a pair of hex digits denotes. */
  function PairByte(hi: char, lo: char): (n: int)
    requires IsHexDigit(hi) && IsHexDigit(lo)
    ensures IsByte(n)
  {
    16 * HexValue(hi) + HexValue(lo)
  }

  /** Six hex digits after the `#`s (further characters are ignored) give
      three components in [0, 255], one per digit pair. */
  lemma HexColorComponents(color: string)
    requires HexTriple(LStrip(color, '#'))
    ensures var c := LStrip(color, '#');
      GetRgbFromColor(color) ==
        Some(Rgb(PairByte(c[0], c[1]), PairByte(c[2], c[3]), PairByte(c[4], c[5])))
  {
    var c := LStrip(color, '#');
    TripleComponents(c);
    GetRgbOfComponents(color, PairByte(c[0], c[1]), PairByte(c[2], c[3]), PairByte(c[4], c[5]));
  }

  lemma TripleComponents(c: string)
    requires HexTriple(c)
    ensures Component(c, 0) == Some(PairByte(c[0], c[1]))
    ensures Component(c, 2) == Some(PairByte(c[2], c[3]))
    ensures Component(c, 4) == Some(PairByte(c[4], c[5]))
  {
    PairValue(c, 0); PairValue(c, 2); PairValue(c, 4);
  }

  lemma PairValue(c: string, i: nat)
    requires i + 2 <= |c| && IsHexDigit(c[i]) && IsHexDigit(c[i + 1])
    ensures Component(c, i) == Some(PairByte(c[i], c[i + 1]))
  {
    assert Slice(c, i, i + 2) == [c[i], c[i + 1]];
    PairHexValue(c[i], c[i + 1]);
  }

  lemma PairHexValue(hi: char, lo: char)
    requires IsHexDigit(hi) && IsHexDigit(lo)
    ensures ParseHexInt([hi, lo]) == Some(PairByte(hi, lo))
  {
    HexDigitsValuePair(hi, lo);
    ParseHexValue([hi, lo], PairByte(hi, lo));
  }

  lemma ParseHexValue(s: string, v: int)
    requires |s| >= 1 && AllHexDigits(s) && HexDigitsValue(s) == v
    ensures ParseHexInt(s) == Some(v)
  {
  }

  /** Because `int(_, 16)` tolerates a sign, the colour check also accepts strings
      that are not six hex digits, and the components read from them can fall
      outside [0, 255]. */
  lemma SignedColorAccepted()
    ensures IsValidColor("#-12345")
    ensures GetRgbFromColor("#-12345") == Some(Rgb(-1, 0x23, 0x45))
  {
    SignedColorValid();
    SignedColorComponents();
  }

  lemma SignedColorStrip()
    ensures LStrip("#-12345", '#') == "-12345"
  {
    assert "#-12345"[1..] == "-12345";
  }

  lemma SignedColorValid()
    ensures IsValidColor("#-12345")
  {
    SignedColorStrip();
    SignedDigitsParse();
  }

  lemma SignedDigitsParse()
    ensures ParseHexInt("-12345").Some?
  {
    assert "-" + "12345" == "-12345";
    ParseNegatedDigits("12345");
  }

  lemma SignedColorComponents()
    ensures GetRgbFromColor("#-12345") == Some(Rgb(-1, 0x23, 0x45))
  {
    SignedColorStrip();
    SignedFirstComponent();
    SignedLaterComponents();
    GetRgbOfComponents("#-12345", -1, 0x23, 0x45);
  }

  lemma SignedFirstComponent()
    ensures Component("-12345", 0) == Some(-1)
  {
    assert Slice("-12345", 0, 2) == "-" + "1";
    ParseNegatedDigits("1");
    assert HexDigitsValue("1") == 1 by {
      assert "1"[..0] == [];
    }
  }

  lemma SignedLaterComponents()
    ensures Component("-12345", 2) == Some(0x23)
    ensures Component("-12345", 4) == Some(0x45)
  {
    SignedPair("-12345", 2, 0x23);
    SignedPair("-12345", 4, 0x45);
  }

  lemma SignedPair(c: string, i: nat, v: int)
    requires i + 2 <= |c| && IsHexDigit(c[i]) && IsHexDigit(c[i + 1])
    requires v == PairByte(c[i], c[i + 1])
    ensures Component(c, i) == Some(v)
  {
    PairValue(c, i);
  }

  /** The ASCII separators 0x1C-0x1F count as whitespace for `str.isspace`
      but not for `int`, so a colour that carries one is rejected by the check
      and cannot be read. */
  lemma SeparatorRejected()
    ensures ParseHexInt("\U{1C}1") == None
    ensures !IsValidColor("#\U{1C}12345")
    ensures GetRgbFromColor("\U{1C}1\U{1C}1\U{1C}1") == None
  {
    assert !IsIntChar("\U{1C}1"[0]);
    var c := LStrip("#\U{1C}12345", '#');
    assert c == "\U{1C}12345";
    assert !IsIntChar(c[0]);
    var d := LStrip("\U{1C}1\U{1C}1\U{1C}1", '#');
    assert Slice(d, 0, 2)[0] == '\U{1C}';
  }

  /** Because `int(_, 16)` also reads underscores between digits, the colour check
      accepts `12_345`, whose second pair `_3` cannot be read back. */
  lemma UnderscoreColorAccepted()
    ensures IsValidColor("12_345")
    ensures GetRgbFromColor("12_345").None?
  {
    UnderscoreValid();
    UnderscoreSecondPair();
  }

  lemma UnderscoreValid()
    ensures IsValidColor("12_345")
  {
    UnderscoreParses();
    assert LStrip("12_345", '#') == "12_345";
  }

  lemma UnderscoreParses()
    ensures ParseHexInt("12_345").Some?
  {
    var c := "12_345";
    assert DropHexPrefix(Unsigned(StripSpace(c))) == c by {
      StripNoSpace(c);
      assert Unsigned(c) == c && DropHexPrefix(c) == c;
    }
    UnderscoreRun();
  }

  lemma UnderscoreRun()
    ensures IsDigitRun("12_345")
  {
    var c := "12_345";
    assert IsDigitRun("345") by {
      assert IsDigitRun("5");
      assert IsDigitRun("45");
    }
    assert c[2..] == "_345" && c[3..] == "345";
    assert IsDigitRun(c[1..]);
  }

  lemma UnderscoreSecondPair()
    ensures Component("12_345", 2).None?
  {
    assert Slice("12_345", 2, 4) == "_3";
    StripNoSpace("_3");
    assert !IsDigitRun("_3");
  }

  /** The colour check as evidently meant: exactly six hex digits once the
      leading `#`s are stripped. */
  predicate IsHexColor(color: string) {
    var c := LStrip(color, '#');
    |c| == 6 && AllHexDigits(c)
  }

  /** Every colour the corrected check accepts is also accepted by the
      original one and reads back as three components in [0, 255]; every
      colour written from byte components passes it. */
  lemma HexColorReadable(color: string)
    requires IsHexColor(color)
    ensures IsValidColor(color)
    ensures var rgb := GetRgbFromColor(color);
      rgb.Some? && IsByte(rgb.value.r) && IsByte(rgb.value.g) && IsByte(rgb.value.b)
  {
    var c := LStrip(color, '#');
    assert HexTriple(c) by {
      assert IsHexDigit(c[0]) && IsHexDigit(c[1]) && IsHexDigit(c[2]);
      assert IsHexDigit(c[3]) && IsHexDigit(c[4]) && IsHexDigit(c[5]);
    }
    HexColorComponents(color);
  }

  lemma WrittenColorIsHex(r: int, g: int, b: int)
    requires IsByte(r) && IsByte(g) && IsByte(b)
    ensures IsHexColor(GetColorFromRgb(r, g, b))
  {
    ColorOfBytes(r, g, b);
    HashDigits(ByteDigits(r, g, b));
  }

  /** Reading back a colour written from byte components gives the components. */
  lemma RgbRoundTrip(r: int, g: int, b: int)
    requires IsByte(r) && IsByte(g) && IsByte(b)
    ensures GetRgbFromColor(GetColorFromRgb(r, g, b)) == Some(Rgb(r, g, b))
  {
    ColorOfBytes(r, g, b);
    ReadByteDigits(r, g, b);
  }

  lemma ColorOfBytes(r: int, g: int, b: int)
    requires IsByte(r) && IsByte(g) && IsByte(b)
    ensures GetColorFromRgb(r, g, b) == "#" + ByteDigits(r, g, b)
  {
    ByteColorShape(r, g, b);
  }

  lemma ReadByteDigits(r: int, g: int, b: int)
    requires IsByte(r) && IsByte(g) && IsByte(b)
    ensures GetRgbFromColor("#" + ByteDigits(r, g, b)) == Some(Rgb(r, g, b))
  {
    var d := ByteDigits(r, g, b);
    HashDigits(d);
    assert HexTriple(d);
    HexColorComponents("#" + d);
    assert PairByte(d[0], d[1]) == r && PairByte(d[2], d[3]) == g && PairByte(d[4], d[5]) == b;
  }

  /** Writing back the components of a six-hex-digit colour gives the same
      colour in lower case with exactly one `#`. */
  lemma ColorRoundTrip(color: string)
    requires |LStrip(color, '#')| == 6 && AllHexDigits(LStrip(color, '#'))
    ensures var rgb := GetRgbFromColor(color);
      rgb.Some? && GetColorFromRgb(rgb.value.r, rgb.value.g, rgb.value.b)
        == "#" + Lower(LStrip(color, '#'))
  {
    var c := LStrip(color, '#');
    assert HexTriple(c) by {
      assert IsHexDigit(c[0]) && IsHexDigit(c[1]) && IsHexDigit(c[2]);
      assert IsHexDigit(c[3]) && IsHexDigit(c[4]) && IsHexDigit(c[5]);
    }
    HexColorComponents(color);
    var r, g, b := PairByte(c[0], c[1]), PairByte(c[2], c[3]), PairByte(c[4], c[5]);
    ColorOfBytes(r, g, b);
    LowerTriple(c);
  }

  /** The digits written back for the three pairs of `c` are `c` in lower case. */
  lemma LowerTriple(c: string)
    requires HexTriple(c) && |c| == 6
    ensures ByteDigits(PairByte(c[0], c[1]), PairByte(c[2], c[3]), PairByte(c[4], c[5]))
      == Lower(c)
  {
    var r, g, b := PairByte(c[0], c[1]), PairByte(c[2], c[3]), PairByte(c[4], c[5]);
    HexPairDigits(c[0], c[1]);
    HexPairDigits(c[2], c[3]);
    HexPairDigits(c[4], c[5]);
    var low := [LowerChar(c[0]), LowerChar(c[1]), LowerChar(c[2]),
                LowerChar(c[3]), LowerChar(c[4]), LowerChar(c[5])];
    assert ByteDigits(r, g, b) == low;
    assert Lower(c) == low;
  }

  /** The two digits `format(_, "02x")` writes for the byte a hex pair
      denotes are the pair in lower case. */
  lemma HexPairDigits(hi: char, lo: char)
    requires IsHexDigit(hi) && IsHexDigit(lo)
    ensures HexChar(PairByte(hi, lo) / 16) == LowerChar(hi)
    ensures HexChar(PairByte(hi, lo) % 16) == LowerChar(lo)
  {
    var n := PairByte(hi, lo);
    assert n / 16 == HexValue(hi) && n % 16 == HexValue(lo);
    HexCharOfValue(hi);
    HexCharOfValue(lo);
  }

  /** The digit `format` writes for the value of a hex digit is that digit in
      lower case. */
  lemma HexCharOfValue(c: char)
    requires IsHexDigit(c)
    ensures HexChar(HexValue(c)) == LowerChar(c)
  {
  }

  // ----------------------------------------------------------------- time

  /** Elapsed seconds for display: seconds alone below a minute, minutes and
      seconds below an hour, hours and minutes beyond (seconds dropped). */
  function FormatTime(seconds: int): (r: string)
    ensures seconds < 60 ==> r == IntString(seconds) + "秒"
    ensures seconds < 3600 <==> EndsWith(r, "秒")
  {
    if seconds < 60 then IntString(seconds) + "秒"
    else if seconds < 3600 then NatString(seconds / 60) + "分" + NatString(seconds % 60) + "秒"
    else NatString(seconds / 3600) + "小时" + NatString(seconds % 3600 / 60) + "分"
  }

  /** Below an hour the display holds minutes and seconds that add back up to
      the input. */
  lemma FormatTimeMinutes(seconds: int) returns (m: nat, s: nat)
    requires 60 <= seconds < 3600
    ensures FormatTime(seconds) == NatString(m) + "分" + NatString(s) + "秒"
    ensures m * 60 + s == seconds && s < 60 && 1 <= m < 60
  {
    m, s := seconds / 60, seconds % 60;
  }

  /** From an hour on the display holds hours and minutes; the leftover
      seconds, fewer than sixty, are dropped. */
  lemma FormatTimeHours(seconds: int) returns (h: nat, m: nat)
    requires seconds >= 3600
    ensures FormatTime(seconds) == NatString(h) + "小时" + NatString(m) + "分"
    ensures h >= 1 && m < 60
    ensures h * 3600 + m * 60 <= seconds < h * 3600 + m * 60 + 60
  {
    h, m := seconds / 3600, seconds % 3600 / 60;
  }

  // ------------------------------------------------------------ file names

  /** The characters the file-name cleaner replaces with `_`. */
  const InvalidFilenameChars: string := "<>:\"/\\|?*"

  /** `s.replace(c, d)` for single characters. */
  function ReplaceChar(s: string, c: char, d: char): (r: string)
    ensures |r| == |s|
    ensures forall i :: 0 <= i < |s| ==> r[i] == (if s[i] == c then d else s[i])
  {
    seq(|s|, i requires 0 <= i < |s| => if s[i] == c then d else s[i])
  }

  /** One `replace(ch, '_')` per character of `chars`, in order. Since `_` is
      not among them, the order does not matter and every occurrence of any
      of them ends up replaced. */
  function ReplaceEach(s: string, chars: string): (r: string)
    requires '_' !in chars
    ensures |r| == |s|
    ensures forall i :: 0 <= i < |s| ==> r[i] == (if s[i] in chars then '_' else s[i])
    decreases |chars|
  {
    if |chars| == 0 then s
    else ReplaceEach(ReplaceChar(s, chars[0], '_'), chars[1..])
  }

  function SanitizeFilename(name: string): (r: string)
    ensures |r| == |name|
    ensures forall i :: 0 <= i < |r| ==> r[i] !in InvalidFilenameChars
    ensures forall i :: 0 <= i < |name| && name[i] !in InvalidFilenameChars ==> r[i] == name[i]
    ensures forall i :: 0 <= i < |name| && name[i] in InvalidFilenameChars ==> r[i] == '_'
  {
    ReplaceEach(name, InvalidFilenameChars)
  }

  /** Cleaning a clean name changes nothing, and only clean names are left
      unchanged. */
  lemma SanitizeFixedPoints(name: string)
    ensures SanitizeFilename(name) == name <==>
      forall i :: 0 <= i < |name| ==> name[i] !in InvalidFilenameChars
  {
    var r := SanitizeFilename(name);
    if forall i :: 0 <= i < |name| ==> name[i] !in InvalidFilenameChars {
      assert r == name;
    }
  }

  lemma SanitizeIdempotent(name: string)
    ensures SanitizeFilename(SanitizeFilename(name)) == SanitizeFilename(name)
  {
    SanitizeFixedPoints(SanitizeFilename(name));
  }
}
