/** Hexadecimal encoding and decoding of RGB colours: rgbToHex, hexToInt and
    hexToRGB, with the base-16 number formatting and parsing they rely on. */
module HexCodec {
  import opened ColorUtils
  import opened ColorTypes

  predicate IsHexDigit(c: char) {
    ('0' <= c <= '9') || ('a' <= c <= 'f') || ('A' <= c <= 'F')
  }

  predicate IsHexString(s: string) {
    forall i :: 0 <= i < |s| ==> IsHexDigit(s[i])
  }

  /** A hex string in the case rgbToHex produces after normalisation. */
  predicate IsUpperHexString(s: string) {
    IsHexString(s) && forall i :: 0 <= i < |s| ==> !IsLowerAscii(s[i])
  }

  function DigitValue(c: char): (v: nat)
    requires IsHexDigit(c)
    ensures v < 16
    ensures '0' <= c <= '9' ==> v == c as int - '0' as int
    ensures !('0' <= c <= '9') ==> v >= 10
  {
    if '0' <= c <= '9' then c as int - '0' as int
    else if 'a' <= c <= 'f' then c as int - 'a' as int + 10
    else c as int - 'A' as int + 10
  }

  /** The lower-case digit JavaScript's toString(16) writes for a value below 16. */
  function LowerDigit(v: nat): (c: char)
    requires v < 16
    ensures IsHexDigit(c) && DigitValue(c) == v
    ensures !('A' <= c <= 'Z')
  {
    if v < 10 then ('0' as int + v) as char else ('a' as int + v - 10) as char
  }

  /** Upper-casing a hex digit keeps it a hex digit with the same value. */
  lemma DigitValueUpper(c: char)
    requires IsHexDigit(c)
    ensures IsHexDigit(Upper(c)) && DigitValue(Upper(c)) == DigitValue(c)
  {
  }

  /** Among digits that are not lower-case, the value determines the digit. */
  lemma DigitValueInjective(c: char, d: char)
    requires IsHexDigit(c) && IsHexDigit(d) && !IsLowerAscii(c) && !IsLowerAscii(d)
    requires DigitValue(c) == DigitValue(d)
    ensures c == d
  {
  }

  /** parseInt(s, 16) on a string made only of hex digits. */
  function HexValue(s: string): (v: nat)
    requires IsHexString(s)
  {
    if s == [] then 0 else HexValue(s[..|s| - 1]) * 16 + DigitValue(s[|s| - 1])
  }

  /** A two-digit string reads as 16 times its first digit plus its second. */
  lemma HexValueTwo(s: string)
    requires |s| == 2 && IsHexString(s)
    ensures HexValue(s) == 16 * DigitValue(s[0]) + DigitValue(s[1])
  {
    var head := s[..1];
    assert s[..|s| - 1] == head && head[..0] == [] && head[0] == s[0];
    calc {
      HexValue(s);
      HexValue(head) * 16 + DigitValue(s[1]);
      (HexValue(head[..0]) * 16 + DigitValue(head[0])) * 16 + DigitValue(s[1]);
    }
  }

  /** A leading zero does not change what parseInt(_, 16) reads. */
  lemma {:induction false} HexValueLeadingZero(s: string)
    requires IsHexString(s)
    ensures IsHexString("0" + s) && HexValue("0" + s) == HexValue(s)
  {
    var z := "0" + s;
    if s == [] {
      assert z[..0] == [];
    } else {
      var init := s[..|s| - 1];
      HexValueLeadingZero(init);
      assert z[..|z| - 1] == "0" + init;
    }
  }

  /** Number.prototype.toString(16) of a non-negative integer: lower-case
      digits, no leading zero, "0" for zero. */
  function ToHexString(n: nat): (s: string)
    ensures |s| > 0 && IsHexString(s) && HexValue(s) == n
    ensures forall i :: 0 <= i < |s| ==> !('A' <= s[i] <= 'Z')
    ensures |s| > 1 ==> s[0] != '0'
    ensures |s| == 1 <==> n < 16
    ensures n < 256 ==> |s| <= 2
    decreases n
  {
    if n < 16 then
      [LowerDigit(n)]
    else
      var t := ToHexString(n / 16);
      var s := t + [LowerDigit(n % 16)];
      assert s[..|s| - 1] == t;
      s
  }

  /** padHex: a digit string whose value is below 16 gets a leading '0'. */
  function PadHex(d: string): (p: string)
    requires |d| > 0 && IsHexString(d)
    ensures IsHexString(p) && HexValue(p) == HexValue(d)
    ensures HexValue(d) < 16 ==> |p| == |d| + 1 && p[0] == '0' && p[1..] == d
    ensures HexValue(d) >= 16 ==> p == d
  {
    if HexValue(d) < 16 then
      HexValueLeadingZero(d);
      "0" + d
    else
      d
  }

  /** The two-digit text rgbToHex writes for one channel in [0, 255], once
      upper-cased. */
  function ChannelText(n: nat): (t: string)
    requires n < 256
    ensures |t| == 2 && IsUpperHexString(t)
    ensures 16 * DigitValue(t[0]) + DigitValue(t[1]) == n
  {
    var p := PadHex(ToHexString(n));
    HexValueTwo(p);
    DigitValueUpper(p[0]);
    DigitValueUpper(p[1]);
    UpperString(p)
  }

  /** rgbToHex: two padded lower-case digits per channel, concatenated and
      normalised. Channels above 255 write more than two digits each. */
  function RgbToHex(r: nat, g: nat, b: nat): (hex: string)
  {
    NormalizeHex(PadHex(ToHexString(r)) + PadHex(ToHexString(g)) + PadHex(ToHexString(b)))
  }

  /** For channels in [0, 255] each channel is written as its own two
      upper-case digits, in red-green-blue order. */
  lemma RgbToHexChannels(r: nat, g: nat, b: nat)
    requires r < 256 && g < 256 && b < 256
    ensures RgbToHex(r, g, b) == ChannelText(r) + ChannelText(g) + ChannelText(b)
  {
    var pr, pg, pb := PadHex(ToHexString(r)), PadHex(ToHexString(g)), PadHex(ToHexString(b));
    assert |pr| == 2;
    assert (pr + pg + pb)[0] == pr[0];
    assert LowerDigit(0) == '0';
    assert pr[0] != '#';
    UpperStringAppend(pr + pg, pb);
    UpperStringAppend(pr, pg);
  }

  /** For channels in [0, 255] the result is six upper-case hex digits, two
      per channel, in red-green-blue order. */
  lemma RgbToHexShape(r: nat, g: nat, b: nat)
    requires r < 256 && g < 256 && b < 256
    ensures var hex := RgbToHex(r, g, b);
      && |hex| == 6 && IsUpperHexString(hex)
      && 16 * DigitValue(hex[0]) + DigitValue(hex[1]) == r
      && 16 * DigitValue(hex[2]) + DigitValue(hex[3]) == g
      && 16 * DigitValue(hex[4]) + DigitValue(hex[5]) == b
  {
    RgbToHexChannels(r, g, b);
    PairsJoin(ChannelText(r), ChannelText(g), ChannelText(b));
  }

  /** Three two-digit texts side by side. */
  lemma PairsJoin(tr: string, tg: string, tb: string)
    requires |tr| == 2 && |tg| == 2 && |tb| == 2
    requires IsUpperHexString(tr) && IsUpperHexString(tg) && IsUpperHexString(tb)
    ensures var hex := tr + tg + tb;
      && |hex| == 6 && IsUpperHexString(hex)
      && hex[0] == tr[0] && hex[1] == tr[1] && hex[2] == tg[0]
      && hex[3] == tg[1] && hex[4] == tb[0] && hex[5] == tb[1]
  {
  }

  /** hexToInt: parseInt of the two characters at index, read as base 16. */
  function HexToInt(hex: string, index: nat): (v: nat)
    requires index + 2 <= |hex| && IsHexDigit(hex[index]) && IsHexDigit(hex[index + 1])
    ensures v == 16 * DigitValue(hex[index]) + DigitValue(hex[index + 1])
    ensures v < 256
  {
    var pair := hex[index..index + 2];
    HexValueTwo(pair);
    HexValue(pair)
  }

  /** What hexToRGB needs: after normalisation, six hex digits come first. */
  predicate IsHexColor(hex: string) {
    var n := NormalizeHex(hex);
    |n| >= 6 && IsHexString(n[..6])
  }

  /** hexToRGB: normalise, then read channels at offsets 0, 2 and 4. */
  function HexToRGB(hex: string): (c: Rgb)
    requires IsHexColor(hex)
    ensures InGamut(c)
  {
    var n := NormalizeHex(hex);
    assert forall i :: 0 <= i < 6 ==> n[i] == n[..6][i];
    Rgb(HexToInt(n, 0), HexToInt(n, 2), HexToInt(n, 4))
  }

  /** Round trip: encoding a colour in gamut and decoding it gives it back. */
  lemma RgbHexRoundTrip(r: nat, g: nat, b: nat)
    requires r < 256 && g < 256 && b < 256
    ensures IsHexColor(RgbToHex(r, g, b))
    ensures HexToRGB(RgbToHex(r, g, b)) == Rgb(r, g, b)
  {
    var hex := RgbToHex(r, g, b);
    RgbToHexShape(r, g, b);
    NormalizeHexIdempotent(PadHex(ToHexString(r)) + PadHex(ToHexString(g)) + PadHex(ToHexString(b)));
    assert NormalizeHex(hex) == hex;
    assert hex[..6] == hex;
  }

  /** What rgbToHex gives for a colour in gamut: six upper-case digits that
      hexToRGB decodes back to that colour. */
  lemma EncodedColourDecodes(c: Rgb)
    requires InGamut(c)
    ensures var hex := RgbToHex(c.r, c.g, c.b);
      |hex| == 6 && IsUpperHexString(hex) && IsHexColor(hex) && HexToRGB(hex) == c
  {
    RgbToHexShape(c.r, c.g, c.b);
    RgbHexRoundTrip(c.r, c.g, c.b);
  }

  /** Two base-16 digit pairs with the same value are the same pair. */
  lemma DigitPairUnique(a: nat, b: nat, c: nat, d: nat)
    requires a < 16 && b < 16 && c < 16 && d < 16
    requires 16 * a + b == 16 * c + d
    ensures a == c && b == d
  {
  }

  /** Upper-case digit pairs of equal value at index i are equal pairs. */
  lemma SamePairAt(x: string, y: string, i: nat)
    requires i + 2 <= |x| && i + 2 <= |y| && IsUpperHexString(x) && IsUpperHexString(y)
    requires 16 * DigitValue(x[i]) + DigitValue(x[i + 1]) == 16 * DigitValue(y[i]) + DigitValue(y[i + 1])
    ensures x[i] == y[i] && x[i + 1] == y[i + 1]
  {
    var a, b, c, d := x[i], x[i + 1], y[i], y[i + 1];
    assert IsHexDigit(a) && !IsLowerAscii(a) && IsHexDigit(c) && !IsLowerAscii(c);
    assert IsHexDigit(b) && !IsLowerAscii(b) && IsHexDigit(d) && !IsLowerAscii(d);
    DigitPairUnique(DigitValue(a), DigitValue(b), DigitValue(c), DigitValue(d));
    DigitValueInjective(a, c);
    DigitValueInjective(b, d);
  }

  /** Six upper-case digits are determined by the three values they read as. */
  lemma SameColourDigits(x: string, y: string)
    requires |x| == 6 && |y| == 6 && IsUpperHexString(x) && IsUpperHexString(y)
    requires 16 * DigitValue(x[0]) + DigitValue(x[1]) == 16 * DigitValue(y[0]) + DigitValue(y[1])
    requires 16 * DigitValue(x[2]) + DigitValue(x[3]) == 16 * DigitValue(y[2]) + DigitValue(y[3])
    requires 16 * DigitValue(x[4]) + DigitValue(x[5]) == 16 * DigitValue(y[4]) + DigitValue(y[5])
    ensures x == y
  {
    SamePairAt(x, y, 0);
    SamePairAt(x, y, 2);
    SamePairAt(x, y, 4);
    assert forall i :: 0 <= i < 6 ==> x[i] == y[i];
  }

  /** Round trip the other way: a six-digit colour (with or without '#', any
      case) decodes and re-encodes to its normalised form. */
  lemma HexRgbRoundTrip(hex: string)
    requires |NormalizeHex(hex)| == 6 && IsHexString(NormalizeHex(hex))
    ensures IsHexColor(hex)
    ensures var c := HexToRGB(hex); RgbToHex(c.r, c.g, c.b) == NormalizeHex(hex)
  {
    var n := NormalizeHex(hex);
    assert n[..6] == n;
    assert IsUpperHexString(n) by {
      forall i | 0 <= i < |n| ensures !IsLowerAscii(n[i]) {
        assert n[i] == Upper(StripHash(hex)[i]);
      }
    }
    var c := HexToRGB(hex);
    RgbToHexShape(c.r, c.g, c.b);
    SameColourDigits(RgbToHex(c.r, c.g, c.b), n);
  }
}
