/** The sixteen reference colours of the project's test suite, each stated
    as a hex string, an RGB triple and an HSL triple that all six
    conversions must agree on; and a few concrete parseToHex cases. */
module ColorFixtures {
  import opened ColorUtils
  import opened ColorTypes
  import opened HexCodec
  import opened ColorSpace
  import opened ColorParse

  /** A reference colour: its hex digits (written with a leading '#' in the
      tests), its RGB channels and its HSL triple. */
  datatype Fixture = Fixture(digits: string, rgb: Rgb, hsl: Hsl)

  /** What the six conversion tests check of one reference colour; hex
      results are compared after normalisation, as the tests do. */
  predicate Agrees(f: Fixture) {
    InGamut(f.rgb) && f.hsl.s >= 0 && f.hsl.l >= 0 && DecodesTo(f) && EncodesTo(f)
  }

  /** hexToRGB and hexToHSL of the hex string give the RGB and HSL triples. */
  predicate DecodesTo(f: Fixture)
    requires InGamut(f.rgb)
  {
    var hex := "#" + f.digits;
    IsHexColor(hex) && HexToRGB(hex) == f.rgb && HexToHSL(hex) == f.hsl
  }

  /** rgbToHex, rgbToHSL, hslToRGB and hslToHex give the other forms back. */
  predicate EncodesTo(f: Fixture)
    requires InGamut(f.rgb) && f.hsl.s >= 0 && f.hsl.l >= 0
  {
    var hex, c, h := "#" + f.digits, f.rgb, f.hsl;
    && HslToRGB(h.h, h.s, h.l) == Some(c)
    && NormalizeHex(HslToHex(h.h, h.s, h.l)) == NormalizeHex(hex)
    && NormalizeHex(RgbToHex(c.r, c.g, c.b)) == NormalizeHex(hex)
    && RgbToHSL(c.r, c.g, c.b) == h
  }

  /** A '#' in front of upper-case hex digits is all normalisation removes. */
  lemma HashedDigits(digits: string)
    requires IsUpperHexString(digits)
    ensures NormalizeHex("#" + digits) == digits
  {
    assert StripHash("#" + digits) == digits;
    forall i | 0 <= i < |digits| ensures UpperString(digits)[i] == digits[i] {
      assert !IsLowerAscii(digits[i]);
    }
  }

  /** The conversions between the RGB and HSL triples, computed directly. */
  predicate ChannelsAgree(f: Fixture) {
    && InGamut(f.rgb) && f.hsl.s >= 0 && f.hsl.l >= 0
    && RgbToHSL(f.rgb.r, f.rgb.g, f.rgb.b) == f.hsl
    && HslToRGB(f.hsl.h, f.hsl.s, f.hsl.l) == Some(f.rgb)
  }

  /** With the RGB/HSL conversions and rgbToHex computed directly, the other
      three follow: hex to RGB by the encode/decode round trip, hex to HSL
      and HSL to hex by composition. */
  lemma AgreesFromPrimitives(f: Fixture)
    requires ChannelsAgree(f)
    requires RgbToHex(f.rgb.r, f.rgb.g, f.rgb.b) == f.digits
    ensures Agrees(f)
  {
    var c := f.rgb;
    RgbToHexShape(c.r, c.g, c.b);
    RgbHexRoundTrip(c.r, c.g, c.b);
    HashedDigits(f.digits);
    assert NormalizeHex(f.digits) == f.digits by {
      NormalizeHexIdempotent(PadHex(ToHexString(c.r)) + PadHex(ToHexString(c.g)) + PadHex(ToHexString(c.b)));
    }
  }

  const Black := Fixture("000000", Rgb(0, 0, 0), Hsl(0, 0, 0))
  const White := Fixture("FFFFFF", Rgb(255, 255, 255), Hsl(0, 0, 100))
  const Red := Fixture("FF0000", Rgb(255, 0, 0), Hsl(0, 100, 50))
  const Lime := Fixture("00FF00", Rgb(0, 255, 0), Hsl(120, 100, 50))
  const Blue := Fixture("0000FF", Rgb(0, 0, 255), Hsl(240, 100, 50))
  const Yellow := Fixture("FFFF00", Rgb(255, 255, 0), Hsl(60, 100, 50))
  const Cyan := Fixture("00FFFF", Rgb(0, 255, 255), Hsl(180, 100, 50))
  const Magenta := Fixture("FF00FF", Rgb(255, 0, 255), Hsl(300, 100, 50))
  const Silver := Fixture("C0C0C0", Rgb(192, 192, 192), Hsl(0, 0, 75))
  const Gray := Fixture("808080", Rgb(128, 128, 128), Hsl(0, 0, 50))
  const Maroon := Fixture("800000", Rgb(128, 0, 0), Hsl(0, 100, 25))
  const Olive := Fixture("808000", Rgb(128, 128, 0), Hsl(60, 100, 25))
  const Green := Fixture("008000", Rgb(0, 128, 0), Hsl(120, 100, 25))
  const Purple := Fixture("800080", Rgb(128, 0, 128), Hsl(300, 100, 25))
  const Teal := Fixture("008080", Rgb(0, 128, 128), Hsl(180, 100, 25))
  const Navy := Fixture("000080", Rgb(0, 0, 128), Hsl(240, 100, 25))

  /** The two digits rgbToHex writes for the channel values used below. */
  lemma Text00() ensures ChannelText(0) == "00" { }
  lemma Text80() ensures ChannelText(128) == "80" { }
  lemma TextC0() ensures ChannelText(192) == "C0" { }
  lemma TextFF() ensures ChannelText(255) == "FF" { }

  /** rgbToHex writes the fixture's digits when they are its channels' texts. */
  lemma EncodesDigits(f: Fixture)
    requires InGamut(f.rgb) && f.digits == ChannelText(f.rgb.r) + ChannelText(f.rgb.g) + ChannelText(f.rgb.b)
    ensures RgbToHex(f.rgb.r, f.rgb.g, f.rgb.b) == f.digits
  {
    RgbToHexChannels(f.rgb.r, f.rgb.g, f.rgb.b);
  }

  /** Lightness 25 at full saturation lights the corner at 128. */
  lemma HalfLightness() ensures Ceil(25.0 * 255.0 / 50.0) == 128 {
    assert 25.0 * 255.0 / 50.0 == 127.5;
  }

  /** A grey of lightness l in [0, 100]: RGB all Ceil(2.55 l), HSL (0, 0, l). */
  lemma GreyChannels(f: Fixture)
    requires 0 <= f.hsl.l <= 100 && f.hsl == Hsl(0, 0, f.hsl.l)
    requires var v := Ceil(f.hsl.l as real * 255.0 / 100.0); f.rgb == Rgb(v, v, v)
    ensures ChannelsAgree(f)
  {
    GreyRoundTrip(0, f.hsl.l);
    HslToRGBGrey(0, f.hsl.l);
  }

  /** A fully saturated colour at hue 60 k with lightness l in [1, 50]: the
      cube corner k lit at Ceil(5.1 l). */
  lemma CornerChannels(f: Fixture, k: int)
    requires 0 <= k < 6 && 1 <= f.hsl.l <= 50 && f.hsl == Hsl(60 * k, 100, f.hsl.l)
    requires f.rgb == HueCorner(k, Ceil(f.hsl.l as real * 255.0 / 50.0))
    ensures ChannelsAgree(f)
  {
    HslToRGBPureHue(k, f.hsl.l);
    PureHueRoundTrip(k, f.hsl.l);
  }

  /** A grey fixture whose digits are its channels' texts agrees. */
  lemma GreyFixture(f: Fixture)
    requires 0 <= f.hsl.l <= 100 && f.hsl == Hsl(0, 0, f.hsl.l)
    requires var v := Ceil(f.hsl.l as real * 255.0 / 100.0); f.rgb == Rgb(v, v, v)
    requires InGamut(f.rgb) && f.digits == ChannelText(f.rgb.r) + ChannelText(f.rgb.g) + ChannelText(f.rgb.b)
    ensures Agrees(f)
  {
    GreyChannels(f);
    EncodesDigits(f);
    AgreesFromPrimitives(f);
  }

  /** A cube-corner fixture whose digits are its channels' texts agrees. */
  lemma CornerFixture(f: Fixture, k: int)
    requires 0 <= k < 6 && 1 <= f.hsl.l <= 50 && f.hsl == Hsl(60 * k, 100, f.hsl.l)
    requires f.rgb == HueCorner(k, Ceil(f.hsl.l as real * 255.0 / 50.0))
    requires InGamut(f.rgb) && f.digits == ChannelText(f.rgb.r) + ChannelText(f.rgb.g) + ChannelText(f.rgb.b)
    ensures Agrees(f)
  {
    CornerChannels(f, k);
    EncodesDigits(f);
    AgreesFromPrimitives(f);
  }

  lemma BlackAgrees() ensures Agrees(Black) {
    Text00();
    assert Ceil(0.0 * 255.0 / 100.0) == 0;
    GreyFixture(Black);
  }

  lemma WhiteAgrees() ensures Agrees(White) {
    TextFF();
    assert Ceil(100.0 * 255.0 / 100.0) == 255;
    GreyFixture(White);
  }

  lemma RedAgrees() ensures Agrees(Red) {
    Text00();
    TextFF();
    assert Ceil(50.0 * 255.0 / 50.0) == 255;
    CornerFixture(Red, 0);
  }

  lemma LimeAgrees() ensures Agrees(Lime) {
    Text00();
    TextFF();
    assert Ceil(50.0 * 255.0 / 50.0) == 255;
    CornerFixture(Lime, 2);
  }

  lemma BlueAgrees() ensures Agrees(Blue) {
    Text00();
    TextFF();
    assert Ceil(50.0 * 255.0 / 50.0) == 255;
    CornerFixture(Blue, 4);
  }

  lemma YellowAgrees() ensures Agrees(Yellow) {
    Text00();
    TextFF();
    assert Ceil(50.0 * 255.0 / 50.0) == 255;
    CornerFixture(Yellow, 1);
  }

  lemma CyanAgrees() ensures Agrees(Cyan) {
    Text00();
    TextFF();
    assert Ceil(50.0 * 255.0 / 50.0) == 255;
    CornerFixture(Cyan, 3);
  }

  lemma MagentaAgrees() ensures Agrees(Magenta) {
    Text00();
    TextFF();
    assert Ceil(50.0 * 255.0 / 50.0) == 255;
    CornerFixture(Magenta, 5);
  }

  lemma SilverAgrees() ensures Agrees(Silver) {
    TextC0();
    assert Ceil(75.0 * 255.0 / 100.0) == 192;
    GreyFixture(Silver);
  }

  lemma GrayAgrees() ensures Agrees(Gray) {
    Text80();
    assert Ceil(50.0 * 255.0 / 100.0) == 128;
    GreyFixture(Gray);
  }

  lemma MaroonAgrees() ensures Agrees(Maroon) {
    Text00();
    Text80();
    HalfLightness();
    CornerFixture(Maroon, 0);
  }

  lemma OliveAgrees() ensures Agrees(Olive) {
    Text00();
    Text80();
    HalfLightness();
    CornerFixture(Olive, 1);
  }

  lemma GreenAgrees() ensures Agrees(Green) {
    Text00();
    Text80();
    HalfLightness();
    CornerFixture(Green, 2);
  }

  lemma PurpleAgrees() ensures Agrees(Purple) {
    Text00();
    Text80();
    HalfLightness();
    CornerFixture(Purple, 5);
  }

  lemma TealAgrees() ensures Agrees(Teal) {
    Text00();
    Text80();
    HalfLightness();
    CornerFixture(Teal, 3);
  }

  lemma NavyAgrees() ensures Agrees(Navy) {
    Text00();
    Text80();
    HalfLightness();
    CornerFixture(Navy, 4);
  }

  /** parseInt(_, 10) of the digit strings used below. */
  lemma Digits255() ensures DecimalValue("255") == 255 {
    assert "255"[..2] == "25" && "25"[..1] == "2" && "2"[..0] == "";
  }
  lemma Digits100() ensures DecimalValue("100") == 100 {
    assert "100"[..2] == "10" && "10"[..1] == "1" && "1"[..0] == "";
  }
  lemma Digits50() ensures DecimalValue("50") == 50 {
    assert "50"[..1] == "5" && "5"[..0] == "";
  }
  lemma Digits0() ensures DecimalValue("0") == 0 {
    assert "0"[..0] == "";
  }

  /** "rgb(255, 0, 0)", split as the rgb pattern matches it. */
  const RgbRedPieces: seq<string> :=
    ["r", "g", "b", "(", "", "255", "", ",", " ", "0", "", ",", " ", "0", "", ")"]

  /** "hsl(0, 100%, 50%)", split as the hsl pattern matches it. */
  const HslRedPieces: seq<string> :=
    ["h", "s", "l", "(", "", "0", "", ",", " ", "100", "%", "", ",", " ", "50", "%", "", ")"]

  lemma RgbRedCaptures()
    ensures Matches(RgbPattern, RgbRedPieces) && RgbCaptures(RgbRedPieces) == (255, 0, 0)
  {
    assert Matches(RgbPattern, RgbRedPieces);
    Digits255();
    Digits0();
  }

  lemma HslRedCaptures()
    ensures Matches(HslPattern, HslRedPieces) && HslCaptures(HslRedPieces) == (0, 100, 50)
  {
    assert Matches(HslPattern, HslRedPieces);
    Digits100();
    Digits50();
    Digits0();
  }

  /** parseToHex of "rgb(255, 0, 0)" is red. */
  lemma ParseRgbExample()
    ensures ParseToHex(Concat(RgbRedPieces)) == Success("FF0000")
  {
    RgbRedCaptures();
    TextFF();
    Text00();
    EncodesDigits(Red);
    ParseToHexRgb(RgbRedPieces);
  }

  /** parseToHex of "hsl(0, 100%, 50%)" is red. */
  lemma ParseHslExample()
    ensures ParseToHex(Concat(HslRedPieces)) == Success("FF0000")
  {
    HslRedCaptures();
    RedHslToHex();
    ParseToHexHsl(HslRedPieces);
  }

  /** hslToHex of red's HSL triple writes red's digits. */
  lemma RedHslToHex() ensures HslToHex(Red.hsl.h, Red.hsl.s, Red.hsl.l) == Red.digits {
    TextFF();
    Text00();
    assert Ceil(50.0 * 255.0 / 50.0) == 255;
    CornerChannels(Red, 0);
    EncodesDigits(Red);
    HslToHexOfFixture(Red);
  }

  /** hslToHex is rgbToHex of hslToRGB's colour. */
  lemma HslToHexOfFixture(f: Fixture)
    requires ChannelsAgree(f)
    ensures HslToHex(f.hsl.h, f.hsl.s, f.hsl.l) == RgbToHex(f.rgb.r, f.rgb.g, f.rgb.b)
  {
  }

  /** A hex string is normalised; one of eight digits is rejected. */
  lemma ParseHexExamples()
    ensures ParseToHex("#ff0000") == Success("FF0000")
    ensures ParseToHex("FF00FF00") == Failure(InvalidHexString)
  {
    ParseHashedHex();
    ParseEightDigits();
  }

  lemma ParseHashedHex() ensures ParseToHex("#ff0000") == Success("FF0000") {
    var s := "#ff0000";
    assert NormalizeHex(s) == "FF0000" by {
      assert StripHash(s) == "ff0000";
    }
    ParseToHexOtherLead(s);
  }

  lemma ParseEightDigits() ensures ParseToHex("FF00FF00") == Failure(InvalidHexString) {
    var s := "FF00FF00";
    ParseToHexOtherLead(s);
  }

  /** A colour name that starts like `rgb` but is of neither form is taken
      as a hex string. */
  lemma ParseNameExample()
    ensures ParseToHex("red") == Success("RED")
  {
    var s := "red";
    forall ps | Matches(RgbPattern, ps) && Concat(ps) == s
      ensures false
    {
      RgbFormLead(ps);
    }
    forall ps | Matches(HslPattern, ps) && Concat(ps) == s
      ensures false
    {
      HslFormLead(ps);
    }
    ParseToHexHexBranch(s);
    assert NormalizeHex(s) == "RED";
  }

  /** Four characters above U+FFFF are eight UTF-16 code units, so the
      hex branch rejects them although they are only four characters. */
  lemma ParseAstralExample()
    ensures ParseToHex("\U{1F600}\U{1F600}\U{1F600}\U{1F600}") == Failure(InvalidHexString)
  {
    var s := "\U{1F600}\U{1F600}\U{1F600}\U{1F600}";
    assert NormalizeHex(s) == s;
    assert forall i :: 0 <= i < |s| ==> s[i] as int > 0xFFFF;
    ParseToHexOtherLead(s);
  }

  /** The hue 360 falls outside every sector, so hslToHex formats three
      NaN channels. */
  lemma HueAt360() ensures HslToHex(360, 100, 50) == "NANNANNAN" {
    HslToRGBUndefinedAt360(100, 50);
    HslToHexUndefined(360, 100, 50);
  }
}
