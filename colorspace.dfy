/** RGB to HSL and HSL to RGB conversion, and the two compositions with the
    hex codec (hslToHex, hexToHSL). Arithmetic is exact: every input is an
    integer and every division is by 255, 100, 60 or a non-zero chroma, so
    the model works over `real` and applies Math.floor / Math.ceil
    explicitly. */
module ColorSpace {
  import opened ColorUtils
  import opened ColorTypes
  import opened HexCodec

  function Abs(x: real): (a: real)
    ensures a >= 0.0 && (a == x || a == -x)
  {
    if x < 0.0 then -x else x
  }

  /** Math.ceil */
  function Ceil(x: real): (c: int)
    ensures c as real - 1.0 < x <= c as real
  {
    -((-x).Floor)
  }

  lemma CeilMonotone(x: real, y: real)
    requires x <= y
    ensures Ceil(x) <= Ceil(y)
  {
  }

  /** Integer part rounded toward zero. */
  function Trunc(x: real): (t: int)
    ensures 0.0 <= x ==> t == x.Floor
    ensures x < 0.0 ==> t == -((-x).Floor)
  {
    if x >= 0.0 then x.Floor else -((-x).Floor)
  }

  lemma MulNonNegative(a: real, b: real)
    requires 0.0 <= a && 0.0 <= b
    ensures 0.0 <= a * b
  {
  }

  /** Scaling by a factor in [0, 1] stays between 0 and the scaled value. */
  lemma MulFraction(v: real, m: real, f: real)
    requires 0.0 <= m && 0.0 <= f <= 1.0 && v == m * f
    ensures 0.0 <= v <= m
  {
    MulNonNegative(m, f);
    MulNonNegative(m, 1.0 - f);
  }

  /** A factor whose product with a positive number is positive is positive. */
  lemma PositiveFactor(a: real, d: real, p: real)
    requires d > 0.0 && a * d == p && p > 0.0
    ensures a > 0.0
  {
  }

  /** Sign and size of a quotient by a positive denominator. */
  lemma QuotientBounds(x: real, d: real)
    requires d > 0.0
    ensures (x / d) * d == x
    ensures 0.0 <= x ==> 0.0 <= x / d
    ensures x < 0.0 ==> x / d < 0.0
    ensures x < d ==> x / d < 1.0
    ensures -d < x ==> -1.0 < x / d
    ensures -d <= x <= d ==> -1.0 <= x / d <= 1.0
  {
    var q := x / d;
    assert q * d == x;
    assert (1.0 - q) * d == d - x;
    assert (q + 1.0) * d == x + d;
    if x < d {
      PositiveFactor(1.0 - q, d, d - x);
    }
    if -d < x {
      PositiveFactor(q + 1.0, d, x + d);
    }
  }

  lemma Distributes(m: real, a: real, b: real)
    ensures m * (a - b) == m * a - m * b
  {
  }

  /** Taking m times the floor of x / m away from x leaves a value in [0, m). */
  lemma FlooredRemainder(x: real, m: real, t: int)
    requires m > 0.0 && t == (x / m).Floor
    ensures 0.0 <= x - m * t as real < m
  {
    var q, s := x / m, t as real;
    QuotientBounds(x, m);
    Distributes(m, q, s);
    ScaledBelow(x - m * s, m, q - s);
  }

  /** A value equal to m > 0 times a fraction in [0, 1) lies in [0, m). */
  lemma ScaledBelow(v: real, m: real, f: real)
    requires m > 0.0 && 0.0 <= f < 1.0 && v == m * f
    ensures 0.0 <= v < m
  {
    MulNonNegative(m, f);
    assert m * (1.0 - f) > 0.0;
  }

  /** The truncated remainder of a non-negative dividend lies in [0, m). */
  lemma RemainderOfNonNegative(x: real, m: real)
    requires m > 0.0 && 0.0 <= x
    ensures var rem := x - m * Trunc(x / m) as real;
      0.0 <= rem < m && (x < m ==> rem == x)
  {
    QuotientBounds(x, m);
    FlooredRemainder(x, m, Trunc(x / m));
    if x < m {
      assert Trunc(x / m) == 0;
    }
  }

  /** The truncated remainder of a negative dividend lies in (-m, 0]. */
  lemma RemainderOfNegative(x: real, m: real)
    requires m > 0.0 && x < 0.0
    ensures var rem := x - m * Trunc(x / m) as real;
      -m < rem <= 0.0 && (-m < x ==> rem == x)
  {
    QuotientBounds(x, m);
    QuotientBounds(-x, m);
    assert -x / m == -(x / m);
    var t := Trunc(x / m);
    FlooredRemainder(-x, m, -t);
    assert x - m * t as real == -(-x - m * (-t) as real);
    if -m < x {
      assert t == 0;
    }
  }

  /** JavaScript's `x % m` for a positive modulus: the remainder of a
      division truncated toward zero. It takes the sign of x and differs
      from x by a whole multiple of m, which together pin it down. */
  function JsRem(x: real, m: real): (rem: real)
    requires m > 0.0
    ensures 0.0 <= x ==> 0.0 <= rem < m
    ensures x < 0.0 ==> -m < rem <= 0.0
    ensures -m < x < m ==> rem == x
    ensures ((x - rem) / m).Floor as real == (x - rem) / m
  {
    var t := Trunc(x / m);
    if x >= 0.0 then
      RemainderOfNonNegative(x, m);
      WholeQuotient(m, t);
      x - m * t as real
    else
      RemainderOfNegative(x, m);
      WholeQuotient(m, t);
      x - m * t as real
  }

  /** The clauses of JsRem determine it: any value with the sign of x, less
      than m in size and a whole multiple of m away from x is JsRem(x, m). */
  lemma JsRemDetermined(x: real, m: real, rem: real)
    requires m > 0.0
    requires 0.0 <= x ==> 0.0 <= rem < m
    requires x < 0.0 ==> -m < rem <= 0.0
    requires ((x - rem) / m).Floor as real == (x - rem) / m
    ensures rem == JsRem(x, m)
  {
    SameRemainder(x, m, rem, JsRem(x, m));
  }

  /** Two remainders of x with the sign of x, each a whole multiple of m
      away from x, are equal. */
  lemma SameRemainder(x: real, m: real, r1: real, r2: real)
    requires m > 0.0
    requires 0.0 <= x ==> 0.0 <= r1 < m && 0.0 <= r2 < m
    requires x < 0.0 ==> -m < r1 <= 0.0 && -m < r2 <= 0.0
    requires ((x - r1) / m).Floor as real == (x - r1) / m
    requires ((x - r2) / m).Floor as real == (x - r2) / m
    ensures r1 == r2
  {
    var q1, q2 := (x - r1) / m, (x - r2) / m;
    QuotientBounds(x - r1, m);
    QuotientBounds(x - r2, m);
    assert r1 == x - q1 * m && r2 == x - q2 * m;
    Distributes(m, q2, q1);
    assert r1 - r2 == m * (q2 - q1);
    MultipleBelow(m, q2.Floor - q1.Floor, r1 - r2);
  }

  /** The only whole multiple of m strictly between -m and m is 0. */
  lemma MultipleBelow(m: real, k: int, v: real)
    requires m > 0.0 && v == m * k as real && -m < v < m
    ensures k == 0
  {
    if k >= 1 {
      MulNonNegative(m, (k - 1) as real);
    } else if k <= -1 {
      MulNonNegative(m, (-k - 1) as real);
    }
  }

  /** A whole multiple of m divided by m is that whole number. */
  lemma WholeQuotient(m: real, t: int)
    requires m > 0.0
    ensures (m * t as real) / m == t as real
  {
  }

  // ---------------------------------------------------------------------
  // rgbToHSL
  // ---------------------------------------------------------------------

  /** The saturation of a colour whose scaled channels range from cmin to
      cmax: 0 when they are equal, otherwise delta / (1 - |2L - 1|). */
  function Saturation(cmin: real, cmax: real): (sat: real)
    requires 0.0 <= cmin <= cmax <= 1.0
    ensures cmin == cmax ==> sat == 0.0
    ensures cmin < cmax ==> 0.0 < sat <= 1.0
  {
    var delta := cmax - cmin;
    var lum := (cmax + cmin) / 2.0;
    if delta == 0.0 then 0.0
    else
      var den := 1.0 - Abs(2.0 * lum - 1.0);
      assert 0.0 < delta <= den;
      QuotientBounds(delta, den);
      delta / den
  }

  /** The hue in sixths of a turn before it is scaled to degrees: 0 unless
      the saturation is positive, otherwise the formula of the channel that
      equals the maximum, red checked first, then green, then blue. */
  function Hue(pr: real, pg: real, pb: real, sat: real): (hue: real)
    requires 0.0 <= pr <= 1.0 && 0.0 <= pg <= 1.0 && 0.0 <= pb <= 1.0
    requires sat > 0.0 ==> Min3(pr, pg, pb) < Max3(pr, pg, pb)
    ensures sat <= 0.0 ==> hue == 0.0
    ensures sat > 0.0 && Max3(pr, pg, pb) == pr ==>
      -1.0 <= hue <= 1.0 && (0.0 <= hue <==> pb <= pg)
    ensures sat > 0.0 && Max3(pr, pg, pb) != pr && Max3(pr, pg, pb) == pg ==> 1.0 <= hue <= 3.0
    ensures sat > 0.0 && Max3(pr, pg, pb) != pr && Max3(pr, pg, pb) != pg ==> 3.0 <= hue <= 5.0
  {
    var cmax := Max3(pr, pg, pb);
    var delta := cmax - Min3(pr, pg, pb);
    if sat > 0.0 then
      QuotientBounds(pg - pb, delta);
      QuotientBounds(pb - pr, delta);
      QuotientBounds(pr - pg, delta);
      assert JsRem(pg - pb, 6.0) == pg - pb;
      if cmax == pr then JsRem(pg - pb, 6.0) / delta
      else if cmax == pg then 2.0 + (pb - pr) / delta
      else 4.0 + (pr - pg) / delta
    else 0.0
  }

  /** The hue in degrees: scaled by 60 and moved up a turn when negative. */
  function Degrees(hue: real): (deg: real)
    ensures -6.0 <= hue < 6.0 ==> 0.0 <= deg < 360.0
    ensures 0.0 <= hue ==> deg == hue * 60.0
  {
    var deg := hue * 60.0;
    if deg < 0.0 then deg + 360.0 else deg
  }

  /** rgbToHSL for channels in [0, 255]: min, max and luminance of the
      channels scaled to [0, 1], then saturation, hue in degrees and
      luminance, each times 100 (hue as is) and floored. */
  function RgbToHSL(r: int, g: int, b: int): (c: Hsl)
    requires IsChannel(r) && IsChannel(g) && IsChannel(b)
  {
    var pr, pg, pb := r as real / 255.0, g as real / 255.0, b as real / 255.0;
    var cmin := Min3(pr, pg, pb);
    var cmax := Max3(pr, pg, pb);
    var lum := (cmax + cmin) / 2.0;
    var sat := Saturation(cmin, cmax);
    Hsl(Degrees(Hue(pr, pg, pb, sat)).Floor, (sat * 100.0).Floor, (lum * 100.0).Floor)
  }

  /** For channels in [0, 255]: hue in [0, 360), saturation and lightness in
      [0, 100]. */
  lemma RgbToHSLRange(r: int, g: int, b: int)
    requires IsChannel(r) && IsChannel(g) && IsChannel(b)
    ensures var c := RgbToHSL(r, g, b);
      0 <= c.h < 360 && 0 <= c.s <= 100 && 0 <= c.l <= 100
  {
  }

  /** Achromatic colours (all channels equal) have hue 0, saturation 0 and
      lightness floor(100 v / 255). */
  lemma RgbToHSLAchromatic(v: int)
    requires IsChannel(v)
    ensures RgbToHSL(v, v, v) == Hsl(0, 0, (v as real * 100.0 / 255.0).Floor)
  {
  }

  /** The hue lands in the 60-degree wedges of the channel that is largest,
      ties going to the channel checked first (red, then green). */
  lemma RgbToHSLHueWedge(r: int, g: int, b: int)
    requires IsChannel(r) && IsChannel(g) && IsChannel(b)
    requires !(r == g == b)
    ensures var h := RgbToHSL(r, g, b).h;
      && (r >= g && r >= b && g >= b ==> 0 <= h <= 60)
      && (r >= g && r >= b && g < b ==> 300 <= h < 360)
      && (g > r && g >= b ==> 60 <= h <= 180)
      && (b > r && b > g ==> 180 <= h <= 300)
  {
  }

  /** A colour with one channel fraction 0 and the largest p > 0 is fully
      saturated. */
  lemma FullSaturation(p: real)
    requires 0.0 < p <= 1.0
    ensures Saturation(0.0, p) == 1.0
  {
    assert Abs(2.0 * ((p + 0.0) / 2.0) - 1.0) == 1.0 - p;
  }

  /** The hue of a fully saturated cube corner with lit fractions p. */
  lemma CornerHue(k: int, p: real)
    requires 0 <= k < 6 && 0.0 < p <= 1.0
    ensures var pr := if k == 0 || k == 1 || k == 5 then p else 0.0;
      var pg := if 1 <= k <= 3 then p else 0.0;
      var pb := if 3 <= k <= 5 then p else 0.0;
      Degrees(Hue(pr, pg, pb, 1.0)) == 60.0 * k as real
  {
    QuotientOfSelf(p);
    if k == 0 {
      HueValue(p, 0.0, 0.0, p);
      assert JsRem(0.0, 6.0) == 0.0;
    } else if k == 1 {
      HueValue(p, p, 0.0, p);
      assert JsRem(p, 6.0) == p;
    } else if k == 2 {
      HueValue(0.0, p, 0.0, p);
    } else if k == 3 {
      HueValue(0.0, p, p, p);
    } else if k == 4 {
      HueValue(0.0, 0.0, p, p);
    } else {
      HueValue(p, 0.0, p, p);
      assert JsRem(-p, 6.0) == -p;
    }
  }

  lemma QuotientOfSelf(p: real)
    requires p > 0.0
    ensures p / p == 1.0 && -p / p == -1.0 && 0.0 / p == 0.0
  {
  }

  /** The hue by whichever channel is largest, for a chromatic colour. */
  lemma HueValue(pr: real, pg: real, pb: real, delta: real)
    requires 0.0 <= pr <= 1.0 && 0.0 <= pg <= 1.0 && 0.0 <= pb <= 1.0
    requires delta == Max3(pr, pg, pb) - Min3(pr, pg, pb) && delta > 0.0
    ensures Hue(pr, pg, pb, 1.0) ==
      if Max3(pr, pg, pb) == pr then JsRem(pg - pb, 6.0) / delta
      else if Max3(pr, pg, pb) == pg then 2.0 + (pb - pr) / delta
      else 4.0 + (pr - pg) / delta
  {
  }

  /** A cube corner lit at v > 0 (a primary or secondary colour) has the hue
      60 k of that corner, full saturation and lightness floor(100 v / 510). */
  lemma RgbToHSLCorner(k: int, v: int)
    requires 0 <= k < 6 && 0 < v <= 255
    ensures var c := HueCorner(k, v);
      RgbToHSL(c.r, c.g, c.b) == Hsl(60 * k, 100, (v as real * 100.0 / 510.0).Floor)
  {
    var c := HueCorner(k, v);
    var p := v as real / 255.0;
    var pr, pg, pb := c.r as real / 255.0, c.g as real / 255.0, c.b as real / 255.0;
    assert pr == (if k == 0 || k == 1 || k == 5 then p else 0.0);
    assert pg == (if 1 <= k <= 3 then p else 0.0);
    assert pb == (if 3 <= k <= 5 then p else 0.0);
    assert Min3(pr, pg, pb) == 0.0 && Max3(pr, pg, pb) == p;
    FullSaturation(p);
    var sat := Saturation(0.0, p);
    CornerHue(k, p);
    var deg := Degrees(Hue(pr, pg, pb, sat));
    assert deg.Floor == 60 * k;
    assert (sat * 100.0).Floor == 100;
    var lum := (p + 0.0) / 2.0;
    assert lum * 100.0 == v as real * 100.0 / 510.0;
    RgbToHSLFrom(c.r, c.g, c.b, 0.0, p);
    var hsl := RgbToHSL(c.r, c.g, c.b);
    assert hsl.h == 60 * k;
    assert hsl.s == 100;
    assert hsl.l == (v as real * 100.0 / 510.0).Floor;
  }

  /** rgbToHSL once the smallest and largest scaled channels are known. */
  lemma RgbToHSLFrom(r: int, g: int, b: int, cmin: real, cmax: real)
    requires IsChannel(r) && IsChannel(g) && IsChannel(b)
    requires var pr, pg, pb := r as real / 255.0, g as real / 255.0, b as real / 255.0;
      cmin == Min3(pr, pg, pb) && cmax == Max3(pr, pg, pb)
    ensures var pr, pg, pb := r as real / 255.0, g as real / 255.0, b as real / 255.0;
      var sat := Saturation(cmin, cmax);
      RgbToHSL(r, g, b) ==
        Hsl(Degrees(Hue(pr, pg, pb, sat)).Floor, (sat * 100.0).Floor, ((cmax + cmin) / 2.0 * 100.0).Floor)
  {
  }

  // ---------------------------------------------------------------------
  // hslToRGB
  // ---------------------------------------------------------------------

  /** A percentage as a fraction, with everything above 100 taken as 1. */
  function Fraction(p: int): (f: real)
    ensures p <= 100 ==> f * 100.0 == p as real
    ensures p > 100 ==> f == 1.0
    ensures 0 <= p ==> 0.0 <= f <= 1.0
  {
    if p > 100 then 1.0 else p as real / 100.0
  }

  /** The hue in sixths of a turn; hues above 360 are shifted down once. It
      lands in the sector table's range [0, 6) exactly for hues in [0, 360)
      and (360, 720), and its sector is the hue's 60-degree wedge. */
  function HuePoint(h: int): (x: real)
    ensures (0 <= h < 360 || 360 < h < 720) <==> 0.0 <= x < 6.0
    ensures 0 <= h < 360 ==> x.Floor == h / 60
    ensures 360 < h < 720 ==> x.Floor == (h - 360) / 60
  {
    if h > 360 then (h - 360) as real / 60.0 else h as real / 60.0
  }

  /** The chroma (1 - |2L - 1|) S: for L and S in [0, 1] it lies between 0
      and 1 - |2L - 1|. */
  function Chroma(lum: real, sat: real): (chroma: real)
    ensures 0.0 <= lum <= 1.0 && 0.0 <= sat <= 1.0 ==>
      0.0 <= chroma <= 1.0 - Abs(2.0 * lum - 1.0)
  {
    var k := 1.0 - Abs(2.0 * lum - 1.0);
    if 0.0 <= lum <= 1.0 && 0.0 <= sat <= 1.0 then
      MulFraction(k * sat, k, sat);
      k * sat
    else
      k * sat
  }

  /** The secondary chroma C (1 - |(H' % 2) - 1|): between 0 and the chroma
      when the hue point is not negative. */
  function SecondaryChroma(chroma: real, hp: real): (second: real)
    ensures 0.0 <= chroma && 0.0 <= hp ==> 0.0 <= second <= chroma
  {
    var f := 1.0 - Abs(JsRem(hp, 2.0) - 1.0);
    if 0.0 <= chroma && 0.0 <= hp then
      MulFraction(chroma * f, chroma, f);
      chroma * f
    else
      chroma * f
  }

  /** toRGBIndex */
  function ToRGBIndex(temp: real, offset: real): int {
    Ceil((temp + offset) * 255.0)
  }

  /** The six-row sector table: which channel takes the chroma, which the
      secondary chroma and which 0. Sectors outside [0, 6) match no row. */
  function SectorTemps(sector: int, chroma: real, second: real): (t: Option<(real, real, real)>)
    ensures t.Some? <==> 0 <= sector < 6
  {
    if sector >= 0 && sector < 1 then Some((chroma, second, 0.0))
    else if sector >= 1 && sector < 2 then Some((second, chroma, 0.0))
    else if sector >= 2 && sector < 3 then Some((0.0, chroma, second))
    else if sector >= 3 && sector < 4 then Some((0.0, second, chroma))
    else if sector >= 4 && sector < 5 then Some((second, 0.0, chroma))
    else if sector >= 5 && sector < 6 then Some((chroma, 0.0, second))
    else None
  }

  /** The body of hslToRGB once lightness, saturation and hue point are
      fractions: look the hue point's sector up in the table and lift each
      temporary by the lightness offset L - C/2. */
  function Channels(lum: real, sat: real, hp: real): (c: Option<Rgb>)
    ensures c.Some? <==> 0.0 <= hp < 6.0
  {
    var chroma := Chroma(lum, sat);
    var second := SecondaryChroma(chroma, hp);
    var offset := lum - chroma / 2.0;
    match SectorTemps(hp.Floor, chroma, second)
    case None => None
    case Some((rt, gt, bt)) =>
      Some(Rgb(ToRGBIndex(rt, offset), ToRGBIndex(gt, offset), ToRGBIndex(bt, offset)))
  }

  /** hslToRGB. `None` stands for the result JavaScript computes when no
      sector row matches: every temporary stays undefined and every channel
      is NaN. It is defined exactly for hues in [0, 360) and (360, 720). */
  function HslToRGB(h: int, s: int, l: int): (c: Option<Rgb>)
    ensures c.Some? <==> (0 <= h < 360 || 360 < h < 720)
  {
    Channels(Fraction(l), Fraction(s), HuePoint(h))
  }

  /** The hue 360 itself matches no sector, unlike the equal hue 0. */
  lemma HslToRGBUndefinedAt360(s: int, l: int)
    ensures HslToRGB(360, s, l) == None
    ensures HslToRGB(0, s, l).Some?
  {
  }

  /** Saturation and lightness above 100 behave exactly like 100. */
  lemma HslToRGBClamps(h: int, s: int, l: int)
    ensures s > 100 ==> HslToRGB(h, s, l) == HslToRGB(h, 100, l)
    ensures l > 100 ==> HslToRGB(h, s, l) == HslToRGB(h, s, 100)
  {
  }

  /** Hues in (360, 720) behave like the same hue one turn lower. */
  lemma HslToRGBHueWrap(h: int, s: int, l: int)
    requires 360 < h < 720
    ensures HslToRGB(h, s, l) == HslToRGB(h - 360, s, l)
  {
    assert HuePoint(h) == HuePoint(h - 360);
  }

  /** A temporary between 0 and the chroma, lifted by L - C/2 and scaled,
      lands in [0, 255]. */
  lemma IndexInGamut(lum: real, sat: real, temp: real)
    requires 0.0 <= lum <= 1.0 && 0.0 <= sat <= 1.0
    requires 0.0 <= temp <= Chroma(lum, sat)
    ensures IsChannel(ToRGBIndex(temp, lum - Chroma(lum, sat) / 2.0))
  {
    var offset := lum - Chroma(lum, sat) / 2.0;
    assert 0.0 <= temp + offset <= 1.0;
  }

  /** With non-negative saturation and lightness every channel of a defined
      result lies in [0, 255]. */
  lemma HslToRGBInGamut(h: int, s: int, l: int)
    requires s >= 0 && l >= 0
    requires HslToRGB(h, s, l).Some?
    ensures InGamut(HslToRGB(h, s, l).value)
  {
    var lum, sat, hp := Fraction(l), Fraction(s), HuePoint(h);
    var chroma := Chroma(lum, sat);
    var second := SecondaryChroma(chroma, hp);
    IndexInGamut(lum, sat, chroma);
    IndexInGamut(lum, sat, second);
    IndexInGamut(lum, sat, 0.0);
  }

  /** Within each sector the channels keep the order of the table: the one
      that takes the chroma is largest and the one that takes 0 smallest. */
  lemma HslToRGBSectorOrder(h: int, s: int, l: int)
    requires s >= 0 && l >= 0
    requires HslToRGB(h, s, l).Some?
    ensures var c := HslToRGB(h, s, l).value;
      var sector := HuePoint(h).Floor;
      && (sector == 0 ==> c.r >= c.g >= c.b)
      && (sector == 1 ==> c.g >= c.r >= c.b)
      && (sector == 2 ==> c.g >= c.b >= c.r)
      && (sector == 3 ==> c.b >= c.g >= c.r)
      && (sector == 4 ==> c.b >= c.r >= c.g)
      && (sector == 5 ==> c.r >= c.b >= c.g)
  {
    var lum, sat, hp := Fraction(l), Fraction(s), HuePoint(h);
    var chroma := Chroma(lum, sat);
    var second := SecondaryChroma(chroma, hp);
    var offset := lum - chroma / 2.0;
    CeilMonotone((0.0 + offset) * 255.0, (second + offset) * 255.0);
    CeilMonotone((second + offset) * 255.0, (chroma + offset) * 255.0);
  }

  /** The corner of the colour cube that the hue 60 k degrees points to,
      with its lit channels at v. */
  function HueCorner(k: int, v: int): (c: Rgb)
    requires 0 <= k < 6
    ensures c.r == (if k == 0 || k == 1 || k == 5 then v else 0)
    ensures c.g == (if 1 <= k <= 3 then v else 0)
    ensures c.b == (if 3 <= k <= 5 then v else 0)
  {
    match k
    case 0 => Rgb(v, 0, 0)
    case 1 => Rgb(v, v, 0)
    case 2 => Rgb(0, v, 0)
    case 3 => Rgb(0, v, v)
    case 4 => Rgb(0, 0, v)
    case 5 => Rgb(v, 0, v)
  }

  /** JavaScript's `k % 2` for the sector numbers. */
  lemma SectorParity(k: int)
    requires 0 <= k < 6
    ensures JsRem(k as real, 2.0) == (if k % 2 == 0 then 0.0 else 1.0)
  {
    var q := k as real / 2.0;
    if k >= 2 {
      assert Trunc(q) == k / 2;
    }
  }

  /** Fully saturated hues at multiples of 60 degrees with lightness at most
      50 light the channels of one cube corner to ceil(255 l / 50) and leave
      the others at 0. */
  lemma HslToRGBPureHue(k: int, l: int)
    requires 0 <= k < 6 && 0 <= l <= 50
    ensures HslToRGB(60 * k, 100, l) == Some(HueCorner(k, Ceil(l as real * 255.0 / 50.0)))
  {
    var lum, sat, hp := Fraction(l), Fraction(100), HuePoint(60 * k);
    assert sat == 1.0;
    assert hp == k as real && hp.Floor == k;
    assert Abs(2.0 * lum - 1.0) == 1.0 - 2.0 * lum;
    var chroma := Chroma(lum, sat);
    assert chroma == 2.0 * lum;
    SectorParity(k);
    var second := SecondaryChroma(chroma, hp);
    assert second == (if k % 2 == 0 then 0.0 else chroma);
    var offset := lum - chroma / 2.0;
    assert offset == 0.0;
    var v := Ceil(l as real * 255.0 / 50.0);
    assert ToRGBIndex(chroma, offset) == v by {
      assert (chroma + offset) * 255.0 == l as real * 255.0 / 50.0;
    }
    assert ToRGBIndex(0.0, offset) == 0;
    assert HslToRGB(60 * k, 100, l) == Channels(lum, sat, hp);
  }

  /** Zero saturation gives a grey whose channels are ceil(255 l / 100),
      with lightness above 100 taken as 100. */
  lemma HslToRGBGrey(h: int, l: int)
    requires HslToRGB(h, 0, l).Some?
    ensures var c := HslToRGB(h, 0, l).value;
      var v := if l > 100 then 255 else Ceil(l as real * 255.0 / 100.0);
      c.r == v && c.g == v && c.b == v
  {
    assert Chroma(Fraction(l), 0.0) == 0.0;
  }

  /** Round trip for greys: converting an HSL grey to RGB and back keeps
      its lightness (the hue is reported as 0). */
  lemma GreyRoundTrip(h: int, l: int)
    requires 0 <= h < 360 && 0 <= l <= 100
    ensures HslToRGB(h, 0, l).Some?
    ensures var c := HslToRGB(h, 0, l).value;
      InGamut(c) && RgbToHSL(c.r, c.g, c.b) == Hsl(0, 0, l)
  {
    HslToRGBInGamut(h, 0, l);
    HslToRGBGrey(h, l);
    var v := Ceil(l as real * 255.0 / 100.0);
    RgbToHSLAchromatic(v);
    assert l as real <= v as real * 100.0 / 255.0 < l as real + 1.0;
  }

  /** Round trip for pure hues: a fully saturated hue at 60 k degrees with
      lightness in [1, 50] comes back unchanged from RGB. */
  lemma PureHueRoundTrip(k: int, l: int)
    requires 0 <= k < 6 && 1 <= l <= 50
    ensures HslToRGB(60 * k, 100, l).Some?
    ensures var c := HslToRGB(60 * k, 100, l).value;
      InGamut(c) && RgbToHSL(c.r, c.g, c.b) == Hsl(60 * k, 100, l)
  {
    HslToRGBPureHue(k, l);
    HslToRGBInGamut(60 * k, 100, l);
    var v := Ceil(l as real * 255.0 / 50.0);
    RgbToHSLCorner(k, v);
    assert l as real <= v as real * 100.0 / 510.0 < l as real + 1.0;
  }

  /** RGB to HSL and back is not exact: the grey rgb(1, 1, 1) has lightness
      floor(100 / 255) = 0, which converts back to black. */
  lemma RgbHslRgbNotExact()
    ensures RgbToHSL(1, 1, 1) == Hsl(0, 0, 0)
    ensures HslToRGB(0, 0, 0) == Some(Rgb(0, 0, 0))
  {
    RgbToHSLAchromatic(1);
    assert (100.0 / 255.0).Floor == 0;
    HslToRGBGrey(0, 0);
    assert Ceil(0.0) == 0;
  }

  /** HSL to RGB and back is not exact either: hsl(0, 1, 1) rounds its
      channels up to the grey rgb(3, 3, 3), whose saturation is 0. */
  lemma HslRgbHslNotExact()
    ensures HslToRGB(0, 1, 1) == Some(Rgb(3, 3, 3))
    ensures RgbToHSL(3, 3, 3) == Hsl(0, 0, 1)
  {
    var lum, sat, hp := Fraction(1), Fraction(1), HuePoint(0);
    assert lum == 0.01 && sat == 0.01 && hp == 0.0;
    var chroma := Chroma(lum, sat);
    assert chroma == 0.0002;
    assert SecondaryChroma(chroma, hp) == 0.0;
    var offset := lum - chroma / 2.0;
    assert ToRGBIndex(chroma, offset) == 3 && ToRGBIndex(0.0, offset) == 3;
    RgbToHSLAchromatic(3);
    assert (300.0 / 255.0).Floor == 1;
  }

  // ---------------------------------------------------------------------
  // Compositions
  // ---------------------------------------------------------------------

  /** hslToHex: hslToRGB, then rgbToHex. When no sector matches, JavaScript
      formats each NaN channel as "NaN", which normalisation upper-cases. */
  function HslToHex(h: int, s: int, l: int): (hex: string)
    requires s >= 0 && l >= 0
  {
    match HslToRGB(h, s, l)
    case None => NormalizeHex("NaNNaNNaN")
    case Some(c) =>
      HslToRGBInGamut(h, s, l);
      RgbToHex(c.r, c.g, c.b)
  }

  /** When hslToRGB is defined, hslToHex yields six upper-case digits that
      decode to hslToRGB's colour. */
  lemma HslToHexDecodes(h: int, s: int, l: int)
    requires s >= 0 && l >= 0 && HslToRGB(h, s, l).Some?
    ensures var hex := HslToHex(h, s, l);
      |hex| == 6 && IsUpperHexString(hex) && IsHexColor(hex)
      && HexToRGB(hex) == HslToRGB(h, s, l).value
  {
    var c := HslToRGB(h, s, l).value;
    HslToRGBInGamut(h, s, l);
    assert HslToHex(h, s, l) == RgbToHex(c.r, c.g, c.b);
    EncodedColourDecodes(c);
  }

  /** When hslToRGB has no sector, hslToHex yields the NaN text. */
  lemma HslToHexUndefined(h: int, s: int, l: int)
    requires s >= 0 && l >= 0 && HslToRGB(h, s, l).None?
    ensures HslToHex(h, s, l) == "NANNANNAN"
  {
    NaNText();
  }

  /** The text hslToHex formats for three NaN channels, once normalised. */
  lemma NaNText()
    ensures NormalizeHex("NaNNaNNaN") == "NANNANNAN"
  {
    var n := NormalizeHex("NaNNaNNaN");
    assert |n| == 9;
  }

  /** hexToHSL: hexToRGB, then rgbToHSL. */
  function HexToHSL(hex: string): (c: Hsl)
    requires IsHexColor(hex)
  {
    var rgb := HexToRGB(hex);
    RgbToHSL(rgb.r, rgb.g, rgb.b)
  }

  /** Every hex colour maps to a hue in [0, 360) and saturation and
      lightness in [0, 100]. */
  lemma HexToHSLRange(hex: string)
    requires IsHexColor(hex)
    ensures var c := HexToHSL(hex); 0 <= c.h < 360 && 0 <= c.s <= 100 && 0 <= c.l <= 100
  {
    var rgb := HexToRGB(hex);
    RgbToHSLRange(rgb.r, rgb.g, rgb.b);
  }
}
