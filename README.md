# tocolor in Dafny

A model of `tocolor`'s colour converter (`src/index.js`). The library converts
colours between three notations:

- six-digit hex strings such as `#FF0000`,
- RGB triples of integer channels,
- HSL triples of integer hue degrees and saturation/lightness percentages.

It also dispatches a CSS-like `rgb(…)` / `hsl(…)` / hex string to a hex string.
Every exported function is pure, so the model is functions and lemmas
throughout.

Modules, one per part of the converter:

- `ColorUtils` (`utils.dfy`): the three helpers the converter imports from
  `./lib/utils`.
  - `max` and `min` of three.
  - `normalizeHex`: strip one leading `#`, then upper-case.
  - The `Option`/`Result` wrappers.
- `ColorTypes` (`types.dfy`): the `Rgb` and `Hsl` records.
- `HexCodec` (`hex.dfy`): `padHex`, `rgbToHex`, `hexToInt`, `hexToRGB`.
  - Also `Number.prototype.toString(16)` and `parseInt(_, 16)` on the inputs these use.
- `ColorSpace` (`colorspace.dfy`): `rgbToHSL`, `hslToRGB`, `toRGBIndex`, `hslToHex`,
  `hexToHSL`.
  - Arithmetic is exact `real` arithmetic.
  - `Math.floor` and `Math.ceil` are applied explicitly.
  - JavaScript's `%` is modelled as a remainder truncated toward zero (`JsRem`).
- `ColorParse` (`parse.dfy`): `parseToHex`.
  - The two regular expressions are item patterns: a literal character, `\s*`,
    `(\d+)` and `%*`.
  - A greedy anchored matcher recognises them.
  - It is proved complete for both patterns: every way of splitting a string
    by the pattern is the split the matcher finds.
- `ColorFixtures` (`fixtures.dfy`): the sixteen reference colours of the test
  suite, proved to agree under all six conversions, plus concrete `parseToHex`
  cases.

How some source behaviour is modelled:

- `hslToRGB` returns `Option<Rgb>`. `None` stands for the result JavaScript
  produces when the hue point's sector is outside [0, 6): every temporary stays
  `undefined` and every channel becomes `NaN`.
  - `hslToHex` then formats three `NaN`s, which normalise to `"NANNANNAN"`.
  - This case covers h = 360, h < 0 and h >= 720.
- `normalizeHex` is in a module that is not part of this model. It is modelled
  as "strip one optional `#`, fold ASCII letters to upper case". The direction
  of the case folding is an assumption. The converter's tests normalise both
  sides of each comparison (tests/index.test.js:152, 161), so they do not
  settle it. See "## Left out".

Where the code and a plain reading of its design differ, the model follows the
code:

- **h = 360 is not the same as h = 0.** The guard `h > 360` sends 360 to sector
  6, which matches no row, so `hslToRGB(360, s, l)` has `NaN` channels
  (`HslToRGBUndefinedAt360`, `HueAt360`).
- **Short hex strings pass through.** `parseToHex` accepts any string that
  matches neither pattern and normalises to six UTF-16 code units or fewer
  (JavaScript's `.length`, where a character above U+FFFF counts twice). It does not
  check that those characters are hex digits, so `red` gives `RED`
  (`ParseToHexHexBranch`, `ParseNameExample`).
- **The RGB/HSL round trip is not exact in either direction.** Channels are
  rounded up and percentages rounded down, so information is lost on the way.
  `rgb(1, 1, 1)` gives `hsl(0, 0, 0)`, which gives `rgb(0, 0, 0)`
  (`RgbHslRgbNotExact`). `hsl(0, 1, 1)` gives `rgb(3, 3, 3)`, which gives
  `hsl(0, 0, 1)` and loses the saturation (`HslRgbHslNotExact`). Neither value
  is near a rounding boundary, so this is not an effect of computing over exact
  reals. Exact HSL→RGB→HSL round trips are proved
  only for greys (`GreyRoundTrip`) and for pure hues at 60 k degrees with
  lightness in [1, 50] (`PureHueRoundTrip`).
- **Every returned hex string is normalised.** Under the upper-case assumption
  above, that makes it upper case.

## Model

| member | source | states |
|---|---|---|
| ColorUtils.NormalizeHex | src/index.js:31 | no contract of its own: NormalizeHexShape and NormalizeHexIdempotent state what it does |
| ColorUtils.Max3 | src/index.js:123 | the result is one of the three inputs and no smaller than any of them |
| ColorUtils.Min3 | src/index.js:122 | the result is one of the three inputs and no larger than any of them |
| ColorUtils.NormalizeHexShape | src/index.js:31 | normalising drops exactly one leading `#` (and nothing else), and every remaining character is upper-cased in place |
| ColorUtils.NormalizeHexIdempotent | tests/index.test.js:152 | normalising a normalised string (one that does not start with `#`) changes nothing |
| ColorUtils.UpperStringAppend | src/index.js:31 | upper-casing the concatenated channel texts equals concatenating their upper-cased texts |
| HexCodec.HexValue | src/index.js:192 | `parseInt(_, 16)` on hex digits; no contract of its own. HexValueTwo gives its two-digit reading, and ToHexString and PadHex are stated through it |
| HexCodec.DigitValue | src/index.js:192 | a hex digit's value is below 16; decimal digits read as themselves and letters as 10 or more |
| HexCodec.DigitValueInjective | src/index.js:192 | among hex digits that are not lower case, equal values mean equal digits |
| HexCodec.HexValueTwo | src/index.js:192 | a two-digit string reads as 16 times its first digit plus its second |
| HexCodec.HexValueLeadingZero | src/index.js:3 | a leading `0` does not change the value `parseInt(_, 16)` reads |
| HexCodec.ToHexString | src/index.js:28-30 | `toString(16)` is a non-empty run of lower-case hex digits that reads back as the number, has no leading zero, and is one digit exactly below 16 and at most two below 256 |
| HexCodec.PadHex | src/index.js:3 | padding keeps the value; below 16 it prepends exactly one `0`, otherwise it leaves the text unchanged |
| HexCodec.ChannelText | src/index.js:28-31 | a channel in [0, 255] is written as two upper-case hex digits that read back as the channel |
| HexCodec.RgbToHex | src/index.js:27-32 | no contract of its own: RgbToHexChannels, RgbToHexShape, RgbHexRoundTrip and HexRgbRoundTrip state it. In gamut it writes each channel as two upper-case digits in order, and hexToRGB inverts it |
| HexCodec.RgbToHexChannels | src/index.js:27-32 | for channels in [0, 255] the result is the three channel texts in red-green-blue order |
| HexCodec.RgbToHexShape | src/index.js:27-32 | for channels in [0, 255] the result is six upper-case hex digits whose pairs read as r, g and b |
| HexCodec.HexToInt | src/index.js:191-193 | the pair at the index reads as 16 times the first digit plus the second, and lies in [0, 255] |
| HexCodec.HexToRGB | src/index.js:177-183 | every decoded channel lies in [0, 255] |
| HexCodec.RgbHexRoundTrip | src/index.js:177-183 | decoding the encoding of a colour in gamut gives that colour back |
| HexCodec.EncodedColourDecodes | src/index.js:27-32 | rgbToHex of a colour in gamut is six upper-case hex digits that decode to that colour |
| HexCodec.SameColourDigits | src/index.js:179-181 | six upper-case hex digits are determined by the three channel values read at offsets 0, 2 and 4 |
| HexCodec.HexRgbRoundTrip | src/index.js:27-32 | any six-digit hex colour, with or without `#` and in either case, re-encodes from its decoded channels to its normalised form |
| ColorSpace.Ceil | src/index.js:4 | `Math.ceil`: the least integer not below its argument |
| ColorSpace.JsRem | src/index.js:145 | `x % m` takes the sign of x, lies within (-m, m), differs from x by a whole multiple of m, and is x itself when \|x\| < m |
| ColorSpace.JsRemDetermined | src/index.js:145 | those clauses determine the remainder: any value meeting them is JsRem(x, m) |
| ColorSpace.Saturation | src/index.js:130-134 | saturation is 0 for an achromatic colour and lies in (0, 1] otherwise |
| ColorSpace.Hue | src/index.js:142-157 | the hue in sixths is 0 unless saturated; with red largest it lies in [-1, 1] and is non-negative iff green >= blue; with green largest in [1, 3]; otherwise in [3, 5] |
| ColorSpace.Degrees | src/index.js:159-163 | a hue point in [-6, 6) becomes degrees in [0, 360); a non-negative one is scaled by 60 unchanged |
| ColorSpace.RgbToHSL | src/index.js:118-170 | no contract of its own: RgbToHSLRange, RgbToHSLAchromatic, RgbToHSLHueWedge, RgbToHSLCorner, GreyRoundTrip and PureHueRoundTrip state it |
| ColorSpace.RgbToHSLRange | src/index.js:118-170 | for channels in [0, 255]: hue in [0, 360), saturation and lightness in [0, 100] |
| ColorSpace.RgbToHSLAchromatic | src/index.js:130-140 | r = g = b = v gives hue 0, saturation 0 and lightness floor(100 v / 255) |
| ColorSpace.RgbToHSLHueWedge | src/index.js:142-163 | the hue lies in the wedges of the largest channel, ties going to red, then green |
| ColorSpace.FullSaturation | src/index.js:133 | a colour whose smallest channel is 0 and largest is positive has saturation 1 |
| ColorSpace.CornerHue | src/index.js:143-159 | a primary or secondary colour k has hue exactly 60 k degrees |
| ColorSpace.RgbToHSLCorner | src/index.js:118-170 | a cube corner lit at v has HSL (60 k, 100, floor(100 v / 510)) |
| ColorSpace.Fraction | src/index.js:54-55 | a percentage above 100 is clamped to 1, otherwise divided by 100; non-negative percentages give [0, 1] |
| ColorSpace.HuePoint | src/index.js:57 | the hue point lies in the sector table's range [0, 6) exactly for hues in [0, 360) and (360, 720), and its floor is the hue's 60-degree wedge, counted after one turn is taken off hues above 360 |
| ColorSpace.Chroma | src/index.js:56 | for lightness and saturation in [0, 1] the chroma lies in [0, 1 - \|2L - 1\|] |
| ColorSpace.SecondaryChroma | src/index.js:58 | for a non-negative hue point the secondary chroma lies between 0 and the chroma |
| ColorSpace.SectorParity | src/index.js:58 | JavaScript's `k % 2` on sector numbers is 0 for even and 1 for odd sectors |
| ColorSpace.SectorTemps | src/index.js:65-102 | a row of the sector table fires exactly when the sector is in [0, 6) |
| ColorSpace.Channels | src/index.js:59-108 | channels are defined exactly when the hue point lies in [0, 6) |
| ColorSpace.HslToRGB | src/index.js:53-109 | the result is defined exactly for hues in [0, 360) and (360, 720) |
| ColorSpace.HslToRGBUndefinedAt360 | src/index.js:57-66 | hue 360 matches no sector, while hue 0 does |
| ColorSpace.HslToRGBClamps | src/index.js:54-55 | saturation or lightness above 100 behaves exactly like 100 |
| ColorSpace.HslToRGBHueWrap | src/index.js:57 | a hue in (360, 720) behaves exactly like the hue one turn lower |
| ColorSpace.ToRGBIndex | src/index.js:4 | no contract of its own: IndexInGamut bounds it, and HslToRGBPureHue and HslToRGBGrey give its value on pure hues and greys |
| ColorSpace.IndexInGamut | src/index.js:4 | toRGBIndex of a temporary between 0 and the chroma, lifted by L - C/2, lies in [0, 255] |
| ColorSpace.HslToRGBInGamut | src/index.js:104-108 | with non-negative saturation and lightness, every defined channel lies in [0, 255] |
| ColorSpace.HslToRGBSectorOrder | src/index.js:65-102 | within each sector the channel given the chroma is largest and the channel given 0 smallest, in the table's order |
| ColorSpace.HslToRGBPureHue | src/index.js:53-109 | full saturation at 60 k degrees with lightness up to 50 lights corner k at ceil(255 l / 50) |
| ColorSpace.HslToRGBGrey | src/index.js:56-108 | zero saturation gives a grey of ceil(255 l / 100) on every channel (255 above 100) |
| ColorSpace.GreyRoundTrip | src/index.js:53-170 | an HSL grey converted to RGB and back keeps its lightness, with hue reported as 0 |
| ColorSpace.PureHueRoundTrip | src/index.js:53-170 | a pure hue at 60 k degrees with lightness in [1, 50] converts to RGB and back unchanged |
| ColorSpace.RgbHslRgbNotExact | src/index.js:4-170 | RGB to HSL to RGB is not exact: rgb(1, 1, 1) has lightness 0 and comes back as black |
| ColorSpace.HslRgbHslNotExact | src/index.js:4-170 | HSL to RGB to HSL is not exact: hsl(0, 1, 1) rounds up to the grey rgb(3, 3, 3) and comes back with saturation 0 |
| ColorSpace.HslToHex | src/index.js:41-44 | no contract of its own: HslToHexDecodes and HslToHexUndefined state it on both outcomes of hslToRGB |
| ColorSpace.HslToHexDecodes | src/index.js:41-44 | when hslToRGB is defined, hslToHex is six upper-case hex digits that decode to hslToRGB's colour |
| ColorSpace.HslToHexUndefined | src/index.js:41-44 | when hslToRGB has no sector, hslToHex is the text of three NaN channels |
| ColorSpace.HexToHSL | src/index.js:199-202 | no contract of its own: HexToHSLRange bounds it, and the colour fixtures give its value on the reference colours |
| ColorSpace.HexToHSLRange | src/index.js:199-202 | every hex colour maps to hue in [0, 360) and saturation and lightness in [0, 100] |
| ColorParse.IsSpace | src/index.js:211 | the characters JavaScript's `\s` accepts; a predicate used by the `\s*` items of both patterns |
| ColorParse.DecimalValue | src/index.js:219-221 | `parseInt(_, 10)` on a run of decimal digits; no contract of its own. Digits255, Digits100, Digits50 and Digits0 give its values at the fixtures |
| ColorParse.RgbCaptures | src/index.js:219-221 | the decimal values of the three digit groups of an rgb match; no contract of its own. ParseToHexRgb uses it |
| ColorParse.HslCaptures | src/index.js:231-233 | the decimal values of the three digit groups of an hsl match; no contract of its own. ParseToHexHsl uses it |
| ColorParse.ParseToHex | src/index.js:210-246 | no contract of its own: ParseToHexRgb, ParseToHexHsl and ParseToHexHexBranch state all three branches |
| ColorParse.Span | src/index.js:211 | the longest run of the item's class at the start of the string |
| ColorParse.PieceLength | src/index.js:211 | what the greedy matcher gives an item fits that item |
| ColorParse.MatchFrom | src/index.js:211-212 | an anchored match is a split of the whole string that fits the pattern item by item |
| ColorParse.MatchFromComplete | src/index.js:211-212 | for a pattern with no backtracking, every split that fits it is the match found |
| ColorParse.RgbPatternGuarded | src/index.js:211 | the rgb pattern never needs backtracking: each run is followed by a class it cannot extend into |
| ColorParse.HslPatternGuarded | src/index.js:212 | the hsl pattern never needs backtracking |
| ColorParse.MatchFromHead | src/index.js:215-227 | a pattern that starts with a literal only matches strings that start with it, so `hsl(` strings fail the rgb pattern |
| ColorParse.ParseToHexRgb | src/index.js:215-226 | every string of the rgb form converts to rgbToHex of its three decimal captures |
| ColorParse.ParseToHexHsl | src/index.js:227-238 | every string of the hsl form converts to hslToHex of its three decimal captures |
| ColorParse.Utf16Length | src/index.js:241 | `.length` counts UTF-16 code units: between one and two per character, exactly one each when no character is above U+FFFF, and exactly two each when all are |
| ColorParse.ParseToHexHexBranch | src/index.js:239-245 | every string that matches neither pattern is normalised, and fails exactly when that leaves more than six UTF-16 code units |
| ColorParse.ParseToHexOtherLead | src/index.js:239-245 | a string that starts with neither `r` nor `h` matches neither pattern, so it takes the hex branch |
| ColorParse.RgbFormLead | src/index.js:211 | every string of the rgb form starts with `rg` |
| ColorParse.HslFormLead | src/index.js:212 | every string of the hsl form starts with `hs` |
| ColorParse.ParseToHexRgbDecodes | src/index.js:215-222 | an rgb string with captures in [0, 255] gives six hex digits that decode back to the captures |
| ColorFixtures.HashedDigits | tests/index.test.js:34 | normalising `#` plus upper-case digits gives the digits |
| ColorFixtures.AgreesFromPrimitives | tests/index.test.js:115-174 | once RGB/HSL agree and rgbToHex writes the digits, all six conversion tests agree |
| ColorFixtures.BlackAgrees | tests/index.test.js:33-36 | black agrees under all six conversions |
| ColorFixtures.WhiteAgrees | tests/index.test.js:38-41 | white agrees under all six conversions |
| ColorFixtures.RedAgrees | tests/index.test.js:43-46 | red agrees under all six conversions |
| ColorFixtures.LimeAgrees | tests/index.test.js:48-51 | lime agrees under all six conversions |
| ColorFixtures.BlueAgrees | tests/index.test.js:53-56 | blue agrees under all six conversions |
| ColorFixtures.YellowAgrees | tests/index.test.js:58-61 | yellow agrees under all six conversions |
| ColorFixtures.CyanAgrees | tests/index.test.js:63-66 | cyan agrees under all six conversions |
| ColorFixtures.MagentaAgrees | tests/index.test.js:68-71 | magenta agrees under all six conversions |
| ColorFixtures.SilverAgrees | tests/index.test.js:73-76 | silver agrees under all six conversions |
| ColorFixtures.GrayAgrees | tests/index.test.js:78-81 | gray agrees under all six conversions |
| ColorFixtures.MaroonAgrees | tests/index.test.js:83-86 | maroon agrees under all six conversions |
| ColorFixtures.OliveAgrees | tests/index.test.js:88-91 | olive agrees under all six conversions |
| ColorFixtures.GreenAgrees | tests/index.test.js:93-96 | green agrees under all six conversions |
| ColorFixtures.PurpleAgrees | tests/index.test.js:98-101 | purple agrees under all six conversions |
| ColorFixtures.TealAgrees | tests/index.test.js:103-106 | teal agrees under all six conversions |
| ColorFixtures.NavyAgrees | tests/index.test.js:108-111 | navy agrees under all six conversions |
| ColorFixtures.ParseRgbExample | src/index.js:215-226 | `rgb(255, 0, 0)` parses to `FF0000` |
| ColorFixtures.ParseHslExample | src/index.js:227-238 | `hsl(0, 100%, 50%)` parses to `FF0000` |
| ColorFixtures.ParseHexExamples | src/index.js:239-245 | `#ff0000` parses to `FF0000`, and `FF00FF00` is rejected as an invalid hex string |
| ColorFixtures.ParseNameExample | src/index.js:239-245 | `red` matches neither pattern and comes back as `RED` |
| ColorFixtures.ParseAstralExample | src/index.js:241 | four U+1F600 characters are eight UTF-16 code units, so the hex branch rejects them |
| ColorFixtures.HueAt360 | src/index.js:57-102 | hslToHex(360, 100, 50) formats three NaN channels |

## Left out

- `./lib/utils` is not part of this model. `max`, `min` and `normalizeHex` are
  modelled only from how the converter uses them.
- IEEE-754 doubles are not modelled. All arithmetic is exact over `real`, so
  results computed near a floor or ceiling boundary may differ from JavaScript's.
  The sixteen reference colours are proved under the exact model.
- HexCodec.RgbToHex: says nothing about channels above 255 (more than two digits
  each) or about negative and non-integer channels. `toString(16)` of those (a
  `-` sign, a fraction) is not modelled; channels are `nat`.
- HexCodec.HexToRGB: requires six hex digits after normalisation. `parseInt`'s
  `NaN` for non-hex or missing characters is not modelled.
- HexCodec.HexToInt: requires two hex digits at the index, for the same reason.
- ColorUtils.NormalizeHex: folds to upper case by assumption. `./lib/utils` is
  not part of this model, and nothing in the converter or its tests fixes the
  direction of the folding. The examples that name an output case depend on
  it: ParseRgbExample, ParseHslExample, ParseHexExamples and ParseNameExample
  (`FF0000`, `RED`), and HslToHexUndefined and HueAt360 (`NANNANNAN`).
- ColorSpace.HexToHSL: requires six hex digits after normalisation, as hexToRGB does.
- ColorSpace.RgbToHSL: requires channels in [0, 255]. Out-of-range channels, for which the
  saturation denominator 1 - |2L - 1| can be zero or negative, are not modelled.
- ColorSpace.HslToHex: requires non-negative saturation and lightness. Negative
  ones can give negative channels, and their `toString(16)` is not modelled.
- ColorParse.DecimalValue: `parseInt(_, 10)` is exact on any digit run. Its loss
  of precision above 2^53 is not modelled.
- The `Invalid RGB String` and `Invalid HSL String` throws (src/index.js:223-225,
  235-237) are not modelled. They cannot happen once the regular expression has
  matched, because a match always has its three groups.
- The JavaScript regular-expression engine itself (UTF-16 code units, `lastIndex`,
  general backtracking) is not modelled. Only the two fixed patterns are
  modelled, with a matcher proved complete for them.
- Strings are sequences of Unicode scalar values, so a JavaScript string holding
  an unpaired surrogate (such as `"\uD83D"`) cannot be given to `parseToHex`.
  src/index.js:241 would count such a unit once.
- Case folding beyond ASCII letters is not modelled. A `#` is the only prefix
  that is stripped.
- The test harness (uvu) is not modelled. Only its fixture values are used, as
  lemmas.
