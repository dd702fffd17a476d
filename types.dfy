/** The two value shapes the converter passes around: an RGB triple of
    integer channels and an HSL triple of integer degrees and percentages. */
module ColorTypes {

  /** Red, green and blue channels; meaningful in [0, 255]. */
  datatype Rgb = Rgb(r: int, g: int, b: int)

  /** Hue in degrees, saturation and lightness in percent. */
  datatype Hsl = Hsl(h: int, s: int, l: int)

  predicate IsChannel(v: int) { 0 <= v <= 255 }

  predicate InGamut(c: Rgb) { IsChannel(c.r) && IsChannel(c.g) && IsChannel(c.b) }
}
