/**
 * The `Color` struct: four 8-bit channels, red, green, blue and alpha,
 * whose constructor makes alpha 255 (fully opaque) unless it is given.
 */
module Colors {
  /** SDL's `Uint8`. */
  newtype Uint8 = x: int | 0 <= x < 0x100

  /** The value alpha takes when the constructor is not given one. */
  const OPAQUE: Uint8 := 255

  datatype Color = Color(r: Uint8, g: Uint8, b: Uint8, a: Uint8)

  /** `Color(red, green, blue, alpha = 255)`. */
  function Rgba(red: Uint8, green: Uint8, blue: Uint8, alpha: Uint8 := OPAQUE): (c: Color)
    ensures c.r == red && c.g == green && c.b == blue && c.a == alpha
  {
    Color(red, green, blue, alpha)
  }

  /** A colour built without an alpha is fully opaque. */
  lemma RgbaDefaultAlpha(red: Uint8, green: Uint8, blue: Uint8)
    ensures Rgba(red, green, blue).a == 255
  {
  }
}
