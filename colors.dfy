/**
 * Colour values shared by the atlas canvas and the palette: four 8-bit
 * channels, red, green, blue and alpha (0 is fully transparent, 255 fully
 * opaque).
 */
module Colors {

  type Byte = x: int | 0 <= x < 256

  datatype Rgba = Rgba(R: Byte, G: Byte, B: Byte, A: Byte)

  /** The canvas background, #00000000. */
  const Transparent: Rgba := Rgba(0, 0, 0, 0)
}
