/** Pixels as the program stores them: four unsigned 8-bit channels. */
module Pixels {

  /** An unsigned 8-bit channel value (`uint8_t`). */
  type byte = x: int | 0 <= x < 256

  /** One RGBA pixel, the wire unit of every slice that is exchanged. */
  datatype Color = Color(r: byte, g: byte, b: byte, a: byte)

  /** The three colour channels a kernel works on (alpha is handled apart). */
  datatype Channel = R | G | B

  function ChannelOf(c: Color, ch: Channel): byte
  {
    match ch
    case R => c.r
    case G => c.g
    case B => c.b
  }

  /** Per-pixel inversion: every colour channel becomes `255 - channel`, alpha is kept. */
  function InvertPixel(c: Color): (d: Color)
    ensures forall ch :: ChannelOf(d, ch) + ChannelOf(c, ch) == 255
    ensures d.a == c.a
  {
    Color(255 - c.r, 255 - c.g, 255 - c.b, c.a)
  }

  /** Inverting a pixel twice gives the pixel back. */
  lemma InvertPixelTwice(c: Color)
    ensures InvertPixel(InvertPixel(c)) == c
  {
  }
}
