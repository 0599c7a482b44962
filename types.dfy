/** The record types of the drawing library (Drawing++.hpp): colours, points and
    the 8-bit cells of the canvas's pixel buffer. */
module Types {

  /** One 8-bit sample of a pixel buffer (`png_byte`). */
  type Byte = x: int | 0 <= x < 256

  /** Bytes per pixel: canvases and decoded images are 8-bit RGBA. */
  const Channels: nat := 4

  datatype Option<T> = None | Some(value: T)

  /** An RGBA colour of four double channels. Its constructor stores the four
      arguments unchanged; the compositor treats each channel as lying in [0,1]. */
  datatype Color = Color(r: real, g: real, b: real, a: real)

  predicate InUnit(v: real) {
    0.0 <= v <= 1.0
  }

  /** Every channel of `c` lies in [0,1]. */
  predicate UnitColor(c: Color) {
    InUnit(c.r) && InUnit(c.g) && InUnit(c.b) && InUnit(c.a)
  }

  /** A 2-D point of double coordinates; its constructor stores x and y unchanged. */
  datatype Point = Point(x: real, y: real)

  /** The four bytes of one pixel, in buffer order r, g, b, a. */
  datatype Pixel = Pixel(r: Byte, g: Byte, b: Byte, a: Byte)
}
