/** Conversions between normalised [0,1] channels and the bytes of a buffer. */
module ByteCodec {
  import opened Types

  /** C's `round`: the nearest integer, halves rounded away from zero. */
  function Round(v: real): (n: int)
    ensures v - 0.5 <= n as real <= v + 0.5
    ensures n as real == v + 0.5 ==> v > 0.0
    ensures n as real == v - 0.5 ==> v < 0.0
  {
    if v >= 0.0 then (v + 0.5).Floor else -((0.5 - v).Floor)
  }

  /** `round` leaves a whole number unchanged. */
  lemma RoundInteger(k: int)
    ensures Round(k as real) == k
  {
  }

  /** The write-back `(png_byte) round(v*255)` of a normalised channel: the byte
      nearest to v*255, the upper one at a tie. */
  function ChannelToByte(v: real): (b: Byte)
    requires InUnit(v)
    ensures v * 255.0 - 0.5 < b as real <= v * 255.0 + 0.5
  {
    Round(v * 255.0)
  }

  /** A byte read as a normalised channel (`row[x] / 255.0`). */
  function ByteToChannel(b: Byte): (v: real)
    ensures InUnit(v)
    ensures v * 255.0 == b as real
  {
    b as real / 255.0
  }

  /** Reading a byte and writing it back gives the same byte. */
  lemma ByteRoundTrip(b: Byte)
    ensures ChannelToByte(ByteToChannel(b)) == b
  {
  }

  /** Writing a channel and reading it back loses at most half a byte step, and
      a tie goes up. */
  lemma ChannelRoundTrip(v: real)
    requires InUnit(v)
    ensures -1.0 / 510.0 < ByteToChannel(ChannelToByte(v)) - v <= 1.0 / 510.0
  {
  }

  function DecodePixel(p: Pixel): (c: Color)
    ensures UnitColor(c)
    ensures c.r * 255.0 == p.r as real && c.g * 255.0 == p.g as real
    ensures c.b * 255.0 == p.b as real && c.a * 255.0 == p.a as real
  {
    Color(ByteToChannel(p.r), ByteToChannel(p.g), ByteToChannel(p.b), ByteToChannel(p.a))
  }

  function EncodePixel(c: Color): (p: Pixel)
    requires UnitColor(c)
    ensures DecodePixel(p).r - c.r <= 1.0 / 510.0 && c.r - DecodePixel(p).r < 1.0 / 510.0
    ensures DecodePixel(p).g - c.g <= 1.0 / 510.0 && c.g - DecodePixel(p).g < 1.0 / 510.0
    ensures DecodePixel(p).b - c.b <= 1.0 / 510.0 && c.b - DecodePixel(p).b < 1.0 / 510.0
    ensures DecodePixel(p).a - c.a <= 1.0 / 510.0 && c.a - DecodePixel(p).a < 1.0 / 510.0
  {
    ChannelRoundTrip(c.r); ChannelRoundTrip(c.g); ChannelRoundTrip(c.b); ChannelRoundTrip(c.a);
    Pixel(ChannelToByte(c.r), ChannelToByte(c.g), ChannelToByte(c.b), ChannelToByte(c.a))
  }

  /** Decoding a pixel and encoding it again gives back the same four bytes. */
  lemma PixelRoundTrip(p: Pixel)
    ensures EncodePixel(DecodePixel(p)) == p
  {
    ByteRoundTrip(p.r); ByteRoundTrip(p.g); ByteRoundTrip(p.b); ByteRoundTrip(p.a);
  }

  // initBuffer stores a double channel straight into a `png_byte`; the
  // conversion drops the fraction instead of scaling by 255.

  /** The store `row[x] = bgColor.r` as written: the channel truncated to a byte. */
  function StoreChannelAsWritten(v: real): (b: Byte)
    requires 0.0 <= v < 256.0
    ensures b as real <= v < b as real + 1.0
  {
    v.Floor
  }

  /** As written, every normalised channel is stored as byte 0, except 1.0 which
      is stored as byte 1; the scaled store keeps 0.5 as 128. */
  lemma StoreAsWrittenCollapses(v: real)
    requires InUnit(v)
    ensures StoreChannelAsWritten(v) == if v == 1.0 then 1 else 0
    ensures v == 0.5 ==> ChannelToByte(v) == 128
  {
  }
}
