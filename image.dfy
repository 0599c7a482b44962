/** A decoded image file (`ImageFile`): its rows of RGBA bytes. Decoding the PNG
    stream is not part of this model; an ImageFile value carries the rows the
    decoder produced, so its buffer is always loaded. */
module ImageFiles {
  import opened Types
  import opened ByteCodec

  datatype ImageFile = ImageFile(rows: seq<seq<Byte>>) {

    /** Bytes x..x+3 of row y exist. */
    predicate Readable(x: nat, y: nat) {
      y < |rows| && x + 3 < |rows[y]|
    }

    /** `ImageFile::getPixel`: bytes x..x+3 of row y, each divided by 255.
        `x` is a byte offset into the row, not a pixel column. */
    function GetPixel(x: nat, y: nat): (c: Color)
      requires Readable(x, y)
      ensures c.r == rows[y][x] as real / 255.0 && c.g == rows[y][x + 1] as real / 255.0
      ensures c.b == rows[y][x + 2] as real / 255.0 && c.a == rows[y][x + 3] as real / 255.0
      ensures UnitColor(c)
      ensures EncodePixel(c) == Pixel(rows[y][x], rows[y][x + 1], rows[y][x + 2], rows[y][x + 3])
    {
      var p := Pixel(rows[y][x], rows[y][x + 1], rows[y][x + 2], rows[y][x + 3]);
      PixelRoundTrip(p);
      DecodePixel(p)
    }
  }
}
