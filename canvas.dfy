/** The canvas of Drawing++.cpp: a height x rowbytes byte buffer, four bytes per
    pixel, and the ordered list of drawables composited onto it. */
module Canvases {
  import opened Types
  import opened ByteCodec
  import opened Drawables
  import opened Compositing
  import opened Similarity

  /** The four bytes of pixel (x, y): bytes x*Channels .. x*Channels+3 of row y. */
  function PixelAt(buf: array2<Byte>, y: nat, x: nat): Pixel
    reads buf
    requires y < buf.Length0 && Channels * x + 3 < buf.Length1
  {
    Pixel(buf[y, Channels * x], buf[y, Channels * x + 1], buf[y, Channels * x + 2], buf[y, Channels * x + 3])
  }

  /** The h x w pixels of a buffer, row by row. */
  ghost function Grid(buf: array2<Byte>, h: nat, w: nat): seq<seq<Pixel>>
    reads buf
    requires h <= buf.Length0 && Channels * w <= buf.Length1
  {
    seq(h, y requires 0 <= y < h reads buf =>
      seq(w, x requires 0 <= x < w reads buf => PixelAt(buf, y, x)))
  }

  /** Writes the four bytes of pixel (x, y) and nothing else. */
  method StorePixel(buf: array2<Byte>, y: nat, x: nat, p: Pixel)
    requires y < buf.Length0 && Channels * x + 3 < buf.Length1
    modifies buf
    ensures PixelAt(buf, y, x) == p
    ensures forall i, j | 0 <= i < buf.Length0 && 0 <= j < buf.Length1 &&
                          !(i == y && Channels * x <= j < Channels * x + 4) :: buf[i, j] == old(buf[i, j])
  {
    buf[y, Channels * x] := p.r;
    buf[y, Channels * x + 1] := p.g;
    buf[y, Channels * x + 2] := p.b;
    buf[y, Channels * x + 3] := p.a;
  }

  /** `drawPixel` on pixel (x, y) of `buf`: reads its four bytes as normalised
      accumulators, folds the drawables over them in list order and writes them
      back; no other byte changes. */
  method DrawPixel(buf: array2<Byte>, ds: seq<Drawable>, x: nat, y: nat)
    requires y < buf.Length0 && Channels * x + 3 < buf.Length1
    requires AllRenderable(ds, x, y)
    modifies buf
    ensures PixelAt(buf, y, x) == RenderPixel(old(PixelAt(buf, y, x)), ds, x, y)
    ensures forall i, j | 0 <= i < buf.Length0 && 0 <= j < buf.Length1 &&
                          !(i == y && Channels * x <= j < Channels * x + 4) :: buf[i, j] == old(buf[i, j])
  {
    var start := DecodePixel(PixelAt(buf, y, x));
    var acc := FoldDrawables(start, ds, x, y);
    CompositeInUnit(start, ds, x, y);
    StorePixel(buf, y, x, EncodePixel(acc));
  }

  /** The sums over the first w pixels of row y of two buffers. */
  ghost function BufferRowSums(a: array2<Byte>, b: array2<Byte>, y: nat, w: nat): Sums
    reads a, b
    requires y < a.Length0 && y < b.Length0 && Channels * w <= a.Length1 && Channels * w <= b.Length1
  {
    if w == 0 then Sums(0, 0, 0)
    else Add(BufferRowSums(a, b, y, w - 1), PixelSums(PixelAt(a, y, w - 1), PixelAt(b, y, w - 1)))
  }

  /** The sums over the first h rows, w pixels each, of two buffers. */
  ghost function BufferSums(a: array2<Byte>, b: array2<Byte>, h: nat, w: nat): Sums
    reads a, b
    requires h <= a.Length0 && h <= b.Length0 && Channels * w <= a.Length1 && Channels * w <= b.Length1
  {
    if h == 0 then Sums(0, 0, 0)
    else Add(BufferSums(a, b, h - 1, w), BufferRowSums(a, b, h - 1, w))
  }

  /** The shape of `Grid` and where each of its pixels comes from. */
  lemma GridPixels(buf: array2<Byte>, h: nat, w: nat)
    requires h <= buf.Length0 && Channels * w <= buf.Length1
    ensures |Grid(buf, h, w)| == h
    ensures forall y | 0 <= y < h :: |Grid(buf, h, w)[y]| == w
    ensures forall y, x | 0 <= y < h && 0 <= x < w :: Grid(buf, h, w)[y][x] == PixelAt(buf, y, x)
  {
  }

  /** The row sums over two buffers are the row sums over their pixel grids. */
  lemma {:induction false} BufferRowSumsAreRowSums(a: array2<Byte>, b: array2<Byte>, h: nat, w: nat, y: nat, x: nat)
    requires h <= a.Length0 && h <= b.Length0 && Channels * w <= a.Length1 && Channels * w <= b.Length1
    requires y < h && x <= w
    ensures SameShape(Grid(a, h, w), Grid(b, h, w))
    ensures BufferRowSums(a, b, y, x) == RowSums(Grid(a, h, w), Grid(b, h, w), y, x)
  {
    GridPixels(a, h, w);
    GridPixels(b, h, w);
    if x > 0 {
      BufferRowSumsAreRowSums(a, b, h, w, y, x - 1);
    }
  }

  /** The sums over the first k rows of two buffers are the sums over the first
      k rows of their pixel grids. */
  lemma {:induction false} BufferSumsAreGridSums(a: array2<Byte>, b: array2<Byte>, h: nat, w: nat, k: nat)
    requires h <= a.Length0 && h <= b.Length0 && Channels * w <= a.Length1 && Channels * w <= b.Length1
    requires k <= h
    ensures SameShape(Grid(a, h, w), Grid(b, h, w))
    ensures BufferSums(a, b, k, w) == GridSums(Grid(a, h, w), Grid(b, h, w), k)
  {
    GridPixels(a, h, w);
    GridPixels(b, h, w);
    if k > 0 {
      BufferSumsAreGridSums(a, b, h, w, k - 1);
      BufferRowSumsAreRowSums(a, b, h, w, k - 1, w);
    }
  }

  class Canvas {
    const width: nat
    const height: nat
    /** One row of `width * Channels` bytes per image row (`m_rowBufferPtrs`). */
    var buffer: array2<Byte>
    /** The drawables, in registration order (`m_drawables`). */
    var drawables: seq<Drawable>

    ghost predicate Valid()
      reads this
    {
      buffer.Length0 == height && buffer.Length1 == width * Channels
    }

    /** The canvas's pixels, row by row. */
    ghost function Image(): seq<seq<Pixel>>
      reads this, buffer
      requires Valid()
    {
      Grid(buffer, height, width)
    }

    /** A width x height canvas whose every pixel holds the background colour. */
    constructor (width: nat, height: nat, bg: Color)
      requires UnitColor(bg)
      ensures Valid() && fresh(buffer)
      ensures this.width == width && this.height == height && drawables == []
      ensures forall y: nat, x: nat | y < height && x < width :: PixelAt(buffer, y, x) == EncodePixel(bg)
    {
      this.width := width;
      this.height := height;
      drawables := [];
      buffer := new Byte[0, 0];
      new;
      InitBuffer(bg);
    }

    /** `initBuffer`: allocates the rows and writes the background colour's bytes
        at every offset 0, 4, 8, ... below rowbytes of every row. */
    method InitBuffer(bg: Color)
      requires UnitColor(bg)
      modifies this
      ensures Valid() && fresh(buffer) && drawables == old(drawables)
      ensures forall y: nat, x: nat | y < height && x < width :: PixelAt(buffer, y, x) == EncodePixel(bg)
    {
      var rowbytes := width * Channels;
      var buf := new Byte[height, rowbytes];
      var px := EncodePixel(bg);
      var y := 0;
      while y < height
        invariant 0 <= y <= height
        invariant forall yy: nat, xx: nat | yy < y && xx < width :: PixelAt(buf, yy, xx) == px
        modifies buf
      {
        var x := 0;
        ghost var pixels := 0;
        while x < rowbytes
          invariant 0 <= pixels <= width && x == Channels * pixels
          invariant forall yy: nat, xx: nat | yy < y && xx < width :: PixelAt(buf, yy, xx) == px
          invariant forall xx: nat | xx < pixels :: PixelAt(buf, y, xx) == px
          modifies buf
        {
          assert x / Channels == pixels;
          label before:
          StorePixel(buf, y, x / Channels, px);
          forall yy: nat, xx: nat | yy < y && xx < width
            ensures PixelAt(buf, yy, xx) == px
          {
            assert old@before(PixelAt(buf, yy, xx)) == px;
            assert Channels * xx + 3 < rowbytes;
          }
          forall xx: nat | xx < pixels
            ensures PixelAt(buf, y, xx) == px
          {
            assert old@before(PixelAt(buf, y, xx)) == px;
            assert Channels * xx + 3 < x;
          }
          x := x + Channels;
          pixels := pixels + 1;
        }
        y := y + 1;
      }
      buffer := buf;
    }

    /** `addDrawable`: appends a drawable; later drawables composite on top. */
    method AddDrawable(d: Drawable)
      modifies this
      ensures drawables == old(drawables) + [d]
      ensures buffer == old(buffer)
    {
      drawables := drawables + [d];
    }

    /** `draw`: runs drawPixel once on every pixel, rows top to bottom, pixels
        left to right. Every pixel ends as RenderPixel of its own previous bytes. */
    method Draw()
      requires Valid()
      requires forall i, x: nat, y: nat | 0 <= i < |drawables| && x < width && y < height ::
                 drawables[i].Renderable(x, y)
      modifies buffer
      ensures forall y: nat, x: nat | y < height && x < width ::
                PixelAt(buffer, y, x) == RenderPixel(old(PixelAt(buffer, y, x)), drawables, x, y)
    {
      var y := 0;
      while y < height
        invariant 0 <= y <= height
        invariant forall yy: nat, xx: nat | yy < y && xx < width ::
                    PixelAt(buffer, yy, xx) == RenderPixel(old(PixelAt(buffer, yy, xx)), drawables, xx, yy)
        invariant forall yy, j | y <= yy < height && 0 <= j < buffer.Length1 :: buffer[yy, j] == old(buffer[yy, j])
      {
        DrawRow(y);
        y := y + 1;
      }
    }

    /** The inner loop of `draw` on row y: drawPixel on each pixel of the row, left
        to right. No other row changes. */
    method DrawRow(y: nat)
      requires Valid() && y < height
      requires forall i, x: nat | 0 <= i < |drawables| && x < width :: drawables[i].Renderable(x, y)
      modifies buffer
      ensures forall x: nat | x < width ::
                PixelAt(buffer, y, x) == RenderPixel(old(PixelAt(buffer, y, x)), drawables, x, y)
      ensures forall yy, j | 0 <= yy < height && yy != y && 0 <= j < buffer.Length1 :: buffer[yy, j] == old(buffer[yy, j])
    {
      var x := 0;
      while x < width
        invariant 0 <= x <= width
        invariant forall xx: nat | xx < x ::
                    PixelAt(buffer, y, xx) == RenderPixel(old(PixelAt(buffer, y, xx)), drawables, xx, y)
        invariant forall j | Channels * x <= j < buffer.Length1 :: buffer[y, j] == old(buffer[y, j])
        invariant forall yy, j | 0 <= yy < height && yy != y && 0 <= j < buffer.Length1 :: buffer[yy, j] == old(buffer[yy, j])
      {
        DrawPixel(buffer, drawables, x, y);
        x := x + 1;
      }
    }

    /** `compare`: the three sums accumulated over both canvases in row-major
        order. The score is sumSquareDiff / sqrt(sumSquareA * sumSquareB). */
    method Compare(other: Canvas) returns (s: Sums)
      requires Valid() && other.Valid()
      requires other.width == width && other.height == height
      ensures SameShape(Image(), other.Image())
      ensures s == CompareSums(Image(), other.Image())
    {
      var sumSquareDiff, sumSquareA, sumSquareB := 0, 0, 0;
      var y := 0;
      while y < height
        invariant 0 <= y <= height
        invariant Sums(sumSquareDiff, sumSquareA, sumSquareB) == BufferSums(buffer, other.buffer, y, width)
      {
        var x := 0;
        while x < width
          invariant 0 <= x <= width
          invariant Sums(sumSquareDiff, sumSquareA, sumSquareB) ==
                      Add(BufferSums(buffer, other.buffer, y, width), BufferRowSums(buffer, other.buffer, y, x))
        {
          var pixelA := PixelAt(buffer, y, x);
          var pixelB := PixelAt(other.buffer, y, x);
          var channelSumA := pixelA.r + pixelA.g + pixelA.b + pixelA.a;
          var channelSumB := pixelB.r + pixelB.g + pixelB.b + pixelB.a;
          var diff := channelSumA - channelSumB;
          assert PixelSums(pixelA, pixelB) == Sums(diff * diff, channelSumA * channelSumA, channelSumB * channelSumB);
          sumSquareDiff := sumSquareDiff + diff * diff;
          sumSquareA := sumSquareA + channelSumA * channelSumA;
          sumSquareB := sumSquareB + channelSumB * channelSumB;
          x := x + 1;
        }
        y := y + 1;
      }
      s := Sums(sumSquareDiff, sumSquareA, sumSquareB);
      BufferSumsAreGridSums(buffer, other.buffer, height, width, height);
    }
  }
}
