/** The ThreeSquares example: on a 640 x 480 canvas, an opaque red square, a
    half-transparent green square shifted by (20, 20) and an opaque blue square
    shifted by (40, 40), drawn in that order with `shape_square_filled`. */
module ThreeSquares {
  import opened Types
  import opened ByteCodec
  import opened Drawables
  import opened Compositing
  import opened Shapes
  import opened Canvases

  /** `shape_square_filled` as the drawables' shape callback. */
  const SquareShape: ShapeFn := (points: seq<Point>, x: real, y: real) requires |points| >= 2 => SquareFilled(points, x, y)

  /** A filled figure of one colour whose shape is the box between two corners. */
  function Square(color: Color, corners: seq<Point>): Drawable {
    Drawable(Solid(color), Some(SquareShape), 0.0, corners)
  }

  const RedColor := Color(1.0, 0.0, 0.0, 1.0)
  const GreenColor := Color(0.0, 1.0, 0.0, 0.5)
  const BlueColor := Color(0.0, 0.0, 1.0, 1.0)

  const RedCorners := [Point(370.0, 280.0), Point(450.0, 400.0)]
  const GreenCorners := [Point(390.0, 300.0), Point(470.0, 420.0)]
  const BlueCorners := [Point(410.0, 320.0), Point(490.0, 440.0)]

  const Red := Square(RedColor, RedCorners)
  const Green := Square(GreenColor, GreenCorners)
  const Blue := Square(BlueColor, BlueCorners)

  /** The drawables in the order they are added: red first, blue on top. */
  const Scene: seq<Drawable> := [Red, Green, Blue]

  predicate InRed(x: nat, y: nat) { InBox(RedCorners[0], RedCorners[1], x as real, y as real) }
  predicate InGreen(x: nat, y: nat) { InBox(GreenCorners[0], GreenCorners[1], x as real, y as real) }
  predicate InBlue(x: nat, y: nat) { InBox(BlueCorners[0], BlueCorners[1], x as real, y as real) }

  /** Each square is the previous one moved by (20, 20): it covers pixel
      (x + 20, y + 20) exactly when the previous one covers (x, y). */
  lemma SquaresAreShifted(x: nat, y: nat)
    ensures Green.Coverage(x + 20, y + 20) == Red.Coverage(x, y)
    ensures Blue.Coverage(x + 20, y + 20) == Green.Coverage(x, y)
  {
    assert GreenCorners == Translated(RedCorners, 20.0, 20.0);
    assert BlueCorners == Translated(GreenCorners, 20.0, 20.0);
    SquareTranslates(RedCorners, 20.0, 20.0, x as real, y as real);
    SquareTranslates(GreenCorners, 20.0, 20.0, x as real, y as real);
  }

  /** Every square can be drawn at every pixel, so `Draw` may run on the scene. */
  lemma SceneRenderable()
    ensures forall i, x: nat, y: nat | 0 <= i < |Scene| :: Scene[i].Renderable(x, y)
  {
    forall i, x: nat, y: nat | 0 <= i < |Scene|
      ensures Scene[i].Renderable(x, y)
    {
      var d := Scene[i];
      assert d.shapeFn == Some(SquareShape) && |d.points| == 2;
      assert d.Coverage(x, y) == SquareFilled(d.points, x as real, y as real);
    }
  }

  /** The accumulators at (x, y) after the three squares, one step per square. */
  lemma SceneSteps(acc: Color, x: nat, y: nat)
    ensures AllRenderable(Scene, x, y)
    ensures Composite(acc, Scene, x, y) ==
              Over(Over(Over(acc, RedColor, Red.Coverage(x, y)), GreenColor, Green.Coverage(x, y)),
                   BlueColor, Blue.Coverage(x, y))
  {
    SceneRenderable();
    assert Scene == [Red, Green] + [Blue] && [Red, Green] == [Red] + [Green] && [Red] == [] + [Red];
    CompositeSnoc(acc, [Red, Green], Blue, x, y);
    CompositeSnoc(acc, [Red], Green, x, y);
    CompositeSnoc(acc, [], Red, x, y);
  }

  /** The coverage of each square at (x, y) is its box test. */
  lemma CoverageIsBox(x: nat, y: nat)
    ensures Red.Coverage(x, y) == if InRed(x, y) then 1 else 0
    ensures Green.Coverage(x, y) == if InGreen(x, y) then 1 else 0
    ensures Blue.Coverage(x, y) == if InBlue(x, y) then 1 else 0
  {
    SquareIsBox(RedCorners, x as real, y as real);
    SquareIsBox(GreenCorners, x as real, y as real);
    SquareIsBox(BlueCorners, x as real, y as real);
  }

  /** Where only red is drawn, the opaque red replaces whatever was below. */
  lemma RedAlone(acc: Color, x: nat, y: nat)
    requires UnitColor(acc)
    requires InRed(x, y) && !InGreen(x, y) && !InBlue(x, y)
    ensures AllRenderable(Scene, x, y)
    ensures Composite(acc, Scene, x, y) == Color(1.0, 0.0, 0.0, 1.0)
  {
    SceneSteps(acc, x, y);
    CoverageIsBox(x, y);
    OverOpaque(acc, RedColor);
    OverUncovered(Color(1.0, 0.0, 0.0, 1.0), GreenColor);
    OverUncovered(Color(1.0, 0.0, 0.0, 1.0), BlueColor);
  }

  /** Where red and green overlap outside blue, the half-transparent green over
      opaque red gives an even red-green mix, fully opaque, whatever was below. */
  lemma RedUnderGreen(acc: Color, x: nat, y: nat)
    requires UnitColor(acc)
    requires InRed(x, y) && InGreen(x, y) && !InBlue(x, y)
    ensures AllRenderable(Scene, x, y)
    ensures Composite(acc, Scene, x, y) == Color(0.5, 0.5, 0.0, 1.0)
  {
    SceneSteps(acc, x, y);
    CoverageIsBox(x, y);
    OverOpaque(acc, RedColor);
    var mixed := Over(Color(1.0, 0.0, 0.0, 1.0), GreenColor, 1);
    assert mixed == Color(0.5, 0.5, 0.0, 1.0);
    OverUncovered(mixed, BlueColor);
  }

  /** Where only green is drawn, it goes half way from the background to green
      and the alpha is at least one half. */
  lemma GreenAlone(acc: Color, x: nat, y: nat)
    requires UnitColor(acc)
    requires !InRed(x, y) && InGreen(x, y) && !InBlue(x, y)
    ensures AllRenderable(Scene, x, y)
    ensures Composite(acc, Scene, x, y) ==
              Color(acc.r / 2.0, (acc.g + 1.0) / 2.0, acc.b / 2.0, if acc.a < 0.5 then 0.5 else acc.a)
  {
    SceneSteps(acc, x, y);
    CoverageIsBox(x, y);
    OverUncovered(acc, RedColor);
    var mixed := Over(acc, GreenColor, 1);
    assert mixed == Color(acc.r / 2.0, (acc.g + 1.0) / 2.0, acc.b / 2.0, if acc.a < 0.5 then 0.5 else acc.a);
    OverUncovered(mixed, BlueColor);
  }

  /** Blue is drawn last and is opaque, so it hides everything under it. */
  lemma BlueOnTop(acc: Color, x: nat, y: nat)
    requires UnitColor(acc)
    requires InBlue(x, y)
    ensures AllRenderable(Scene, x, y)
    ensures Composite(acc, Scene, x, y) == BlueColor
  {
    SceneSteps(acc, x, y);
    CoverageIsBox(x, y);
    var below := Over(Over(acc, RedColor, Red.Coverage(x, y)), GreenColor, Green.Coverage(x, y));
    OverInUnit(acc, RedColor, Red.Coverage(x, y));
    OverInUnit(Over(acc, RedColor, Red.Coverage(x, y)), GreenColor, Green.Coverage(x, y));
    OverOpaque(below, BlueColor);
  }

  /** Outside all three squares the background is left as it was. */
  lemma OutsideKeepsBackground(acc: Color, x: nat, y: nat)
    requires acc.a >= 0.0
    requires !InRed(x, y) && !InGreen(x, y) && !InBlue(x, y)
    ensures AllRenderable(Scene, x, y)
    ensures Composite(acc, Scene, x, y) == acc
  {
    SceneSteps(acc, x, y);
    CoverageIsBox(x, y);
    OverUncovered(acc, RedColor);
    OverUncovered(acc, GreenColor);
    OverUncovered(acc, BlueColor);
  }

  /** The example's main: a 640 x 480 canvas on background `bg`, the three
      squares added in order and drawn. The overlap pixel (400, 310) holds the
      bytes 128, 128, 0, 255 (0.5 * 255 rounds half away from zero), a pixel
      under blue holds pure opaque blue and the corner keeps the background. */
  method DrawThreeSquares(bg: Color) returns (canvas: Canvas)
    requires UnitColor(bg)
    ensures canvas.Valid() && canvas.width == 640 && canvas.height == 480
    ensures canvas.drawables == Scene
    ensures PixelAt(canvas.buffer, 310, 400) == Pixel(128, 128, 0, 255)
    ensures PixelAt(canvas.buffer, 330, 420) == Pixel(0, 0, 255, 255)
    ensures PixelAt(canvas.buffer, 0, 0) == EncodePixel(bg)
  {
    canvas := new Canvas(640, 480, bg);
    canvas.AddDrawable(Red);
    canvas.AddDrawable(Green);
    canvas.AddDrawable(Blue);
    assert canvas.drawables == Scene;
    SceneRenderable();
    ghost var background := DecodePixel(EncodePixel(bg));
    RedUnderGreen(background, 400, 310);
    BlueOnTop(background, 420, 330);
    OutsideKeepsBackground(background, 0, 0);
    PixelRoundTrip(EncodePixel(bg));
    canvas.Draw();
  }
}
