/** Drawables (Drawing++.hpp): a colour source, an optional shape callback, a
    line width and the points that parameterise the shape. */
module Drawables {
  import opened Types
  import opened ImageFiles

  /** `shape_fn_ptr`: the coverage of pixel (x, y), which the compositor uses as a
      0/1 factor. The callbacks shown read only the drawable's points, so that is
      what they are given. */
  type ShapeFn = (seq<Point>, real, real) --> int

  /** Where a drawable's colour comes from: a figure's fixed colour, or the
      pixels of a decoded image. */
  datatype Source = Solid(color: Color) | Image(file: ImageFile)

  datatype Drawable = Drawable(source: Source, shapeFn: Option<ShapeFn>, lineWidth: real, points: seq<Point>) {

    ghost predicate ShapeDefined(x: nat, y: nat) {
      shapeFn.Some? ==> shapeFn.value.requires(points, x as real, y as real)
    }

    /** The shape factor drawPixel uses: the callback's answer, or 1 when there
        is no callback. */
    function Coverage(x: nat, y: nat): (s: int)
      requires ShapeDefined(x, y)
      ensures shapeFn.None? ==> s == 1
    {
      if shapeFn.None? then 1 else shapeFn.value(points, x as real, y as real)
    }

    predicate ColorDefined(x: nat, y: nat) {
      source.Image? ==> source.file.Readable(x, y)
    }

    /** `drawable->getPixel(x, y)`: a figure's colour does not depend on the
        position; an image is read at byte offset x of row y. */
    function GetPixel(x: nat, y: nat): (c: Color)
      requires ColorDefined(x, y)
      ensures source.Solid? ==> c == source.color
      ensures source.Image? ==> c == source.file.GetPixel(x, y) && UnitColor(c)
    {
      match source
      case Solid(color) => color
      case Image(file) => file.GetPixel(x, y)
    }

    /** What the compositor needs of a drawable at pixel (x, y): the shape is
        defined there and is 0 or 1, and the colour read at byte offset
        x*Channels exists and lies in [0,1]. */
    ghost predicate Renderable(x: nat, y: nat) {
      ShapeDefined(x, y) && (Coverage(x, y) == 0 || Coverage(x, y) == 1) &&
      ColorDefined(x * Channels, y) && UnitColor(GetPixel(x * Channels, y))
    }
  }
}
