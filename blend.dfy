/** The per-pixel compositor of Drawing++.cpp: `mix`, `max` and the fold of
    `drawPixel` over the canvas's ordered drawables, with the accumulators in
    normalised [0,1] units. */
module Compositing {
  import opened Types
  import opened ByteCodec
  import opened Drawables

  /** `mix`: linear interpolation from x (a = 0) to y (a = 1). */
  function Mix(x: real, y: real, a: real): (m: real)
    ensures a == 0.0 ==> m == x
    ensures a == 1.0 ==> m == y
  {
    x * (1.0 - a) + y * a
  }

  /** For a weight in [0,1], `mix` lies between its two ends. */
  lemma MixBetween(x: real, y: real, a: real)
    requires 0.0 <= a <= 1.0
    ensures x <= y ==> x <= Mix(x, y, a) <= y
    ensures y <= x ==> y <= Mix(x, y, a) <= x
  {
    var d := y - x;
    var step := a * d;
    MixAsStep(x, y, a);
    assert Mix(x, y, a) == x + step;
    if d >= 0.0 {
      ScaleWithinUnit(a, d);
    } else {
      ScaleWithinUnit(a, -d);
      assert a * (-d) == -step;
    }
  }

  /** `mix` moves from x towards y by the fraction a of the distance y - x. */
  lemma MixAsStep(x: real, y: real, a: real)
    ensures Mix(x, y, a) == x + a * (y - x)
  {
    assert x * (1.0 - a) == x - x * a;
    assert a * (y - x) == a * y - a * x;
    assert x * a == a * x;
    assert y * a == a * y;
  }

  lemma ScaleWithinUnit(a: real, d: real)
    requires 0.0 <= a <= 1.0 && d >= 0.0
    ensures 0.0 <= a * d <= d
  {
    assert d - a * d == (1.0 - a) * d;
  }

  /** `max`: the larger argument. */
  function Max(x: real, y: real): (m: real)
    ensures m >= x && m >= y
    ensures m == x || m == y
  {
    if x < y then y else x
  }

  /** One iteration of drawPixel's loop: colour `c` with shape factor `s` over the
      accumulators `acc`. Alpha accumulates by `max`, each colour channel is mixed
      towards the covered colour by the covered alpha. */
  function Over(acc: Color, c: Color, s: int): Color {
    var k := s as real;
    Color(Mix(acc.r, c.r * k, c.a * k), Mix(acc.g, c.g * k, c.a * k),
          Mix(acc.b, c.b * k, c.a * k), Max(acc.a, c.a * k))
  }

  ghost predicate AllRenderable(ds: seq<Drawable>, x: nat, y: nat) {
    forall i | 0 <= i < |ds| :: ds[i].Renderable(x, y)
  }

  /** The colour drawable `d` contributes at pixel (x, y), before its shape factor. */
  function ColorAt(d: Drawable, x: nat, y: nat): Color
    requires d.Renderable(x, y)
  {
    d.GetPixel(x * Channels, y)
  }

  /** The accumulators after drawPixel's loop has applied the drawables `ds`, in
      list order, to the starting accumulators `acc`. */
  function Composite(acc: Color, ds: seq<Drawable>, x: nat, y: nat): Color
    requires AllRenderable(ds, x, y)
    decreases |ds|
  {
    if ds == [] then acc
    else
      var last := ds[|ds| - 1];
      Over(Composite(acc, ds[..|ds| - 1], x, y), ColorAt(last, x, y), last.Coverage(x, y))
  }

  /** Composing a longer list is composing its prefix, then the last drawable. */
  lemma CompositeSnoc(acc: Color, ds: seq<Drawable>, d: Drawable, x: nat, y: nat)
    requires AllRenderable(ds + [d], x, y)
    ensures AllRenderable(ds, x, y)
    ensures Composite(acc, ds + [d], x, y) == Over(Composite(acc, ds, x, y), ColorAt(d, x, y), d.Coverage(x, y))
  {
    assert (ds + [d])[..|ds|] == ds;
    assert forall i | 0 <= i < |ds| :: ds[i] == (ds + [d])[i];
  }

  /** drawPixel's loop: applies the drawables front to back, in list order. */
  method FoldDrawables(start: Color, ds: seq<Drawable>, x: nat, y: nat) returns (acc: Color)
    requires AllRenderable(ds, x, y)
    ensures acc == Composite(start, ds, x, y)
  {
    acc := start;
    var i := 0;
    while i < |ds|
      invariant 0 <= i <= |ds|
      invariant acc == Composite(start, ds[..i], x, y)
    {
      var d := ds[i];
      assert d.Renderable(x, y);
      var shape := d.Coverage(x, y);
      var color := d.GetPixel(x * Channels, y);
      assert ds[..i] + [d] == ds[..i + 1];
      CompositeSnoc(start, ds[..i], d, x, y);
      acc := Over(acc, color, shape);
      i := i + 1;
    }
    assert ds[..i] == ds;
  }

  // ---------------------------------------------------------------------------
  // Laws of one step

  /** A drawable whose shape is 0 leaves the accumulators unchanged (alpha is
      never negative). */
  lemma OverUncovered(acc: Color, c: Color)
    requires acc.a >= 0.0
    ensures Over(acc, c, 0) == acc
  {
  }

  /** A fully transparent colour leaves the accumulators unchanged whatever its
      shape factor, as an image pixel with alpha 0 does. */
  lemma OverTransparent(acc: Color, c: Color, s: int)
    requires acc.a >= 0.0 && c.a == 0.0
    ensures Over(acc, c, s) == acc
  {
  }

  /** A covering, opaque drawable sets r, g, b to its colour; alpha becomes 1. */
  lemma OverOpaque(acc: Color, c: Color)
    requires c.a == 1.0 && acc.a <= 1.0
    ensures Over(acc, c, 1) == Color(c.r, c.g, c.b, 1.0)
  {
  }

  /** A covering opaque colour replaces r, g and b whatever the accumulators held. */
  lemma OverOpaqueRgb(acc: Color, c: Color)
    requires c.a == 1.0
    ensures SameRgb(Over(acc, c, 1), c)
  {
  }

  lemma OverInUnit(acc: Color, c: Color, s: int)
    requires UnitColor(acc) && UnitColor(c) && (s == 0 || s == 1)
    ensures UnitColor(Over(acc, c, s))
  {
    if s == 0 {
      OverUncovered(acc, c);
    } else {
      MixBetween(acc.r, c.r, c.a);
      MixBetween(acc.g, c.g, c.a);
      MixBetween(acc.b, c.b, c.a);
      assert Over(acc, c, s) == Color(Mix(acc.r, c.r, c.a), Mix(acc.g, c.g, c.a), Mix(acc.b, c.b, c.a), Max(acc.a, c.a));
    }
  }

  // ---------------------------------------------------------------------------
  // Laws of the fold

  /** Starting from [0,1] accumulators, the fold stays in [0,1]. */
  lemma {:induction false} CompositeInUnit(acc: Color, ds: seq<Drawable>, x: nat, y: nat)
    requires UnitColor(acc) && AllRenderable(ds, x, y)
    ensures UnitColor(Composite(acc, ds, x, y))
    decreases |ds|
  {
    if ds != [] {
      var last := ds[|ds| - 1];
      CompositeInUnit(acc, ds[..|ds| - 1], x, y);
      OverInUnit(Composite(acc, ds[..|ds| - 1], x, y), ColorAt(last, x, y), last.Coverage(x, y));
    }
  }

  /** The alpha contribution of drawable `d` at (x, y): its colour's alpha times
      its shape factor. */
  function CoveredAlpha(d: Drawable, x: nat, y: nat): real
    requires d.Renderable(x, y)
  {
    ColorAt(d, x, y).a * d.Coverage(x, y) as real
  }

  /** One step updates alpha to the maximum of the old alpha and the drawable's
      contribution. */
  lemma OverAlpha(acc: Color, d: Drawable, x: nat, y: nat)
    requires d.Renderable(x, y)
    ensures Over(acc, ColorAt(d, x, y), d.Coverage(x, y)).a == Max(acc.a, CoveredAlpha(d, x, y))
  {
  }

  /** The alpha accumulator never decreases across the fold, and ends at least
      as large as every drawable's contribution. */
  lemma {:induction false} AlphaIsUpperBound(acc: Color, ds: seq<Drawable>, x: nat, y: nat)
    requires AllRenderable(ds, x, y)
    ensures Composite(acc, ds, x, y).a >= acc.a
    ensures forall i | 0 <= i < |ds| :: Composite(acc, ds, x, y).a >= CoveredAlpha(ds[i], x, y)
    decreases |ds|
  {
    if ds != [] {
      var n := |ds| - 1;
      var prefix := ds[..n];
      AlphaIsUpperBound(acc, prefix, x, y);
      OverAlpha(Composite(acc, prefix, x, y), ds[n], x, y);
      forall i | 0 <= i < n
        ensures Composite(acc, ds, x, y).a >= CoveredAlpha(ds[i], x, y)
      {
        assert ds[i] == prefix[i];
      }
    }
  }

  /** The final alpha is the starting alpha or one drawable's contribution: with
      AlphaIsUpperBound, it is their maximum. */
  lemma {:induction false} AlphaIsAttained(acc: Color, ds: seq<Drawable>, x: nat, y: nat)
    requires AllRenderable(ds, x, y)
    ensures Composite(acc, ds, x, y).a == acc.a ||
            exists i | 0 <= i < |ds| :: Composite(acc, ds, x, y).a == CoveredAlpha(ds[i], x, y)
    decreases |ds|
  {
    if ds != [] {
      var n := |ds| - 1;
      var prefix := ds[..n];
      AlphaIsAttained(acc, prefix, x, y);
      var before := Composite(acc, prefix, x, y).a;
      OverAlpha(Composite(acc, prefix, x, y), ds[n], x, y);
      if Composite(acc, ds, x, y).a != CoveredAlpha(ds[n], x, y) && before != acc.a {
        var i :| 0 <= i < n && before == CoveredAlpha(prefix[i], x, y);
        assert ds[i] == prefix[i];
      }
    }
  }

  /** Alpha never decreases along the fold: after more drawables it is at least
      what it was after fewer. */
  lemma {:induction false} AlphaNonDecreasing(acc: Color, ds: seq<Drawable>, i: nat, j: nat, x: nat, y: nat)
    requires AllRenderable(ds, x, y) && i <= j <= |ds|
    ensures AllRenderable(ds[..i], x, y) && AllRenderable(ds[..j], x, y)
    ensures Composite(acc, ds[..i], x, y).a <= Composite(acc, ds[..j], x, y).a
    decreases j - i
  {
    if i < j {
      AlphaNonDecreasing(acc, ds, i, j - 1, x, y);
      var d := ds[j - 1];
      assert ds[..j] == ds[..j - 1] + [d];
      CompositeSnoc(acc, ds[..j - 1], d, x, y);
      OverAlpha(Composite(acc, ds[..j - 1], x, y), d, x, y);
    } else {
      assert forall k | 0 <= k < i :: ds[..i][k] == ds[k];
    }
  }

  /** The drawables of `ds` that cover pixel (x, y), in their original order. */
  function Covering(ds: seq<Drawable>, x: nat, y: nat): (r: seq<Drawable>)
    requires AllRenderable(ds, x, y)
    ensures |r| <= |ds|
    ensures AllRenderable(r, x, y)
    ensures forall i | 0 <= i < |r| :: r[i].Coverage(x, y) == 1
    ensures forall i | 0 <= i < |ds| && ds[i].Coverage(x, y) == 1 :: ds[i] in r
    decreases |ds|
  {
    if ds == [] then []
    else
      var last := ds[|ds| - 1];
      var rest := Covering(ds[..|ds| - 1], x, y);
      if last.Coverage(x, y) == 0 then rest else rest + [last]
  }

  /** Drawables whose shape is 0 at (x, y) do not affect the pixel: the fold over
      the covering drawables alone gives the same accumulators. */
  lemma {:induction false} UncoveredDrawablesVanish(acc: Color, ds: seq<Drawable>, x: nat, y: nat)
    requires acc.a >= 0.0 && AllRenderable(ds, x, y)
    ensures Composite(acc, ds, x, y) == Composite(acc, Covering(ds, x, y), x, y)
    decreases |ds|
  {
    if ds != [] {
      var n := |ds| - 1;
      var last := ds[n];
      var prefix := ds[..n];
      UncoveredDrawablesVanish(acc, prefix, x, y);
      AlphaIsUpperBound(acc, prefix, x, y);
      var rest := Covering(prefix, x, y);
      if last.Coverage(x, y) == 0 {
        OverUncovered(Composite(acc, prefix, x, y), ColorAt(last, x, y));
      } else {
        CompositeSnoc(acc, rest, last, x, y);
      }
    }
  }

  /** When no drawable covers (x, y), the accumulators keep their start value. */
  lemma {:induction false} NothingCoveringKeepsAccumulators(acc: Color, ds: seq<Drawable>, x: nat, y: nat)
    requires acc.a >= 0.0 && AllRenderable(ds, x, y)
    requires forall i | 0 <= i < |ds| :: ds[i].Coverage(x, y) == 0
    ensures Composite(acc, ds, x, y) == acc
    decreases |ds|
  {
    if ds != [] {
      var n := |ds| - 1;
      var prefix := ds[..n];
      assert forall i | 0 <= i < n :: prefix[i] == ds[i];
      NothingCoveringKeepsAccumulators(acc, prefix, x, y);
      OverUncovered(acc, ColorAt(ds[n], x, y));
    }
  }

  /** When every drawable contributes alpha 0 at (x, y), because its shape is 0
      or its colour is fully transparent there, the accumulators keep their
      start value. */
  lemma {:induction false} InvisibleDrawablesKeepAccumulators(acc: Color, ds: seq<Drawable>, x: nat, y: nat)
    requires acc.a >= 0.0 && AllRenderable(ds, x, y)
    requires forall i | 0 <= i < |ds| :: CoveredAlpha(ds[i], x, y) == 0.0
    ensures Composite(acc, ds, x, y) == acc
    decreases |ds|
  {
    if ds != [] {
      var n := |ds| - 1;
      var prefix := ds[..n];
      assert forall i | 0 <= i < n :: prefix[i] == ds[i];
      InvisibleDrawablesKeepAccumulators(acc, prefix, x, y);
      var c := ColorAt(ds[n], x, y);
      var s := ds[n].Coverage(x, y);
      assert c.a * s as real == 0.0;
      if s == 0 {
        OverUncovered(acc, c);
      } else {
        assert c.a == 0.0;
        OverTransparent(acc, c, s);
      }
    }
  }

  /** The positions in `ds` of the drawables covering (x, y), in increasing order. */
  function CoveringIndices(ds: seq<Drawable>, x: nat, y: nat): seq<nat>
    requires AllRenderable(ds, x, y)
    decreases |ds|
  {
    if ds == [] then []
    else
      var n := |ds| - 1;
      var rest := CoveringIndices(ds[..n], x, y);
      if ds[n].Coverage(x, y) == 0 then rest else rest + [n]
  }

  /** `Covering` is a subsequence of `ds`: it takes the drawables at strictly
      increasing positions, and those are exactly the covering positions. */
  lemma CoveringIsSubsequence(ds: seq<Drawable>, x: nat, y: nat)
    requires AllRenderable(ds, x, y)
    ensures |CoveringIndices(ds, x, y)| == |Covering(ds, x, y)|
    ensures forall k | 0 <= k < |CoveringIndices(ds, x, y)| ::
              CoveringIndices(ds, x, y)[k] < |ds| && ds[CoveringIndices(ds, x, y)[k]] == Covering(ds, x, y)[k]
    ensures forall k, l | 0 <= k < l < |CoveringIndices(ds, x, y)| ::
              CoveringIndices(ds, x, y)[k] < CoveringIndices(ds, x, y)[l]
    ensures forall i | 0 <= i < |ds| :: i in CoveringIndices(ds, x, y) <==> ds[i].Coverage(x, y) == 1
  {
    CoveringIndicesPick(ds, x, y);
    CoveringIndicesIncrease(ds, x, y);
    CoveringIndicesExact(ds, x, y);
  }

  lemma {:induction false} CoveringIndicesPick(ds: seq<Drawable>, x: nat, y: nat)
    requires AllRenderable(ds, x, y)
    ensures |CoveringIndices(ds, x, y)| == |Covering(ds, x, y)|
    ensures forall k | 0 <= k < |CoveringIndices(ds, x, y)| ::
              CoveringIndices(ds, x, y)[k] < |ds| && ds[CoveringIndices(ds, x, y)[k]] == Covering(ds, x, y)[k]
    decreases |ds|
  {
    if ds != [] {
      var n := |ds| - 1;
      var prefix := ds[..n];
      assert AllRenderable(prefix, x, y);
      CoveringIndicesPick(prefix, x, y);
      var rest := CoveringIndices(prefix, x, y);
      var kept := Covering(prefix, x, y);
      if ds[n].Coverage(x, y) == 1 {
        var idx := rest + [n];
        assert CoveringIndices(ds, x, y) == idx;
        assert Covering(ds, x, y) == kept + [ds[n]];
        forall k | 0 <= k < |idx|
          ensures idx[k] < |ds| && ds[idx[k]] == Covering(ds, x, y)[k]
        {
          if k < |rest| {
            assert prefix[rest[k]] == kept[k];
          }
        }
      } else {
        assert CoveringIndices(ds, x, y) == rest;
        assert Covering(ds, x, y) == kept;
        forall k | 0 <= k < |rest|
          ensures rest[k] < |ds| && ds[rest[k]] == kept[k]
        {
          assert prefix[rest[k]] == kept[k];
        }
      }
    }
  }

  lemma {:induction false} CoveringIndicesIncrease(ds: seq<Drawable>, x: nat, y: nat)
    requires AllRenderable(ds, x, y)
    ensures forall i | i in CoveringIndices(ds, x, y) :: i < |ds|
    ensures forall k, l | 0 <= k < l < |CoveringIndices(ds, x, y)| ::
              CoveringIndices(ds, x, y)[k] < CoveringIndices(ds, x, y)[l]
    decreases |ds|
  {
    if ds != [] {
      var n := |ds| - 1;
      var prefix := ds[..n];
      assert AllRenderable(prefix, x, y);
      CoveringIndicesIncrease(prefix, x, y);
      var rest := CoveringIndices(prefix, x, y);
      if ds[n].Coverage(x, y) == 1 {
        var idx := rest + [n];
        assert CoveringIndices(ds, x, y) == idx;
        forall k, l | 0 <= k < l < |idx|
          ensures idx[k] < idx[l]
        {
          assert idx[k] == rest[k] && rest[k] in rest;
        }
      } else {
        assert CoveringIndices(ds, x, y) == rest;
      }
    }
  }

  lemma {:induction false} CoveringIndicesExact(ds: seq<Drawable>, x: nat, y: nat)
    requires AllRenderable(ds, x, y)
    ensures forall i | 0 <= i < |ds| :: i in CoveringIndices(ds, x, y) <==> ds[i].Coverage(x, y) == 1
    decreases |ds|
  {
    if ds != [] {
      var n := |ds| - 1;
      var prefix := ds[..n];
      assert AllRenderable(prefix, x, y);
      CoveringIndicesExact(prefix, x, y);
      CoveringIndicesIncrease(prefix, x, y);
      assert forall i | i in CoveringIndices(prefix, x, y) :: i < |prefix|;
      var rest := CoveringIndices(prefix, x, y);
      assert n !in rest;
      forall i | 0 <= i < |ds|
        ensures i in CoveringIndices(ds, x, y) <==> ds[i].Coverage(x, y) == 1
      {
        if i < n {
          assert prefix[i] == ds[i];
        }
      }
    }
  }

  /** The colour channels of a covering opaque drawable hide everything composed
      before it: the result's r, g, b do not depend on the starting accumulators
      or on the drawables before position k. */
  lemma {:induction false} OpaqueHidesEarlier(acc: Color, other: Color, ds: seq<Drawable>, k: nat, x: nat, y: nat)
    requires AllRenderable(ds, x, y) && k < |ds|
    requires ds[k].Coverage(x, y) == 1 && ColorAt(ds[k], x, y).a == 1.0
    ensures AllRenderable(ds[k..], x, y)
    ensures SameRgb(Composite(acc, ds, x, y), Composite(other, ds[k..], x, y))
    decreases |ds|
  {
    var n := |ds| - 1;
    var last := ds[n];
    var c, s := ColorAt(last, x, y), last.Coverage(x, y);
    assert ds == ds[..n] + [last];
    assert ds[k..] == ds[k..n] + [last];
    CompositeSnoc(acc, ds[..n], last, x, y);
    CompositeSnoc(other, ds[k..n], last, x, y);
    if n == k {
      assert ds[k..n] == [];
      OverOpaqueRgb(Composite(acc, ds[..n], x, y), c);
      OverOpaqueRgb(other, c);
    } else {
      assert ds[..n][k..] == ds[k..n];
      OpaqueHidesEarlier(acc, other, ds[..n], k, x, y);
      OverKeepsSameRgb(Composite(acc, ds[..n], x, y), Composite(other, ds[k..n], x, y), c, s);
    }
  }

  /** One step maps accumulators with equal r, g, b to accumulators with equal r, g, b. */
  lemma OverKeepsSameRgb(acc: Color, other: Color, c: Color, s: int)
    requires SameRgb(acc, other)
    ensures SameRgb(Over(acc, c, s), Over(other, c, s))
  {
  }

  predicate SameRgb(c: Color, d: Color) {
    c.r == d.r && c.g == d.g && c.b == d.b
  }

  /** Painter's order: when drawable k covers (x, y) opaquely and no later drawable
      covers it, the pixel takes drawable k's colour with full alpha. */
  lemma {:induction false} LastOpaqueWins(acc: Color, ds: seq<Drawable>, k: nat, x: nat, y: nat)
    requires UnitColor(acc) && AllRenderable(ds, x, y) && k < |ds|
    requires ds[k].Coverage(x, y) == 1 && ColorAt(ds[k], x, y).a == 1.0
    requires forall j | k < j < |ds| :: ds[j].Coverage(x, y) == 0
    ensures var c := ColorAt(ds[k], x, y);
            Composite(acc, ds, x, y) == Color(c.r, c.g, c.b, 1.0)
    decreases |ds|
  {
    var n := |ds| - 1;
    assert forall i | 0 <= i < n :: ds[..n][i] == ds[i];
    CompositeInUnit(acc, ds[..n], x, y);
    if n == k {
      OverOpaque(Composite(acc, ds[..n], x, y), ColorAt(ds[k], x, y));
    } else {
      LastOpaqueWins(acc, ds[..n], k, x, y);
      OverUncovered(Composite(acc, ds[..n], x, y), ColorAt(ds[n], x, y));
    }
  }

  // ---------------------------------------------------------------------------
  // The pixel write-back

  /** drawPixel on one pixel: read its bytes as normalised accumulators, fold the
      drawables over them and write them back as rounded bytes. */
  function RenderPixel(p: Pixel, ds: seq<Drawable>, x: nat, y: nat): Pixel
    requires AllRenderable(ds, x, y)
  {
    CompositeInUnit(DecodePixel(p), ds, x, y);
    EncodePixel(Composite(DecodePixel(p), ds, x, y))
  }

  /** A pixel that no drawable covers keeps its bytes. */
  lemma UncoveredPixelUnchanged(p: Pixel, ds: seq<Drawable>, x: nat, y: nat)
    requires AllRenderable(ds, x, y)
    requires forall i | 0 <= i < |ds| :: ds[i].Coverage(x, y) == 0
    ensures RenderPixel(p, ds, x, y) == p
  {
    NothingCoveringKeepsAccumulators(DecodePixel(p), ds, x, y);
    PixelRoundTrip(p);
  }

  // ---------------------------------------------------------------------------
  // drawPixel as written reads the bytes without dividing by 255.

  /** The accumulators drawPixel starts from as written: the raw byte values. */
  function RawStart(p: Pixel): Color {
    Color(p.r as real, p.g as real, p.b as real, p.a as real)
  }

  /** The values drawPixel as written hands to its `(png_byte)` casts: each
      accumulator after the fold from the raw bytes, times 255, rounded. */
  function RawWriteBack(p: Pixel, ds: seq<Drawable>, x: nat, y: nat): seq<int>
    requires AllRenderable(ds, x, y)
  {
    var c := Composite(RawStart(p), ds, x, y);
    [Round(c.r * 255.0), Round(c.g * 255.0), Round(c.b * 255.0), Round(c.a * 255.0)]
  }

  /** As written, a pixel no drawable covers is scaled by 255 instead of being
      kept: an opaque white pixel would be written back as 65025 per channel,
      which is no byte. */
  lemma RawReadScalesUncoveredPixel(p: Pixel, ds: seq<Drawable>, x: nat, y: nat)
    requires AllRenderable(ds, x, y)
    requires forall i | 0 <= i < |ds| :: ds[i].Coverage(x, y) == 0
    ensures RawWriteBack(p, ds, x, y) == [p.r * 255, p.g * 255, p.b * 255, p.a * 255]
    ensures p == Pixel(255, 255, 255, 255) ==> RawWriteBack(p, ds, x, y)[0] == 65025
    ensures RenderPixel(p, ds, x, y) == p
  {
    NothingCoveringKeepsAccumulators(RawStart(p), ds, x, y);
    var c := Composite(RawStart(p), ds, x, y);
    assert c.r * 255.0 == (p.r * 255) as real && c.g * 255.0 == (p.g * 255) as real;
    assert c.b * 255.0 == (p.b * 255) as real && c.a * 255.0 == (p.a * 255) as real;
    RoundInteger(p.r * 255);
    RoundInteger(p.g * 255);
    RoundInteger(p.b * 255);
    RoundInteger(p.a * 255);
    UncoveredPixelUnchanged(p, ds, x, y);
  }
}
