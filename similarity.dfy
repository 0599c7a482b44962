/** The sums `Canvas::compare` accumulates over two equally sized pixel grids.
    The score it returns is sumSquareDiff / sqrt(sumSquareA * sumSquareB). */
module Similarity {
  import opened Types

  /** The three running sums of `compare`. */
  datatype Sums = Sums(sumSquareDiff: int, sumSquareA: int, sumSquareB: int)

  /** The sum of a pixel's four bytes. */
  function ChannelSum(p: Pixel): (s: int)
    ensures 0 <= s <= 1020
    ensures s == 0 <==> p == Pixel(0, 0, 0, 0)
  {
    p.r + p.g + p.b + p.a
  }

  function Add(s: Sums, t: Sums): Sums {
    Sums(s.sumSquareDiff + t.sumSquareDiff, s.sumSquareA + t.sumSquareA, s.sumSquareB + t.sumSquareB)
  }

  /** What one pixel pair adds to the sums. */
  function PixelSums(p: Pixel, q: Pixel): Sums {
    var sa := ChannelSum(p);
    var sb := ChannelSum(q);
    Sums((sa - sb) * (sa - sb), sa * sa, sb * sb)
  }

  predicate SameShape(ga: seq<seq<Pixel>>, gb: seq<seq<Pixel>>) {
    |ga| == |gb| && forall y | 0 <= y < |ga| :: |ga[y]| == |gb[y]|
  }

  /** The sums over the first w pixels of row y, left to right. */
  function RowSums(ga: seq<seq<Pixel>>, gb: seq<seq<Pixel>>, y: nat, w: nat): Sums
    requires SameShape(ga, gb) && y < |ga| && w <= |ga[y]|
  {
    if w == 0 then Sums(0, 0, 0)
    else Add(RowSums(ga, gb, y, w - 1), PixelSums(ga[y][w - 1], gb[y][w - 1]))
  }

  /** The sums over the first h rows, top to bottom. */
  function GridSums(ga: seq<seq<Pixel>>, gb: seq<seq<Pixel>>, h: nat): Sums
    requires SameShape(ga, gb) && h <= |ga|
  {
    if h == 0 then Sums(0, 0, 0)
    else Add(GridSums(ga, gb, h - 1), RowSums(ga, gb, h - 1, |ga[h - 1]|))
  }

  /** The sums `compare` accumulates over two whole grids, in row-major order. */
  function CompareSums(ga: seq<seq<Pixel>>, gb: seq<seq<Pixel>>): Sums
    requires SameShape(ga, gb)
  {
    GridSums(ga, gb, |ga|)
  }

  /** The channel sums of pixel pairs in the first h rows agree. */
  predicate SameChannelSums(ga: seq<seq<Pixel>>, gb: seq<seq<Pixel>>, h: nat)
    requires SameShape(ga, gb) && h <= |ga|
  {
    forall y, x | 0 <= y < h && 0 <= x < |ga[y]| :: ChannelSum(ga[y][x]) == ChannelSum(gb[y][x])
  }

  /** Some pixel of the first h rows has a non-zero byte. */
  predicate NotAllZero(g: seq<seq<Pixel>>, h: nat)
    requires h <= |g|
  {
    exists y, x | 0 <= y < h && 0 <= x < |g[y]| :: g[y][x] != Pixel(0, 0, 0, 0)
  }

  lemma SquareNonNegative(d: int)
    ensures d * d >= 0
    ensures d * d == 0 <==> d == 0
  {
    if d < 0 {
      assert d * d == (-d) * (-d);
    }
  }

  /** What one pixel pair adds is non-negative and is symmetric in the pair. */
  lemma PixelSumsFacts(p: Pixel, q: Pixel)
    ensures PixelSums(p, q).sumSquareDiff >= 0
    ensures PixelSums(p, q).sumSquareDiff == 0 <==> ChannelSum(p) == ChannelSum(q)
    ensures PixelSums(p, q).sumSquareA >= 0 && PixelSums(p, q).sumSquareB >= 0
    ensures PixelSums(p, q).sumSquareA == 0 <==> p == Pixel(0, 0, 0, 0)
    ensures PixelSums(q, p) == Swapped(PixelSums(p, q))
  {
    var sa := ChannelSum(p);
    var sb := ChannelSum(q);
    SquareNonNegative(sa - sb);
    SquareNonNegative(sa);
    SquareNonNegative(sb);
    assert (sb - sa) * (sb - sa) == (sa - sb) * (sa - sb);
  }

  /** The sums with the two grids exchanged. */
  function Swapped(s: Sums): Sums {
    Sums(s.sumSquareDiff, s.sumSquareB, s.sumSquareA)
  }

  // ---------------------------------------------------------------------------
  // Row lemmas

  lemma {:induction false} RowSumsSymmetric(ga: seq<seq<Pixel>>, gb: seq<seq<Pixel>>, y: nat, w: nat)
    requires SameShape(ga, gb) && y < |ga| && w <= |ga[y]|
    ensures SameShape(gb, ga)
    ensures RowSums(gb, ga, y, w) == Swapped(RowSums(ga, gb, y, w))
  {
    if w > 0 {
      RowSumsSymmetric(ga, gb, y, w - 1);
      PixelSumsFacts(ga[y][w - 1], gb[y][w - 1]);
    }
  }

  lemma {:induction false} RowSumsNonNegative(ga: seq<seq<Pixel>>, gb: seq<seq<Pixel>>, y: nat, w: nat)
    requires SameShape(ga, gb) && y < |ga| && w <= |ga[y]|
    ensures RowSums(ga, gb, y, w).sumSquareDiff >= 0
    ensures RowSums(ga, gb, y, w).sumSquareA >= 0 && RowSums(ga, gb, y, w).sumSquareB >= 0
  {
    if w > 0 {
      RowSumsNonNegative(ga, gb, y, w - 1);
      PixelSumsFacts(ga[y][w - 1], gb[y][w - 1]);
    }
  }

  /** The first w pixel pairs of row y add nothing to sumSquareDiff exactly when
      each pair has equal channel sums. */
  lemma {:induction false} RowDiffZeroIff(ga: seq<seq<Pixel>>, gb: seq<seq<Pixel>>, y: nat, w: nat)
    requires SameShape(ga, gb) && y < |ga| && w <= |ga[y]|
    ensures RowSums(ga, gb, y, w).sumSquareDiff == 0 <==>
            forall x | 0 <= x < w :: ChannelSum(ga[y][x]) == ChannelSum(gb[y][x])
  {
    if w > 0 {
      RowDiffZeroIff(ga, gb, y, w - 1);
      RowSumsNonNegative(ga, gb, y, w - 1);
      PixelSumsFacts(ga[y][w - 1], gb[y][w - 1]);
    }
  }

  /** The first w pixels of row y add nothing to sumSquareA exactly when they are
      all zero. */
  lemma {:induction false} RowSquareZeroIff(ga: seq<seq<Pixel>>, gb: seq<seq<Pixel>>, y: nat, w: nat)
    requires SameShape(ga, gb) && y < |ga| && w <= |ga[y]|
    ensures RowSums(ga, gb, y, w).sumSquareA == 0 <==>
            forall x | 0 <= x < w :: ga[y][x] == Pixel(0, 0, 0, 0)
  {
    if w > 0 {
      RowSquareZeroIff(ga, gb, y, w - 1);
      RowSumsNonNegative(ga, gb, y, w - 1);
      PixelSumsFacts(ga[y][w - 1], gb[y][w - 1]);
    }
  }

  // ---------------------------------------------------------------------------
  // Grid lemmas

  /** Swapping the two canvases swaps sumSquareA and sumSquareB and keeps
      sumSquareDiff. */
  lemma {:induction false} GridSumsSymmetric(ga: seq<seq<Pixel>>, gb: seq<seq<Pixel>>, h: nat)
    requires SameShape(ga, gb) && h <= |ga|
    ensures SameShape(gb, ga)
    ensures GridSums(gb, ga, h) == Swapped(GridSums(ga, gb, h))
  {
    if h > 0 {
      GridSumsSymmetric(ga, gb, h - 1);
      RowSumsSymmetric(ga, gb, h - 1, |ga[h - 1]|);
    }
  }

  lemma {:induction false} GridSumsNonNegative(ga: seq<seq<Pixel>>, gb: seq<seq<Pixel>>, h: nat)
    requires SameShape(ga, gb) && h <= |ga|
    ensures GridSums(ga, gb, h).sumSquareDiff >= 0
    ensures GridSums(ga, gb, h).sumSquareA >= 0 && GridSums(ga, gb, h).sumSquareB >= 0
  {
    if h > 0 {
      GridSumsNonNegative(ga, gb, h - 1);
      RowSumsNonNegative(ga, gb, h - 1, |ga[h - 1]|);
    }
  }

  /** sumSquareDiff over the first h rows is 0 exactly when every pixel pair there
      has equal channel sums. */
  lemma {:induction false} GridDiffZeroIff(ga: seq<seq<Pixel>>, gb: seq<seq<Pixel>>, h: nat)
    requires SameShape(ga, gb) && h <= |ga|
    ensures GridSums(ga, gb, h).sumSquareDiff == 0 <==> SameChannelSums(ga, gb, h)
  {
    if h > 0 {
      GridDiffZeroIff(ga, gb, h - 1);
      GridSumsNonNegative(ga, gb, h - 1);
      RowSumsNonNegative(ga, gb, h - 1, |ga[h - 1]|);
      RowDiffZeroIff(ga, gb, h - 1, |ga[h - 1]|);
    }
  }

  /** sumSquareA over the first h rows is 0 exactly when every byte there is 0. */
  lemma {:induction false} GridSquareZeroIff(ga: seq<seq<Pixel>>, gb: seq<seq<Pixel>>, h: nat)
    requires SameShape(ga, gb) && h <= |ga|
    ensures GridSums(ga, gb, h).sumSquareA == 0 <==> !NotAllZero(ga, h)
  {
    if h > 0 {
      GridSquareZeroIff(ga, gb, h - 1);
      GridSumsNonNegative(ga, gb, h - 1);
      RowSumsNonNegative(ga, gb, h - 1, |ga[h - 1]|);
      RowSquareZeroIff(ga, gb, h - 1, |ga[h - 1]|);
    }
  }

  // ---------------------------------------------------------------------------
  // The score

  /** The score is defined when neither grid is all zero. Otherwise the divisor
      sqrt(sumSquareA * sumSquareB) is 0: two all-zero grids give 0/0, and a
      single one gives a positive difference sum over 0, which is infinite in
      `double`. */
  predicate ScoreDefined(s: Sums) {
    s.sumSquareA > 0 && s.sumSquareB > 0
  }

  /** The square of the score sumSquareDiff / sqrt(sumSquareA * sumSquareB); the
      score is its non-negative square root. */
  function SquaredScore(s: Sums): (q: real)
    requires ScoreDefined(s)
    ensures q >= 0.0
    ensures q == 0.0 <==> s.sumSquareDiff == 0
  {
    var num := s.sumSquareDiff * s.sumSquareDiff;
    var den := s.sumSquareA * s.sumSquareB;
    SquareNonNegative(s.sumSquareDiff);
    PositiveProduct(s.sumSquareA, s.sumSquareB);
    num as real / den as real
  }

  lemma PositiveProduct(a: int, b: int)
    requires a > 0 && b > 0
    ensures a * b > 0
  {
  }

  /** compare is symmetric: swapping the canvases gives the same score. */
  lemma CompareSymmetric(ga: seq<seq<Pixel>>, gb: seq<seq<Pixel>>)
    requires SameShape(ga, gb) && ScoreDefined(CompareSums(ga, gb))
    ensures SameShape(gb, ga) && ScoreDefined(CompareSums(gb, ga))
    ensures SquaredScore(CompareSums(gb, ga)) == SquaredScore(CompareSums(ga, gb))
  {
    GridSumsSymmetric(ga, gb, |ga|);
    var s := CompareSums(ga, gb);
    assert s.sumSquareB * s.sumSquareA == s.sumSquareA * s.sumSquareB;
  }

  /** Two grids of the same shape, neither all zero: the score is defined, and it
      is 0 exactly when every pixel pair has equal channel sums. */
  lemma CompareZeroIff(ga: seq<seq<Pixel>>, gb: seq<seq<Pixel>>)
    requires SameShape(ga, gb) && NotAllZero(ga, |ga|) && NotAllZero(gb, |gb|)
    ensures ScoreDefined(CompareSums(ga, gb))
    ensures SquaredScore(CompareSums(ga, gb)) == 0.0 <==> SameChannelSums(ga, gb, |ga|)
  {
    GridSumsNonNegative(ga, gb, |ga|);
    GridSquareZeroIff(ga, gb, |ga|);
    GridSumsSymmetric(ga, gb, |ga|);
    GridSquareZeroIff(gb, ga, |gb|);
    GridDiffZeroIff(ga, gb, |ga|);
  }

  /** A grid compared with an identical grid scores 0, provided it is not all zero. */
  lemma CompareIdenticalIsZero(g: seq<seq<Pixel>>)
    requires NotAllZero(g, |g|)
    ensures SameShape(g, g) && ScoreDefined(CompareSums(g, g))
    ensures SquaredScore(CompareSums(g, g)) == 0.0
  {
    CompareZeroIff(g, g);
  }

  /** The score sees only channel sums: an opaque red and an opaque green pixel
      score 0 against each other. */
  lemma CompareIgnoresChannelOrder()
    ensures var ga := [[Pixel(255, 0, 0, 255)]];
            var gb := [[Pixel(0, 255, 0, 255)]];
            ga != gb && SameShape(ga, gb) && ScoreDefined(CompareSums(ga, gb)) &&
            CompareSums(ga, gb).sumSquareDiff == 0 && SquaredScore(CompareSums(ga, gb)) == 0.0
  {
    var ga := [[Pixel(255, 0, 0, 255)]];
    var gb := [[Pixel(0, 255, 0, 255)]];
    assert ga[0][0] != gb[0][0];
    assert CompareSums(ga, gb) == RowSums(ga, gb, 0, 1);
  }
}
