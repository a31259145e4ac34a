/** The icon rasteriser: a 32x32 RGBA surface, clipped rectangles and thick Bresenham lines. */
module Raster {
  import opened Arith
  import opened Bytes

  const SIZE: int := 32

  datatype Color = Color(r: byte, g: byte, b: byte, a: byte)

  datatype Point = Point(x: int, y: int)

  /** Source-over compositing as the canvas does it: opaque colours replace, others blend per channel. */
  function Over(c: Color, d: Color): Color {
    if c.a == 255 then c
    else
      Color(Mix(c.r, d.r, c.a), Mix(c.g, d.g, c.a), Mix(c.b, d.b, c.a), AlphaOver(c.a, d.a))
  }

  function Mix(src: byte, dst: byte, a: byte): (m: byte)
    ensures src <= dst ==> src <= m <= dst
    ensures dst <= src ==> dst <= m <= src
  {
    var s: int, d: int, k: int := src, dst, a;
    MixBounds(s, d, k);
    (s * k + d * (255 - k)) / 255
  }

  lemma MixBounds(s: int, d: int, a: int)
    requires 0 <= a <= 255 && 0 <= s <= 255 && 0 <= d <= 255
    ensures s <= d ==> 255 * s <= s * a + d * (255 - a) <= 255 * d
    ensures d <= s ==> 255 * d <= s * a + d * (255 - a) <= 255 * s
  {
    assert d * (255 - a) == 255 * d - a * d && s * a == a * s;
    assert (255 - a) * s == 255 * s - a * s && (255 - a) * d == 255 * d - a * d;
    if s <= d {
      MulMono(a, s, d);
      MulMono(255 - a, s, d);
    } else {
      MulMono(a, d, s);
      MulMono(255 - a, d, s);
    }
  }

  function AlphaOver(a: byte, da: byte): (m: byte)
    ensures m >= a
  {
    var x: int, y: int := a, da;
    AlphaBounds(x, y);
    x + y * (255 - x) / 255
  }

  lemma AlphaBounds(x: int, y: int)
    requires 0 <= x <= 255 && 0 <= y <= 255
    ensures 0 <= y * (255 - x) / 255 <= 255 - x
  {
    var r := 255 - x;
    MulMono(r, 0, y);
    MulMono(r, y, 255);
    assert y * r == r * y;
    DivMono(0, y * r, 255);
    DivMono(y * r, 255 * r, 255);
  }

  /** `m` is the mean of `s` and `d` with weights `a` and 255 - `a`, rounded down. */
  predicate WeightedMean(m: int, s: int, d: int, a: int) {
    255 * m <= s * a + d * (255 - a) < 255 * m + 255
  }

  /**
   * What compositing shows: an opaque colour itself, a transparent one nothing, and any other in each channel the
   * mean weighted by its opacity, less than one step below the ideal one; what shone through keeps its share of the
   * opacity that is left.
   */
  lemma CompositeIsMean(c: Color, d: Color)
    ensures c.a == 255 ==> Over(c, d) == c
    ensures c.a == 0 ==> Over(c, d) == d
    ensures var o := Over(c, d);
            && WeightedMean(o.r, c.r, d.r, c.a) && WeightedMean(o.g, c.g, d.g, c.a) && WeightedMean(o.b, c.b, d.b, c.a)
            && WeightedMean(o.a - c.a, 0, d.a, c.a)
  {
    hide WeightedMean, Mix, AlphaOver;
    MixIsMean(c.r, d.r, c.a);
    MixIsMean(c.g, d.g, c.a);
    MixIsMean(c.b, d.b, c.a);
    AlphaIsMean(c.a, d.a);
    OpaqueMean(c.r, d.r);
    OpaqueMean(c.g, d.g);
    OpaqueMean(c.b, d.b);
    OpaqueMean(0, d.a);
  }

  lemma OpaqueMean(s: int, d: int)
    ensures WeightedMean(s, s, d, 255)
  {
  }

  lemma MixIsMean(s: byte, d: byte, a: byte)
    ensures WeightedMean(Mix(s, d, a), s, d, a) && (a == 0 ==> Mix(s, d, a) == d)
  {
    var x: int, y: int, k: int := s, d, a;
    assert Mix(s, d, a) == (x * k + y * (255 - k)) / 255;
  }

  lemma AlphaIsMean(a: byte, da: byte)
    ensures WeightedMean(AlphaOver(a, da) - a, 0, da, a) && (a == 0 ==> AlphaOver(a, da) == da)
  {
    var y: int, k: int := da, a;
    assert AlphaOver(a, da) - a == y * (255 - k) / 255;
  }

  /** A pixel that was `d`, composited with `c` when it was hit. */
  function Touched(d: Color, hit: bool, c: Color): Color {
    if hit then Over(c, d) else d
  }

  predicate OnCanvas(x: int, y: int) {
    0 <= x < SIZE && 0 <= y < SIZE
  }

  /** Where the four bytes of a pixel start: row-major RGBA. */
  function Offset(x: int, y: int): int {
    (y * 32 + x) * 4
  }

  type Image = px: seq<byte> | |px| == 4096 witness seq(4096, _ => 0)

  /** The colour of a pixel in the byte image. */
  function PixelAt(px: Image, x: int, y: int): Color
    requires OnCanvas(x, y)
  {
    var o := Offset(x, y);
    Color(px[o], px[o + 1], px[o + 2], px[o + 3])
  }

  /** `after` is `before` with the pixels of the half-open rectangle composited once with `c`. */
  ghost predicate Painted(before: Image, after: Image, x0: int, y0: int, x1: int, y1: int, c: Color) {
    forall i, j :: OnCanvas(i, j) ==>
         PixelAt(after, i, j) == Touched(PixelAt(before, i, j), x0 <= i < x1 && y0 <= j < y1, c)
  }

  /** `after` is `before` with the rows of the rectangle above `y`, and row `y` left of `x`, composited. */
  ghost predicate PartPainted(before: Image, after: Image, x0: int, y0: int, x1: int, y1: int, c: Color,
                              x: int, y: int) {
    forall i, j :: OnCanvas(i, j) ==>
         PixelAt(after, i, j)
         == Touched(PixelAt(before, i, j), x0 <= i < x1 && y0 <= j < y1 && (j < y || (j == y && i < x)), c)
  }

  // ------------------------------------------------------------------ ideal lines

  function Abs(a: int): nat {
    if a < 0 then -a else a
  }

  function Max(a: int, b: int): int {
    if a < b then b else a
  }

  /** `p / n` rounded to the nearest integer, halves up. */
  function Nearest(p: int, n: int): int
    requires n > 0
  {
    (2 * p + n) / (2 * n)
  }

  /** How many steps the line takes: the longer of its two extents. */
  function Steps(p: Point, q: Point): nat {
    Max(Abs(q.x - p.x), Abs(q.y - p.y))
  }

  function Toward(a: int, b: int): int {
    if a < b then 1 else -1
  }

  /** The pixel nearest to the `k`-th of `Steps` equal divisions of the segment from `p` to `q`. */
  function IdealPoint(p: Point, q: Point, k: nat): Point {
    var n := Steps(p, q);
    if n == 0 then p
    else Point(Axis(p.x, q.x, n, k), Axis(p.y, q.y, n, k))
  }

  function IdealPath(p: Point, q: Point, len: nat): (pts: seq<Point>) {
    seq(len, k requires 0 <= k => IdealPoint(p, q, k))
  }

  /** The whole digital line from `p` to `q`. */
  function DigitalLine(p: Point, q: Point): (pts: seq<Point>) {
    IdealPath(p, q, Steps(p, q) + 1)
  }

  lemma NearestCharacterised(p: int, n: int, m: int)
    requires n > 0
    ensures m == Nearest(p, n) <==> -n < 2 * (n * m - p) <= n
  {
    DivUnique(2 * p + n, 2 * n, m);
    assert 2 * n * m == 2 * (n * m);
  }

  lemma NearestOfMultiple(k: int, n: int)
    requires n > 0
    ensures Nearest(k * n, n) == k
  {
    NearestCharacterised(k * n, n, k);
  }

  /**
   * The digital line starts at `p`, ends at `q`, moves by king's moves that always advance the
   * longer axis, and stays within half a pixel of the segment on both axes.
   */
  lemma DigitalLineShape(p: Point, q: Point)
    ensures |DigitalLine(p, q)| == Steps(p, q) + 1
    ensures DigitalLine(p, q)[0] == p && DigitalLine(p, q)[Steps(p, q)] == q
    ensures forall k :: 0 < k <= Steps(p, q) ==> KingMove(DigitalLine(p, q)[k - 1], DigitalLine(p, q)[k])
    ensures forall k :: 0 <= k <= Steps(p, q) ==> NearSegment(p, q, k, DigitalLine(p, q)[k])
  {
    var n := Steps(p, q);
    if n > 0 {
      AxisEnds(p.x, q.x, n);
      AxisEnds(p.y, q.y, n);
      forall k | 0 < k <= n
        ensures KingMove(DigitalLine(p, q)[k - 1], DigitalLine(p, q)[k])
      {
        AxisMoves(p.x, q.x, n, k);
        AxisMoves(p.y, q.y, n, k);
      }
      forall k | 0 <= k <= n ensures NearSegment(p, q, k, DigitalLine(p, q)[k]) {
        AxisNear(p.x, q.x, n, k);
        AxisNear(p.y, q.y, n, k);
      }
    }
  }

  /** A step to one of the eight neighbours. */
  predicate KingMove(s: Point, t: Point) {
    Max(Abs(t.x - s.x), Abs(t.y - s.y)) == 1
  }

  /** `s` is within half a pixel, on both axes, of the `k`-th division of the segment from `p` to `q`. */
  predicate NearSegment(p: Point, q: Point, k: int, s: Point) {
    && Abs(2 * (Steps(p, q) * (s.x - p.x) - k * (q.x - p.x))) <= Steps(p, q)
    && Abs(2 * (Steps(p, q) * (s.y - p.y) - k * (q.y - p.y))) <= Steps(p, q)
  }

  /** One axis of the line: from `a` toward `b` in `n` divisions. */
  function Axis(a: int, b: int, n: int, k: nat): int
    requires n > 0
  {
    a + Toward(a, b) * Nearest(k * Abs(b - a), n)
  }

  lemma AxisEnds(a: int, b: int, n: int)
    requires 0 < n && Abs(b - a) <= n
    ensures Axis(a, b, n, 0) == a && Axis(a, b, n, n) == b
  {
    NearestCharacterised(0 * Abs(b - a), n, 0);
    NearestCharacterised(n * Abs(b - a), n, Abs(b - a));
  }

  lemma AxisMoves(a: int, b: int, n: int, k: nat)
    requires 0 < n && Abs(b - a) <= n && 0 < k
    ensures Abs(Axis(a, b, n, k) - Axis(a, b, n, k - 1)) <= 1
    ensures Abs(b - a) == n ==> Abs(Axis(a, b, n, k) - Axis(a, b, n, k - 1)) == 1
  {
    var d := Abs(b - a);
    var m := Nearest((k - 1) * d, n);
    NearestCharacterised((k - 1) * d, n, m);
    assert k * d == (k - 1) * d + d;
    assert n * (m + 1) == n * m + n;
    NearestCharacterised(k * d, n, m);
    NearestCharacterised(k * d, n, m + 1);
  }

  lemma AxisNear(a: int, b: int, n: int, k: nat)
    requires 0 < n
    ensures Abs(2 * (n * (Axis(a, b, n, k) - a) - k * (b - a))) <= n
  {
    var d: int := Abs(b - a);
    var m := Nearest(k * d, n);
    NearestCharacterised(k * d, n, m);
    if a < b {
      assert Axis(a, b, n, k) - a == m && b - a == d;
    } else {
      assert Axis(a, b, n, k) - a == -m && b - a == 0 - d;
      assert n * (0 - m) == 0 - n * m && k * (0 - d) == 0 - k * d;
    }
  }

  // ------------------------------------------------------------------- strokes

  /** Whether the square brush of width `w` centred at `p` covers the pixel (x, y). */
  predicate BrushCovers(p: Point, w: int, x: int, y: int) {
    && p.x - w / 2 <= x < p.x + w / 2 + w % 2
    && p.y - w / 2 <= y < p.y + w / 2 + w % 2
  }

  /** It is `w` pixels wide and high, with its middle at `p`. */
  lemma BrushIsCentred(p: Point, w: int, x: int, y: int)
    ensures BrushCovers(p, w, x, y) <==> -w <= 2 * (x - p.x) < w && -w <= 2 * (y - p.y) < w
  {
    assert w == 2 * (w / 2) + w % 2;
  }

  function Channel(c: Color, k: int): byte {
    if k == 0 then c.r else if k == 1 then c.g else if k == 2 then c.b else c.a
  }

  /** The image with the canvas pixels of the half-open rectangle composited once with `c`. */
  function PaintRect(px: Image, x0: int, y0: int, x1: int, y1: int, c: Color): Image {
    seq(4096, o requires 0 <= o < 4096 =>
      var x, y := o / 4 % 32, o / 128;
      Channel(Touched(PixelAt(px, x, y), x0 <= x < x1 && y0 <= y < y1, c), o % 4))
  }

  /** The image after the brush of width `w` has been put down once, centred at `p`. */
  function Dab(px: Image, p: Point, w: int, c: Color): Image {
    PaintRect(px, p.x - w / 2, p.y - w / 2, p.x + w / 2 + w % 2, p.y + w / 2 + w % 2, c)
  }

  /** The image after the brush has been put down at each of `pts` in turn. */
  function Stroke(px: Image, pts: seq<Point>, w: int, c: Color): Image {
    if pts == [] then px else Dab(Stroke(px, pts[..|pts| - 1], w, c), pts[|pts| - 1], w, c)
  }

  lemma OffsetParts(x: int, y: int, k: int)
    requires OnCanvas(x, y) && 0 <= k < 4
    ensures var o := Offset(x, y) + k; 0 <= o < 4096 && o / 4 % 32 == x && o / 128 == y && o % 4 == k
  {
  }

  lemma OffsetSplit(o: int)
    requires 0 <= o < 4096
    ensures OnCanvas(o / 4 % 32, o / 128) && o == Offset(o / 4 % 32, o / 128) + o % 4
  {
  }

  lemma ByteOfPixel(px: Image, x: int, y: int, k: int)
    requires OnCanvas(x, y) && 0 <= k < 4
    ensures 0 <= Offset(x, y) + k < 4096 && px[Offset(x, y) + k] == Channel(PixelAt(px, x, y), k)
  {
    OffsetParts(x, y, k);
  }

  lemma PaintedByte(px: Image, x0: int, y0: int, x1: int, y1: int, c: Color, o: nat)
    requires o < 4096
    ensures OnCanvas(o / 4 % 32, o / 128)
    ensures PaintRect(px, x0, y0, x1, y1, c)[o]
         == Channel(Touched(PixelAt(px, o / 4 % 32, o / 128), x0 <= o / 4 % 32 < x1 && y0 <= o / 128 < y1, c), o % 4)
  {
    hide Touched, PixelAt, Channel;
  }

  lemma PaintRectByte(px: Image, x0: int, y0: int, x1: int, y1: int, c: Color, x: int, y: int, k: int)
    requires OnCanvas(x, y) && 0 <= k < 4
    ensures Channel(PixelAt(PaintRect(px, x0, y0, x1, y1, c), x, y), k)
         == Channel(Touched(PixelAt(px, x, y), x0 <= x < x1 && y0 <= y < y1, c), k)
  {
    hide PaintRect, Touched, PixelAt, Channel, Offset;
    OffsetParts(x, y, k);
    ByteOfPixel(PaintRect(px, x0, y0, x1, y1, c), x, y, k);
    PaintedByte(px, x0, y0, x1, y1, c, Offset(x, y) + k);
  }

  lemma PaintRectPixel(px: Image, x0: int, y0: int, x1: int, y1: int, c: Color, x: int, y: int)
    requires OnCanvas(x, y)
    ensures PixelAt(PaintRect(px, x0, y0, x1, y1, c), x, y)
         == Touched(PixelAt(px, x, y), x0 <= x < x1 && y0 <= y < y1, c)
  {
    hide PaintRect, PixelAt, Touched;
    PaintRectByte(px, x0, y0, x1, y1, c, x, y, 0);
    PaintRectByte(px, x0, y0, x1, y1, c, x, y, 1);
    PaintRectByte(px, x0, y0, x1, y1, c, x, y, 2);
    PaintRectByte(px, x0, y0, x1, y1, c, x, y, 3);
  }

  /** An image that agrees with the painted one pixel by pixel is the painted one. */
  lemma PixelsMakeImage(px: Image, after: Image, x0: int, y0: int, x1: int, y1: int, c: Color)
    requires Painted(px, after, x0, y0, x1, y1, c)
    ensures after == PaintRect(px, x0, y0, x1, y1, c)
  {
    forall o | 0 <= o < 4096 ensures after[o] == PaintRect(px, x0, y0, x1, y1, c)[o] {
      OffsetSplit(o);
      ByteOfPixel(after, o / 4 % 32, o / 128, o % 4);
    }
  }

  lemma DabPixel(px: Image, p: Point, w: int, c: Color, x: int, y: int)
    requires OnCanvas(x, y)
    ensures PixelAt(Dab(px, p, w, c), x, y) == Touched(PixelAt(px, x, y), BrushCovers(p, w, x, y), c)
  {
    PaintRectPixel(px, p.x - w / 2, p.y - w / 2, p.x + w / 2 + w % 2, p.y + w / 2 + w % 2, c, x, y);
  }

  ghost predicate Covered(pts: seq<Point>, w: int, x: int, y: int) {
    exists k :: 0 <= k < |pts| && BrushCovers(pts[k], w, x, y)
  }

  lemma CoveredByLast(pts: seq<Point>, w: int, x: int, y: int)
    requires pts != []
    ensures Covered(pts, w, x, y)
       <==> Covered(pts[..|pts| - 1], w, x, y) || BrushCovers(pts[|pts| - 1], w, x, y)
  {
    var front := pts[..|pts| - 1];
    if k :| 0 <= k < |front| && BrushCovers(front[k], w, x, y) {
      assert BrushCovers(pts[k], w, x, y);
    }
  }

  /** An opaque stroke paints exactly the pixels some position of the brush covers. */
  lemma {:induction false} OpaqueStroke(px: Image, pts: seq<Point>, w: int, c: Color, x: int, y: int)
    requires c.a == 255 && OnCanvas(x, y)
    ensures PixelAt(Stroke(px, pts, w, c), x, y) == Touched(PixelAt(px, x, y), Covered(pts, w, x, y), c)
  {
    if pts != [] {
      var front := pts[..|pts| - 1];
      OpaqueStroke(px, front, w, c, x, y);
      CoveredByLast(pts, w, x, y);
      DabPixel(Stroke(px, front, w, c), pts[|pts| - 1], w, c, x, y);
    }
  }

  /** Replacing the four bytes of one pixel by its composited colour paints that pixel. */
  lemma OnePixelPainted(before: Image, after: Image, x: int, y: int, c: Color, color: Color)
    requires OnCanvas(x, y) && c == Over(color, PixelAt(before, x, y))
    requires var o := Offset(x, y); after == before[o := c.r][o + 1 := c.g][o + 2 := c.b][o + 3 := c.a]
    ensures Painted(before, after, x, y, x + 1, y + 1, color)
  {
    hide Over;
    var o := Offset(x, y);
    forall i, j | OnCanvas(i, j)
      ensures PixelAt(after, i, j) == Touched(PixelAt(before, i, j), x <= i < x + 1 && y <= j < y + 1, color)
    {
      if i != x || j != y {
        assert Offset(i, j) + 4 <= o || o + 4 <= Offset(i, j);
      }
    }
  }

  // ----------------------------------------------------------------- the canvas

  class Canvas {
    const px: array<byte>

    ghost predicate Valid() {
      px.Length == 4096
    }

    constructor ()
      ensures fresh(px) && Valid()
      ensures forall x, y :: OnCanvas(x, y) ==> PixelAt(px[..], x, y) == Color(0, 0, 0, 0)
    {
      px := new byte[4096](_ => 0);
    }

    /** Composites one pixel; off the canvas nothing happens. */
    method Set(x: int, y: int, color: Color)
      requires Valid()
      modifies px
      ensures Painted(old(px[..]), px[..], x, y, x + 1, y + 1, color)
    {
      if 0 <= x < SIZE && 0 <= y < SIZE {
        var o := Offset(x, y);
        var c := color;
        if color.a != 255 {
          c := Over(color, Color(px[o], px[o + 1], px[o + 2], px[o + 3]));
        }
        px[o], px[o + 1], px[o + 2], px[o + 3] := c.r, c.g, c.b, c.a;
        OnePixelPainted(old(px[..]), px[..], x, y, c, color);
      }
    }

    /** Every canvas pixel of the half-open rectangle is composited once, every other one kept. */
    method Rect(x0: int, y0: int, x1: int, y1: int, color: Color)
      requires Valid()
      modifies px
      ensures px[..] == PaintRect(old(px[..]), x0, y0, x1, y1, color)
    {
      var y := Max(0, y0);
      while y < SIZE && y < y1
        invariant 0 <= y
        invariant PartPainted(old(px[..]), px[..], x0, y0, x1, y1, color, 0, y)
        decreases SIZE - y
      {
        var x := Max(0, x0);
        while x < SIZE && x < x1
          invariant 0 <= x && x0 <= x
          invariant PartPainted(old(px[..]), px[..], x0, y0, x1, y1, color, x, y)
          decreases SIZE - x
        {
          Set(x, y, color);
          x := x + 1;
        }
        y := y + 1;
      }
      PixelsMakeImage(old(px[..]), px[..], x0, y0, x1, y1, color);
    }

    /** Bresenham's loop puts the brush down at exactly the points of the digital line, in order. */
    method Line(x0: int, y0: int, x1: int, y1: int, w: int, color: Color)
      requires Valid()
      modifies px
      ensures px[..] == Stroke(old(px[..]), DigitalLine(Point(x0, y0), Point(x1, y1)), w, color)
    {
      hide Stroke, PenPath, DigitalLine, PaintRect, Trace, Steps;
      var dx: int := Abs(x1 - x0);
      var dy: int := 0 - Abs(y1 - y0);
      var sx := Toward(x0, x1);
      var sy := Toward(y0, y1);
      var err := dx + dy;
      var r := w / 2;
      var x, y := x0, y0;

      ghost var p, q, k := Point(x0, y0), Point(x1, y1), 0;
      NoDab(px[..], p, q, w, color);
      TraceStarts(p, q);
      while true
        invariant 0 <= k <= Steps(p, q)
        invariant Pen(Point(x, y), err) == Trace(p, q, k)
        invariant px[..] == Stroke(old(px[..]), PenPath(p, q, k), w, color)
        decreases Steps(p, q) - k
      {
        Rect(x - r, y - r, x + r + w % 2, y + r + w % 2, color);
        OneMoreDab(old(px[..]), p, q, k, w, color);
        EndsAtLastStep(p, q, k);
        if x == x1 && y == y1 {
          break;
        }
        var e2 := 2 * err;
        if e2 >= dy {
          err := err + dy;
          x := x + sx;
        }
        if e2 <= dx {
          err := err + dx;
          y := y + sy;
        }
        TraceGoesOn(p, q, k);
        k := k + 1;
      }
      PenPathIsDigitalLine(p, q);
    }
  }

  // ------------------------------------------------ the error term of the loop

  /** The loop variables of the line: the current point and the error term. */
  datatype Pen = Pen(at: Point, err: int)

  function NextPen(p: Point, q: Point, s: Pen): Pen {
    var dx: int, dy: int := Abs(q.x - p.x), 0 - Abs(q.y - p.y);
    var right, below := 2 * s.err >= dy, 2 * s.err <= dx;
    Pen(Point(if right then s.at.x + Toward(p.x, q.x) else s.at.x, if below then s.at.y + Toward(p.y, q.y) else s.at.y),
        s.err + (if right then dy else 0) + (if below then dx else 0))
  }

  /** The loop variables after `k` rounds. */
  function Trace(p: Point, q: Point, k: nat): Pen {
    if k == 0 then Pen(p, Abs(q.x - p.x) - Abs(q.y - p.y)) else NextPen(p, q, Trace(p, q, k - 1))
  }

  lemma TraceStarts(p: Point, q: Point)
    ensures Trace(p, q, 0) == Pen(p, Abs(q.x - p.x) - Abs(q.y - p.y))
  {
  }

  lemma TraceGoesOn(p: Point, q: Point, k: nat)
    ensures Trace(p, q, k + 1) == NextPen(p, q, Trace(p, q, k))
  {
  }

  /** The points the loop visits in its first `len` rounds. */
  function PenPath(p: Point, q: Point, len: nat): (pts: seq<Point>)
    ensures |pts| == len
  {
    if len == 0 then [] else PenPath(p, q, len - 1) + [Trace(p, q, len - 1).at]
  }

  lemma NoDab(px: Image, p: Point, q: Point, w: int, c: Color)
    ensures Stroke(px, PenPath(p, q, 0), w, c) == px
  {
  }

  lemma OneMoreDab(px: Image, p: Point, q: Point, k: nat, w: int, c: Color)
    ensures var at, before := Trace(p, q, k).at, Stroke(px, PenPath(p, q, k), w, c);
            Stroke(px, PenPath(p, q, k + 1), w, c)
            == PaintRect(before, at.x - w / 2, at.y - w / 2, at.x + w / 2 + w % 2, at.y + w / 2 + w % 2, c)
  {
    hide PaintRect, Trace;
    assert PenPath(p, q, k + 1)[..k] == PenPath(p, q, k);
  }

  /**
   * After `k` of `n` rounds over extents `a` and `b`, `across` and `down` are the nearest integers
   * to the ideal offsets, and `err` carries the exact deviation between them.
   */
  ghost predicate OnTrack(a: int, b: int, n: int, k: int, across: int, down: int, err: int) {
    && a >= 0 && b >= 0 && n == Max(a, b)
    && err == a * down - b * across + a - b
    && (a >= b ==> across == k && (n > 0 ==> -a < 2 * (a * down - b * across) <= a))
    && (a < b ==> down == k && -b <= 2 * (a * down - b * across) < b)
  }

  /** One round of the loop keeps the state on track. */
  lemma Advance(a: int, b: int, n: int, k: int, across: int, down: int, err: int)
    requires OnTrack(a, b, n, k, across, down, err) && n > 0
    ensures var right := 2 * err >= -b;
            var below := 2 * err <= a;
            OnTrack(a, b, n, k + 1,
                    if right then across + 1 else across,
                    if below then down + 1 else down,
                    err + (if right then -b else 0) + (if below then a else 0))
  {
    assert b * (across + 1) == b * across + b;
    assert a * (down + 1) == a * down + a;
  }

  lemma TrackIsIdeal(p: Point, q: Point, k: nat, across: int, down: int, err: int)
    requires Steps(p, q) > 0
    requires OnTrack(Abs(q.x - p.x), Abs(q.y - p.y), Steps(p, q), k, across, down, err)
    ensures IdealPoint(p, q, k)
         == Point(p.x + Toward(p.x, q.x) * across, p.y + Toward(p.y, q.y) * down)
  {
    var a, b, n := Abs(q.x - p.x), Abs(q.y - p.y), Steps(p, q);
    NearestOfMultiple(k, n);
    NearestCharacterised(k * b, n, down);
    NearestCharacterised(k * a, n, across);
    Commute(k, a);
    Commute(k, b);
  }

  lemma Commute(a: int, b: int)
    ensures a * b == b * a
  {
  }

  /** The error term never lets the pen leave the ideal line. */
  lemma {:induction false} TraceOnTrack(p: Point, q: Point, k: nat) returns (across: int, down: int)
    requires Steps(p, q) > 0
    ensures Trace(p, q, k).at == Point(p.x + Toward(p.x, q.x) * across, p.y + Toward(p.y, q.y) * down)
    ensures OnTrack(Abs(q.x - p.x), Abs(q.y - p.y), Steps(p, q), k, across, down, Trace(p, q, k).err)
  {
    if k == 0 {
      across, down := 0, 0;
    } else {
      var i, j := TraceOnTrack(p, q, k - 1);
      across, down := NextOnTrack(p, q, k - 1, Trace(p, q, k - 1), i, j);
    }
  }

  lemma NextOnTrack(p: Point, q: Point, k: nat, s: Pen, i: int, j: int) returns (across: int, down: int)
    requires Steps(p, q) > 0
    requires s.at == Point(p.x + Toward(p.x, q.x) * i, p.y + Toward(p.y, q.y) * j)
    requires OnTrack(Abs(q.x - p.x), Abs(q.y - p.y), Steps(p, q), k, i, j, s.err)
    ensures NextPen(p, q, s).at == Point(p.x + Toward(p.x, q.x) * across, p.y + Toward(p.y, q.y) * down)
    ensures OnTrack(Abs(q.x - p.x), Abs(q.y - p.y), Steps(p, q), k + 1, across, down, NextPen(p, q, s).err)
  {
    Advance(Abs(q.x - p.x), Abs(q.y - p.y), Steps(p, q), k, i, j, s.err);
    MulStep(Toward(p.x, q.x), i);
    MulStep(Toward(p.y, q.y), j);
    across := if 2 * s.err >= 0 - Abs(q.y - p.y) then i + 1 else i;
    down := if 2 * s.err <= Abs(q.x - p.x) then j + 1 else j;
  }

  lemma TraceIsIdeal(p: Point, q: Point, k: nat)
    requires Steps(p, q) > 0
    ensures Trace(p, q, k).at == IdealPoint(p, q, k)
  {
    var across, down := TraceOnTrack(p, q, k);
    TrackIsIdeal(p, q, k, across, down, Trace(p, q, k).err);
  }

  /** The pen is on the end point exactly after the last step. */
  lemma EndsAtLastStep(p: Point, q: Point, k: nat)
    requires k <= Steps(p, q)
    ensures Trace(p, q, k).at == q <==> k == Steps(p, q)
  {
    hide Trace, Axis;
    var n := Steps(p, q);
    if n > 0 {
      TraceIsIdeal(p, q, k);
      if k == n {
        AxisEnds(p.x, q.x, n);
        AxisEnds(p.y, q.y, n);
      } else if Abs(q.x - p.x) == n {
        LongerAxis(p.x, q.x, k);
      } else {
        LongerAxis(p.y, q.y, k);
      }
    } else {
      StandsStill(p, q);
    }
  }

  lemma LongerAxis(a: int, b: int, k: nat)
    requires a != b
    ensures Axis(a, b, Abs(b - a), k) == b <==> k == Abs(b - a)
  {
    NearestOfMultiple(k, Abs(b - a));
  }

  lemma StandsStill(p: Point, q: Point)
    ensures Trace(p, q, 0).at == p
  {
  }

  lemma {:induction false} PenPathIsIdealPath(p: Point, q: Point, len: nat)
    requires len <= Steps(p, q) + 1
    ensures PenPath(p, q, len) == IdealPath(p, q, len)
  {
    if len > 0 {
      PenPathIsIdealPath(p, q, len - 1);
      if Steps(p, q) > 0 {
        TraceIsIdeal(p, q, len - 1);
      }
      assert IdealPath(p, q, len) == IdealPath(p, q, len - 1) + [IdealPoint(p, q, len - 1)];
    }
  }

  /** The loop visits exactly the points of the digital line. */
  lemma PenPathIsDigitalLine(p: Point, q: Point)
    ensures PenPath(p, q, Steps(p, q) + 1) == DigitalLine(p, q)
  {
    PenPathIsIdealPath(p, q, Steps(p, q) + 1);
  }
}
