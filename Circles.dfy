/** The points the midpoint circle routines hand to `SetPixel`
    (epd1in54v2.cpp:661-737), in the order they do so. */
module Circles {
  import opened Panel
  import opened Framebuffer
  import opened Shapes

  /** The loop variables `x_pos`, `y_pos` and `err`. */
  datatype Arc = Arc(xp: int, yp: int, err: int)

  function ArcStart(radius: int): Arc {
    Arc(-radius, 0, 2 - 2 * radius)
  }

  /** n^2, built up by odd numbers: (n + 1)^2 = n^2 + 2n + 1. */
  function Square(n: int): (r: int)
    ensures r >= 0
    decreases if n < 0 then 1 - n else n
  {
    if n < 0 then Square(-n) else if n == 0 then 0 else Square(n - 1) + 2 * n - 1
  }

  lemma SquareStep(n: int)
    ensures Square(n + 1) == Square(n) + 2 * n + 1
  {
    if n < -1 {
      assert Square(n) == Square(-n) == Square(-n - 1) + 2 * (-n) - 1;
    }
  }

  lemma {:induction false} SquareIsProduct(n: int)
    ensures Square(n) == n * n
    decreases if n < 0 then 1 - n else n
  {
    if n < 0 {
      SquareIsProduct(-n);
    } else if n > 0 {
      SquareIsProduct(n - 1);
    }
  }

  /** (x_pos + 1)^2 + (y_pos + 1)^2 - radius^2: how far the point after (x_pos, y_pos)
      lies outside the circle. */
  function ArcError(radius: int, xp: int, yp: int): int {
    Square(xp + 1) + Square(yp + 1) - Square(radius)
  }

  /** What holds of the loop variables at the top of every pass: err is the
      ArcError of (x_pos, y_pos), y_pos stays in [0, radius], x_pos has not gone
      below -radius, and a negative radius starts past the stop test. */
  predicate ArcInvariant(radius: int, a: Arc) {
    && a.err == ArcError(radius, a.xp, a.yp)
    && 0 <= a.yp
    && (radius >= 0 ==> -radius <= a.xp && a.yp <= radius)
    && (radius < 0 ==> a.xp > 0)
  }

  /** One pass of the loop body after the four pixels are drawn. */
  function ArcStep(a: Arc): Arc {
    var e2 := a.err;
    var yp := if e2 <= a.yp then a.yp + 1 else a.yp;
    var err := if e2 <= a.yp then a.err + yp * 2 + 1 else a.err;
    var e2' := if e2 <= a.yp && -a.xp == yp && e2 <= a.xp then 0 else e2;
    var xp := if e2' > a.xp then a.xp + 1 else a.xp;
    var err' := if e2' > a.xp then err + xp * 2 + 1 else err;
    Arc(xp, yp, err')
  }

  /** Loop measure: y_pos climbs toward radius, x_pos climbs toward 0. */
  function ArcMeasure(radius: int, a: Arc): int {
    if radius >= 0 then (radius - a.yp) + (1 - a.xp) else 0
  }

  lemma {:induction false} SquareMonotone(a: int, b: int)
    requires 0 <= b <= a
    ensures Square(b) <= Square(a)
    decreases a - b
  {
    if b < a {
      SquareMonotone(a - 1, b);
      SquareStep(a - 1);
    }
  }

  /** `err += y_pos * 2 + 1` after `y_pos += 1` keeps err equal to the ArcError. */
  lemma ErrorAfterYStep(radius: int, xp: int, yp: int)
    ensures ArcError(radius, xp, yp) + (yp + 1) * 2 + 1 == ArcError(radius, xp, yp + 1)
  {
    SquareStep(yp + 1);
  }

  /** `err += x_pos * 2 + 1` after `x_pos += 1` keeps err equal to the ArcError. */
  lemma ErrorAfterXStep(radius: int, xp: int, yp: int)
    ensures ArcError(radius, xp, yp) + (xp + 1) * 2 + 1 == ArcError(radius, xp + 1, yp)
  {
    SquareStep(xp + 1);
  }

  /** y_pos only steps while err <= y_pos, which keeps it at most radius. */
  lemma YStepStaysInside(radius: int, xp: int, yp: int)
    requires 0 <= radius && 0 <= yp
    requires ArcError(radius, xp, yp) <= yp
    ensures yp + 1 <= radius
  {
    if yp >= radius {
      SquareMonotone(yp, radius);
      SquareStep(yp);
    }
  }

  /** Each pass keeps the invariant, moves x_pos and y_pos up by at most one, and
      (for radius >= 0, with x_pos <= 0) moves at least one of them, so that the
      measure goes down. */
  lemma ArcStepKeeps(radius: int, a: Arc)
    requires ArcInvariant(radius, a)
    requires radius >= 0 ==> a.xp <= 0
    ensures var n := ArcStep(a);
      && ArcInvariant(radius, n)
      && (n.xp == a.xp || n.xp == a.xp + 1)
      && (n.yp == a.yp || n.yp == a.yp + 1)
      && (radius >= 0 ==> n.xp != a.xp || n.yp != a.yp)
      && (radius >= 0 && n.xp <= 0 ==> 0 <= ArcMeasure(radius, n) < ArcMeasure(radius, a))
  {
    var n := ArcStep(a);
    if a.err <= a.yp {
      ErrorAfterYStep(radius, a.xp, a.yp);
      if radius >= 0 {
        YStepStaysInside(radius, a.xp, a.yp);
      }
    }
    if n.xp != a.xp {
      ErrorAfterXStep(radius, a.xp, n.yp);
    }
  }

  /** The successive (x_pos, y_pos) pairs the loop visits from state a until x_pos
      passes 0. */
  function ArcFrom(radius: int, a: Arc): (offs: seq<Point>)
    requires ArcInvariant(radius, a)
    requires radius >= 0 ==> a.xp <= 0
    ensures |offs| >= 1 && offs[0] == Point(a.xp, a.yp)
    decreases ArcMeasure(radius, a)
  {
    ArcStepKeeps(radius, a);
    var n := ArcStep(a);
    if n.xp > 0 then [Point(a.xp, a.yp)] else [Point(a.xp, a.yp)] + ArcFrom(radius, n)
  }

  /** For radius >= 0 every visited pair has -radius <= x_pos <= 0 <= y_pos <= radius. */
  lemma {:induction false} ArcFromBounds(radius: int, a: Arc)
    requires ArcInvariant(radius, a)
    requires radius >= 0 ==> a.xp <= 0
    ensures radius >= 0 ==> forall i | 0 <= i < |ArcFrom(radius, a)| ::
      -radius <= ArcFrom(radius, a)[i].x <= 0 && 0 <= ArcFrom(radius, a)[i].y <= radius
    decreases ArcMeasure(radius, a)
  {
    ArcStepKeeps(radius, a);
    var n := ArcStep(a);
    if n.xp <= 0 {
      ArcFromBounds(radius, n);
    }
  }

  /** One pass of the loop keeps the octant split into the offsets already drawn and
      those still to come; once the next position passes x_pos = 0, every offset
      has been drawn. */
  lemma OctantStep(radius: int, done: seq<Point>, a: Arc)
    requires ArcInvariant(radius, a)
    requires radius >= 0 ==> a.xp <= 0
    requires Octant(radius) == done + ArcFrom(radius, a)
    ensures ArcInvariant(radius, ArcStep(a))
    ensures ArcStep(a).xp > 0 ==> Octant(radius) == done + [Point(a.xp, a.yp)]
    ensures ArcStep(a).xp <= 0 ==> Octant(radius) == done + [Point(a.xp, a.yp)] + ArcFrom(radius, ArcStep(a))
    ensures radius >= 0 && ArcStep(a).xp <= 0 ==> 0 <= ArcMeasure(radius, ArcStep(a)) < ArcMeasure(radius, a)
  {
    ArcStepKeeps(radius, a);
    var n := ArcStep(a);
    if n.xp <= 0 {
      assert done + ([Point(a.xp, a.yp)] + ArcFrom(radius, n)) == done + [Point(a.xp, a.yp)] + ArcFrom(radius, n);
    }
  }

  lemma StartKeeps(radius: int)
    ensures ArcInvariant(radius, ArcStart(radius))
    ensures radius >= 0 ==> ArcStart(radius).xp <= 0
  {
    SquareIsProduct(-radius + 1);
    SquareIsProduct(radius);
    SquareIsProduct(1);
    assert (-radius + 1) * (-radius + 1) == radius * radius - 2 * radius + 1;
  }

  /** The offsets of one octant, starting at (-radius, 0). */
  function Octant(radius: int): seq<Point> {
    StartKeeps(radius);
    ArcFrom(radius, ArcStart(radius))
  }

  /** The octant starts at (-radius, 0) and, for radius >= 0, keeps every offset in
      the quarter square [-radius, 0] x [0, radius]. */
  lemma OctantShape(radius: int)
    ensures |Octant(radius)| >= 1 && Octant(radius)[0] == Point(-radius, 0)
    ensures radius >= 0 ==> forall i | 0 <= i < |Octant(radius)| ::
      -radius <= Octant(radius)[i].x <= 0 && 0 <= Octant(radius)[i].y <= radius
  {
    StartKeeps(radius);
    ArcFromBounds(radius, ArcStart(radius));
  }

  /** The four points drawn for one offset, in the order of epd1in54v2.cpp:673-676. */
  function Quad(cx: int, cy: int, o: Point): seq<Point> {
    [Point(cx - o.x, cy + o.y), Point(cx + o.x, cy + o.y), Point(cx + o.x, cy - o.y), Point(cx - o.x, cy - o.y)]
  }

  /** Painting the four points of an offset is four `SetPixel` calls in that order. */
  lemma PaintQuad(buf: seq<bv8>, v: View, cx: int, cy: int, o: Point, colored: int)
    requires IsFrame(buf)
    ensures Paint(buf, v, Quad(cx, cy, o), colored) ==
      Plot(Plot(Plot(Plot(buf, v, Point(cx - o.x, cy + o.y), colored), v, Point(cx + o.x, cy + o.y), colored),
        v, Point(cx + o.x, cy - o.y), colored), v, Point(cx - o.x, cy - o.y), colored)
  {
    var q := Quad(cx, cy, o);
    var q1, q2, q3 := q[..1], q[..2], q[..3];
    assert q1 == [] + [q[0]] && q2 == q1 + [q[1]] && q3 == q2 + [q[2]] && q == q3 + [q[3]];
    assert Paint(buf, v, [], colored) == buf;
    PaintOneMore(buf, v, [], q[0], colored);
    PaintOneMore(buf, v, q1, q[1], colored);
    PaintOneMore(buf, v, q2, q[2], colored);
    PaintOneMore(buf, v, q3, q[3], colored);
  }

  /** What one visited offset contributes: its four outline points, or for the
      filled circle its slab. */
  function Piece(cx: int, cy: int, o: Point, filled: bool): seq<Point> {
    if filled then Slab(cx, cy, o) else Quad(cx, cy, o)
  }

  /** The pieces of the first n offsets, in the order the loop draws them. */
  function Sweep(cx: int, cy: int, offs: seq<Point>, n: int, filled: bool): seq<Point>
    requires n <= |offs|
    decreases n
  {
    if n <= 0 then [] else Sweep(cx, cy, offs, n - 1, filled) + Piece(cx, cy, offs[n - 1], filled)
  }

  function Ring(cx: int, cy: int, offs: seq<Point>): seq<Point> {
    Sweep(cx, cy, offs, |offs|, false)
  }

  function Disk(cx: int, cy: int, offs: seq<Point>): seq<Point> {
    Sweep(cx, cy, offs, |offs|, true)
  }

  /** The first n pieces depend on the first n offsets only. */
  lemma {:induction false} SweepAgree(cx: int, cy: int, a: seq<Point>, b: seq<Point>, n: int, filled: bool)
    requires n <= |a| && n <= |b|
    requires forall i | 0 <= i < n :: a[i] == b[i]
    ensures Sweep(cx, cy, a, n, filled) == Sweep(cx, cy, b, n, filled)
    decreases n
  {
    if n > 0 {
      SweepAgree(cx, cy, a, b, n - 1, filled);
    }
  }

  /** One more offset adds its piece at the end. */
  lemma SweepStep(cx: int, cy: int, offs: seq<Point>, o: Point, filled: bool)
    ensures Sweep(cx, cy, offs + [o], |offs| + 1, filled) == Sweep(cx, cy, offs, |offs|, filled) + Piece(cx, cy, o, filled)
  {
    SweepAgree(cx, cy, offs + [o], offs, |offs|, filled);
  }

  /** Drawing the ring of one more offset is drawing its four points after the rest. */
  lemma RingStep(buf: seq<bv8>, v: View, cx: int, cy: int, offs: seq<Point>, o: Point, colored: int)
    requires IsFrame(buf)
    ensures Paint(buf, v, Ring(cx, cy, offs + [o]), colored) ==
      Paint(Paint(buf, v, Ring(cx, cy, offs), colored), v, Quad(cx, cy, o), colored)
  {
    SweepStep(cx, cy, offs, o, false);
    PaintConcat(buf, v, Ring(cx, cy, offs), Quad(cx, cy, o), colored);
  }

  /** What `DrawFilledCircle` draws for one offset: the four points, then the span
      of 2 * (-x_pos) + 1 pixels from x + x_pos on rows y + y_pos and y - y_pos. */
  function Slab(cx: int, cy: int, o: Point): seq<Point> {
    Quad(cx, cy, o) + HLine(cx + o.x, cy + o.y, 2 * (-o.x) + 1) + HLine(cx + o.x, cy - o.y, 2 * (-o.x) + 1)
  }

  /** Drawing the disk of one more offset is drawing its slab after the rest. */
  lemma DiskStep(buf: seq<bv8>, v: View, cx: int, cy: int, offs: seq<Point>, o: Point, colored: int)
    requires IsFrame(buf)
    ensures Paint(buf, v, Disk(cx, cy, offs + [o]), colored) ==
      Paint(Paint(buf, v, Disk(cx, cy, offs), colored), v, Slab(cx, cy, o), colored)
  {
    SweepStep(cx, cy, offs, o, true);
    PaintConcat(buf, v, Disk(cx, cy, offs), Slab(cx, cy, o), colored);
  }

  /** The points `DrawCircle(x, y, radius)` plots once past its guard. */
  function CirclePoints(cx: int, cy: int, radius: int): seq<Point> {
    Ring(cx, cy, Octant(radius))
  }

  /** The points `DrawFilledCircle(x, y, radius)` plots once past its guard. */
  function FilledCirclePoints(cx: int, cy: int, radius: int): seq<Point> {
    Disk(cx, cy, Octant(radius))
  }

  /** The guard `x >= width || y >= height`: an `int` compared with an
      `unsigned long`, so the coordinates are converted to unsigned first. */
  predicate CircleSkipped(x: int, y: int, width: int, height: int) {
    ToUnsigned(x) >= width || ToUnsigned(y) >= height
  }

  /** A centre with a negative coordinate is rejected by the unsigned comparison,
      as is one at or beyond the logical size. */
  lemma NegativeCentreSkipped(x: int, y: int, width: int, height: int)
    requires IsInt32(x) && IsInt32(y)
    requires 0 <= width <= 0x8000_0000 && 0 <= height <= 0x8000_0000
    ensures x < 0 || y < 0 || x >= width || y >= height ==> CircleSkipped(x, y, width, height)
    ensures 0 <= x < width && 0 <= y < height ==> !CircleSkipped(x, y, width, height)
  {
    if x < 0 {
      NegativeIsLargeUnsigned(x, width);
    }
    if y < 0 {
      NegativeIsLargeUnsigned(y, height);
    }
  }

  /** A point is among the first n pieces exactly when one of them holds it. */
  lemma {:induction false} SweepMembers(cx: int, cy: int, offs: seq<Point>, n: int, filled: bool, p: Point)
    requires 0 <= n <= |offs|
    ensures p in Sweep(cx, cy, offs, n, filled) <==> exists i :: 0 <= i < n && p in Piece(cx, cy, offs[i], filled)
    decreases n
  {
    if n > 0 {
      SweepMembers(cx, cy, offs, n - 1, filled, p);
      if p in Piece(cx, cy, offs[n - 1], filled) {
        assert 0 <= n - 1 < n;
      }
    }
  }

  lemma RingMembers(cx: int, cy: int, offs: seq<Point>, p: Point)
    ensures p in Ring(cx, cy, offs) <==> exists i :: 0 <= i < |offs| && p in Quad(cx, cy, offs[i])
  {
    SweepMembers(cx, cy, offs, |offs|, false, p);
  }

  lemma RingSymmetric(cx: int, cy: int, offs: seq<Point>, p: Point)
    requires p in Ring(cx, cy, offs)
    ensures Point(2 * cx - p.x, p.y) in Ring(cx, cy, offs)
    ensures Point(p.x, 2 * cy - p.y) in Ring(cx, cy, offs)
  {
    RingMembers(cx, cy, offs, p);
    var i :| 0 <= i < |offs| && p in Quad(cx, cy, offs[i]);
    RingMembers(cx, cy, offs, Point(2 * cx - p.x, p.y));
    RingMembers(cx, cy, offs, Point(p.x, 2 * cy - p.y));
  }

  /** The outline is symmetric about the centre: with every point it also contains
      its mirror images across the vertical and the horizontal axis through (cx, cy). */
  lemma CircleSymmetric(cx: int, cy: int, radius: int, p: Point)
    requires p in CirclePoints(cx, cy, radius)
    ensures Point(2 * cx - p.x, p.y) in CirclePoints(cx, cy, radius)
    ensures Point(p.x, 2 * cy - p.y) in CirclePoints(cx, cy, radius)
  {
    RingSymmetric(cx, cy, Octant(radius), p);
  }

  lemma RingBounds(cx: int, cy: int, offs: seq<Point>, radius: int)
    requires forall i | 0 <= i < |offs| :: -radius <= offs[i].x <= 0 && 0 <= offs[i].y <= radius
    ensures forall p | p in Ring(cx, cy, offs) ::
      cx - radius <= p.x <= cx + radius && cy - radius <= p.y <= cy + radius
  {
    forall p | p in Ring(cx, cy, offs)
      ensures cx - radius <= p.x <= cx + radius && cy - radius <= p.y <= cy + radius
    {
      RingMembers(cx, cy, offs, p);
      var i :| 0 <= i < |offs| && p in Quad(cx, cy, offs[i]);
    }
  }

  lemma RingHasFirst(cx: int, cy: int, offs: seq<Point>, p: Point)
    requires |offs| >= 1 && p in Quad(cx, cy, offs[0])
    ensures p in Ring(cx, cy, offs)
  {
    RingMembers(cx, cy, offs, p);
  }

  /** For radius >= 0 every plotted point lies in the square of side 2 * radius + 1
      around the centre. */
  lemma CircleBounds(cx: int, cy: int, radius: int)
    requires radius >= 0
    ensures forall p | p in CirclePoints(cx, cy, radius) ::
      cx - radius <= p.x <= cx + radius && cy - radius <= p.y <= cy + radius
  {
    OctantShape(radius);
    RingBounds(cx, cy, Octant(radius), radius);
  }

  /** The two points at distance radius on the horizontal axis are drawn. */
  lemma CircleReachesRadius(cx: int, cy: int, radius: int)
    ensures Point(cx - radius, cy) in CirclePoints(cx, cy, radius)
    ensures Point(cx + radius, cy) in CirclePoints(cx, cy, radius)
  {
    OctantShape(radius);
    RingHasFirst(cx, cy, Octant(radius), Point(cx + radius, cy));
    RingHasFirst(cx, cy, Octant(radius), Point(cx - radius, cy));
  }

  /** A circle of radius 0 is the centre alone. */
  lemma CircleRadiusZero(cx: int, cy: int)
    ensures forall p | p in CirclePoints(cx, cy, 0) :: p == Point(cx, cy)
    ensures Point(cx, cy) in CirclePoints(cx, cy, 0)
  {
    var offs := Octant(0);
    assert offs == [Point(0, 0)];
    assert CirclePoints(cx, cy, 0) == Quad(cx, cy, Point(0, 0));
  }

  lemma DiskMembers(cx: int, cy: int, offs: seq<Point>, p: Point)
    ensures p in Disk(cx, cy, offs) <==> exists i :: 0 <= i < |offs| && p in Slab(cx, cy, offs[i])
  {
    SweepMembers(cx, cy, offs, |offs|, true, p);
  }

  /** A point lies on a slab exactly when it is one of its four outline points or
      lies on one of its two spans. */
  lemma SlabMembers(cx: int, cy: int, o: Point, p: Point)
    ensures p in Slab(cx, cy, o) <==>
      p in Quad(cx, cy, o) || (o.x <= p.x - cx <= -o.x && (p.y == cy + o.y || p.y == cy - o.y))
  {
    HLineMembers(cx + o.x, cy + o.y, 2 * (-o.x) + 1, p);
    HLineMembers(cx + o.x, cy - o.y, 2 * (-o.x) + 1, p);
  }

  lemma DiskRingMembers(cx: int, cy: int, offs: seq<Point>, p: Point)
    ensures p in Disk(cx, cy, offs) <==>
      p in Ring(cx, cy, offs) ||
      exists o :: o in offs && o.x <= p.x - cx <= -o.x && (p.y == cy + o.y || p.y == cy - o.y)
  {
    DiskMembers(cx, cy, offs, p);
    RingMembers(cx, cy, offs, p);
    if p in Disk(cx, cy, offs) {
      var i :| 0 <= i < |offs| && p in Slab(cx, cy, offs[i]);
      SlabMembers(cx, cy, offs[i], p);
    }
    if p in Ring(cx, cy, offs) {
      var i :| 0 <= i < |offs| && p in Quad(cx, cy, offs[i]);
      SlabMembers(cx, cy, offs[i], p);
    }
    if exists o :: o in offs && o.x <= p.x - cx <= -o.x && (p.y == cy + o.y || p.y == cy - o.y) {
      var o :| o in offs && o.x <= p.x - cx <= -o.x && (p.y == cy + o.y || p.y == cy - o.y);
      var i :| 0 <= i < |offs| && offs[i] == o;
      SlabMembers(cx, cy, o, p);
    }
  }

  /** The filled circle draws the outline and, for every offset visited, the whole
      span between the two outline points on rows cy + y_pos and cy - y_pos; and it
      draws nothing else. */
  lemma FilledCircleMembers(cx: int, cy: int, radius: int, p: Point)
    ensures p in FilledCirclePoints(cx, cy, radius) <==>
      p in CirclePoints(cx, cy, radius) ||
      exists o :: o in Octant(radius) && o.x <= p.x - cx <= -o.x && (p.y == cy + o.y || p.y == cy - o.y)
  {
    DiskRingMembers(cx, cy, Octant(radius), p);
  }
}
