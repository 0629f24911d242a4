/** The points the line and rectangle routines hand to `SetPixel`
    (epd1in54v2.cpp:596-659), in the order they do so. */
module Shapes {
  import opened Panel
  import opened Framebuffer

  function Abs(a: int): nat {
    if a >= 0 then a else -a
  }

  // ----- Bresenham line (epd1in54v2.cpp:596-618) --------------------------------

  /** The quantities `DrawLine` fixes before its loop: the endpoint, the step
      directions sx and sy, dx = |x1 - x0| and dy = -|y1 - y0|. */
  datatype Bresenham = Bresenham(x1: int, y1: int, sx: int, sy: int, dx: int, dy: int)

  /** The variables the loop updates: the current point and the error term. */
  datatype Cursor = Cursor(x: int, y: int, err: int)

  function LineSetup(x0: int, y0: int, x1: int, y1: int): Bresenham {
    Bresenham(x1, y1,
      if x0 < x1 then 1 else -1,
      if y0 < y1 then 1 else -1,
      if x1 - x0 >= 0 then x1 - x0 else x0 - x1,
      if y1 - y0 <= 0 then y1 - y0 else y0 - y1)
  }

  function LineStart(x0: int, y0: int, x1: int, y1: int): Cursor {
    var b := LineSetup(x0, y0, x1, y1);
    Cursor(x0, y0, b.dx + b.dy)
  }

  /** a lies on the side of b that a step of s moves toward (or on b). */
  predicate Toward(a: int, b: int, s: int) {
    (s == 1 && a <= b) || (s == -1 && a >= b)
  }

  /** The loop state has not passed the endpoint on either axis. */
  predicate Heading(b: Bresenham, c: Cursor) {
    Toward(c.x, b.x1, b.sx) && Toward(c.y, b.y1, b.sy) && b.dy <= 0 <= b.dx
  }

  /** The loop condition: neither coordinate has reached the endpoint. */
  predicate Running(b: Bresenham, c: Cursor) {
    c.x != b.x1 && c.y != b.y1
  }

  function Remaining(b: Bresenham, c: Cursor): nat {
    Abs(b.x1 - c.x) + Abs(b.y1 - c.y)
  }

  lemma SetupHeads(x0: int, y0: int, x1: int, y1: int)
    ensures Heading(LineSetup(x0, y0, x1, y1), LineStart(x0, y0, x1, y1))
  {
  }

  /** One pass of the loop body after the pixel is drawn: the error term decides
      whether x, y or both take a step. */
  function LineStep(b: Bresenham, c: Cursor): (n: Cursor)
    requires Running(b, c)
  {
    var err1 := if 2 * c.err >= b.dy then c.err + b.dy else c.err;
    var x := if 2 * c.err >= b.dy then c.x + b.sx else c.x;
    var err2 := if 2 * err1 <= b.dx then err1 + b.dx else err1;
    var y := if 2 * err1 <= b.dx then c.y + b.sy else c.y;
    Cursor(x, y, err2)
  }

  /** Each pass moves x one step toward x1, or y one step toward y1, or both; it
      never passes the endpoint, so the distance left shrinks. */
  lemma LineStepBounds(b: Bresenham, c: Cursor)
    requires Heading(b, c) && Running(b, c)
    ensures var n := LineStep(b, c);
      && Heading(b, n)
      && (n.x == c.x || n.x == c.x + b.sx)
      && (n.y == c.y || n.y == c.y + b.sy)
      && (n.x != c.x || n.y != c.y)
      && Remaining(b, n) < Remaining(b, c)
  {
  }

  /** The points the loop plots from state c onward; there are no more of them
      than steps left to go. */
  function LineFrom(b: Bresenham, c: Cursor): (pts: seq<Point>)
    requires Heading(b, c)
    ensures |pts| <= Remaining(b, c)
    decreases Remaining(b, c)
  {
    if !Running(b, c) then []
    else
      LineStepBounds(b, c);
      [Point(c.x, c.y)] + LineFrom(b, LineStep(b, c))
  }

  /** One pass of the loop: while running, the current point is plotted and the
      rest is plotted from the next state. */
  lemma LineFromStep(b: Bresenham, c: Cursor)
    requires Heading(b, c) && Running(b, c)
    ensures Heading(b, LineStep(b, c)) && Remaining(b, LineStep(b, c)) < Remaining(b, c)
    ensures LineFrom(b, c) == [Point(c.x, c.y)] + LineFrom(b, LineStep(b, c))
  {
    LineStepBounds(b, c);
  }

  /** No point plotted from state c has reached the endpoint on either axis, and
      each lies between the current point and the endpoint. */
  lemma {:induction false} LineFromBounds(b: Bresenham, c: Cursor, i: int)
    requires Heading(b, c) && 0 <= i < |LineFrom(b, c)|
    ensures var p := LineFrom(b, c)[i];
      && p.x != b.x1 && p.y != b.y1
      && Toward(p.x, b.x1, b.sx) && Toward(c.x, p.x, b.sx)
      && Toward(p.y, b.y1, b.sy) && Toward(c.y, p.y, b.sy)
    decreases Remaining(b, c)
  {
    var n := LineStep(b, c);
    LineStepBounds(b, c);
    assert LineFrom(b, c) == [Point(c.x, c.y)] + LineFrom(b, n);
    if i > 0 {
      LineFromBounds(b, n, i - 1);
    }
  }

  /** The points `DrawLine(x0, y0, x1, y1)` plots. */
  function LinePoints(x0: int, y0: int, x1: int, y1: int): seq<Point> {
    SetupHeads(x0, y0, x1, y1);
    LineFrom(LineSetup(x0, y0, x1, y1), LineStart(x0, y0, x1, y1))
  }

  /** The endpoint (x1, y1) is never drawn, nor any point in its row or column; a
      line whose ends share a row or a column draws nothing at all; otherwise the
      first point drawn is (x0, y0). */
  lemma LineShape(x0: int, y0: int, x1: int, y1: int)
    ensures forall p | p in LinePoints(x0, y0, x1, y1) :: p.x != x1 && p.y != y1
    ensures x0 == x1 || y0 == y1 ==> LinePoints(x0, y0, x1, y1) == []
    ensures x0 != x1 && y0 != y1 ==> LinePoints(x0, y0, x1, y1)[0] == Point(x0, y0)
    ensures |LinePoints(x0, y0, x1, y1)| <= Abs(x1 - x0) + Abs(y1 - y0)
  {
    var pts := LinePoints(x0, y0, x1, y1);
    forall p | p in pts
      ensures p.x != x1 && p.y != y1
    {
      var i :| 0 <= i < |pts| && pts[i] == p;
      LineFromBounds(LineSetup(x0, y0, x1, y1), LineStart(x0, y0, x1, y1), i);
    }
  }

  /** Successive points of a line are neighbours: each differs from the one before
      by one step toward the endpoint on x, on y, or on both. */
  lemma {:induction false} LineConnected(b: Bresenham, c: Cursor, i: int)
    requires Heading(b, c)
    requires 0 <= i < |LineFrom(b, c)| - 1
    ensures var pts := LineFrom(b, c);
      && (pts[i + 1].x == pts[i].x || pts[i + 1].x == pts[i].x + b.sx)
      && (pts[i + 1].y == pts[i].y || pts[i + 1].y == pts[i].y + b.sy)
      && pts[i + 1] != pts[i]
    decreases Remaining(b, c)
  {
    var n := LineStep(b, c);
    LineStepBounds(b, c);
    assert LineFrom(b, c) == [Point(c.x, c.y)] + LineFrom(b, n);
    if i > 0 {
      LineConnected(b, n, i - 1);
    }
  }

  // ----- horizontal and vertical lines (epd1in54v2.cpp:620-634) ---------------------

  /** The points `DrawHorizontalLine(x, y, len)` plots: (x, y), (x + 1, y), ... */
  function HLine(x: int, y: int, len: int): (pts: seq<Point>)
    ensures |pts| == if len <= 0 then 0 else len
    decreases len
  {
    if len <= 0 then [] else HLine(x, y, len - 1) + [Point(x + len - 1, y)]
  }

  /** The points `DrawVerticalLine(x, y, len)` plots: (x, y), (x, y + 1), ... */
  function VLine(x: int, y: int, len: int): (pts: seq<Point>)
    ensures |pts| == if len <= 0 then 0 else len
    decreases len
  {
    if len <= 0 then [] else VLine(x, y, len - 1) + [Point(x, y + len - 1)]
  }

  /** A horizontal line covers exactly the columns [x, x + len) of row y (none when
      len <= 0). */
  lemma {:induction false} HLineMembers(x: int, y: int, len: int, p: Point)
    ensures p in HLine(x, y, len) <==> p.y == y && x <= p.x < x + len
    decreases len
  {
    if len > 0 {
      HLineMembers(x, y, len - 1, p);
    }
  }

  /** A vertical line covers exactly the rows [y, y + len) of column x. */
  lemma {:induction false} VLineMembers(x: int, y: int, len: int, p: Point)
    ensures p in VLine(x, y, len) <==> p.x == x && y <= p.y < y + len
    decreases len
  {
    if len > 0 {
      VLineMembers(x, y, len - 1, p);
    }
  }

  // ----- rectangles (epd1in54v2.cpp:636-659) ---------------------------------------

  /** The corners both rectangle routines normalise to, as `x1 > x0 ? x0 : x1` etc. */
  function MinOf(a: int, b: int): int { if b > a then a else b }
  function MaxOf(a: int, b: int): int { if b > a then b else a }

  /** The four edges `DrawRectangle` plots: top, bottom, left, right. */
  function RectPoints(x0: int, y0: int, x1: int, y1: int): seq<Point> {
    var minX, maxX, minY, maxY := MinOf(x0, x1), MaxOf(x0, x1), MinOf(y0, y1), MaxOf(y0, y1);
    HLine(minX, minY, maxX - minX + 1) + HLine(minX, maxY, maxX - minX + 1)
    + VLine(minX, minY, maxY - minY + 1) + VLine(maxX, minY, maxY - minY + 1)
  }

  /** The columns `DrawFilledRectangle` plots: the first n vertical lines from minX. */
  function Columns(minX: int, minY: int, len: int, n: int): (pts: seq<Point>)
    decreases n
  {
    if n <= 0 then [] else Columns(minX, minY, len, n - 1) + VLine(minX + n - 1, minY, len)
  }

  /** Painting one more column is painting the columns so far, then column x. */
  lemma ColumnsStep(buf: seq<bv8>, v: View, minX: int, minY: int, len: int, n: int, x: int, colored: int)
    requires IsFrame(buf) && 0 <= n && x == minX + n
    ensures Paint(buf, v, Columns(minX, minY, len, n + 1), colored) ==
      Paint(Paint(buf, v, Columns(minX, minY, len, n), colored), v, VLine(x, minY, len), colored)
  {
    PaintConcat(buf, v, Columns(minX, minY, len, n), VLine(x, minY, len), colored);
  }

  /** Painting four runs of points in one go is painting them one after the other. */
  lemma PaintFour(buf: seq<bv8>, v: View, a: seq<Point>, b: seq<Point>, c: seq<Point>, d: seq<Point>, colored: int)
    requires IsFrame(buf)
    ensures Paint(buf, v, a + b + c + d, colored) ==
      Paint(Paint(Paint(Paint(buf, v, a, colored), v, b, colored), v, c, colored), v, d, colored)
  {
    PaintConcat(buf, v, a + b + c, d, colored);
    PaintConcat(buf, v, a + b, c, colored);
    PaintConcat(buf, v, a, b, colored);
  }

  function FilledRectPoints(x0: int, y0: int, x1: int, y1: int): seq<Point> {
    var minX, maxX, minY, maxY := MinOf(x0, x1), MaxOf(x0, x1), MinOf(y0, y1), MaxOf(y0, y1);
    Columns(minX, minY, maxY - minY + 1, maxX - minX + 1)
  }

  predicate InBox(p: Point, x0: int, y0: int, x1: int, y1: int) {
    MinOf(x0, x1) <= p.x <= MaxOf(x0, x1) && MinOf(y0, y1) <= p.y <= MaxOf(y0, y1)
  }

  /** The outline is exactly the border of the closed rectangle between the two
      corners, whichever order the corners come in. */
  lemma RectMembers(x0: int, y0: int, x1: int, y1: int, p: Point)
    ensures p in RectPoints(x0, y0, x1, y1) <==>
      InBox(p, x0, y0, x1, y1)
      && (p.x == MinOf(x0, x1) || p.x == MaxOf(x0, x1) || p.y == MinOf(y0, y1) || p.y == MaxOf(y0, y1))
  {
    var minX, maxX, minY, maxY := MinOf(x0, x1), MaxOf(x0, x1), MinOf(y0, y1), MaxOf(y0, y1);
    HLineMembers(minX, minY, maxX - minX + 1, p);
    HLineMembers(minX, maxY, maxX - minX + 1, p);
    VLineMembers(minX, minY, maxY - minY + 1, p);
    VLineMembers(maxX, minY, maxY - minY + 1, p);
  }

  lemma {:induction false} ColumnsMembers(minX: int, minY: int, len: int, n: int, p: Point)
    ensures p in Columns(minX, minY, len, n) <==> minX <= p.x < minX + n && minY <= p.y < minY + len
    decreases n
  {
    if n > 0 {
      ColumnsMembers(minX, minY, len, n - 1, p);
      VLineMembers(minX + n - 1, minY, len, p);
    }
  }

  /** The filled rectangle is exactly the closed rectangle between the corners,
      whichever order the corners come in. */
  lemma FilledRectMembers(x0: int, y0: int, x1: int, y1: int, p: Point)
    ensures p in FilledRectPoints(x0, y0, x1, y1) <==> InBox(p, x0, y0, x1, y1)
  {
    var minX, maxX, minY, maxY := MinOf(x0, x1), MaxOf(x0, x1), MinOf(y0, y1), MaxOf(y0, y1);
    ColumnsMembers(minX, minY, maxY - minY + 1, maxX - minX + 1, p);
  }

  // ----- ClearFramebuffer (epd1in54v2.cpp:504-513) --------------------------------

  /** Clearing with logical size w x h sets exactly the native pixels with
      x < w and y < h to the colour and keeps all others. */
  lemma ClearEffect(buf: seq<bv8>, w: int, h: int, colored: int, q: Point)
    requires IsFrame(buf) && InPanel(q)
    ensures IsWhite(Paint(buf, NATIVE, Columns(0, 0, h, w), colored), q) ==
      if q.x < w && q.y < h then colored == 0 else IsWhite(buf, q)
  {
    PaintEffect(buf, NATIVE, Columns(0, 0, h, w), colored, q);
    NativeHits(Columns(0, 0, h, w), q);
    ColumnsMembers(0, 0, h, w, q);
  }

  /** When the logical size covers the panel, every byte of the frame becomes
      0xFF (colour 0) or 0x00 (any other colour). */
  lemma ClearFillsFrame(buf: seq<bv8>, w: int, h: int, colored: int)
    requires IsFrame(buf) && w >= EPD_WIDTH && h >= EPD_HEIGHT
    ensures var r := Paint(buf, NATIVE, Columns(0, 0, h, w), colored);
      forall k | 0 <= k < BUFFER_SIZE :: r[k] == if colored == 0 then 0xFF else 0x00
  {
    var r := Paint(buf, NATIVE, Columns(0, 0, h, w), colored);
    forall p | InPanel(p)
      ensures IsWhite(r, p) == (colored == 0)
    {
      ClearEffect(buf, w, h, colored, p);
    }
    UniformBytes(r, colored == 0);
  }

  /** Drawing a filled rectangle from (0, 0) to (4, 4) coloured and then again
      uncoloured leaves every pixel it reaches white and every other pixel as it was. */
  lemma FilledRectDrawAndClear(buf: seq<bv8>, v: View, q: Point)
    requires IsFrame(buf) && InPanel(q)
    ensures var r := FilledRectPoints(0, 0, 4, 4);
      IsWhite(Paint(Paint(buf, v, r, COLORED), v, r, UNCOLORED), q) ==
        if exists p :: InBox(p, 0, 0, 4, 4) && Target(v, p) == Some(q) then true else IsWhite(buf, q)
  {
    var r := FilledRectPoints(0, 0, 4, 4);
    PaintThenErase(buf, v, r, q);
    if Hits(v, r, q) {
      var i :| 0 <= i < |r| && Target(v, r[i]) == Some(q);
      FilledRectMembers(0, 0, 4, 4, r[i]);
    }
    if exists p :: InBox(p, 0, 0, 4, 4) && Target(v, p) == Some(q) {
      var p :| InBox(p, 0, 0, 4, 4) && Target(v, p) == Some(q);
      FilledRectMembers(0, 0, 4, 4, p);
      var i :| 0 <= i < |r| && r[i] == p;
    }
  }
}
