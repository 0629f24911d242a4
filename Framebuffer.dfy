/** The packed 1-bit-per-pixel frame buffer (epd1in54v2.cpp:504-594).

    The buffer holds 25 bytes for each of the 200 native rows, pixels most
    significant bit first, with inverted polarity: a 1 bit is white
    (uncoloured), a 0 bit is coloured. Rotation is never stored in the buffer;
    it only changes which native pixel a logical coordinate addresses. */
module Framebuffer {
  import opened Panel

  datatype Option<T> = None | Some(value: T)

  datatype Point = Point(x: int, y: int)

  /** The `width`, `height` and `rotate` fields of an `Epd`, which decide how
      `SetPixel` reads a logical coordinate. */
  datatype View = View(width: int, height: int, rotate: int)

  /** The view under which `SetPixel` behaves as `SetAbsolutePixel`. */
  const NATIVE: View := View(EPD_WIDTH, EPD_HEIGHT, ROTATE_0)

  predicate InPanel(p: Point) {
    0 <= p.x < EPD_WIDTH && 0 <= p.y < EPD_HEIGHT
  }

  /** A buffer the pixel routines may write: at least one full frame long. */
  predicate IsFrame(buf: seq<bv8>) {
    BUFFER_SIZE <= |buf|
  }

  /** Index of the byte holding native pixel p. EPD_WIDTH is a preprocessor macro,
      so the driver multiplies by the literal 200. */
  function ByteIndex(p: Point): (k: int)
    requires InPanel(p)
    ensures 0 <= k < BUFFER_SIZE
  {
    (p.x + p.y * 200) / 8
  }

  /** Since the width is a multiple of 8, a row starts on a byte boundary: pixel
      (x, y) is in byte x / 8 of row y. */
  lemma ByteIndexSplit(p: Point)
    requires InPanel(p)
    ensures ByteIndex(p) == p.x / 8 + p.y * ROW_BYTES
  {
    var x, y := p.x, p.y;
    assert x + y * EPD_WIDTH == 8 * (x / 8 + y * 25) + x % 8;
  }

  /** `0x80 >> i`: bit i of a byte, counted from the most significant end. */
  function Bit(i: int): (m: bv8)
    requires 0 <= i < 8
    ensures m != 0
  {
    if i == 0 then 0x80 else if i == 1 then 0x40 else if i == 2 then 0x20
    else if i == 3 then 0x10 else if i == 4 then 0x08 else if i == 5 then 0x04
    else if i == 6 then 0x02 else 0x01
  }

  lemma BitIsShift(i: int)
    requires 0 <= i < 8
    ensures Bit(i) == 0x80 >> i
  {
  }

  /** The bit of its byte that holds a pixel in column x: `0x80 >> (x % 8)`. */
  function BitMask(x: int): bv8 {
    Bit(x % 8)
  }

  /** Native pixel p is white (its bit is set). */
  predicate IsWhite(buf: seq<bv8>, p: Point)
    requires IsFrame(buf) && InPanel(p)
  {
    buf[ByteIndex(p)] & BitMask(p.x) != 0
  }

  /** `SetAbsolutePixel` (epd1in54v2.cpp:575-594) on the buffer contents: outside the
      native panel nothing changes; otherwise the one bit of the one byte that holds
      (x, y) is cleared when `colored` is non-zero and set when it is zero. */
  function AbsolutePixel(buf: seq<bv8>, x: int, y: int, colored: int): (r: seq<bv8>)
    requires IsFrame(buf)
    ensures |r| == |buf|
    ensures !InPanel(Point(x, y)) ==> r == buf
  {
    if !InPanel(Point(x, y)) then buf
    else
      var k := ByteIndex(Point(x, y));
      buf[k := WriteBit(buf[k], BitMask(x), colored)]
  }

  /** The new value of a byte after one of its pixels is written: the mask's bit is
      cleared when `colored` is non-zero and set when it is zero. */
  function WriteBit(b: bv8, m: bv8, colored: int): bv8 {
    if colored != 0 then b & !m else b | m
  }

  /** The written bit ends up set exactly when the colour is zero. */
  lemma WriteBitResult(b: bv8, m: bv8, colored: int)
    requires m != 0
    ensures WriteBit(b, m, colored) & m != 0 <==> colored == 0
  {
    if colored != 0 {
    } else {
    }
  }

  /** The in-place form of `AbsolutePixel`: one byte update of the buffer. */
  lemma AbsolutePixelUpdate(buf: seq<bv8>, x: int, y: int, colored: int)
    requires IsFrame(buf) && InPanel(Point(x, y))
    ensures var k := (x + y * EPD_WIDTH) / 8;
      AbsolutePixel(buf, x, y, colored) ==
        buf[k := if colored != 0 then buf[k] & !BitMask(x) else buf[k] | BitMask(x)]
  {
  }

  /** Writing the same pixel twice in the same colour is the same as writing it once. */
  lemma AbsolutePixelIdempotent(buf: seq<bv8>, x: int, y: int, colored: int)
    requires IsFrame(buf)
    ensures AbsolutePixel(AbsolutePixel(buf, x, y, colored), x, y, colored) == AbsolutePixel(buf, x, y, colored)
  {
    if InPanel(Point(x, y)) {
      var k := ByteIndex(Point(x, y));
      WriteBitTwice(buf[k], BitMask(x), colored);
    }
  }

  lemma WriteBitTwice(b: bv8, m: bv8, colored: int)
    ensures WriteBit(WriteBit(b, m, colored), m, colored) == WriteBit(b, m, colored)
  {
    if colored != 0 {
    } else {
    }
  }

  /** Two different pixels of the panel never share both their byte and their bit. */
  lemma PixelAddressInjective(p: Point, q: Point)
    requires InPanel(p) && InPanel(q)
    requires ByteIndex(p) == ByteIndex(q) && p.x % 8 == q.x % 8
    ensures p == q
  {
    ByteIndexSplit(p);
    ByteIndexSplit(q);
    assert p.y == q.y;
    assert p.x / 8 == q.x / 8;
  }

  /** Different bit positions of a byte are different single bits, so setting or
      clearing one leaves every other one alone. */
  lemma OtherBitKept(b: bv8, i: int, j: int)
    requires 0 <= i < 8 && 0 <= j < 8 && i != j
    ensures (b & !Bit(i)) & Bit(j) == b & Bit(j)
    ensures (b | Bit(i)) & Bit(j) == b & Bit(j)
  {
    assert Bit(i) & Bit(j) == 0;
  }

  /** After `AbsolutePixel`, exactly the addressed pixel has the requested colour and
      every other pixel of the panel keeps its colour. */
  lemma AbsolutePixelEffect(buf: seq<bv8>, x: int, y: int, colored: int, q: Point)
    requires IsFrame(buf) && InPanel(q)
    ensures IsWhite(AbsolutePixel(buf, x, y, colored), q) ==
      if q == Point(x, y) then colored == 0 else IsWhite(buf, q)
  {
    if q == Point(x, y) {
      PixelWritten(buf, x, y, colored);
    } else if InPanel(Point(x, y)) {
      OtherPixelKept(buf, x, y, colored, q);
    }
  }

  /** Inside the panel, the addressed pixel ends up white exactly when the colour is zero. */
  lemma PixelWritten(buf: seq<bv8>, x: int, y: int, colored: int)
    requires IsFrame(buf) && InPanel(Point(x, y))
    ensures IsWhite(AbsolutePixel(buf, x, y, colored), Point(x, y)) == (colored == 0)
  {
    WriteBitResult(buf[ByteIndex(Point(x, y))], BitMask(x), colored);
  }

  /** Every other pixel of the panel keeps its colour: it lies in another byte, or in
      the same byte at another bit. */
  lemma OtherPixelKept(buf: seq<bv8>, x: int, y: int, colored: int, q: Point)
    requires IsFrame(buf) && InPanel(Point(x, y)) && InPanel(q) && q != Point(x, y)
    ensures IsWhite(AbsolutePixel(buf, x, y, colored), q) == IsWhite(buf, q)
  {
    var p := Point(x, y);
    var k, kq := ByteIndex(p), ByteIndex(q);
    if kq == k {
      if q.x % 8 == x % 8 {
        PixelAddressInjective(p, q);
      } else {
        SameByteOtherBit(buf, k, x % 8, q.x % 8, colored);
      }
    }
  }

  lemma SameByteOtherBit(buf: seq<bv8>, k: int, i: int, j: int, colored: int)
    requires 0 <= k < |buf| && 0 <= i < 8 && 0 <= j < 8 && i != j
    ensures WriteBit(buf[k], Bit(i), colored) & Bit(j) == buf[k] & Bit(j)
  {
    OtherBitKept(buf[k], i, j);
  }

  // ----- rotation --------------------------------------------------------------

  /** The native coordinates `SetPixel` computes for each rotation code
      (epd1in54v2.cpp:549-572); any other code selects no mapping. The formulas use
      the native EPD_WIDTH and EPD_HEIGHT, not the logical width and height. */
  function Rotated(rotate: int, p: Point): Option<Point> {
    if rotate == ROTATE_0 then Some(p)
    else if rotate == ROTATE_90 then Some(Point(EPD_WIDTH - p.y, p.x))
    else if rotate == ROTATE_180 then Some(Point(EPD_WIDTH - p.x, EPD_HEIGHT - p.y))
    else if rotate == ROTATE_270 then Some(Point(p.y, EPD_HEIGHT - p.x))
    else None
  }

  predicate InView(v: View, p: Point) {
    0 <= p.x < v.width && 0 <= p.y < v.height
  }

  /** The native pixel `SetPixel` writes for logical point p, if any: p must lie in
      the logical bounds, the rotation code must be known, and the rotated point must
      lie in the panel (which `SetAbsolutePixel` checks). */
  function Target(v: View, p: Point): (t: Option<Point>)
    ensures t.Some? ==> InPanel(t.value) && InView(v, p)
    ensures t.Some? <==> InView(v, p) && Rotated(v.rotate, p).Some? && InPanel(Rotated(v.rotate, p).value)
  {
    if !InView(v, p) then None
    else match Rotated(v.rotate, p)
      case None => None
      case Some(q) => if InPanel(q) then Some(q) else None
  }

  /** `SetPixel` (epd1in54v2.cpp:543-573) on the buffer contents. */
  function Plot(buf: seq<bv8>, v: View, p: Point, colored: int): (r: seq<bv8>)
    requires IsFrame(buf)
    ensures |r| == |buf|
  {
    if p.x < 0 || p.x >= v.width || p.y < 0 || p.y >= v.height then buf
    else match Rotated(v.rotate, p)
      case None => buf
      case Some(q) => AbsolutePixel(buf, q.x, q.y, colored)
  }

  /** `SetPixel` writes the native pixel `Target` names and nothing when there is
      none: a point outside the logical bounds, an unknown rotation code, or a
      rotated point outside the panel. */
  lemma PlotTarget(buf: seq<bv8>, v: View, p: Point, colored: int)
    requires IsFrame(buf)
    ensures Target(v, p).None? ==> Plot(buf, v, p, colored) == buf
    ensures Target(v, p).Some? ==>
      Plot(buf, v, p, colored) == AbsolutePixel(buf, Target(v, p).value.x, Target(v, p).value.y, colored)
  {
  }

  /** With rotation 0 and the native 200x200 size, `SetPixel` is `SetAbsolutePixel`. */
  lemma NativeViewIsAbsolute(buf: seq<bv8>, p: Point, colored: int)
    requires IsFrame(buf)
    ensures Plot(buf, NATIVE, p, colored) == AbsolutePixel(buf, p.x, p.y, colored)
  {
  }

  /** Rotating by 90 degrees twice maps a point as rotating by 180 degrees does. */
  lemma QuarterTurnTwice(p: Point)
    ensures Rotated(ROTATE_90, Rotated(ROTATE_90, p).value) == Rotated(ROTATE_180, p)
  {
  }

  /** The 270-degree mapping undoes the 90-degree one. */
  lemma ThreeQuarterTurnUndoesQuarterTurn(p: Point)
    ensures Rotated(ROTATE_270, Rotated(ROTATE_90, p).value) == Some(p)
  {
  }

  /** Because the mappings are anchored at 200 rather than 199, logical row 0 under a
      90-degree rotation, logical row or column 0 under a 180-degree rotation, and
      logical column 0 under a 270-degree rotation land just outside the panel and
      are never drawn. */
  lemma RotatedEdgeDropped(v: View, p: Point)
    requires || (v.rotate == ROTATE_90 && p.y == 0)
             || (v.rotate == ROTATE_180 && (p.x == 0 || p.y == 0))
             || (v.rotate == ROTATE_270 && p.x == 0)
    ensures Target(v, p) == None
  {
  }

  /** Under the four known rotations, distinct logical points never reach the same
      native pixel. */
  lemma TargetInjective(v: View, p: Point, q: Point)
    requires Target(v, p).Some? && Target(v, p) == Target(v, q)
    ensures p == q
  {
  }

  // ----- painting a sequence of points ----------------------------------------

  /** The buffer after `SetPixel` is called on every point of pts in order, all in
      the same colour. Bytes beyond the frame are never touched. */
  function Paint(buf: seq<bv8>, v: View, pts: seq<Point>, colored: int): (r: seq<bv8>)
    requires IsFrame(buf)
    ensures |r| == |buf|
  {
    PaintPrefix(buf, v, pts, |pts|, colored)
  }

  /** The frame after the first n points of the list have been plotted in order. */
  function PaintPrefix(buf: seq<bv8>, v: View, pts: seq<Point>, n: int, colored: int): (r: seq<bv8>)
    requires IsFrame(buf) && n <= |pts|
    ensures |r| == |buf|
    decreases n
  {
    if n <= 0 then buf
    else Plot(PaintPrefix(buf, v, pts, n - 1, colored), v, pts[n - 1], colored)
  }

  /** Plotting the first n points depends on those n points only. */
  lemma {:induction false} PaintPrefixAgree(buf: seq<bv8>, v: View, a: seq<Point>, b: seq<Point>, n: int, colored: int)
    requires IsFrame(buf) && 0 <= n <= |a| && n <= |b| && a[..n] == b[..n]
    ensures PaintPrefix(buf, v, a, n, colored) == PaintPrefix(buf, v, b, n, colored)
    decreases n
  {
    if n > 0 {
      assert a[n - 1] == a[..n][n - 1] == b[n - 1];
      assert a[..n - 1] == a[..n][..n - 1] == b[..n - 1];
      PaintPrefixAgree(buf, v, a, b, n - 1, colored);
    }
  }

  /** Painting a non-empty list is painting all but its last point, then plotting that one. */
  lemma PaintLast(buf: seq<bv8>, v: View, pts: seq<Point>, colored: int)
    requires IsFrame(buf) && pts != []
    ensures Paint(buf, v, pts, colored) == Plot(Paint(buf, v, pts[..|pts| - 1], colored), v, pts[|pts| - 1], colored)
  {
    var init := pts[..|pts| - 1];
    assert pts[..|init|] == init[..|init|];
    PaintPrefixAgree(buf, v, pts, init, |init|, colored);
  }

  /** Some point of pts is drawn on native pixel q. */
  predicate Hits(v: View, pts: seq<Point>, q: Point) {
    exists i :: 0 <= i < |pts| && Target(v, pts[i]) == Some(q)
  }

  /** On the unrotated panel a point of the panel is hit exactly when it is in the list. */
  lemma NativeHits(pts: seq<Point>, q: Point)
    requires InPanel(q)
    ensures Hits(NATIVE, pts, q) <==> q in pts
  {
    if q in pts {
      var i :| 0 <= i < |pts| && pts[i] == q;
      assert Target(NATIVE, pts[i]) == Some(q);
    }
  }

  lemma PaintOneMore(buf: seq<bv8>, v: View, pts: seq<Point>, p: Point, colored: int)
    requires IsFrame(buf)
    ensures Paint(buf, v, pts + [p], colored) == Plot(Paint(buf, v, pts, colored), v, p, colored)
  {
    assert (pts + [p])[..|pts|] == pts;
    PaintLast(buf, v, pts + [p], colored);
  }

  /** Painting a + b is painting a, then painting b on the result. */
  lemma {:induction false} PaintConcat(buf: seq<bv8>, v: View, a: seq<Point>, b: seq<Point>, colored: int)
    requires IsFrame(buf)
    ensures Paint(buf, v, a + b, colored) == Paint(Paint(buf, v, a, colored), v, b, colored)
    decreases |b|
  {
    if b == [] {
      assert a + b == a;
    } else {
      var b' := b[..|b| - 1];
      var last := b[|b| - 1];
      assert a + b == (a + b') + [last];
      assert b == b' + [last];
      PaintOneMore(buf, v, a + b', last, colored);
      PaintConcat(buf, v, a, b', colored);
      PaintOneMore(Paint(buf, v, a, colored), v, b', last, colored);
    }
  }

  /** The effect of drawing a point sequence, pixel by pixel: a native pixel that some
      point reaches ends up in the drawing colour, every other pixel is unchanged. */
  lemma {:induction false} PaintEffect(buf: seq<bv8>, v: View, pts: seq<Point>, colored: int, q: Point)
    requires IsFrame(buf) && InPanel(q)
    ensures IsWhite(Paint(buf, v, pts, colored), q) ==
      if Hits(v, pts, q) then colored == 0 else IsWhite(buf, q)
    decreases |pts|
  {
    if pts != [] {
      var init, last := pts[..|pts| - 1], pts[|pts| - 1];
      var mid := Paint(buf, v, init, colored);
      PaintLast(buf, v, pts, colored);
      PaintEffect(buf, v, init, colored, q);
      match Target(v, last)
      case None =>
        if Hits(v, pts, q) {
          var i :| 0 <= i < |pts| && Target(v, pts[i]) == Some(q);
          assert i < |init| && Target(v, init[i]) == Some(q);
        }
      case Some(t) =>
        AbsolutePixelEffect(mid, t.x, t.y, colored, q);
        if q != t && Hits(v, pts, q) {
          var i :| 0 <= i < |pts| && Target(v, pts[i]) == Some(q);
          assert i < |init| && Target(v, init[i]) == Some(q);
        }
        if q == t {
          assert Target(v, pts[|pts| - 1]) == Some(q);
        }
      if Hits(v, init, q) {
        var i :| 0 <= i < |init| && Target(v, init[i]) == Some(q);
        assert Target(v, pts[i]) == Some(q);
      }
    }
  }

  /** Painting a shape in a colour and then again in the other colour leaves the
      shape's pixels in the second colour and restores nothing else: every pixel
      outside the shape is as it was before both. */
  lemma {:induction false} PaintThenErase(buf: seq<bv8>, v: View, pts: seq<Point>, q: Point)
    requires IsFrame(buf) && InPanel(q)
    ensures IsWhite(Paint(Paint(buf, v, pts, COLORED), v, pts, UNCOLORED), q) ==
      if Hits(v, pts, q) then true else IsWhite(buf, q)
  {
    var drawn := Paint(buf, v, pts, COLORED);
    PaintEffect(buf, v, pts, COLORED, q);
    PaintEffect(drawn, v, pts, UNCOLORED, q);
  }

  // ----- from pixels back to bytes --------------------------------------------

  /** Pixel number i of byte k. */
  function PixelOf(k: int, i: int): (p: Point)
    requires 0 <= k < BUFFER_SIZE && 0 <= i < 8
    ensures InPanel(p) && ByteIndex(p) == k && p.x % 8 == i
  {
    var p := Point(8 * (k % ROW_BYTES) + i, k / ROW_BYTES);
    ByteIndexSplit(p);
    p
  }

  /** A byte whose eight bits are all set is 0xFF; one whose bits are all clear is 0x00. */
  lemma ByteFromBits(b: bv8, white: bool)
    requires forall i | 0 <= i < 8 :: (b & Bit(i) != 0) == white
    ensures b == if white then 0xFF else 0x00
  {
    assert (b & Bit(0) != 0) == white && (b & Bit(1) != 0) == white;
    assert (b & Bit(2) != 0) == white && (b & Bit(3) != 0) == white;
    assert (b & Bit(4) != 0) == white && (b & Bit(5) != 0) == white;
    assert (b & Bit(6) != 0) == white && (b & Bit(7) != 0) == white;
  }

  /** When every pixel of the panel has the same colour, every byte of the frame is
      0xFF (all white) or 0x00 (all coloured). */
  lemma UniformBytes(buf: seq<bv8>, white: bool)
    requires IsFrame(buf)
    requires forall p | InPanel(p) :: IsWhite(buf, p) == white
    ensures forall k | 0 <= k < BUFFER_SIZE :: buf[k] == if white then 0xFF else 0x00
  {
    forall k | 0 <= k < BUFFER_SIZE
      ensures buf[k] == if white then 0xFF else 0x00
    {
      forall i | 0 <= i < 8
        ensures (buf[k] & Bit(i) != 0) == white
      {
        var p := PixelOf(k, i);
        assert IsWhite(buf, p) == white;
      }
      ByteFromBits(buf[k], white);
    }
  }
}
