/** The pixels `DrawCharAt` and `DrawStringAt` hand to `SetPixel`
    (epd1in54v2.cpp:742-788), read from an `sFONT` bitmap table. */
module Text {
  import opened Panel
  import opened Framebuffer

  /** An `sFONT`: the glyph bitmaps of the characters from ' ' upwards, each
      `height` rows of `RowBytes` bytes, bits MSB-first. */
  datatype Font = Font(table: seq<bv8>, width: nat, height: nat)

  /** Bytes per glyph row: `Width / 8`, plus one for a partial byte. */
  function RowBytes(f: Font): (rb: nat)
    ensures 8 * rb >= f.width && 8 * rb < f.width + 8
  {
    f.width / 8 + (if f.width % 8 != 0 then 1 else 0)
  }

  /** `char_offset`: where the glyph of c starts in the table. */
  function GlyphOffset(f: Font, c: char): (k: nat)
    requires ' ' <= c
  {
    (c as int - ' ' as int) * f.height * RowBytes(f)
  }

  /** The table holds every byte of c's glyph (no read past its end). */
  predicate HasGlyph(f: Font, c: char) {
    ' ' <= c && GlyphOffset(f, c) + f.height * RowBytes(f) <= |f.table|
  }

  /** Where row j of c's glyph starts in the table. */
  function RowStart(f: Font, c: char, j: int): int
    requires ' ' <= c
  {
    GlyphOffset(f, c) + j * RowBytes(f)
  }

  lemma RowStartNext(f: Font, c: char, j: int)
    requires ' ' <= c
    ensures RowStart(f, c, j + 1) == RowStart(f, c, j) + RowBytes(f)
  {
    assert (j + 1) * RowBytes(f) == j * RowBytes(f) + RowBytes(f);
  }

  /** The byte `ptr` points at while column i of row j is examined: `ptr`
      moves on after every eighth column and after a row's partial byte. */
  function GlyphByte(f: Font, c: char, i: int, j: int): (k: int)
    requires HasGlyph(f, c) && 0 <= i < f.width && 0 <= j < f.height
    ensures RowStart(f, c, j) <= k < RowStart(f, c, j + 1)
    ensures 0 <= k < |f.table|
  {
    RowStartNext(f, c, j);
    MulMonotone(j + 1, f.height, RowBytes(f));
    RowStart(f, c, j) + i / 8
  }

  /** Whether the glyph of c has its bit set at column i of row j. */
  predicate GlyphBit(f: Font, c: char, i: int, j: int)
    requires HasGlyph(f, c) && 0 <= i < f.width && 0 <= j < f.height
  {
    f.table[GlyphByte(f, c, i, j)] & BitMask(i) != 0
  }

  /** The pixels a row of bits plots at row y from column x, for its first n bits,
      left to right: one pixel per set bit. */
  function BitRow(bits: seq<bool>, x: int, y: int, n: int): seq<Point>
    requires n <= |bits|
    decreases n
  {
    if n <= 0 then [] else BitRow(bits, x, y, n - 1) + (if bits[n - 1] then [Point(x + n - 1, y)] else [])
  }

  lemma {:induction false} BitRowMembers(bits: seq<bool>, x: int, y: int, n: int, p: Point)
    requires n <= |bits|
    ensures p in BitRow(bits, x, y, n) <==> p.y == y && x <= p.x < x + n && bits[p.x - x]
    decreases n
  {
    if n > 0 {
      BitRowMembers(bits, x, y, n - 1, p);
    }
  }

  /** The pixels the first m rows of a grid of bits plot, top to bottom, row j at
      y + j; every row is w bits wide. */
  function BitRows(grid: seq<seq<bool>>, w: int, x: int, y: int, m: int): seq<Point>
    requires m <= |grid| && forall j | 0 <= j < |grid| :: |grid[j]| == w
    decreases m
  {
    if m <= 0 then [] else BitRows(grid, w, x, y, m - 1) + BitRow(grid[m - 1], x, y + (m - 1), w)
  }

  /** Every pixel the first m rows plot lies in their box and has its bit set. */
  lemma {:induction false} BitRowsSound(grid: seq<seq<bool>>, w: int, x: int, y: int, m: int, p: Point)
    requires m <= |grid| && forall j | 0 <= j < |grid| :: |grid[j]| == w
    requires p in BitRows(grid, w, x, y, m)
    ensures x <= p.x < x + w && y <= p.y < y + m && grid[p.y - y][p.x - x]
    decreases m
  {
    var above, row := BitRows(grid, w, x, y, m - 1), BitRow(grid[m - 1], x, y + (m - 1), w);
    assert p in above + row;
    if p in above {
      BitRowsSound(grid, w, x, y, m - 1, p);
    } else {
      BitRowMembers(grid[m - 1], x, y + (m - 1), w, p);
    }
  }

  /** Every set bit of the first m rows is plotted. */
  lemma {:induction false} BitRowsComplete(grid: seq<seq<bool>>, w: int, x: int, y: int, m: int, p: Point)
    requires m <= |grid| && forall j | 0 <= j < |grid| :: |grid[j]| == w
    requires x <= p.x < x + w && y <= p.y < y + m && grid[p.y - y][p.x - x]
    ensures p in BitRows(grid, w, x, y, m)
    decreases m
  {
    var above, row := BitRows(grid, w, x, y, m - 1), BitRow(grid[m - 1], x, y + (m - 1), w);
    assert BitRows(grid, w, x, y, m) == above + row;
    if p.y < y + (m - 1) {
      BitRowsComplete(grid, w, x, y, m - 1, p);
      assert p in above;
    } else {
      BitRowMembers(grid[m - 1], x, y + (m - 1), w, p);
      assert p in row;
    }
  }

  lemma BitRowsMembers(grid: seq<seq<bool>>, w: int, x: int, y: int, m: int, p: Point)
    requires m <= |grid| && forall j | 0 <= j < |grid| :: |grid[j]| == w
    ensures p in BitRows(grid, w, x, y, m) <==>
      x <= p.x < x + w && y <= p.y < y + m && grid[p.y - y][p.x - x]
  {
    if p in BitRows(grid, w, x, y, m) {
      BitRowsSound(grid, w, x, y, m, p);
    } else if x <= p.x < x + w && y <= p.y < y + m && grid[p.y - y][p.x - x] {
      BitRowsComplete(grid, w, x, y, m, p);
    }
  }

  /** The glyph of c as a grid of bits: row j, column i is `GlyphBit(f, c, i, j)`. */
  function GlyphGrid(f: Font, c: char): (g: seq<seq<bool>>)
    requires HasGlyph(f, c)
    ensures |g| == f.height && forall j | 0 <= j < f.height :: |g[j]| == f.width
  {
    seq(f.height, j requires 0 <= j < f.height =>
      seq(f.width, i requires 0 <= i < f.width => GlyphBit(f, c, i, j)))
  }

  lemma GlyphGridAt(f: Font, c: char, j: int, i: int)
    requires HasGlyph(f, c) && 0 <= j < f.height && 0 <= i < f.width
    ensures GlyphGrid(f, c)[j][i] == GlyphBit(f, c, i, j)
  {
  }

  /** The pixels row j of the glyph plots for its first n columns, left to right. */
  function GlyphRow(f: Font, c: char, x: int, y: int, j: int, n: int): seq<Point>
    requires HasGlyph(f, c) && 0 <= j < f.height && n <= f.width
  {
    BitRow(GlyphGrid(f, c)[j], x, y + j, n)
  }

  /** The pixels the first m rows of the glyph plot, top to bottom. */
  function GlyphRows(f: Font, c: char, x: int, y: int, m: int): seq<Point>
    requires HasGlyph(f, c) && m <= f.height
  {
    BitRows(GlyphGrid(f, c), f.width, x, y, m)
  }

  /** The points `DrawCharAt(x, y, c)` plots, in order. */
  function GlyphPoints(f: Font, c: char, x: int, y: int): seq<Point>
    requires HasGlyph(f, c)
  {
    GlyphRows(f, c, x, y, f.height)
  }

  /** Column i of row j plots its pixel when, and only when, its bit is set. */
  lemma GlyphRowStep(buf: seq<bv8>, v: View, f: Font, c: char, x: int, y: int, j: int, i: int, colored: int)
    requires IsFrame(buf) && HasGlyph(f, c) && 0 <= j < f.height && 0 <= i < f.width
    ensures Paint(buf, v, GlyphRow(f, c, x, y, j, i + 1), colored) ==
      if GlyphBit(f, c, i, j) then Plot(Paint(buf, v, GlyphRow(f, c, x, y, j, i), colored), v, Point(x + i, y + j), colored)
      else Paint(buf, v, GlyphRow(f, c, x, y, j, i), colored)
  {
    var bits := GlyphGrid(f, c)[j];
    GlyphGridAt(f, c, j, i);
    if bits[i] {
      assert GlyphRow(f, c, x, y, j, i + 1) == GlyphRow(f, c, x, y, j, i) + [Point(x + i, y + j)];
      PaintOneMore(buf, v, GlyphRow(f, c, x, y, j, i), Point(x + i, y + j), colored);
    } else {
      assert GlyphRow(f, c, x, y, j, i + 1) == GlyphRow(f, c, x, y, j, i) + [];
      assert GlyphRow(f, c, x, y, j, i) + [] == GlyphRow(f, c, x, y, j, i);
    }
  }

  /** Drawing one more row of the glyph is drawing that row after the rows before it. */
  lemma GlyphRowsStep(buf: seq<bv8>, v: View, f: Font, c: char, x: int, y: int, j: int, colored: int)
    requires IsFrame(buf) && HasGlyph(f, c) && 0 <= j < f.height
    ensures Paint(buf, v, GlyphRows(f, c, x, y, j + 1), colored) ==
      Paint(Paint(buf, v, GlyphRows(f, c, x, y, j), colored), v, GlyphRow(f, c, x, y, j, f.width), colored)
  {
    PaintConcat(buf, v, GlyphRows(f, c, x, y, j), GlyphRow(f, c, x, y, j, f.width), colored);
  }

  /** The glyph box: the columns [x, x + Width) and rows [y, y + Height). */
  predicate InGlyphBox(f: Font, x: int, y: int, p: Point) {
    x <= p.x < x + f.width && y <= p.y < y + f.height
  }

  lemma GlyphRowMembers(f: Font, c: char, x: int, y: int, j: int, n: int, p: Point)
    requires HasGlyph(f, c) && 0 <= j < f.height && n <= f.width
    ensures p in GlyphRow(f, c, x, y, j, n) <==>
      p.y == y + j && x <= p.x < x + n && GlyphBit(f, c, p.x - x, j)
  {
    BitRowMembers(GlyphGrid(f, c)[j], x, y + j, n, p);
    if x <= p.x < x + n {
      GlyphGridAt(f, c, j, p.x - x);
    }
  }

  lemma GlyphRowsMembers(f: Font, c: char, x: int, y: int, m: int, p: Point)
    requires HasGlyph(f, c) && m <= f.height
    ensures p in GlyphRows(f, c, x, y, m) <==>
      x <= p.x < x + f.width && y <= p.y < y + m && GlyphGrid(f, c)[p.y - y][p.x - x]
  {
    BitRowsMembers(GlyphGrid(f, c), f.width, x, y, m, p);
  }

  /** `DrawCharAt` plots (x + i, y + j) exactly when bit 0x80 >> (i % 8) of the
      byte at offset + j * RowBytes + i / 8 is set: zero bits plot nothing, and
      nothing outside the glyph box is plotted. */
  lemma GlyphMembers(f: Font, c: char, x: int, y: int, p: Point)
    requires HasGlyph(f, c)
    ensures p in GlyphPoints(f, c, x, y) <==>
      InGlyphBox(f, x, y, p) && GlyphBit(f, c, p.x - x, p.y - y)
  {
    GlyphRowsMembers(f, c, x, y, f.height, p);
    if InGlyphBox(f, x, y, p) {
      GlyphGridAt(f, c, p.y - y, p.x - x);
    }
  }

  /** On the unrotated panel, drawing a glyph changes exactly the pixels of its set
      bits (to the drawing colour) and keeps every other pixel. */
  lemma GlyphEffect(buf: seq<bv8>, f: Font, c: char, x: int, y: int, colored: int, q: Point)
    requires IsFrame(buf) && InPanel(q) && HasGlyph(f, c)
    ensures IsWhite(Paint(buf, NATIVE, GlyphPoints(f, c, x, y), colored), q) ==
      if InGlyphBox(f, x, y, q) && GlyphBit(f, c, q.x - x, q.y - y) then colored == 0 else IsWhite(buf, q)
  {
    PaintEffect(buf, NATIVE, GlyphPoints(f, c, x, y), colored, q);
    NativeHits(GlyphPoints(f, c, x, y), q);
    GlyphMembers(f, c, x, y, q);
  }

  /** The characters of a C string: everything before the first NUL. */
  function StringChars(text: seq<char>): (s: seq<char>)
    ensures '\0' !in s
    ensures |s| <= |text| && s == text[..|s|]
    ensures |s| < |text| ==> text[|s|] == '\0'
  {
    if text == [] || text[0] == '\0' then [] else [text[0]] + StringChars(text[1..])
  }

  /** Character k of the C string is character k of the text, and is not NUL. */
  lemma StringCharsAt(text: seq<char>, k: int)
    requires 0 <= k < |StringChars(text)|
    ensures text[k] == StringChars(text)[k] && text[k] != '\0'
  {
    var s := StringChars(text);
    assert s[k] in s;
  }

  /** Every character of s has its glyph in the font. */
  predicate Printable(f: Font, s: seq<char>) {
    forall k | 0 <= k < |s| :: HasGlyph(f, s[k])
  }

  /** `refcolumn` for character k: the left edge of its glyph, x + k * Width. */
  function CharLeft(f: Font, x: int, k: int): int {
    x + k * f.width
  }

  lemma CharLeftNext(f: Font, x: int, k: int)
    ensures CharLeft(f, x, k + 1) == CharLeft(f, x, k) + f.width
  {
    assert (k + 1) * f.width == k * f.width + f.width;
  }

  /** The first n parts, one after the other. */
  function Concat(parts: seq<seq<Point>>, n: int): seq<Point>
    requires n <= |parts|
    decreases n
  {
    if n <= 0 then [] else Concat(parts, n - 1) + parts[n - 1]
  }

  /** Every point of the first n parts belongs to one of them. */
  lemma {:induction false} ConcatSound(parts: seq<seq<Point>>, n: int, p: Point)
    requires n <= |parts| && p in Concat(parts, n)
    ensures exists k :: 0 <= k < n && p in parts[k]
    decreases n
  {
    assert p in Concat(parts, n - 1) + parts[n - 1];
    if p !in parts[n - 1] {
      ConcatSound(parts, n - 1, p);
    }
  }

  /** Every point of one of the first n parts is among them. */
  lemma {:induction false} ConcatComplete(parts: seq<seq<Point>>, n: int, k: int, p: Point)
    requires 0 <= k < n <= |parts| && p in parts[k]
    ensures p in Concat(parts, n)
    decreases n
  {
    assert Concat(parts, n) == Concat(parts, n - 1) + parts[n - 1];
    if k < n - 1 {
      ConcatComplete(parts, n - 1, k, p);
    }
  }

  /** The glyph of each character of s, character k with its left edge at column
      CharLeft(f, x, k). */
  function StringGlyphs(f: Font, x: int, y: int, s: seq<char>): (parts: seq<seq<Point>>)
    requires Printable(f, s)
    ensures |parts| == |s|
  {
    seq(|s|, k requires 0 <= k < |s| => GlyphPoints(f, s[k], CharLeft(f, x, k), y))
  }

  lemma StringGlyphsAt(f: Font, x: int, y: int, s: seq<char>, k: int)
    requires Printable(f, s) && 0 <= k < |s|
    ensures StringGlyphs(f, x, y, s)[k] == GlyphPoints(f, s[k], CharLeft(f, x, k), y)
  {
  }

  /** The points `DrawStringAt` plots for the first n characters of s, in order. */
  function StringPrefix(f: Font, x: int, y: int, s: seq<char>, n: int): seq<Point>
    requires Printable(f, s) && n <= |s|
  {
    Concat(StringGlyphs(f, x, y, s), n)
  }

  /** The points `DrawStringAt` plots for the characters s. */
  function StringPoints(f: Font, x: int, y: int, s: seq<char>): seq<Point>
    requires Printable(f, s)
  {
    StringPrefix(f, x, y, s, |s|)
  }

  /** p is plotted by the glyph of character k of s, drawn at column x + k * Width. */
  predicate OnChar(f: Font, x: int, y: int, s: seq<char>, k: int, p: Point)
    requires Printable(f, s)
  {
    0 <= k < |s| && p in GlyphPoints(f, s[k], CharLeft(f, x, k), y)
  }

  lemma StringPrefixMembers(f: Font, x: int, y: int, s: seq<char>, n: int, p: Point)
    requires Printable(f, s) && 0 <= n <= |s|
    ensures p in StringPrefix(f, x, y, s, n) <==> exists k :: k < n && OnChar(f, x, y, s, k, p)
  {
    var parts := StringGlyphs(f, x, y, s);
    if p in StringPrefix(f, x, y, s, n) {
      ConcatSound(parts, n, p);
      var k :| 0 <= k < n && p in parts[k];
      StringGlyphsAt(f, x, y, s, k);
      assert OnChar(f, x, y, s, k, p);
    }
    if exists k :: k < n && OnChar(f, x, y, s, k, p) {
      var k :| k < n && OnChar(f, x, y, s, k, p);
      StringGlyphsAt(f, x, y, s, k);
      ConcatComplete(parts, n, k, p);
    }
  }

  /** Drawing one more character is drawing its glyph after the ones before it. */
  lemma StringPrefixStep(buf: seq<bv8>, v: View, f: Font, x: int, y: int, s: seq<char>, n: int, colored: int)
    requires IsFrame(buf) && Printable(f, s) && 0 <= n < |s|
    ensures Paint(buf, v, StringPrefix(f, x, y, s, n + 1), colored) ==
      Paint(Paint(buf, v, StringPrefix(f, x, y, s, n), colored), v, GlyphPoints(f, s[n], CharLeft(f, x, n), y), colored)
  {
    StringGlyphsAt(f, x, y, s, n);
    PaintConcat(buf, v, StringPrefix(f, x, y, s, n), GlyphPoints(f, s[n], CharLeft(f, x, n), y), colored);
  }

  /** The string plots exactly the points of its characters' glyphs. */
  lemma StringMembers(f: Font, x: int, y: int, s: seq<char>, p: Point)
    requires Printable(f, s)
    ensures p in StringPoints(f, x, y, s) <==> exists k :: OnChar(f, x, y, s, k, p)
  {
    StringPrefixMembers(f, x, y, s, |s|, p);
  }

  lemma DivUnique(d: int, w: int, k: int)
    requires w > 0 && k * w <= d < k * w + w
    ensures d / w == k
  {
    var q, r := d / w, d % w;
    assert d == q * w + r;
    if q < k {
      MulMonotone(q, k - 1, w);
    } else if q > k {
      MulMonotone(k + 1, q, w);
    }
  }

  /** A string pixel at column c belongs to character (c - x) / Width: the glyph
      boxes of successive characters sit side by side without overlapping, so a
      pixel is plotted exactly when that one character's glyph has its bit set. */
  lemma StringPixel(f: Font, x: int, y: int, s: seq<char>, p: Point)
    requires Printable(f, s) && f.width > 0
    ensures p in StringPoints(f, x, y, s) <==> OnChar(f, x, y, s, (p.x - x) / f.width, p)
  {
    StringMembers(f, x, y, s, p);
    if p in StringPoints(f, x, y, s) {
      var k :| OnChar(f, x, y, s, k, p);
      CharColumns(f, x, y, s, k, p);
    }
  }

  /** A pixel of character k lies in the columns [x + k * Width, x + (k + 1) * Width). */
  lemma CharColumns(f: Font, x: int, y: int, s: seq<char>, k: int, p: Point)
    requires Printable(f, s) && f.width > 0 && OnChar(f, x, y, s, k, p)
    ensures (p.x - x) / f.width == k
  {
    GlyphMembers(f, s[k], CharLeft(f, x, k), y, p);
    DivUnique(p.x - x, f.width, k);
  }
}
