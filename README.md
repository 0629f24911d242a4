# Waveshare 1.54" v2 e-paper driver (mbed) in Dafny

This project models the `Epd` class of the mbed driver for the Waveshare 1.54 inch
200 x 200 black-and-white e-paper panel (`epd1in54v2.h`, `epd1in54v2.cpp`). It proves
what each routine does, in three layers.

- **The frame buffer** (`Panel.dfy`, `Framebuffer.dfy`)
  - The buffer packs 1 bit per pixel. Each native row takes 25 bytes, and a frame is 5000 bytes.
  - Bits run most significant first, and the polarity is inverted: a coloured pixel clears its bit, an uncoloured one sets it.
  - `SetAbsolutePixel` is the only routine that writes a byte. `AbsolutePixel` is its value-level specification.
  - `SetPixel` maps a logical point to a native one through the `rotate` field (`Rotated`, `Target`), then delegates.
  - `Paint` is the buffer after `SetPixel` has been called on each point of a sequence in turn. `PaintEffect` says what that does to every pixel.
- **The graphics layer** (`Shapes.dfy`, `Circles.dfy`, `Text.dfy`)
  - Each drawing routine has a function that gives the exact sequence of points it hands to `SetPixel`:
    - `LinePoints` for the Bresenham line;
    - `HLine`, `VLine`, `RectPoints` and `FilledRectPoints` for lines and rectangles;
    - `CirclePoints` and `FilledCirclePoints` for the midpoint circles;
    - `GlyphPoints` and `StringPoints` for text.
  - Lemmas state which points these sequences hold: corners, spans, symmetry and glyph bits.
  - The methods of `Epd` are proved to leave the buffer equal to `Paint` of those sequences.
- **The panel protocol** (`Protocol.dfy`)
  - The driver's pin activity is an append-only log of events:
    - a command or a data byte over SPI, with the DC pin level;
    - a reset-pin level;
    - a delay;
    - a read of the busy pin, whose level comes from an oracle.
  - Each driver call is proved to append one fixed, computable run of events. Lemmas then say which bytes reach the panel in that run, whatever the busy pin does.

`Epd.dfy` holds the class itself.
- **Fields:** `width`, `height` and `rotate`, which are public in the source, plus the event log `trace` and the busy-read cursor `busyReads`.
- **Methods:** every method of the class, written as the source writes it: the same loops, the same branches and the same constants.
- **Factored helpers:** some loop bodies and inner loops are separate methods, for example `SendRow`, `DrawGlyphRow`, `StepLine`, `StepArc` and `PlotRingPass`. They make the same calls in the same order as the source.

The model follows the source as written in three places:
- `SetRotate` assigns only its parameter `rotate`, which shadows the field, so the field never changes.
- The `LDirInit` RAM windows reach one unit past the panel.
- The rotated mappings are anchored at 200, not 199. So logical row 0 at 90 degrees is never drawn, and neither is row or column 0 at 180 degrees, or column 0 at 270 degrees.

## Model

| member | source | states |
|---|---|---|
| Panel.GeometryIsByteAligned | epd1in54v2.h:38-39 | the 200-pixel width is a multiple of 8, so a row is exactly 25 bytes and a frame 5000 bytes (200 x 200 bits) |
| Panel.ToUnsigned | epd1in54v2.cpp:667 | an `int` converted to a 32-bit unsigned type lies in [0, 2^32) and is congruent to it modulo 2^32 |
| Panel.ToSigned | epd1in54v2.cpp:368 | a 32-bit unsigned value stored into an `int` lies in the `int` range and converts back to the same unsigned value |
| Panel.NegativeIsLargeUnsigned | epd1in54v2.cpp:667 | a negative `int` compared with an unsigned width of at most 2^31 is never below it |
| Panel.Le16RoundTrip | epd1in54v2.cpp:464-467 | sending `v & 0xFF` then `(v >> 8) & 0xFF` transmits every value below 2^16 exactly |
| Panel.ByteRoundTrip | epd1in54v2.cpp:461 | a value below 256 survives `& 0xFF` |
| Panel.TruncDiv | epd1in54v2.cpp:388 | C division by a positive divisor truncates toward zero: the remainder `a - q * b` lies in [0, b) for a non-negative dividend and in (-b, 0] for a negative one |
| Panel.MaskF8 | epd1in54v2.cpp:364-365 | `v & 0xF8` is a multiple of 8 of at most 0xF8 and at most v, under 8 below v when v < 256, and drops every bit from 256 up |
| Panel.MaskExample | epd1in54v2.cpp:363-365 | 3 masks to 0, 13 to 8, and 269 to 8 (the high bits are lost) |
| Framebuffer.ByteIndex | epd1in54v2.cpp:587 | the byte of a panel pixel lies inside the 5000-byte frame |
| Framebuffer.ByteIndexSplit | epd1in54v2.cpp:587 | pixel (x, y) lies in byte x / 8 of row y, i.e. byte x / 8 + 25 * y |
| Framebuffer.BitIsShift | epd1in54v2.cpp:587 | the mask of column i of a byte is `0x80 >> i` |
| Framebuffer.AbsolutePixel | epd1in54v2.cpp:575-594 | the buffer keeps its length, and a point outside the 200 x 200 panel leaves it unchanged |
| Framebuffer.WriteBitResult | epd1in54v2.cpp:585-592 | after a write, the pixel's bit is set exactly when `colored` is 0; any non-zero colour clears it |
| Framebuffer.AbsolutePixelUpdate | epd1in54v2.cpp:585-592 | on the panel, the write is one update of byte `(x + y * EPD_WIDTH) / 8`, with `&= ~mask` when coloured and `\|= mask` otherwise |
| Framebuffer.AbsolutePixelIdempotent | epd1in54v2.cpp:575-594 | writing the same pixel twice in the same colour equals writing it once |
| Framebuffer.WriteBitTwice | epd1in54v2.cpp:585-592 | setting or clearing the same bit twice equals doing it once |
| Framebuffer.PixelAddressInjective | epd1in54v2.cpp:587 | two panel pixels with the same byte and the same bit position are the same pixel |
| Framebuffer.OtherBitKept | epd1in54v2.cpp:587-591 | clearing or setting one bit of a byte keeps every other bit |
| Framebuffer.AbsolutePixelEffect | epd1in54v2.cpp:575-594 | afterwards the addressed pixel has the requested colour and every other panel pixel keeps its colour |
| Framebuffer.PixelWritten | epd1in54v2.cpp:580-592 | on the panel, the addressed pixel ends white exactly when `colored` is 0 |
| Framebuffer.OtherPixelKept | epd1in54v2.cpp:580-592 | on the panel, every other pixel keeps its colour |
| Framebuffer.SameByteOtherBit | epd1in54v2.cpp:587-591 | a pixel sharing the written byte at another bit keeps its colour |
| Framebuffer.Target | epd1in54v2.cpp:545-572 | a native pixel is written exactly when the point is in the logical bounds, the rotation code is 0 to 3 and the rotated point is on the panel |
| Framebuffer.PlotTarget | epd1in54v2.cpp:543-573 | `SetPixel` is `SetAbsolutePixel` of the target pixel, and a no-op when there is none (out of bounds, unknown rotation, or off the panel) |
| Framebuffer.NativeViewIsAbsolute | epd1in54v2.cpp:549-552 | with rotation 0 and the native 200 x 200 size, `SetPixel` is `SetAbsolutePixel` |
| Framebuffer.QuarterTurnTwice | epd1in54v2.cpp:553-565 | the 90-degree mapping applied twice equals the 180-degree mapping |
| Framebuffer.ThreeQuarterTurnUndoesQuarterTurn | epd1in54v2.cpp:553-572 | the 270-degree mapping inverts the 90-degree one |
| Framebuffer.RotatedEdgeDropped | epd1in54v2.cpp:553-572 | logical row 0 at 90 degrees, row or column 0 at 180 degrees, and column 0 at 270 degrees map off the panel and are never drawn |
| Framebuffer.TargetInjective | epd1in54v2.cpp:549-572 | two different logical points never reach the same native pixel |
| Framebuffer.PaintPrefixAgree | epd1in54v2.cpp:543-573 | drawing the first n points depends on those points only |
| Framebuffer.PaintLast | epd1in54v2.cpp:543-573 | drawing a list draws all but its last point, then that point |
| Framebuffer.PaintOneMore | epd1in54v2.cpp:543-573 | drawing one more point is one more `SetPixel` call |
| Framebuffer.PaintConcat | epd1in54v2.cpp:543-573 | drawing a + b draws a, then draws b on the result |
| Framebuffer.NativeHits | epd1in54v2.cpp:549-552 | unrotated, a panel pixel is reached exactly when it is in the list |
| Framebuffer.PaintEffect | epd1in54v2.cpp:543-594 | after drawing a list, every pixel some point reaches has the drawing colour and every other pixel is unchanged |
| Framebuffer.PaintThenErase | epd1in54v2.cpp:543-594 | drawing a shape coloured and then uncoloured leaves its pixels white and every other pixel as it was |
| Framebuffer.PixelOf | epd1in54v2.cpp:587 | every bit of every frame byte is the bit of one panel pixel |
| Framebuffer.ByteFromBits | epd1in54v2.cpp:587-591 | a byte whose eight pixel bits all agree is 0xFF or 0x00 |
| Framebuffer.UniformBytes | epd1in54v2.cpp:587-591 | when every panel pixel has one colour, every frame byte is 0xFF (white) or 0x00 (coloured) |
| Shapes.LineStepBounds | epd1in54v2.cpp:604-617 | each pass moves x one step toward x1, y one step toward y1, or both; it never passes the endpoint, and the distance left shrinks |
| Shapes.LineFrom | epd1in54v2.cpp:604-617 | the loop plots no more points than the steps left to the endpoint, so it terminates |
| Shapes.LineFromStep | epd1in54v2.cpp:604-617 | one pass plots the current point, then continues from the next state |
| Shapes.LineFromBounds | epd1in54v2.cpp:604-617 | every plotted point lies between the start and the endpoint and has reached neither endpoint coordinate |
| Shapes.LineShape | epd1in54v2.cpp:596-618 | no plotted point shares a row or a column with (x1, y1), so the endpoint is never drawn; nothing is drawn when x0 == x1 or y0 == y1; otherwise (x0, y0) is drawn first; at most \|dx\| + \|dy\| points are drawn |
| Shapes.LineConnected | epd1in54v2.cpp:607-616 | successive plotted points are distinct neighbours, one step apart toward the endpoint |
| Shapes.SetupHeads | epd1in54v2.cpp:599-603 | the initial dx, dy, sx and sy point toward the endpoint |
| Shapes.HLine | epd1in54v2.cpp:620-626 | a horizontal line plots max(len, 0) points |
| Shapes.VLine | epd1in54v2.cpp:628-634 | a vertical line plots max(len, 0) points |
| Shapes.HLineMembers | epd1in54v2.cpp:620-626 | a horizontal line covers exactly columns [x, x + len) of row y, and nothing when len <= 0 |
| Shapes.VLineMembers | epd1in54v2.cpp:628-634 | a vertical line covers exactly rows [y, y + len) of column x, and nothing when len <= 0 |
| Shapes.ColumnsStep | epd1in54v2.cpp:655-658 | one more pass of the filled rectangle adds column x after the columns before it |
| Shapes.PaintFour | epd1in54v2.cpp:642-645 | the four edges drawn in one go equal the four calls in order |
| Shapes.RectMembers | epd1in54v2.cpp:636-646 | the outline is exactly the border of the closed rectangle between the corners, in either corner order |
| Shapes.ColumnsMembers | epd1in54v2.cpp:655-658 | n columns of height len cover exactly [minX, minX + n) x [minY, minY + len) |
| Shapes.FilledRectMembers | epd1in54v2.cpp:648-659 | the filled rectangle covers exactly the closed rectangle between the normalised corners, in either corner order |
| Shapes.ClearEffect | epd1in54v2.cpp:504-513 | clearing sets exactly the native pixels with x < width and y < height to the colour and keeps all others |
| Shapes.ClearFillsFrame | epd1in54v2.cpp:504-513 | with width and height of at least 200, all 5000 bytes become 0xFF (colour 0) or 0x00 (any other colour) |
| Shapes.FilledRectDrawAndClear | epd1in54v2.cpp:648-659 | drawing the filled rectangle (0, 0)-(4, 4) and then erasing it leaves white exactly the pixels it reaches and every other pixel unchanged, under any rotation |
| Circles.SquareStep | epd1in54v2.cpp:681 | (n + 1)^2 = n^2 + 2n + 1, the identity behind the error updates |
| Circles.SquareIsProduct | epd1in54v2.cpp:666 | the square used in the error term is n * n |
| Circles.SquareMonotone | epd1in54v2.cpp:678-681 | squares of naturals grow with their base |
| Circles.ErrorAfterYStep | epd1in54v2.cpp:680-681 | `err += y_pos * 2 + 1` after `y_pos += 1` keeps err == (x_pos + 1)^2 + (y_pos + 1)^2 - radius^2 |
| Circles.ErrorAfterXStep | epd1in54v2.cpp:689-690 | `err += x_pos * 2 + 1` after `x_pos += 1` keeps the same equation |
| Circles.YStepStaysInside | epd1in54v2.cpp:678-681 | y_pos steps only while it is below radius |
| Circles.ArcStepKeeps | epd1in54v2.cpp:677-691 | each pass keeps the error invariant, moves x_pos and y_pos up by at most one, moves at least one of them, and shrinks the measure |
| Circles.ArcFrom | epd1in54v2.cpp:671-696 | the walk from a state visits that state's position first and visits at least one position |
| Circles.ArcFromBounds | epd1in54v2.cpp:671-696 | for radius >= 0, every visited offset has -radius <= x_pos <= 0 <= y_pos <= radius |
| Circles.OctantStep | epd1in54v2.cpp:671-696 | one pass keeps the walk split into offsets drawn and offsets to come, and the loop exits exactly when every offset has been drawn |
| Circles.StartKeeps | epd1in54v2.cpp:664-666 | the start x_pos = -radius, y_pos = 0, err = 2 - 2 * radius satisfies the invariant |
| Circles.OctantShape | epd1in54v2.cpp:664-696 | the walk starts at (-radius, 0) and stays in [-radius, 0] x [0, radius] |
| Circles.PaintQuad | epd1in54v2.cpp:673-676 | the four points of an offset are drawn by the four `SetPixel` calls in source order |
| Circles.SweepAgree | epd1in54v2.cpp:671-696 | the first n pieces depend on the first n offsets only |
| Circles.SweepStep | epd1in54v2.cpp:671-696 | one more offset appends its piece |
| Circles.RingStep | epd1in54v2.cpp:671-696 | one more pass of `DrawCircle` draws the offset's four points after the ring so far |
| Circles.DiskStep | epd1in54v2.cpp:709-736 | one more pass of `DrawFilledCircle` draws the offset's slab after the disk so far |
| Circles.NegativeCentreSkipped | epd1in54v2.cpp:667-670 | for 32-bit centres and sizes up to 2^31, the unsigned guard rejects a negative centre and one at or beyond width/height, and accepts every other centre |
| Circles.SweepMembers | epd1in54v2.cpp:671-696 | a point is drawn exactly when one of the visited offsets' pieces holds it |
| Circles.RingMembers | epd1in54v2.cpp:673-676 | the outline is exactly the union of the four mirror points of each offset |
| Circles.RingSymmetric | epd1in54v2.cpp:673-676 | the union of mirror quads is closed under both axis reflections |
| Circles.CircleSymmetric | epd1in54v2.cpp:661-697 | the outline is mirror-symmetric about the vertical and the horizontal axis through the centre |
| Circles.RingBounds | epd1in54v2.cpp:673-676 | offsets within the radius give points within the square of that radius |
| Circles.RingHasFirst | epd1in54v2.cpp:673-676 | the four points of the first offset are drawn |
| Circles.CircleBounds | epd1in54v2.cpp:661-697 | for radius >= 0 every drawn point lies within radius of the centre on both axes |
| Circles.CircleReachesRadius | epd1in54v2.cpp:664-676 | the two points at distance radius on the horizontal axis are drawn |
| Circles.CircleRadiusZero | epd1in54v2.cpp:661-697 | radius 0 draws the centre and nothing else |
| Circles.DiskMembers | epd1in54v2.cpp:711-716 | the filled circle is exactly the union of the visited offsets' slabs |
| Circles.SlabMembers | epd1in54v2.cpp:711-716 | a slab is its four points plus the spans [x + x_pos, x - x_pos] on rows y + y_pos and y - y_pos |
| Circles.DiskRingMembers | epd1in54v2.cpp:711-716 | the filled circle is the outline plus, for every offset, its two spans |
| Circles.FilledCircleMembers | epd1in54v2.cpp:699-737 | `DrawFilledCircle` draws the outline and the full span between the outline points on rows y +/- y_pos, and nothing else |
| Text.RowBytes | epd1in54v2.cpp:745 | a glyph row takes the width divided by 8, rounded up |
| Text.RowStartNext | epd1in54v2.cpp:756-764 | each glyph row starts one row's bytes after the previous one |
| Text.GlyphByte | epd1in54v2.cpp:745-764 | the byte `ptr` reads for column i of row j lies within row j of the glyph and within the table |
| Text.BitRowMembers | epd1in54v2.cpp:750-760 | a row plots exactly the columns whose bits are set |
| Text.BitRowsSound | epd1in54v2.cpp:748-765 | every plotted point lies in the rows' box and has its bit set |
| Text.BitRowsComplete | epd1in54v2.cpp:748-765 | every set bit in the rows' box is plotted |
| Text.BitRowsMembers | epd1in54v2.cpp:748-765 | the rows plot exactly the set bits of their box |
| Text.GlyphGrid | epd1in54v2.cpp:748-760 | a glyph is Height rows of Width bits |
| Text.GlyphGridAt | epd1in54v2.cpp:752 | grid entry (j, i) is bit `0x80 >> (i % 8)` of the byte for column i of row j |
| Text.GlyphRowStep | epd1in54v2.cpp:750-760 | column i of row j plots (x + i, y + j) exactly when its bit is set, and otherwise changes nothing |
| Text.GlyphRowsStep | epd1in54v2.cpp:748-765 | one more row of the glyph is drawn after the rows before it |
| Text.GlyphRowMembers | epd1in54v2.cpp:750-760 | row j plots exactly (x + i, y + j) for the first n columns i with a set bit |
| Text.GlyphRowsMembers | epd1in54v2.cpp:748-765 | the first m rows plot exactly the set bits of their box |
| Text.GlyphMembers | epd1in54v2.cpp:742-766 | `DrawCharAt` plots (x + i, y + j) exactly when bit `0x80 >> (i % 8)` of byte offset + j * RowBytes + i / 8 is set; nothing is plotted outside [x, x + Width) x [y, y + Height) |
| Text.GlyphEffect | epd1in54v2.cpp:742-766 | unrotated, a glyph changes exactly its set-bit pixels to the colour and keeps every other pixel |
| Text.StringChars | epd1in54v2.cpp:778 | the characters drawn are the text up to, and excluding, the first NUL |
| Text.StringCharsAt | epd1in54v2.cpp:778-785 | character k read through `p_text` is character k of the C string and is not NUL |
| Text.CharLeftNext | epd1in54v2.cpp:783 | each character starts Width columns to the right of the previous one |
| Text.ConcatSound | epd1in54v2.cpp:778-787 | every point drawn by the first n characters belongs to one of them |
| Text.ConcatComplete | epd1in54v2.cpp:778-787 | every point of one of the first n characters is drawn |
| Text.StringGlyphs | epd1in54v2.cpp:781 | there is one glyph per character of the string |
| Text.StringGlyphsAt | epd1in54v2.cpp:781-783 | character k's glyph is drawn with its left edge at x + k * Width on row y |
| Text.StringPrefixMembers | epd1in54v2.cpp:778-787 | the first n characters plot exactly the points of their glyphs |
| Text.StringPrefixStep | epd1in54v2.cpp:778-787 | one more pass draws the next character's glyph after the ones before it |
| Text.StringMembers | epd1in54v2.cpp:771-788 | the string plots exactly the points of its characters' glyphs, the k-th at column x + k * Width |
| Text.DivUnique | epd1in54v2.cpp:783 | a column inside character k's box divides back to k |
| Text.StringPixel | epd1in54v2.cpp:771-788 | a string pixel at column c is drawn exactly when character (c - x) / Width has its bit set there; the glyph boxes do not overlap |
| Text.CharColumns | epd1in54v2.cpp:781-783 | a pixel of character k lies in columns [x + k * Width, x + (k + 1) * Width) |
| Protocol.Sent | epd1in54v2.cpp:51-64 | each transfer becomes one SPI event, in order |
| Protocol.SentConcat | epd1in54v2.cpp:51-64 | sending a + b logs the events of a, then those of b |
| Protocol.SentSnoc | epd1in54v2.cpp:51-64 | sending one more byte logs one more event |
| Protocol.BusBytes | epd1in54v2.cpp:51-64 | the bus transfers of a log are at most its events |
| Protocol.BusBytesConcat | epd1in54v2.cpp:51-64 | the transfers of a + b are those of a, then those of b |
| Protocol.BusBytesOfSent | epd1in54v2.cpp:51-64 | decoding the log of sent transfers gives back the transfers |
| Protocol.BusBytesOfSideEvents | epd1in54v2.cpp:69-77 | pin writes, delays and reads carry no bus transfer |
| Protocol.BusBytesSkip | epd1in54v2.cpp:69-77 | appending events without transfers keeps the transfers |
| Protocol.BusBytesSend | epd1in54v2.cpp:51-64 | appending sent transfers appends exactly them |
| Protocol.DelayTotalConcat | epd1in54v2.cpp:196-204 | delay time adds up over concatenated logs |
| Protocol.DelayTotalOne | epd1in54v2.cpp:196-204 | a single event delays by its milliseconds if it is a delay, and by 0 otherwise |
| Protocol.WaitRun | epd1in54v2.cpp:69-77 | a wait reads the busy pin once or twice |
| Protocol.WaitBounded | epd1in54v2.cpp:69-77 | a wait sends nothing on the bus and logs one or three events: a busy read, then (only when that read is 1) a 10 ms delay and a second read; it stops on a read other than 1 or after the second read |
| Protocol.WaitSilent | epd1in54v2.cpp:69-77 | a wait sends nothing on the bus |
| Protocol.ResetShape | epd1in54v2.cpp:196-204 | the reset sends nothing and lasts 410 ms in total; only its second pin write drives the pin low, followed by a 10 ms delay; its last pin write drives it high |
| Protocol.WindowSent | epd1in54v2.cpp:459-467 | the X command with 2 bytes, then the Y command with 4 bytes, log exactly the window transfers |
| Protocol.WakeRun | epd1in54v2.cpp:93-97 | the wake-up reads the busy pin 2 to 4 times |
| Protocol.InitRun | epd1in54v2.cpp:85-136 | an init reads the busy pin 3 to 6 times |
| Protocol.WakeBytes | epd1in54v2.cpp:93-97 | the wake-up sends only SWRESET (0x12) on the bus |
| Protocol.InitBytes | epd1in54v2.cpp:85-189 | whatever the busy pin does, an init sends SWRESET, then the fixed 26-transfer body of its direction |
| Protocol.LowByteValues | epd1in54v2.cpp:162-168 | the bytes `LDirInit` computes are 0x00, 0x19, 0x00, 0x00, 0xC8, 0x00 |
| Protocol.InitDirectionsDiffer | epd1in54v2.cpp:99-168 | the two init bodies have 26 transfers each and differ exactly at the driver-output byte, the entry mode, the X end and the Y start and end low bytes (0x01/0x00, 0x01/0x03, 0x18/0x19, 0xC7/0x00, 0x00/0xC8) |
| Protocol.InitWindows | epd1in54v2.cpp:107-184 | `HDirInit` covers 200 columns and rows 199 down to 0; `LDirInit` covers 208 columns and rows 0 to 200, one unit past the panel; both set the Y counter to 199 |
| Protocol.RefreshRun | epd1in54v2.cpp:418-435 | a refresh reads the busy pin once or twice |
| Protocol.DataOf | epd1in54v2.cpp:236 | byte k of the buffer is sent as data transfer k |
| Protocol.RowDataInOrder | epd1in54v2.cpp:234-237 | row j's loop sends byte j * 25 + k as its k-th transfer |
| Protocol.FrameDataInOrder | epd1in54v2.cpp:232-238 | the nested loops send byte k of the buffer as their k-th transfer |
| Protocol.FrameDataIsBuffer | epd1in54v2.cpp:224-243 | the loop nest sends the 5000 buffer bytes in index order |
| Protocol.WhiteBytes | epd1in54v2.cpp:213-219 | the constant loops send n data transfers, all 0xFF |
| Protocol.WhiteBytesSnoc | epd1in54v2.cpp:217 | one more pass sends one more 0xFF |
| Protocol.WriteThenRefresh | epd1in54v2.cpp:418-426 | a writer followed by a refresh sends the writer's transfers, then 0x22, the payload and 0x20 |
| Protocol.DisplayBytes | epd1in54v2.cpp:224-243 | `Display` (and `DisplayPart`, lines 301-320) send 0x24 and the 5000 buffer bytes in order only for a non-null buffer, then 0x22, 0xF7 (0xFF for `DisplayPart`) and 0x20 |
| Protocol.BaseImageBytes | epd1in54v2.cpp:245-273 | `DisplayPartBaseImage` sends the buffer to RAM 0x24 and then to RAM 0x26, then a full refresh |
| Protocol.WhiteWritersAreWhiteFrames | epd1in54v2.cpp:206-299 | `ClearDisplay` is `Display` of an all-white frame, and `DisplayPartBaseWhiteImage` is `DisplayPartBaseImage` of one |
| Protocol.FrameWindow | epd1in54v2.cpp:356-381 | the call is rejected exactly when an argument is negative; otherwise x and the image width are masked with 0xF8, the stride is the masked width / 8, and for width and height up to 2^31, x_end = min(x + image_width - 1, width - 1) and y_end = min(y + image_height - 1, height - 1) on the masked values, so every image row and column that fits is written; the window never exceeds the image |
| Protocol.ImageIndexInRange | epd1in54v2.cpp:388-390 | every byte the data loop reads lies in the image |
| Protocol.ImageRow | epd1in54v2.cpp:388-391 | a row sends `(x_end - x + 1) / 8` bytes |
| Protocol.ImageRows | epd1in54v2.cpp:386-392 | the data loop sends rows * bytes-per-row transfers, and none for an empty window |
| Protocol.ImageRowsAt | epd1in54v2.cpp:386-392 | data transfer j * cols + i is image byte i + j * (image_width / 8), the stride of the masked width before clamping |
| Protocol.ImageRowAt | epd1in54v2.cpp:388-391 | transfer i of row j is image byte i + j * stride |
| Protocol.PointerRun | epd1in54v2.cpp:473-482 | setting the address pointer reads the busy pin once or twice |
| Protocol.FrameMemoryRejects | epd1in54v2.cpp:356-362 | a null image or a negative argument sends nothing and reads nothing |
| Protocol.FrameMemoryBytes | epd1in54v2.cpp:339-393 | an accepted call sends the window, then the address pointer, then 0x24, then the image rows, whatever the busy pin does |
| Protocol.ImageBytes | epd1in54v2.cpp:382-392 | once the window is known: window bytes, pointer bytes, 0x24 and the rows |
| Protocol.FrameMemoryCount | epd1in54v2.cpp:382-392 | besides 14 command and address transfers, an accepted call sends exactly rows * cols data bytes |
| Protocol.SendWaitSend | epd1in54v2.cpp:382-384 | two command groups around a wait send their transfers back to back |
| Protocol.FrameColumnDecodes | epd1in54v2.cpp:461-477 | the start column read back from the window and pointer bytes (`x >> 3`) is `x & 0xF8` |
| Protocol.FrameRowDecodes | epd1in54v2.cpp:464-480 | a start row below 2^16 is read back exactly from both the window and the address-pointer bytes |
| Protocol.FrameEndDecodes | epd1in54v2.cpp:466-467 | an end row below 2^16 is read back exactly from the window bytes |
| Protocol.FrameWindowExample | epd1in54v2.cpp:363-392 | x = 3 with image width 13 writes 10 rows of one byte from column 0; x = 264 starts at column 8; a window at (192, 190) is clamped to 199, 199 |
| Protocol.SleepShape | epd1in54v2.cpp:490-497 | sleep sends exactly DEEP_SLEEP_MODE (0x10) then 0x01 on the bus, and its last event drives the reset pin low |
| Epd1in54v2.Contents | epd1in54v2.cpp:229 | a null buffer has no contents; otherwise its bytes are the array's |
| Epd1in54v2.Epd.constructor | epd1in54v2.h:81-83 | the public width, height and rotate are explicit initial state; the log is empty and no busy read has been made |
| Epd1in54v2.Epd.SendCommand | epd1in54v2.cpp:51-55 | logs one command transfer |
| Epd1in54v2.Epd.SendData | epd1in54v2.cpp:60-64 | logs one data transfer |
| Epd1in54v2.Epd.DigitalWriteReset | epd1in54v2.cpp:198-203 | logs one reset-pin level |
| Epd1in54v2.Epd.DelayMs | epd1in54v2.cpp:74 | logs one delay |
| Epd1in54v2.Epd.DigitalReadBusy | epd1in54v2.cpp:72 | returns the next oracle level, logs it and advances the read cursor |
| Epd1in54v2.Epd.WaitUntilIdle | epd1in54v2.cpp:69-77 | the loop appends exactly `WaitRun`: one read, or read, 10 ms, read |
| Epd1in54v2.Epd.Reset | epd1in54v2.cpp:196-204 | appends exactly the reset pulse |
| Epd1in54v2.Epd.HDirInit | epd1in54v2.cpp:85-136 | returns -1 and appends nothing when `IfInit` fails; otherwise returns 0 and appends the high-direction init run |
| Epd1in54v2.Epd.LDirInit | epd1in54v2.cpp:138-189 | returns -1 and appends nothing when `IfInit` fails; otherwise returns 0 and appends the low-direction init run |
| Epd1in54v2.Epd.Init | epd1in54v2.cpp:85-189 | the shared body of the two init routines, with the same contract |
| Epd1in54v2.Epd.Wake | epd1in54v2.cpp:93-97 | appends reset, wait, SWRESET, wait |
| Epd1in54v2.Epd.SendInitBody | epd1in54v2.cpp:99-131 | appends the 26 transfers of the init body |
| Epd1in54v2.Epd.SendDriverOutput | epd1in54v2.cpp:99-102 | appends driver output control with 0xC7, 0x00 and the direction byte |
| Epd1in54v2.Epd.SendEntryMode | epd1in54v2.cpp:104-105 | appends the data entry mode of the direction |
| Epd1in54v2.Epd.SendRamWindow | epd1in54v2.cpp:107-115 | appends the RAM window of the direction (lines 160-168 for `LDirInit`) |
| Epd1in54v2.Epd.SendPanelSetup | epd1in54v2.cpp:117-125 | appends border waveform, temperature sensor and waveform load |
| Epd1in54v2.Epd.SendRamCounter | epd1in54v2.cpp:127-131 | appends the RAM counters X = 0, Y = 199 |
| Epd1in54v2.Epd.DisplayFrame | epd1in54v2.cpp:418-426 | appends 0x22, 0xF7, 0x20 and a wait |
| Epd1in54v2.Epd.DisplayPartFrame | epd1in54v2.cpp:428-435 | appends 0x22, 0xFF, 0x20 and a wait |
| Epd1in54v2.Epd.SendFrame | epd1in54v2.cpp:232-238 | the nested loops append the frame's rows in order |
| Epd1in54v2.Epd.SendRow | epd1in54v2.cpp:234-237 | the inner loop appends the 25 bytes of row j |
| Epd1in54v2.Epd.SendWhite | epd1in54v2.cpp:213-219 | the nested loops append 5000 bytes 0xFF |
| Epd1in54v2.Epd.SendCommandAndFrame | epd1in54v2.cpp:231-238 | appends a command, then the frame |
| Epd1in54v2.Epd.SendCommandAndWhite | epd1in54v2.cpp:212-219 | appends a command, then 5000 bytes 0xFF |
| Epd1in54v2.Epd.ClearDisplay | epd1in54v2.cpp:206-222 | appends `ClearDisplayRun` |
| Epd1in54v2.Epd.Display | epd1in54v2.cpp:224-243 | appends `DisplayRun` of the buffer's contents at the call, or of none for a null buffer |
| Epd1in54v2.Epd.DisplayPart | epd1in54v2.cpp:301-320 | appends `DisplayPartRun` of the buffer's contents |
| Epd1in54v2.Epd.DisplayPartBaseImage | epd1in54v2.cpp:245-273 | appends `DisplayPartBaseImageRun` of the buffer's contents |
| Epd1in54v2.Epd.SendBothRams | epd1in54v2.cpp:252-268 | appends the frame to RAM 0x24 and then to RAM 0x26 |
| Epd1in54v2.Epd.DisplayPartBaseWhiteImage | epd1in54v2.cpp:274-299 | appends `DisplayPartBaseWhiteImageRun` |
| Epd1in54v2.Epd.SetFrameMemory | epd1in54v2.cpp:339-393 | appends `FrameMemoryRun` of the image, the arguments and the current width and height |
| Epd1in54v2.Epd.WriteImage | epd1in54v2.cpp:382-392 | appends `ImageRun` of the window |
| Epd1in54v2.Epd.WriteWindow | epd1in54v2.cpp:384-392 | appends 0x24 and the window's image rows |
| Epd1in54v2.Epd.SendImageRow | epd1in54v2.cpp:388-391 | the inner loop appends row j of the window |
| Epd1in54v2.Epd.SetMemoryArea | epd1in54v2.cpp:457-468 | appends the X window as `x >> 3` and the Y window as little-endian 16-bit values |
| Epd1in54v2.Epd.SetMemoryPointer | epd1in54v2.cpp:473-482 | appends the address counters and a wait |
| Epd1in54v2.Epd.Sleep | epd1in54v2.cpp:490-497 | appends `SleepRun` |
| Epd1in54v2.Epd.ClearFramebuffer | epd1in54v2.cpp:504-513 | the buffer becomes the unrotated painting of the width x height columns |
| Epd1in54v2.Epd.ClearColumn | epd1in54v2.cpp:508-511 | the inner loop paints rows 0 to h - 1 of column x |
| Epd1in54v2.Epd.SetRotate | epd1in54v2.cpp:515-541 | a known code sets width and height to 200 x 200; an unknown code changes nothing; `rotate` is never written |
| Epd1in54v2.Epd.SetPixel | epd1in54v2.cpp:543-573 | the buffer becomes `Plot` of the point under the current view |
| Epd1in54v2.Epd.SetAbsolutePixel | epd1in54v2.cpp:575-594 | the buffer becomes `AbsolutePixel` of the point |
| Epd1in54v2.Epd.DrawLine | epd1in54v2.cpp:596-618 | the buffer becomes the painting of `LinePoints` |
| Epd1in54v2.Epd.StepLine | epd1in54v2.cpp:607-616 | the two updates of a pass compute `LineStep` |
| Epd1in54v2.Epd.DrawHorizontalLine | epd1in54v2.cpp:620-626 | the buffer becomes the painting of `HLine` |
| Epd1in54v2.Epd.DrawVerticalLine | epd1in54v2.cpp:628-634 | the buffer becomes the painting of `VLine` |
| Epd1in54v2.Epd.DrawRectangle | epd1in54v2.cpp:636-646 | the buffer becomes the painting of `RectPoints` |
| Epd1in54v2.Epd.DrawFilledRectangle | epd1in54v2.cpp:648-659 | the buffer becomes the painting of `FilledRectPoints` |
| Epd1in54v2.Epd.PlotQuad | epd1in54v2.cpp:673-676 | the four calls paint the offset's `Quad` |
| Epd1in54v2.Epd.DrawCircle | epd1in54v2.cpp:661-697 | unchanged when the unsigned guard rejects the centre; otherwise the painting of `CirclePoints` |
| Epd1in54v2.Epd.TraceRing | epd1in54v2.cpp:671-696 | the loop paints the ring of every offset of the walk |
| Epd1in54v2.Epd.PlotRingPass | epd1in54v2.cpp:673-676 | one pass extends the painted ring by the current offset |
| Epd1in54v2.Epd.StepArc | epd1in54v2.cpp:677-691 | the updates of a pass compute `ArcStep` |
| Epd1in54v2.Epd.DrawFilledCircle | epd1in54v2.cpp:699-737 | unchanged when the guard rejects the centre; otherwise the painting of `FilledCirclePoints` |
| Epd1in54v2.Epd.TraceDisk | epd1in54v2.cpp:709-736 | the loop paints the slab of every offset of the walk |
| Epd1in54v2.Epd.PlotDiskPass | epd1in54v2.cpp:711-716 | one pass extends the painted disk by the current offset's slab |
| Epd1in54v2.Epd.PlotSlab | epd1in54v2.cpp:711-716 | four points and two spans paint the offset's `Slab` |
| Epd1in54v2.Epd.DrawCharAt | epd1in54v2.cpp:742-766 | the buffer becomes the painting of `GlyphPoints` |
| Epd1in54v2.Epd.DrawGlyphRow | epd1in54v2.cpp:750-760 | the inner loop paints row j and moves `ptr` on by Width / 8 bytes |
| Epd1in54v2.Epd.DrawGlyphBit | epd1in54v2.cpp:752-755 | the pixel is plotted exactly when its glyph bit is set, and otherwise nothing changes |
| Epd1in54v2.Epd.DrawStringAt | epd1in54v2.cpp:771-788 | the buffer becomes the painting of `StringPoints` of the characters before the first NUL |

## Left out

- The transport (`SpiTransfer`, `DigitalWrite`, `DigitalRead`, `DelayMs` and `IfInit`, from `epdif.h`) is not part of this model.
  - Transfers, pin writes and delays are events in `trace`.
  - The busy pin is the oracle `busy`, indexed by the number of reads so far.
  - The result of `IfInit()` is the `ifInit` parameter of `HDirInit` and `LDirInit`.
  - Real timing, SPI framing and the electrical meaning of the busy line are not modelled. The "0: busy, 1: idle" comment is not modelled either; the loop is modelled as written.
- The constructors and the destructor only pass pins to the transport. The model's constructor instead takes the initial `width`, `height` and `rotate`, which the source leaves unset.
- Commented-out code, the unused LUT declarations, `IF_INVERT_COLOR`, and the command constants the driver never sends by name: they have no behaviour.
- `TEMPERATURE_SENSOR_CONTROL` is 0x1A in the header, but the init routines send the literal 0x18. The model sends 0x18 and does not define the constant.
- The contents of the font tables (`fonts.h`) and of the images (`imagedata.h`): a font is a table of bytes with a width and a height, and an image is a sequence of bytes.
- Epd1in54v2.Epd.DrawCharAt: requires the character to be at least ' ' and its glyph to lie in the table. The source would read outside the table otherwise, or wrap `char_offset` for a negative `char`.
- Epd1in54v2.Epd.DrawCharAt and DrawStringAt take Dafny `char`s, which are Unicode scalar values, where the source's `char` is one byte. `HasGlyph` only requires the character's glyph to lie in the font table. The model does not restrict characters to a byte's range and does not model the byte encoding.
- Epd1in54v2.Epd.DrawStringAt: requires a NUL in the text and every character before it to have a glyph. Otherwise the source reads past the string or the table. The unused `counter` is kept but has no effect.
- Epd1in54v2.Epd.SetFrameMemory: requires a non-null image to hold every byte the data loop reads, as the source needs. C `int` overflow of `y + image_height` is not modelled; integers are unbounded.
- Epd1in54v2.Epd.DrawLine: C `int` overflow of coordinates and of `2 * err` is not modelled, and the same holds for the other drawing routines. Coordinates are unbounded integers. `char_offset` in `DrawCharAt` is not reduced modulo 2^32, since no table of 2^32 bytes exists.
- The paint methods take a non-null `array<bv8>` of at least 5000 bytes. The source's null or short buffers are undefined behaviour.
- The display writers and `SetFrameMemory` read their `const` buffer once, as a value, at the call; aliasing between that buffer and the driver is not modelled.
