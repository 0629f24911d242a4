/** The `Epd` class of the 1.54" v2 driver (epd1in54v2.h:78-141,
    epd1in54v2.cpp:51-788): the protocol methods append to an event log, the
    paint methods write a caller's frame buffer through `SetPixel`. */
module Epd1in54v2 {
  import opened Panel
  import opened Framebuffer
  import opened Shapes
  import opened Circles
  import opened Text
  import opened Protocol

  /** The bytes of a caller's buffer, or None for a null pointer. */
  function Contents(frame: array?<bv8>): (c: Option<seq<bv8>>)
    reads frame
    ensures c.None? <==> frame == null
    ensures c.Some? ==> c.value == frame[..]
  {
    if frame == null then None else Some(frame[..])
  }

  class Epd {
    /** The logical size and orientation `SetPixel` works in (epd1in54v2.h:81-83).
        All three are public, and only `width` and `height` are written by the
        driver itself. */
    var width: uint32
    var height: uint32
    var rotate: uint32

    /** What the driver has done on its pins so far, oldest first. */
    var trace: seq<Event>
    /** How many times the busy pin has been read so far. */
    var busyReads: nat
    /** The level the busy pin shows at each read. */
    const busy: nat -> int

    /** The constructors set none of the three public fields, so their initial
        values are given here; the pin log starts empty. */
    constructor(width: uint32, height: uint32, rotate: uint32, busy: nat -> int)
      ensures this.width == width && this.height == height && this.rotate == rotate
      ensures this.busy == busy && trace == [] && busyReads == 0
    {
      this.width, this.height, this.rotate := width, height, rotate;
      this.busy := busy;
      trace, busyReads := [], 0;
    }

    /** The fields `SetPixel` reads. */
    function CurrentView(): View
      reads this
    {
      View(width as int, height as int, rotate as int)
    }

    // ----- the transport: SPI transfers, pins, delays -----

    /** `SendCommand`: DC low, then the byte (epd1in54v2.cpp:51-55). */
    method SendCommand(command: bv8)
      modifies this`trace
      ensures trace == old(trace) + [Spi(Cmd(command))]
    {
      trace := trace + [Spi(Cmd(command))];
    }

    /** `SendData`: DC high, then the byte (epd1in54v2.cpp:60-64). */
    method SendData(data: bv8)
      modifies this`trace
      ensures trace == old(trace) + [Spi(Data(data))]
    {
      trace := trace + [Spi(Data(data))];
    }

    method DigitalWriteReset(level: int)
      modifies this`trace
      ensures trace == old(trace) + [ResetPin(level)]
    {
      trace := trace + [ResetPin(level)];
    }

    method DelayMs(ms: nat)
      modifies this`trace
      ensures trace == old(trace) + [Delay(ms)]
    {
      trace := trace + [Delay(ms)];
    }

    method DigitalReadBusy() returns (level: int)
      modifies this`trace, this`busyReads
      ensures level == busy(old(busyReads))
      ensures trace == old(trace) + [BusyRead(level)] && busyReads == old(busyReads) + 1
    {
      level := busy(busyReads);
      trace := trace + [BusyRead(level)];
      busyReads := busyReads + 1;
    }

    // ----- WaitUntilIdle (epd1in54v2.cpp:69-77) -----

    /** Reads the pin until it is not 1 or the counter `++cnt < 2` fails: one or
        two reads, with a 10 ms delay between them. */
    method WaitUntilIdle()
      modifies this`trace, this`busyReads
      ensures trace == old(trace) + WaitRun(busy, old(busyReads)).events
      ensures busyReads == old(busyReads) + WaitRun(busy, old(busyReads)).used
    {
      var cnt := 0;
      while true
        invariant 0 <= cnt <= 1
        invariant cnt == 0 ==> trace == old(trace) && busyReads == old(busyReads)
        invariant cnt == 1 ==> busy(old(busyReads)) == 1 && busyReads == old(busyReads) + 1
        invariant cnt == 1 ==> trace == old(trace) + [BusyRead(1), Delay(10)]
        decreases 2 - cnt
      {
        var level := DigitalReadBusy();
        if level != 1 {
          break;
        }
        cnt := cnt + 1;
        if cnt >= 2 {
          break;
        }
        DelayMs(10);
      }
    }

    // ----- Reset (epd1in54v2.cpp:196-204) -----

    method Reset()
      modifies this`trace
      ensures trace == old(trace) + RESET_PULSE
    {
      DigitalWriteReset(HIGH);
      DelayMs(200);
      DigitalWriteReset(LOW);
      DelayMs(10);
      DigitalWriteReset(HIGH);
      DelayMs(200);
    }

    // ----- HDirInit / LDirInit (epd1in54v2.cpp:85-189) -----

    method HDirInit(ifInit: int) returns (r: int)
      modifies this`trace, this`busyReads
      ensures r == if ifInit != 0 then -1 else 0
      ensures ifInit != 0 ==> trace == old(trace) && busyReads == old(busyReads)
      ensures ifInit == 0 ==> trace == old(trace) + InitRun(HighDirection, busy, old(busyReads)).events
      ensures ifInit == 0 ==> busyReads == old(busyReads) + InitRun(HighDirection, busy, old(busyReads)).used
    {
      r := Init(HighDirection, ifInit);
    }

    method LDirInit(ifInit: int) returns (r: int)
      modifies this`trace, this`busyReads
      ensures r == if ifInit != 0 then -1 else 0
      ensures ifInit != 0 ==> trace == old(trace) && busyReads == old(busyReads)
      ensures ifInit == 0 ==> trace == old(trace) + InitRun(LowDirection, busy, old(busyReads)).events
      ensures ifInit == 0 ==> busyReads == old(busyReads) + InitRun(LowDirection, busy, old(busyReads)).used
    {
      r := Init(LowDirection, ifInit);
    }

    /** The common body of the two init routines. `ifInit` is what the transport's
        `IfInit()` returned: on failure nothing is sent and -1 is returned. */
    method Init(dir: ScanDirection, ifInit: int) returns (r: int)
      modifies this`trace, this`busyReads
      ensures r == if ifInit != 0 then -1 else 0
      ensures ifInit != 0 ==> trace == old(trace) && busyReads == old(busyReads)
      ensures ifInit == 0 ==> trace == old(trace) + InitRun(dir, busy, old(busyReads)).events
      ensures ifInit == 0 ==> busyReads == old(busyReads) + InitRun(dir, busy, old(busyReads)).used
    {
      if ifInit != 0 {
        return -1;
      }
      ghost var t0, at := trace, busyReads;
      ghost var wake := WakeRun(busy, at);
      ghost var body := Sent(InitBody(dir));
      ghost var w3 := WaitRun(busy, at + wake.used);
      Wake();
      assert trace == t0 + wake.events && busyReads == at + wake.used;
      SendInitBody(dir);
      Grown(t0, wake.events, body);
      assert trace == t0 + (wake.events + body);
      WaitUntilIdle();
      Grown(t0, wake.events + body, w3.events);
      assert InitRun(dir, busy, at) == Run(wake.events + body + w3.events, wake.used + w3.used);
      r := 0;
    }

    /** The start of both init routines: `Reset`, a wait, SWRESET, a wait. */
    method Wake()
      modifies this`trace, this`busyReads
      ensures trace == old(trace) + WakeRun(busy, old(busyReads)).events
      ensures busyReads == old(busyReads) + WakeRun(busy, old(busyReads)).used
    {
      ghost var t0, at := trace, busyReads;
      ghost var w1 := WaitRun(busy, at);
      Reset();
      WaitUntilIdle();
      Grown(t0, RESET_PULSE, w1.events);
      SendCommand(SW_RESET);
      assert [Spi(Cmd(SW_RESET))] == Sent([Cmd(SW_RESET)]);
      Grown(t0, RESET_PULSE + w1.events, Sent([Cmd(SW_RESET)]));
      WaitUntilIdle();
      Grown(t0, RESET_PULSE + w1.events + Sent([Cmd(SW_RESET)]), WaitRun(busy, at + w1.used).events);
    }

    /** The commands between the second and the last wait of an init routine. */
    method SendInitBody(dir: ScanDirection)
      modifies this`trace
      ensures trace == old(trace) + Sent(InitBody(dir))
    {
      ghost var t0 := trace;
      ghost var a, b, c, d, e := DriverOutput(dir), EntryMode(dir), RamWindow(dir), PANEL_SETUP, RAM_COUNTER;
      SendDriverOutput(dir);
      SendEntryMode(dir);
      SentConcat(a, b);
      Grown(t0, Sent(a), Sent(b));
      assert trace == t0 + Sent(a + b);
      SendRamWindow(dir);
      SentConcat(a + b, c);
      Grown(t0, Sent(a + b), Sent(c));
      assert trace == t0 + Sent(a + b + c);
      SendPanelSetup();
      SentConcat(a + b + c, d);
      Grown(t0, Sent(a + b + c), Sent(d));
      assert trace == t0 + Sent(a + b + c + d);
      SendRamCounter();
      SentConcat(a + b + c + d, e);
      Grown(t0, Sent(a + b + c + d), Sent(e));
    }

    method SendDriverOutput(dir: ScanDirection)
      modifies this`trace
      ensures trace == old(trace) + Sent(DriverOutput(dir))
    {
      SendCommand(DRIVER_OUTPUT_CONTROL);
      SendData(0xC7);
      SendData(0x00);
      SendData(if dir == HighDirection then 0x01 else 0x00);
    }

    method SendEntryMode(dir: ScanDirection)
      modifies this`trace
      ensures trace == old(trace) + Sent(EntryMode(dir))
    {
      SendCommand(DATA_ENTRY_MODE_SETTING);
      SendData(if dir == HighDirection then 0x01 else 0x03);
    }

    method SendRamWindow(dir: ScanDirection)
      modifies this`trace
      ensures trace == old(trace) + Sent(RamWindow(dir))
    {
      ghost var t0 := trace;
      if dir == HighDirection {
        SendCommand(SET_RAM_X_ADDRESS_START_END_POSITION);
        SendData(0x00);
        SendData(0x18);
        ghost var t1 := trace;
        SendCommand(SET_RAM_Y_ADDRESS_START_END_POSITION);
        SendData(0xC7);
        SendData(0x00);
        SendData(0x00);
        SendData(0x00);
        WindowSent(t0, t1, trace, 0x00, 0x18, 0xC7, 0x00, 0x00, 0x00);
      } else {
        SendCommand(SET_RAM_X_ADDRESS_START_END_POSITION);
        SendData(LowByte(0 / 8));
        SendData(LowByte(200 / 8));
        ghost var t1 := trace;
        SendCommand(SET_RAM_Y_ADDRESS_START_END_POSITION);
        SendData(LowByte(0));
        SendData(LowByte(0 / 256));
        SendData(LowByte(200));
        SendData(LowByte(200 / 256));
        WindowSent(t0, t1, trace, LowByte(0 / 8), LowByte(200 / 8), LowByte(0), LowByte(0 / 256),
          LowByte(200), LowByte(200 / 256));
      }
    }

    method SendPanelSetup()
      modifies this`trace
      ensures trace == old(trace) + Sent(PANEL_SETUP)
    {
      SendCommand(BORDER_WAVEFORM_CONTROL);
      SendData(0x01);
      SendCommand(0x18);
      SendData(0x80);
      SendCommand(DISPLAY_UPDATE_CONTROL_2);
      SendData(0xB1);
      SendCommand(MASTER_ACTIVATION);
    }

    method SendRamCounter()
      modifies this`trace
      ensures trace == old(trace) + Sent(RAM_COUNTER)
    {
      SendCommand(SET_RAM_X_ADDRESS_COUNTER);
      SendData(0x00);
      SendCommand(SET_RAM_Y_ADDRESS_COUNTER);
      SendData(0xC7);
      SendData(0x00);
    }

    // ----- DisplayFrame / DisplayPartFrame (epd1in54v2.cpp:418-435) -----

    method DisplayFrame()
      modifies this`trace, this`busyReads
      ensures trace == old(trace) + RefreshRun(FULL_REFRESH, busy, old(busyReads)).events
      ensures busyReads == old(busyReads) + RefreshRun(FULL_REFRESH, busy, old(busyReads)).used
    {
      SendCommand(DISPLAY_UPDATE_CONTROL_2);
      SendData(0xF7);
      SendCommand(MASTER_ACTIVATION);
      WaitUntilIdle();
    }

    method DisplayPartFrame()
      modifies this`trace, this`busyReads
      ensures trace == old(trace) + RefreshRun(PARTIAL_REFRESH, busy, old(busyReads)).events
      ensures busyReads == old(busyReads) + RefreshRun(PARTIAL_REFRESH, busy, old(busyReads)).used
    {
      SendCommand(DISPLAY_UPDATE_CONTROL_2);
      SendData(0xFF);
      SendCommand(MASTER_ACTIVATION);
      WaitUntilIdle();
    }

    // ----- full-buffer writers (epd1in54v2.cpp:206-320) -----

    /** The nested loops of the writers that send a caller's buffer:
        `frame_buffer[i + j * w]` for each row j and byte i. The buffer is only read,
        so its bytes are passed as a value. */
    method SendFrame(frame: seq<bv8>)
      requires IsFrame(frame)
      modifies this`trace
      ensures trace == old(trace) + Sent(FrameData(frame, EPD_HEIGHT))
    {
      var h := EPD_HEIGHT;
      var j := 0;
      while j < h
        invariant 0 <= j <= h
        invariant trace == old(trace) + Sent(FrameData(frame, j))
      {
        SendRow(frame, j);
        SentConcat(FrameData(frame, j), RowData(frame, j, ROW_BYTES));
        Grown(old(trace), Sent(FrameData(frame, j)), Sent(RowData(frame, j, ROW_BYTES)));
        j := j + 1;
      }
    }

    /** The inner loop of `SendFrame`: the w bytes of row j. */
    method SendRow(frame: seq<bv8>, j: int)
      requires IsFrame(frame) && 0 <= j < EPD_HEIGHT
      modifies this`trace
      ensures trace == old(trace) + Sent(RowData(frame, j, ROW_BYTES))
    {
      var w := ROW_BYTES;
      GeometryIsByteAligned();
      assert 0 <= j * w <= BUFFER_SIZE - w by {
        MulMonotone(j, EPD_HEIGHT - 1, w);
      }
      var i := 0;
      while i < w
        invariant 0 <= i <= w
        invariant trace == old(trace) + Sent(RowData(frame, j, i))
      {
        SendData(frame[i + j * w]);
        SentSnoc(RowData(frame, j, i), Data(frame[i + j * w]));
        Grown(old(trace), Sent(RowData(frame, j, i)), [Spi(Data(frame[i + j * w]))]);
        i := i + 1;
      }
    }

    /** The nested loops of the writers that send 0xFF for every byte. */
    method SendWhite()
      modifies this`trace
      ensures trace == old(trace) + Sent(WhiteBytes(BUFFER_SIZE))
    {
      var w, h := ROW_BYTES, EPD_HEIGHT;
      ghost var sent := 0;
      var j := 0;
      while j < h
        invariant 0 <= j <= h && sent == j * w
        invariant trace == old(trace) + Sent(WhiteBytes(sent))
      {
        var i := 0;
        while i < w
          invariant 0 <= i <= w && sent == j * w + i
          invariant trace == old(trace) + Sent(WhiteBytes(sent))
        {
          SendData(0xFF);
          SentSnoc(WhiteBytes(sent), Data(0xFF));
          WhiteBytesSnoc(sent);
          Grown(old(trace), Sent(WhiteBytes(sent)), [Spi(Data(0xFF))]);
          sent := sent + 1;
          i := i + 1;
        }
        j := j + 1;
      }
    }

    /** `SendCommand(c)` then a frame of data, as one group of transfers. */
    method SendCommandAndFrame(command: bv8, frame: seq<bv8>)
      requires IsFrame(frame)
      modifies this`trace
      ensures trace == old(trace) + Sent([Cmd(command)] + FrameData(frame, EPD_HEIGHT))
    {
      ghost var t0 := trace;
      SendCommand(command);
      assert [Spi(Cmd(command))] == Sent([Cmd(command)]);
      SendFrame(frame);
      SentConcat([Cmd(command)], FrameData(frame, EPD_HEIGHT));
      Grown(t0, Sent([Cmd(command)]), Sent(FrameData(frame, EPD_HEIGHT)));
    }

    method SendCommandAndWhite(command: bv8)
      modifies this`trace
      ensures trace == old(trace) + Sent([Cmd(command)] + WhiteBytes(BUFFER_SIZE))
    {
      ghost var t0 := trace;
      SendCommand(command);
      assert [Spi(Cmd(command))] == Sent([Cmd(command)]);
      SendWhite();
      SentConcat([Cmd(command)], WhiteBytes(BUFFER_SIZE));
      Grown(t0, Sent([Cmd(command)]), Sent(WhiteBytes(BUFFER_SIZE)));
    }

    method ClearDisplay()
      modifies this`trace, this`busyReads
      ensures trace == old(trace) + ClearDisplayRun(busy, old(busyReads)).events
      ensures busyReads == old(busyReads) + ClearDisplayRun(busy, old(busyReads)).used
    {
      ghost var t0, at := trace, busyReads;
      SendCommandAndWhite(WRITE_RAM);
      DisplayFrame();
      Grown(t0, Sent([Cmd(WRITE_RAM)] + WhiteBytes(BUFFER_SIZE)), RefreshRun(FULL_REFRESH, busy, at).events);
    }

    /** The three writers below send the buffer's bytes as they are when the call
        is made; none of them writes to the buffer. */
    method Display(frame: array?<bv8>)
      requires frame != null ==> BUFFER_SIZE <= frame.Length
      modifies this`trace, this`busyReads
      ensures trace == old(trace) + DisplayRun(old(Contents(frame)), busy, old(busyReads)).events
      ensures busyReads == old(busyReads) + DisplayRun(old(Contents(frame)), busy, old(busyReads)).used
    {
      ghost var t0, at, c := trace, busyReads, Contents(frame);
      if frame != null {
        SendCommandAndFrame(WRITE_RAM, frame[..]);
      }
      assert trace == t0 + Sent(FrameWrite(c, false));
      DisplayFrame();
      Grown(t0, Sent(FrameWrite(c, false)), RefreshRun(FULL_REFRESH, busy, at).events);
    }

    method DisplayPart(frame: array?<bv8>)
      requires frame != null ==> BUFFER_SIZE <= frame.Length
      modifies this`trace, this`busyReads
      ensures trace == old(trace) + DisplayPartRun(old(Contents(frame)), busy, old(busyReads)).events
      ensures busyReads == old(busyReads) + DisplayPartRun(old(Contents(frame)), busy, old(busyReads)).used
    {
      ghost var t0, at, c := trace, busyReads, Contents(frame);
      if frame != null {
        SendCommandAndFrame(WRITE_RAM, frame[..]);
      }
      assert trace == t0 + Sent(FrameWrite(c, false));
      DisplayPartFrame();
      Grown(t0, Sent(FrameWrite(c, false)), RefreshRun(PARTIAL_REFRESH, busy, at).events);
    }

    method DisplayPartBaseImage(frame: array?<bv8>)
      requires frame != null ==> BUFFER_SIZE <= frame.Length
      modifies this`trace, this`busyReads
      ensures trace == old(trace) + DisplayPartBaseImageRun(old(Contents(frame)), busy, old(busyReads)).events
      ensures busyReads == old(busyReads) + DisplayPartBaseImageRun(old(Contents(frame)), busy, old(busyReads)).used
    {
      ghost var t0, at, c := trace, busyReads, Contents(frame);
      if frame != null {
        SendBothRams(frame[..]);
      }
      assert trace == t0 + Sent(FrameWrite(c, true));
      DisplayFrame();
      Grown(t0, Sent(FrameWrite(c, true)), RefreshRun(FULL_REFRESH, busy, at).events);
    }

    /** The frame into RAM 0x24 and then into RAM 0x26. */
    method SendBothRams(frame: seq<bv8>)
      requires IsFrame(frame)
      modifies this`trace
      ensures trace == old(trace) + Sent(FrameWrite(Some(frame), true))
    {
      ghost var t0 := trace;
      ghost var data := FrameData(frame, EPD_HEIGHT);
      SendCommandAndFrame(WRITE_RAM, frame);
      SendCommandAndFrame(0x26, frame);
      Grown(t0, Sent([Cmd(WRITE_RAM)] + data), Sent([Cmd(0x26)] + data));
      SentConcat([Cmd(WRITE_RAM)] + data, [Cmd(0x26)] + data);
      Grown([Cmd(WRITE_RAM)] + data, [Cmd(0x26)], data);
    }

    method DisplayPartBaseWhiteImage()
      modifies this`trace, this`busyReads
      ensures trace == old(trace) + DisplayPartBaseWhiteImageRun(busy, old(busyReads)).events
      ensures busyReads == old(busyReads) + DisplayPartBaseWhiteImageRun(busy, old(busyReads)).used
    {
      ghost var t0, at := trace, busyReads;
      ghost var white := WhiteBytes(BUFFER_SIZE);
      SendCommandAndWhite(WRITE_RAM);
      SendCommandAndWhite(0x26);
      Grown(t0, Sent([Cmd(WRITE_RAM)] + white), Sent([Cmd(0x26)] + white));
      SentConcat([Cmd(WRITE_RAM)] + white, [Cmd(0x26)] + white);
      Grown([Cmd(WRITE_RAM)] + white, [Cmd(0x26)], white);
      DisplayFrame();
      Grown(t0, Sent([Cmd(WRITE_RAM)] + white + [Cmd(0x26)] + white), RefreshRun(FULL_REFRESH, busy, at).events);
    }

    // ----- SetFrameMemory, SetMemoryArea, SetMemoryPointer (epd1in54v2.cpp:339-393, 457-482) -----

    /** The image is only read (a `const` pointer in the source): the window is
        filled from its bytes as they are when the call is made. */
    method SetFrameMemory(image: array?<bv8>, x: int, y: int, imageWidth: int, imageHeight: int)
      requires FrameMemoryReadable(Contents(image), x, y, imageWidth, imageHeight, width, height)
      modifies this`trace, this`busyReads
      ensures trace == old(trace) +
        FrameMemoryRun(old(Contents(image)), x, y, imageWidth, imageHeight, width, height, busy, old(busyReads)).events
      ensures busyReads == old(busyReads) +
        FrameMemoryRun(old(Contents(image)), x, y, imageWidth, imageHeight, width, height, busy, old(busyReads)).used
    {
      if image == null || x < 0 || imageWidth < 0 || y < 0 || imageHeight < 0 {
        return;
      }
      var data := image[..];
      var x' := MaskF8(x);
      var imageWidth' := MaskF8(imageWidth);
      var xEnd, yEnd;
      if x' + imageWidth' >= width as int {
        xEnd := ToSigned(ToUnsigned(width as int - 1));
      } else {
        xEnd := x' + imageWidth' - 1;
      }
      if y + imageHeight >= height as int {
        yEnd := ToSigned(ToUnsigned(height as int - 1));
      } else {
        yEnd := y + imageHeight - 1;
      }
      var win := Window(x', y, xEnd, yEnd, imageWidth' / 8);
      assert FrameWindow(x, y, imageWidth, imageHeight, width, height) == Some(win);
      WriteImage(data, win);
    }

    /** `SetFrameMemory` once its window is known: `SetMemoryArea`, `SetMemoryPointer`,
        then the image rows. */
    method WriteImage(image: seq<bv8>, win: Window)
      requires ImageCovers(image, win)
      modifies this`trace, this`busyReads
      ensures trace == old(trace) + ImageRun(image, win, busy, old(busyReads)).events
      ensures busyReads == old(busyReads) + ImageRun(image, win, busy, old(busyReads)).used
    {
      ghost var t0, at := trace, busyReads;
      ghost var area := Sent(AreaBytes(win.x, win.y, win.xEnd, win.yEnd));
      ghost var p := PointerRun(win.x, win.y, busy, at);
      ghost var rows := Sent([Cmd(WRITE_RAM)] + ImageRows(image, win, WindowRowCount(win)));
      SetMemoryArea(win.x, win.y, win.xEnd, win.yEnd);
      SetMemoryPointer(win.x, win.y);
      Grown(t0, area, p.events);
      WriteWindow(image, win);
      Grown(t0, area + p.events, rows);
    }

    /** The tail of `SetFrameMemory`: WRITE_RAM, then `y_end - y + 1` rows of
        `(x_end - x + 1) / 8` bytes, row j starting at byte j * stride of the image. */
    method WriteWindow(image: seq<bv8>, win: Window)
      requires ImageCovers(image, win)
      modifies this`trace
      ensures trace == old(trace) + Sent([Cmd(WRITE_RAM)] + ImageRows(image, win, WindowRowCount(win)))
    {
      SendCommand(WRITE_RAM);
      assert [Spi(Cmd(WRITE_RAM))] == Sent([Cmd(WRITE_RAM)]);
      ghost var t0 := trace;
      var j := 0;
      while j < win.yEnd - win.y + 1
        invariant 0 <= j && (j == 0 || j <= WindowRowCount(win))
        invariant trace == t0 + Sent(ImageRows(image, win, j))
      {
        SendImageRow(image, win, j);
        SentConcat(ImageRows(image, win, j), ImageRow(image, win, j, WindowByteCount(win)));
        Grown(t0, Sent(ImageRows(image, win, j)), Sent(ImageRow(image, win, j, WindowByteCount(win))));
        j := j + 1;
      }
      assert ImageRows(image, win, j) == ImageRows(image, win, WindowRowCount(win));
      SentConcat([Cmd(WRITE_RAM)], ImageRows(image, win, j));
      Grown(old(trace), Sent([Cmd(WRITE_RAM)]), Sent(ImageRows(image, win, j)));
    }

    /** The inner loop of `SetFrameMemory`: the bytes of image row j. */
    method SendImageRow(image: seq<bv8>, win: Window, j: int)
      requires ImageCovers(image, win) && 0 <= j < WindowRowCount(win)
      modifies this`trace
      ensures trace == old(trace) + Sent(ImageRow(image, win, j, WindowByteCount(win)))
    {
      var i := 0;
      while i < TruncDiv(win.xEnd - win.x + 1, 8)
        invariant 0 <= i && (i == 0 || i <= WindowByteCount(win))
        invariant trace == old(trace) + Sent(ImageRow(image, win, j, i))
      {
        ImageIndexInRange(image, win, i, j);
        SendData(image[i + j * win.stride]);
        SentSnoc(ImageRow(image, win, j, i), Data(image[i + j * win.stride]));
        Grown(old(trace), Sent(ImageRow(image, win, j, i)), [Spi(Data(image[i + j * win.stride]))]);
        i := i + 1;
      }
      assert ImageRow(image, win, j, i) == ImageRow(image, win, j, WindowByteCount(win));
    }

    /** `SetMemoryArea`: the X window as byte addresses `x >> 3`, the Y window as
        little-endian 16-bit rows. */
    method SetMemoryArea(xStart: int, yStart: int, xEnd: int, yEnd: int)
      modifies this`trace
      ensures trace == old(trace) + Sent(AreaBytes(xStart, yStart, xEnd, yEnd))
    {
      ghost var t0 := trace;
      SendCommand(SET_RAM_X_ADDRESS_START_END_POSITION);
      SendData(LowByte(xStart / 8));
      SendData(LowByte(xEnd / 8));
      ghost var t1 := trace;
      SendCommand(SET_RAM_Y_ADDRESS_START_END_POSITION);
      SendData(LowByte(yStart));
      SendData(LowByte(yStart / 256));
      SendData(LowByte(yEnd));
      SendData(LowByte(yEnd / 256));
      WindowSent(t0, t1, trace, LowByte(xStart / 8), LowByte(xEnd / 8), LowByte(yStart), LowByte(yStart / 256),
        LowByte(yEnd), LowByte(yEnd / 256));
    }

    /** `SetMemoryPointer`: the address counters, then a wait. */
    method SetMemoryPointer(x: int, y: int)
      modifies this`trace, this`busyReads
      ensures trace == old(trace) + PointerRun(x, y, busy, old(busyReads)).events
      ensures busyReads == old(busyReads) + PointerRun(x, y, busy, old(busyReads)).used
    {
      SendCommand(SET_RAM_X_ADDRESS_COUNTER);
      SendData(LowByte(x / 8));
      SendCommand(SET_RAM_Y_ADDRESS_COUNTER);
      SendData(LowByte(y));
      SendData(LowByte(y / 256));
      WaitUntilIdle();
    }

    // ----- Sleep (epd1in54v2.cpp:490-497) -----

    method Sleep()
      modifies this`trace, this`busyReads
      ensures trace == old(trace) + SleepRun(busy, old(busyReads)).events
      ensures busyReads == old(busyReads) + SleepRun(busy, old(busyReads)).used
    {
      SendCommand(DEEP_SLEEP_MODE);
      SendData(0x01);
      WaitUntilIdle();
      DigitalWriteReset(LOW);
    }

    // ----- the paint routines (epd1in54v2.cpp:504-788) -----

    /** `ClearFramebuffer`: every logical (x, y) with x < width and y < height, column
        by column, through `SetAbsolutePixel` (so without rotation). */
    method ClearFramebuffer(frameBuffer: array<bv8>, colored: int)
      requires BUFFER_SIZE <= frameBuffer.Length
      modifies frameBuffer
      ensures frameBuffer[..] == Paint(old(frameBuffer[..]), NATIVE, Columns(0, 0, height as int, width as int), colored)
    {
      ghost var start := frameBuffer[..];
      var x := 0;
      while x < width as int
        invariant 0 <= x <= width as int
        invariant frameBuffer[..] == Paint(start, NATIVE, Columns(0, 0, height as int, x), colored)
      {
        ColumnsStep(start, NATIVE, 0, 0, height as int, x, x, colored);
        ClearColumn(frameBuffer, x, height as int, colored);
        x := x + 1;
      }
    }

    /** The inner loop of `ClearFramebuffer`: rows 0 .. h - 1 of column x. */
    method ClearColumn(frameBuffer: array<bv8>, x: int, h: int, colored: int)
      requires BUFFER_SIZE <= frameBuffer.Length && 0 <= h
      modifies frameBuffer
      ensures frameBuffer[..] == Paint(old(frameBuffer[..]), NATIVE, VLine(x, 0, h), colored)
    {
      var y := 0;
      while y < h
        invariant 0 <= y <= h
        invariant frameBuffer[..] == Paint(old(frameBuffer[..]), NATIVE, VLine(x, 0, y), colored)
      {
        ghost var before := frameBuffer[..];
        SetAbsolutePixel(frameBuffer, x, y, colored);
        NativeViewIsAbsolute(before, Point(x, y), colored);
        PaintOneMore(old(frameBuffer[..]), NATIVE, VLine(x, 0, y), Point(x, y), colored);
        y := y + 1;
      }
    }

    /** `SetRotate`: the parameter shadows the field, so the assignments to `rotate`
        in the source change only the parameter; the field keeps its value. Each known
        code sets the logical size (both 200, the panel being square). */
    method SetRotate(rotate: int)
      modifies this`width, this`height
      ensures rotate in {ROTATE_0, ROTATE_90, ROTATE_180, ROTATE_270} ==>
        width as int == EPD_WIDTH && height as int == EPD_HEIGHT
      ensures rotate !in {ROTATE_0, ROTATE_90, ROTATE_180, ROTATE_270} ==>
        width == old(width) && height == old(height)
    {
      if rotate == ROTATE_0 {
        width, height := EPD_WIDTH as uint32, EPD_HEIGHT as uint32;
      } else if rotate == ROTATE_90 {
        width, height := EPD_HEIGHT as uint32, EPD_WIDTH as uint32;
      } else if rotate == ROTATE_180 {
        width, height := EPD_WIDTH as uint32, EPD_HEIGHT as uint32;
      } else if rotate == ROTATE_270 {
        width, height := EPD_HEIGHT as uint32, EPD_WIDTH as uint32;
      }
    }

    /** `SetPixel`: logical bounds, then the rotation's native coordinates. */
    method SetPixel(frameBuffer: array<bv8>, x: int, y: int, colored: int)
      requires BUFFER_SIZE <= frameBuffer.Length
      modifies frameBuffer
      ensures frameBuffer[..] == Plot(old(frameBuffer[..]), CurrentView(), Point(x, y), colored)
    {
      if x < 0 || x >= width as int || y < 0 || y >= height as int {
        return;
      }
      ghost var v, before := CurrentView(), frameBuffer[..];
      if rotate as int == ROTATE_0 {
        SetAbsolutePixel(frameBuffer, x, y, colored);
      } else if rotate as int == ROTATE_90 {
        var pointTemp := x;
        SetAbsolutePixel(frameBuffer, EPD_WIDTH - y, pointTemp, colored);
      } else if rotate as int == ROTATE_180 {
        SetAbsolutePixel(frameBuffer, EPD_WIDTH - x, EPD_HEIGHT - y, colored);
      } else if rotate as int == ROTATE_270 {
        var pointTemp := x;
        SetAbsolutePixel(frameBuffer, y, EPD_HEIGHT - pointTemp, colored);
      }
      assert Rotated(v.rotate, Point(x, y)).Some? ==> frameBuffer[..] == AbsolutePixel(before, Rotated(v.rotate, Point(x, y)).value.x, Rotated(v.rotate, Point(x, y)).value.y, colored);
    }

    /** `SetAbsolutePixel`: clear (colored) or set (uncolored) bit `0x80 >> (x % 8)`
        of byte `(x + y * 200) / 8`, for native (x, y) on the panel only. */
    method SetAbsolutePixel(frameBuffer: array<bv8>, x: int, y: int, colored: int)
      requires BUFFER_SIZE <= frameBuffer.Length
      modifies frameBuffer
      ensures frameBuffer[..] == AbsolutePixel(old(frameBuffer[..]), x, y, colored)
    {
      if x < 0 || x >= EPD_WIDTH || y < 0 || y >= EPD_HEIGHT {
        return;
      }
      var k := (x + y * EPD_WIDTH) / 8;
      // BitMask(x) is 0x80 >> (x % 8) (lemma BitIsShift)
      var mask := BitMask(x);
      AbsolutePixelUpdate(frameBuffer[..], x, y, colored);
      if colored != 0 {
        frameBuffer[k] := frameBuffer[k] & !mask;
      } else {
        frameBuffer[k] := frameBuffer[k] | mask;
      }
    }

    /** `DrawLine`: Bresenham from (x0, y0), stopping as soon as either coordinate
        reaches the endpoint's. */
    method DrawLine(frameBuffer: array<bv8>, x0: int, y0: int, x1: int, y1: int, colored: int)
      requires BUFFER_SIZE <= frameBuffer.Length
      modifies frameBuffer
      ensures frameBuffer[..] == Paint(old(frameBuffer[..]), CurrentView(), LinePoints(x0, y0, x1, y1), colored)
    {
      var dx := if x1 - x0 >= 0 then x1 - x0 else x0 - x1;
      var sx := if x0 < x1 then 1 else -1;
      var dy := if y1 - y0 <= 0 then y1 - y0 else y0 - y1;
      var sy := if y0 < y1 then 1 else -1;
      var err := dx + dy;
      var x, y := x0, y0;
      ghost var b := Bresenham(x1, y1, sx, sy, dx, dy);
      assert b == LineSetup(x0, y0, x1, y1) && Cursor(x, y, err) == LineStart(x0, y0, x1, y1);
      ghost var v, start := CurrentView(), frameBuffer[..];
      ghost var done: seq<Point> := [];
      SetupHeads(x0, y0, x1, y1);
      while x != x1 && y != y1
        invariant Heading(b, Cursor(x, y, err))
        invariant LinePoints(x0, y0, x1, y1) == done + LineFrom(b, Cursor(x, y, err))
        invariant CurrentView() == v
        invariant frameBuffer[..] == Paint(start, v, done, colored)
        decreases Remaining(b, Cursor(x, y, err))
      {
        ghost var c := Cursor(x, y, err);
        ghost var d0 := done;
        SetPixel(frameBuffer, x, y, colored);
        PaintOneMore(start, v, done, Point(x, y), colored);
        done := done + [Point(x, y)];
        x, y, err := StepLine(b, x, y, err, sx, sy, dx, dy);
        LineFromStep(b, c);
        Grown(d0, [Point(c.x, c.y)], LineFrom(b, Cursor(x, y, err)));
      }
      assert LineFrom(b, Cursor(x, y, err)) == [];
      assert done + [] == done;
    }

    /** The end of every pass of the `DrawLine` loop: x steps when 2 * err >= dy,
        then y when the updated 2 * err <= dx, and err follows each step. */
    method StepLine(ghost b: Bresenham, x0: int, y0: int, err0: int, sx: int, sy: int, dx: int, dy: int)
      returns (x: int, y: int, err: int)
      requires Running(b, Cursor(x0, y0, err0))
      requires b.sx == sx && b.sy == sy && b.dx == dx && b.dy == dy
      ensures Cursor(x, y, err) == LineStep(b, Cursor(x0, y0, err0))
    {
      x, y, err := x0, y0, err0;
      if 2 * err >= dy {
        err := err + dy;
        x := x + sx;
      }
      if 2 * err <= dx {
        err := err + dx;
        y := y + sy;
      }
    }

    /** `DrawHorizontalLine`: (x, y) to (x + length - 1, y). */
    method DrawHorizontalLine(frameBuffer: array<bv8>, x: int, y: int, length: int, colored: int)
      requires BUFFER_SIZE <= frameBuffer.Length
      modifies frameBuffer
      ensures frameBuffer[..] == Paint(old(frameBuffer[..]), CurrentView(), HLine(x, y, length), colored)
    {
      var i := x;
      while i < x + length
        invariant x <= i && (i == x || i <= x + length)
        invariant frameBuffer[..] == Paint(old(frameBuffer[..]), CurrentView(), HLine(x, y, i - x), colored)
      {
        SetPixel(frameBuffer, i, y, colored);
        PaintOneMore(old(frameBuffer[..]), CurrentView(), HLine(x, y, i - x), Point(i, y), colored);
        i := i + 1;
      }
    }

    /** `DrawVerticalLine`: (x, y) to (x, y + length - 1). */
    method DrawVerticalLine(frameBuffer: array<bv8>, x: int, y: int, length: int, colored: int)
      requires BUFFER_SIZE <= frameBuffer.Length
      modifies frameBuffer
      ensures frameBuffer[..] == Paint(old(frameBuffer[..]), CurrentView(), VLine(x, y, length), colored)
    {
      var i := y;
      while i < y + length
        invariant y <= i && (i == y || i <= y + length)
        invariant frameBuffer[..] == Paint(old(frameBuffer[..]), CurrentView(), VLine(x, y, i - y), colored)
      {
        SetPixel(frameBuffer, x, i, colored);
        PaintOneMore(old(frameBuffer[..]), CurrentView(), VLine(x, y, i - y), Point(x, i), colored);
        i := i + 1;
      }
    }

    /** `DrawRectangle`: top, bottom, left and right edge, in that order. */
    method DrawRectangle(frameBuffer: array<bv8>, x0: int, y0: int, x1: int, y1: int, colored: int)
      requires BUFFER_SIZE <= frameBuffer.Length
      modifies frameBuffer
      ensures frameBuffer[..] == Paint(old(frameBuffer[..]), CurrentView(), RectPoints(x0, y0, x1, y1), colored)
    {
      // `x1 > x0 ? x0 : x1` and so on
      var minX, maxX := MinOf(x0, x1), MaxOf(x0, x1);
      var minY, maxY := MinOf(y0, y1), MaxOf(y0, y1);
      ghost var v, b0 := CurrentView(), frameBuffer[..];
      ghost var top, bottom := HLine(minX, minY, maxX - minX + 1), HLine(minX, maxY, maxX - minX + 1);
      ghost var left, right := VLine(minX, minY, maxY - minY + 1), VLine(maxX, minY, maxY - minY + 1);
      DrawHorizontalLine(frameBuffer, minX, minY, maxX - minX + 1, colored);
      ghost var b1 := frameBuffer[..];
      DrawHorizontalLine(frameBuffer, minX, maxY, maxX - minX + 1, colored);
      ghost var b2 := frameBuffer[..];
      DrawVerticalLine(frameBuffer, minX, minY, maxY - minY + 1, colored);
      ghost var b3 := frameBuffer[..];
      DrawVerticalLine(frameBuffer, maxX, minY, maxY - minY + 1, colored);
      PaintFour(b0, v, top, bottom, left, right, colored);
      assert frameBuffer[..] == Paint(b3, v, right, colored);
      assert b3 == Paint(b2, v, left, colored);
      assert b2 == Paint(b1, v, bottom, colored);
      assert b1 == Paint(b0, v, top, colored);
    }

    /** `DrawFilledRectangle`: one vertical line per column from min_x to max_x. */
    method DrawFilledRectangle(frameBuffer: array<bv8>, x0: int, y0: int, x1: int, y1: int, colored: int)
      requires BUFFER_SIZE <= frameBuffer.Length
      modifies frameBuffer
      ensures frameBuffer[..] == Paint(old(frameBuffer[..]), CurrentView(), FilledRectPoints(x0, y0, x1, y1), colored)
    {
      // `x1 > x0 ? x0 : x1` and so on
      var minX, maxX := MinOf(x0, x1), MaxOf(x0, x1);
      var minY, maxY := MinOf(y0, y1), MaxOf(y0, y1);
      ghost var v, start := CurrentView(), frameBuffer[..];
      var i := minX;
      ghost var n := 0;
      while i < maxX + 1
        invariant minX <= i <= maxX + 1 && n == i - minX
        invariant CurrentView() == v
        invariant frameBuffer[..] == Paint(start, v, Columns(minX, minY, maxY - minY + 1, n), colored)
      {
        ColumnsStep(start, v, minX, minY, maxY - minY + 1, n, i, colored);
        DrawVerticalLine(frameBuffer, i, minY, maxY - minY + 1, colored);
        i, n := i + 1, n + 1;
      }
      assert n == maxX - minX + 1;
    }

    /** The four `SetPixel` calls of one pass of the circle loops. */
    method PlotQuad(frameBuffer: array<bv8>, x: int, y: int, xPos: int, yPos: int, colored: int)
      requires BUFFER_SIZE <= frameBuffer.Length
      modifies frameBuffer
      ensures frameBuffer[..] == Paint(old(frameBuffer[..]), CurrentView(), Quad(x, y, Point(xPos, yPos)), colored)
    {
      PaintQuad(frameBuffer[..], CurrentView(), x, y, Point(xPos, yPos), colored);
      SetPixel(frameBuffer, x - xPos, y + yPos, colored);
      SetPixel(frameBuffer, x + xPos, y + yPos, colored);
      SetPixel(frameBuffer, x + xPos, y - yPos, colored);
      SetPixel(frameBuffer, x - xPos, y - yPos, colored);
    }

    /** `DrawCircle`: nothing when the centre fails the unsigned bounds test, else
        the four mirror images of every offset of the octant walk. */
    method DrawCircle(frameBuffer: array<bv8>, x: int, y: int, radius: int, colored: int)
      requires BUFFER_SIZE <= frameBuffer.Length
      modifies frameBuffer
      ensures CircleSkipped(x, y, width as int, height as int) ==> frameBuffer[..] == old(frameBuffer[..])
      ensures !CircleSkipped(x, y, width as int, height as int) ==>
        frameBuffer[..] == Paint(old(frameBuffer[..]), CurrentView(), CirclePoints(x, y, radius), colored)
    {
      var xPos := -radius;
      var yPos := 0;
      var err := 2 - 2 * radius;
      if ToUnsigned(x) >= width as int || ToUnsigned(y) >= height as int {
        return;
      }
      TraceRing(frameBuffer, x, y, radius, colored, xPos, yPos, err);
    }

    /** The loop of `DrawCircle`, entered with the starting position and error. */
    method TraceRing(frameBuffer: array<bv8>, x: int, y: int, radius: int, colored: int,
                    xPos0: int, yPos0: int, err0: int)
      requires BUFFER_SIZE <= frameBuffer.Length
      requires Arc(xPos0, yPos0, err0) == ArcStart(radius)
      modifies frameBuffer
      ensures frameBuffer[..] == Paint(old(frameBuffer[..]), CurrentView(), Ring(x, y, Octant(radius)), colored)
    {
      var xPos, yPos, err := xPos0, yPos0, err0;
      StartKeeps(radius);
      ghost var v, start := CurrentView(), frameBuffer[..];
      ghost var done: seq<Point> := [];
      while true
        invariant ArcInvariant(radius, Arc(xPos, yPos, err))
        invariant radius >= 0 ==> xPos <= 0
        invariant Octant(radius) == done + ArcFrom(radius, Arc(xPos, yPos, err))
        invariant CurrentView() == v
        invariant frameBuffer[..] == Paint(start, v, Ring(x, y, done), colored)
        decreases ArcMeasure(radius, Arc(xPos, yPos, err))
      {
        ghost var a, o := Arc(xPos, yPos, err), Point(xPos, yPos);
        OctantStep(radius, done, a);
        PlotRingPass(frameBuffer, x, y, xPos, yPos, colored, start, done);
        done := done + [o];
        xPos, yPos, err := StepArc(xPos, yPos, err);
        if xPos > 0 {
          break;
        }
      }
    }

    /** One pass of `DrawCircle` extends the drawn ring by the four points of (xPos, yPos). */
    method PlotRingPass(frameBuffer: array<bv8>, x: int, y: int, xPos: int, yPos: int, colored: int,
                        ghost start: seq<bv8>, ghost done: seq<Point>)
      requires BUFFER_SIZE <= frameBuffer.Length && IsFrame(start)
      requires frameBuffer[..] == Paint(start, CurrentView(), Ring(x, y, done), colored)
      modifies frameBuffer
      ensures frameBuffer[..] == Paint(start, CurrentView(), Ring(x, y, done + [Point(xPos, yPos)]), colored)
    {
      RingStep(start, CurrentView(), x, y, done, Point(xPos, yPos), colored);
      PlotQuad(frameBuffer, x, y, xPos, yPos, colored);
    }

    /** The end of every pass of the two circle loops: y_pos steps when err <= y_pos,
        x_pos when the (possibly reset) e2 exceeds x_pos, and err follows each step. */
    method StepArc(xPos0: int, yPos0: int, err0: int) returns (xPos: int, yPos: int, err: int)
      ensures Arc(xPos, yPos, err) == ArcStep(Arc(xPos0, yPos0, err0))
    {
      xPos, yPos, err := xPos0, yPos0, err0;
      var e2 := err;
      if e2 <= yPos {
        yPos := yPos + 1;
        err := err + yPos * 2 + 1;
        if -xPos == yPos && e2 <= xPos {
          e2 := 0;
        }
      }
      if e2 > xPos {
        xPos := xPos + 1;
        err := err + xPos * 2 + 1;
      }
    }

    /** `DrawFilledCircle`: as `DrawCircle`, plus the two spans of each pass. */
    method DrawFilledCircle(frameBuffer: array<bv8>, x: int, y: int, radius: int, colored: int)
      requires BUFFER_SIZE <= frameBuffer.Length
      modifies frameBuffer
      ensures CircleSkipped(x, y, width as int, height as int) ==> frameBuffer[..] == old(frameBuffer[..])
      ensures !CircleSkipped(x, y, width as int, height as int) ==>
        frameBuffer[..] == Paint(old(frameBuffer[..]), CurrentView(), FilledCirclePoints(x, y, radius), colored)
    {
      var xPos := -radius;
      var yPos := 0;
      var err := 2 - 2 * radius;
      if ToUnsigned(x) >= width as int || ToUnsigned(y) >= height as int {
        return;
      }
      TraceDisk(frameBuffer, x, y, radius, colored, xPos, yPos, err);
    }

    /** The loop of `DrawFilledCircle`, entered with the starting position and error. */
    method TraceDisk(frameBuffer: array<bv8>, x: int, y: int, radius: int, colored: int,
                    xPos0: int, yPos0: int, err0: int)
      requires BUFFER_SIZE <= frameBuffer.Length
      requires Arc(xPos0, yPos0, err0) == ArcStart(radius)
      modifies frameBuffer
      ensures frameBuffer[..] == Paint(old(frameBuffer[..]), CurrentView(), Disk(x, y, Octant(radius)), colored)
    {
      var xPos, yPos, err := xPos0, yPos0, err0;
      StartKeeps(radius);
      ghost var v, start := CurrentView(), frameBuffer[..];
      ghost var done: seq<Point> := [];
      while true
        invariant ArcInvariant(radius, Arc(xPos, yPos, err))
        invariant radius >= 0 ==> xPos <= 0
        invariant Octant(radius) == done + ArcFrom(radius, Arc(xPos, yPos, err))
        invariant CurrentView() == v
        invariant frameBuffer[..] == Paint(start, v, Disk(x, y, done), colored)
        decreases ArcMeasure(radius, Arc(xPos, yPos, err))
      {
        ghost var a, o := Arc(xPos, yPos, err), Point(xPos, yPos);
        OctantStep(radius, done, a);
        PlotDiskPass(frameBuffer, x, y, xPos, yPos, colored, start, done);
        done := done + [o];
        xPos, yPos, err := StepArc(xPos, yPos, err);
        if xPos > 0 {
          break;
        }
      }
    }

    /** One pass of `DrawFilledCircle` extends the drawn disk by the slab of (xPos, yPos). */
    method PlotDiskPass(frameBuffer: array<bv8>, x: int, y: int, xPos: int, yPos: int, colored: int,
                        ghost start: seq<bv8>, ghost done: seq<Point>)
      requires BUFFER_SIZE <= frameBuffer.Length && IsFrame(start)
      requires frameBuffer[..] == Paint(start, CurrentView(), Disk(x, y, done), colored)
      modifies frameBuffer
      ensures frameBuffer[..] == Paint(start, CurrentView(), Disk(x, y, done + [Point(xPos, yPos)]), colored)
    {
      DiskStep(start, CurrentView(), x, y, done, Point(xPos, yPos), colored);
      PlotSlab(frameBuffer, x, y, xPos, yPos, colored);
    }

    /** The drawing of one pass of `DrawFilledCircle`: four points, two spans. */
    method PlotSlab(frameBuffer: array<bv8>, x: int, y: int, xPos: int, yPos: int, colored: int)
      requires BUFFER_SIZE <= frameBuffer.Length
      modifies frameBuffer
      ensures frameBuffer[..] == Paint(old(frameBuffer[..]), CurrentView(), Slab(x, y, Point(xPos, yPos)), colored)
    {
      ghost var v, b0, o := CurrentView(), frameBuffer[..], Point(xPos, yPos);
      PlotQuad(frameBuffer, x, y, xPos, yPos, colored);
      DrawHorizontalLine(frameBuffer, x + xPos, y + yPos, 2 * (-xPos) + 1, colored);
      PaintConcat(b0, v, Quad(x, y, o), HLine(x + xPos, y + yPos, 2 * (-xPos) + 1), colored);
      DrawHorizontalLine(frameBuffer, x + xPos, y - yPos, 2 * (-xPos) + 1, colored);
      PaintConcat(b0, v, Quad(x, y, o) + HLine(x + xPos, y + yPos, 2 * (-xPos) + 1),
        HLine(x + xPos, y - yPos, 2 * (-xPos) + 1), colored);
    }

    /** `DrawCharAt`: row by row, column by column, plotting (x + i, y + j) for every
        set bit; `ptr` moves on after every eighth column and after a partial byte. */
    method DrawCharAt(frameBuffer: array<bv8>, x: int, y: int, asciiChar: char, font: Font, colored: int)
      requires BUFFER_SIZE <= frameBuffer.Length && HasGlyph(font, asciiChar)
      modifies frameBuffer
      ensures frameBuffer[..] == Paint(old(frameBuffer[..]), CurrentView(), GlyphPoints(font, asciiChar, x, y), colored)
    {
      var charOffset := (asciiChar as int - ' ' as int) * font.height * (font.width / 8 + (if font.width % 8 != 0 then 1 else 0));
      var ptr := charOffset;
      ghost var v, start := CurrentView(), frameBuffer[..];
      var j := 0;
      while j < font.height
        invariant 0 <= j <= font.height
        invariant ptr == RowStart(font, asciiChar, j)
        invariant CurrentView() == v
        invariant frameBuffer[..] == Paint(start, v, GlyphRows(font, asciiChar, x, y, j), colored)
      {
        GlyphRowsStep(start, v, font, asciiChar, x, y, j, colored);
        ptr := DrawGlyphRow(frameBuffer, x, y, asciiChar, font, colored, j, ptr);
        if font.width % 8 != 0 {
          ptr := ptr + 1;
        }
        RowStartNext(font, asciiChar, j);
        j := j + 1;
      }
    }

    /** The inner loop of `DrawCharAt`: the columns of row j, left to right, with
        `ptr` moving on after every eighth column. */
    method DrawGlyphRow(frameBuffer: array<bv8>, x: int, y: int, asciiChar: char, font: Font, colored: int,
                        j: int, ptr0: int) returns (ptr: int)
      requires BUFFER_SIZE <= frameBuffer.Length && HasGlyph(font, asciiChar) && 0 <= j < font.height
      requires ptr0 == RowStart(font, asciiChar, j)
      modifies frameBuffer
      ensures ptr == RowStart(font, asciiChar, j) + font.width / 8
      ensures frameBuffer[..] == Paint(old(frameBuffer[..]), CurrentView(), GlyphRow(font, asciiChar, x, y, j, font.width), colored)
    {
      ghost var v, rowBase := CurrentView(), frameBuffer[..];
      ptr := ptr0;
      var i := 0;
      while i < font.width
        invariant 0 <= i <= font.width
        invariant ptr == ptr0 + i / 8
        invariant CurrentView() == v
        invariant frameBuffer[..] == Paint(rowBase, v, GlyphRow(font, asciiChar, x, y, j, i), colored)
      {
        GlyphRowStep(rowBase, v, font, asciiChar, x, y, j, i, colored);
        DrawGlyphBit(frameBuffer, x, y, asciiChar, font, colored, j, i, ptr);
        if i % 8 == 7 {
          ptr := ptr + 1;
        }
        i := i + 1;
      }
    }

    /** The body of the inner loop of `DrawCharAt`: pixel (x + i, y + j) is drawn
        exactly when bit i of the glyph's row j is set. */
    method DrawGlyphBit(frameBuffer: array<bv8>, x: int, y: int, asciiChar: char, font: Font, colored: int,
                        j: int, i: int, ptr: int)
      requires BUFFER_SIZE <= frameBuffer.Length && HasGlyph(font, asciiChar)
      requires 0 <= j < font.height && 0 <= i < font.width && ptr == GlyphByte(font, asciiChar, i, j)
      modifies frameBuffer
      ensures frameBuffer[..] == if GlyphBit(font, asciiChar, i, j)
        then Plot(old(frameBuffer[..]), CurrentView(), Point(x + i, y + j), colored)
        else old(frameBuffer[..])
    {
      if font.table[ptr] & BitMask(i) != 0 {
        SetPixel(frameBuffer, x + i, y + j, colored);
      }
    }

    /** `DrawStringAt`: the characters before the terminating NUL, the k-th with its
        left edge at column x + k * Width. */
    method DrawStringAt(frameBuffer: array<bv8>, x: int, y: int, text: seq<char>, font: Font, colored: int)
      requires BUFFER_SIZE <= frameBuffer.Length
      requires '\0' in text && Printable(font, StringChars(text))
      modifies frameBuffer
      ensures frameBuffer[..] == Paint(old(frameBuffer[..]), CurrentView(), StringPoints(font, x, y, StringChars(text)), colored)
    {
      ghost var s := StringChars(text);
      ghost var v, start := CurrentView(), frameBuffer[..];
      var p := 0;
      var counter := 0;
      var refcolumn := x;
      while text[p] != '\0'
        invariant 0 <= p <= |s| < |text|
        invariant refcolumn == CharLeft(font, x, p)
        invariant CurrentView() == v
        invariant frameBuffer[..] == Paint(start, v, StringPrefix(font, x, y, s, p), colored)
        decreases |s| - p
      {
        assert p < |s|;
        StringCharsAt(text, p);
        StringPrefixStep(start, v, font, x, y, s, p, colored);
        DrawCharAt(frameBuffer, refcolumn, y, text[p], font, colored);
        CharLeftNext(font, x, p);
        refcolumn := refcolumn + font.width;
        p := p + 1;
        counter := counter + 1;
      }
      if p < |s| {
        StringCharsAt(text, p);
      }
    }
  }
}
