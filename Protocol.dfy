/** What the driver puts on the wire (epd1in54v2.cpp:51-497), as a log of events.
    `SendCommand` and `SendData` each become one event carrying the byte and the
    level of the DC pin; the reset pin, delays and busy-pin reads are events too.
    The busy pin is an oracle: `busy(k)` is the level of the k-th read. */
module Protocol {
  import opened Panel
  import opened Framebuffer

  /** One byte over SPI with the level of the DC pin: `SendCommand` drives DC
      low first, `SendData` drives it high. */
  datatype Transfer = Cmd(b: bv8) | Data(b: bv8)

  datatype Event =
    | Spi(t: Transfer)
    | ResetPin(level: int)  // the reset pin driven to a level
    | Delay(ms: nat)
    | BusyRead(level: int)  // one read of the busy pin

  /** The events a driver call adds, and how many busy-pin reads it consumed. */
  datatype Run = Run(events: seq<Event>, used: nat)

  /** The events of sending the transfers ts, in order. */
  function Sent(ts: seq<Transfer>): (es: seq<Event>)
    ensures |es| == |ts| && forall k | 0 <= k < |ts| :: es[k] == Spi(ts[k])
  {
    seq(|ts|, k requires 0 <= k < |ts| => Spi(ts[k]))
  }

  lemma SentConcat(a: seq<Transfer>, b: seq<Transfer>)
    ensures Sent(a + b) == Sent(a) + Sent(b)
  {
    assert forall k | 0 <= k < |a + b| :: Sent(a + b)[k] == (Sent(a) + Sent(b))[k];
  }

  /** A log that grows by a, then by b, has grown by a + b. */
  lemma Grown<T>(t: seq<T>, a: seq<T>, b: seq<T>)
    ensures t + a + b == t + (a + b)
  {
  }

  lemma SentSnoc(ts: seq<Transfer>, t: Transfer)
    ensures Sent(ts + [t]) == Sent(ts) + [Spi(t)]
  {
    SentConcat(ts, [t]);
  }

  /** The transfers in a log: the log without pins, delays and reads. */
  function BusBytes(es: seq<Event>): (ts: seq<Transfer>)
    ensures |ts| <= |es|
    decreases |es|
  {
    if es == [] then []
    else BusBytes(es[..|es| - 1]) + (if es[|es| - 1].Spi? then [es[|es| - 1].t] else [])
  }

  lemma {:induction false} BusBytesConcat(a: seq<Event>, b: seq<Event>)
    ensures BusBytes(a + b) == BusBytes(a) + BusBytes(b)
    decreases |b|
  {
    if b == [] {
      assert a + b == a;
    } else {
      assert (a + b)[..|a + b| - 1] == a + b[..|b| - 1];
      BusBytesConcat(a, b[..|b| - 1]);
    }
  }

  /** Decoding what was sent gives back the transfers. */
  lemma {:induction false} BusBytesOfSent(ts: seq<Transfer>)
    ensures BusBytes(Sent(ts)) == ts
    decreases |ts|
  {
    if ts != [] {
      assert Sent(ts)[..|ts| - 1] == Sent(ts[..|ts| - 1]);
      BusBytesOfSent(ts[..|ts| - 1]);
    }
  }

  lemma {:induction false} BusBytesOfSideEvents(es: seq<Event>)
    requires forall k | 0 <= k < |es| :: !es[k].Spi?
    ensures BusBytes(es) == []
    decreases |es|
  {
    if es != [] {
      BusBytesOfSideEvents(es[..|es| - 1]);
    }
  }

  /** Appending events that send nothing keeps the transfers. */
  lemma BusBytesSkip(a: seq<Event>, side: seq<Event>)
    requires BusBytes(side) == []
    ensures BusBytes(a + side) == BusBytes(a)
  {
    BusBytesConcat(a, side);
  }

  /** Appending sent transfers appends them to the transfers. */
  lemma BusBytesSend(a: seq<Event>, ts: seq<Transfer>)
    ensures BusBytes(a + Sent(ts)) == BusBytes(a) + ts
  {
    BusBytesConcat(a, Sent(ts));
    BusBytesOfSent(ts);
  }

  /** The milliseconds a log spends in delays. */
  function DelayTotal(es: seq<Event>): nat
    decreases |es|
  {
    if es == [] then 0 else DelayTotal(es[..|es| - 1]) + (if es[|es| - 1].Delay? then es[|es| - 1].ms else 0)
  }

  lemma {:induction false} DelayTotalConcat(a: seq<Event>, b: seq<Event>)
    ensures DelayTotal(a + b) == DelayTotal(a) + DelayTotal(b)
    decreases |b|
  {
    if b == [] {
      assert a + b == a;
    } else {
      assert (a + b)[..|a + b| - 1] == a + b[..|b| - 1];
      DelayTotalConcat(a, b[..|b| - 1]);
    }
  }

  lemma DelayTotalOne(e: Event)
    ensures DelayTotal([e]) == if e.Delay? then e.ms else 0
  {
    assert [e][..0] == [];
  }

  // ----- WaitUntilIdle (epd1in54v2.cpp:69-77) -----

  /** `while (DigitalRead(busy) == 1 && ++cnt < 2) DelayMs(10);` with cnt starting
      at 0, reading from sample `at` on. */
  function WaitRun(busy: nat -> int, at: nat): (r: Run)
    ensures 1 <= r.used <= 2
  {
    if busy(at) != 1 then Run([BusyRead(busy(at))], 1)
    else Run([BusyRead(busy(at)), Delay(10), BusyRead(busy(at + 1))], 2)
  }

  /** Every wait reads the pin once or twice, delays at most once (10 ms, between
      the two reads), sends nothing on the bus, and stops either because the last
      read was not 1 or because the retry counter ran out after the second read. */
  lemma WaitBounded(busy: nat -> int, at: nat)
    ensures var r := WaitRun(busy, at);
      && BusBytes(r.events) == []
      && DelayTotal(r.events) == 10 * (r.used - 1)
      && |r.events| == 2 * r.used - 1
      && r.events[0] == BusyRead(busy(at))
      && r.events[|r.events| - 1] == BusyRead(busy(at + r.used - 1))
      && (r.used == 2 <==> busy(at) == 1)
      && (busy(at + r.used - 1) != 1 || r.used == 2)
  {
    var r := WaitRun(busy, at);
    BusBytesOfSideEvents(r.events);
    if r.used == 2 {
      DelayTotalOne(BusyRead(busy(at)));
      DelayTotalOne(Delay(10));
      DelayTotalOne(BusyRead(busy(at + 1)));
      DelayTotalConcat([BusyRead(busy(at))], [Delay(10)]);
      DelayTotalConcat([BusyRead(busy(at)), Delay(10)], [BusyRead(busy(at + 1))]);
      assert r.events == [BusyRead(busy(at)), Delay(10)] + [BusyRead(busy(at + 1))];
    } else {
      DelayTotalOne(BusyRead(busy(at)));
    }
  }

  /** A wait sends nothing on the bus. */
  lemma WaitSilent(busy: nat -> int, at: nat)
    ensures BusBytes(WaitRun(busy, at).events) == []
  {
    BusBytesOfSideEvents(WaitRun(busy, at).events);
  }

  // ----- Reset (epd1in54v2.cpp:196-204) -----

  const RESET_PULSE: seq<Event> :=
    [ResetPin(HIGH), Delay(200), ResetPin(LOW), Delay(10), ResetPin(HIGH), Delay(200)]

  /** The reset pulse sends nothing on the bus, lasts 410 ms, drives the pin low
      exactly once (for the 10 ms between two 200 ms high phases) and leaves it high. */
  lemma ResetShape()
    ensures BusBytes(RESET_PULSE) == []
    ensures DelayTotal(RESET_PULSE) == 410
    ensures forall k | 0 <= k < |RESET_PULSE| && RESET_PULSE[k].ResetPin? ::
      RESET_PULSE[k].level == if k == 2 then LOW else HIGH
    ensures RESET_PULSE[3] == Delay(10)
    ensures RESET_PULSE[|RESET_PULSE| - 2] == ResetPin(HIGH)
  {
    BusBytesOfSideEvents(RESET_PULSE);
    var a, b, c := [ResetPin(HIGH), Delay(200)], [ResetPin(LOW), Delay(10)], [ResetPin(HIGH), Delay(200)];
    assert RESET_PULSE == a + b + c;
    DelayTotalOne(ResetPin(HIGH));
    DelayTotalOne(ResetPin(LOW));
    DelayTotalOne(Delay(200));
    DelayTotalOne(Delay(10));
    DelayTotalConcat([ResetPin(HIGH)], [Delay(200)]);
    DelayTotalConcat([ResetPin(LOW)], [Delay(10)]);
    DelayTotalConcat(a, b);
    DelayTotalConcat(a + b, c);
  }

  // ----- HDirInit / LDirInit (epd1in54v2.cpp:85-189) -----

  /** Which of the two init routines: `HDirInit` or `LDirInit`. */
  datatype ScanDirection = HighDirection | LowDirection

  /** Driver output control: 200 gate lines, then the scan direction bit. */
  function DriverOutput(dir: ScanDirection): seq<Transfer> {
    [Cmd(DRIVER_OUTPUT_CONTROL), Data(0xC7), Data(0x00), Data(if dir == HighDirection then 0x01 else 0x00)]
  }

  /** Data entry mode: the address counter directions. */
  function EntryMode(dir: ScanDirection): seq<Transfer> {
    [Cmd(DATA_ENTRY_MODE_SETTING), Data(if dir == HighDirection then 0x01 else 0x03)]
  }

  /** The two window commands: the X start and end bytes, then the Y start and end
      as two bytes each, low byte first. */
  function WindowBytes(xs: bv8, xe: bv8, ys0: bv8, ys1: bv8, ye0: bv8, ye1: bv8): seq<Transfer> {
    [Cmd(SET_RAM_X_ADDRESS_START_END_POSITION), Data(xs), Data(xe),
     Cmd(SET_RAM_Y_ADDRESS_START_END_POSITION), Data(ys0), Data(ys1), Data(ye0), Data(ye1)]
  }

  /** Sending the X command with its two bytes and then the Y command with its four
      logs exactly the transfers of `WindowBytes`. */
  lemma WindowSent(t0: seq<Event>, t1: seq<Event>, t2: seq<Event>,
                   xs: bv8, xe: bv8, ys0: bv8, ys1: bv8, ye0: bv8, ye1: bv8)
    requires t1 == t0 + [Spi(Cmd(SET_RAM_X_ADDRESS_START_END_POSITION))] + [Spi(Data(xs))] + [Spi(Data(xe))]
    requires t2 == t1 + [Spi(Cmd(SET_RAM_Y_ADDRESS_START_END_POSITION))] + [Spi(Data(ys0))] + [Spi(Data(ys1))]
      + [Spi(Data(ye0))] + [Spi(Data(ye1))]
    ensures t2 == t0 + Sent(WindowBytes(xs, xe, ys0, ys1, ye0, ye1))
  {
  }

  /** The RAM X and Y windows; `LDirInit` computes its bytes from 0 and 200 as
      `SetMemoryArea` would. */
  function RamWindow(dir: ScanDirection): seq<Transfer> {
    if dir == HighDirection then WindowBytes(0x00, 0x18, 0xC7, 0x00, 0x00, 0x00)
    else AreaBytes(0, 0, 200, 200)
  }

  /** Border waveform, the internal temperature sensor, and loading the waveform. */
  const PANEL_SETUP: seq<Transfer> :=
    [Cmd(BORDER_WAVEFORM_CONTROL), Data(0x01),
     Cmd(0x18), Data(0x80),
     Cmd(DISPLAY_UPDATE_CONTROL_2), Data(0xB1), Cmd(MASTER_ACTIVATION)]

  /** The RAM address counters: X to 0, Y to 199. */
  const RAM_COUNTER: seq<Transfer> :=
    [Cmd(SET_RAM_X_ADDRESS_COUNTER), Data(0x00), Cmd(SET_RAM_Y_ADDRESS_COUNTER), Data(0xC7), Data(0x00)]

  /** What both routines send between the second and the last wait. */
  function InitBody(dir: ScanDirection): seq<Transfer> {
    DriverOutput(dir) + EntryMode(dir) + RamWindow(dir) + PANEL_SETUP + RAM_COUNTER
  }

  /** Reset, wait, software reset, wait: how both routines begin. */
  function WakeRun(busy: nat -> int, at: nat): (r: Run)
    ensures 2 <= r.used <= 4
  {
    var w1 := WaitRun(busy, at);
    var w2 := WaitRun(busy, at + w1.used);
    Run(RESET_PULSE + w1.events + Sent([Cmd(SW_RESET)]) + w2.events, w1.used + w2.used)
  }

  /** The wake-up, the body, and a last wait. */
  function InitRun(dir: ScanDirection, busy: nat -> int, at: nat): (r: Run)
    ensures 3 <= r.used <= 6
  {
    var s := WakeRun(busy, at);
    var w3 := WaitRun(busy, at + s.used);
    Run(s.events + Sent(InitBody(dir)) + w3.events, s.used + w3.used)
  }

  /** The wake-up sends only the software reset. */
  lemma WakeBytes(busy: nat -> int, at: nat)
    ensures BusBytes(WakeRun(busy, at).events) == [Cmd(SW_RESET)]
  {
    var w1 := WaitRun(busy, at);
    var w2 := WaitRun(busy, at + w1.used);
    WaitSilent(busy, at);
    WaitSilent(busy, at + w1.used);
    BusBytesOfSideEvents(RESET_PULSE);
    BusBytesSkip(RESET_PULSE, w1.events);
    BusBytesSend(RESET_PULSE + w1.events, [Cmd(SW_RESET)]);
    BusBytesSkip(RESET_PULSE + w1.events + Sent([Cmd(SW_RESET)]), w2.events);
  }

  /** What the init routines send over SPI does not depend on the busy pin: the
      software reset, then the body. */
  lemma InitBytes(dir: ScanDirection, busy: nat -> int, at: nat)
    ensures BusBytes(InitRun(dir, busy, at).events) == [Cmd(SW_RESET)] + InitBody(dir)
  {
    var s := WakeRun(busy, at);
    var w3 := WaitRun(busy, at + s.used);
    WakeBytes(busy, at);
    WaitSilent(busy, at + s.used);
    BusBytesSend(s.events, InitBody(dir));
    BusBytesSkip(s.events + Sent(InitBody(dir)), w3.events);
  }

  /** The X and Y window bytes `LDirInit` computes. */
  lemma LowByteValues()
    ensures LowByte(0 / 8) == 0x00 && LowByte(200 / 8) == 0x19
    ensures LowByte(0) == 0x00 && LowByte(0 / 256) == 0x00
    ensures LowByte(200) == 0xC8 && LowByte(200 / 256) == 0x00
  {
  }

  /** The two routines send bodies of the same length that differ exactly in the
      third driver-output byte (3), the entry mode (5), the X end (8) and the Y
      start and end low bytes (10, 12). */
  lemma InitDirectionsDiffer()
    ensures |InitBody(HighDirection)| == |InitBody(LowDirection)| == 26
    ensures forall k | 0 <= k < 26 ::
      InitBody(HighDirection)[k] != InitBody(LowDirection)[k] <==> k in {3, 5, 8, 10, 12}
    ensures var h, l := InitBody(HighDirection), InitBody(LowDirection);
      && h[3] == Data(0x01) && l[3] == Data(0x00)
      && h[5] == Data(0x01) && l[5] == Data(0x03)
      && h[8] == Data(0x18) && l[8] == Data(0x19)
      && h[10] == Data(0xC7) && l[10] == Data(0x00)
      && h[12] == Data(0x00) && l[12] == Data(0xC8)
  {
    LowByteValues();
  }

  /** Column count covered by an X window of RAM byte addresses [s, e]. */
  function WindowColumns(s: bv8, e: bv8): int {
    (e as int - s as int + 1) * 8
  }

  /** Row count covered by a Y window between two addresses, in either direction. */
  function WindowRows(s: int, e: int): int {
    if e >= s then e - s + 1 else s - e + 1
  }

  /** The windows the two routines set. `HDirInit` covers 200 columns and scans
      rows 199 down to 0; `LDirInit` scans rows 0 up to 200 and ends its X window
      at byte 25, so both its windows reach one unit past the 200 x 200 panel.
      Both leave the Y counter at 199. */
  lemma InitWindows(dir: ScanDirection)
    ensures var h := InitBody(HighDirection);
      && WindowColumns(h[7].b, h[8].b) == EPD_WIDTH
      && Le16(h[10].b, h[11].b) == EPD_HEIGHT - 1 && Le16(h[12].b, h[13].b) == 0
      && WindowRows(Le16(h[10].b, h[11].b), Le16(h[12].b, h[13].b)) == EPD_HEIGHT
    ensures var l := InitBody(LowDirection);
      && WindowColumns(l[7].b, l[8].b) == EPD_WIDTH + 8
      && Le16(l[10].b, l[11].b) == 0 && Le16(l[12].b, l[13].b) == EPD_HEIGHT
      && WindowRows(Le16(l[10].b, l[11].b), Le16(l[12].b, l[13].b)) == EPD_HEIGHT + 1
    ensures InitBody(dir)[23] == Cmd(SET_RAM_Y_ADDRESS_COUNTER)
    ensures Le16(InitBody(dir)[24].b, InitBody(dir)[25].b) == EPD_HEIGHT - 1
  {
    LowByteValues();
  }

  // ----- DisplayFrame / DisplayPartFrame (epd1in54v2.cpp:418-435) -----

  /** Update control 2 with the given payload, master activation, then a wait. */
  function RefreshRun(payload: bv8, busy: nat -> int, at: nat): (r: Run)
    ensures 1 <= r.used <= 2
  {
    var w := WaitRun(busy, at);
    Run(Sent([Cmd(DISPLAY_UPDATE_CONTROL_2), Data(payload), Cmd(MASTER_ACTIVATION)]) + w.events, w.used)
  }

  const FULL_REFRESH: bv8 := 0xF7
  const PARTIAL_REFRESH: bv8 := 0xFF

  // ----- Full-buffer writers (epd1in54v2.cpp:206-320) -----

  /** Data transfers carrying the bytes bs, in order. */
  function DataOf(bs: seq<bv8>): (ts: seq<Transfer>)
    ensures |ts| == |bs| && forall k | 0 <= k < |bs| :: ts[k] == Data(bs[k])
  {
    seq(|bs|, k requires 0 <= k < |bs| => Data(bs[k]))
  }

  /** The first n bytes of row j: `frame_buffer[i + j * w]` for i < n. */
  function RowData(frame: seq<bv8>, j: int, n: int): seq<Transfer>
    requires IsFrame(frame) && 0 <= j < EPD_HEIGHT && n <= ROW_BYTES
    decreases n
  {
    if n <= 0 then [] else RowData(frame, j, n - 1) + [Data(frame[n - 1 + j * ROW_BYTES])]
  }

  /** The first m rows of the frame, row by row. */
  function FrameData(frame: seq<bv8>, m: int): seq<Transfer>
    requires IsFrame(frame) && m <= EPD_HEIGHT
    decreases m
  {
    if m <= 0 then [] else FrameData(frame, m - 1) + RowData(frame, m - 1, ROW_BYTES)
  }

  /** Row j's loop sends byte base + k, with base = j * 25, as its k-th transfer. */
  lemma {:induction false} RowDataInOrder(frame: seq<bv8>, j: int, n: int, base: int)
    requires IsFrame(frame) && 0 <= j < EPD_HEIGHT && 0 <= n <= ROW_BYTES && base == j * ROW_BYTES
    ensures |RowData(frame, j, n)| == n
    ensures forall k | 0 <= k < n :: RowData(frame, j, n)[k] == Data(frame[base + k])
    decreases n
  {
    if n > 0 {
      RowDataInOrder(frame, j, n - 1, base);
    }
  }

  /** The nested row/column loops send byte k of the frame as their k-th transfer,
      for every k below size = m * 25. */
  lemma {:induction false} FrameDataInOrder(frame: seq<bv8>, m: int, size: int)
    requires IsFrame(frame) && 0 <= m <= EPD_HEIGHT && size == m * ROW_BYTES
    ensures |FrameData(frame, m)| == size
    ensures forall k | 0 <= k < size :: FrameData(frame, m)[k] == Data(frame[k])
    decreases m
  {
    if m > 0 {
      var lo := size - ROW_BYTES;
      assert lo == (m - 1) * ROW_BYTES;
      FrameDataInOrder(frame, m - 1, lo);
      RowDataInOrder(frame, m - 1, ROW_BYTES, lo);
      var prev, row := FrameData(frame, m - 1), RowData(frame, m - 1, ROW_BYTES);
      assert FrameData(frame, m) == prev + row;
      forall k | 0 <= k < size
        ensures (prev + row)[k] == Data(frame[k])
      {
        if k < lo {
          assert (prev + row)[k] == prev[k];
        } else {
          assert (prev + row)[k] == row[k - lo];
        }
      }
    }
  }

  /** The whole loop nest sends the 5000 buffer bytes in index order. */
  lemma FrameDataIsBuffer(frame: seq<bv8>)
    requires IsFrame(frame)
    ensures FrameData(frame, EPD_HEIGHT) == DataOf(frame[..BUFFER_SIZE])
  {
    FrameDataInOrder(frame, EPD_HEIGHT, BUFFER_SIZE);
  }

  /** n transfers of the byte 0xFF: what the constant loops send. */
  function WhiteBytes(n: nat): (ts: seq<Transfer>)
    ensures |ts| == n && forall k | 0 <= k < n :: ts[k] == Data(0xFF)
  {
    seq(n, k => Data(0xFF))
  }

  lemma WhiteBytesSnoc(n: nat)
    ensures WhiteBytes(n + 1) == WhiteBytes(n) + [Data(0xFF)]
  {
    assert forall k | 0 <= k < n + 1 :: WhiteBytes(n + 1)[k] == (WhiteBytes(n) + [Data(0xFF)])[k];
  }

  /** A frame whose every pixel is white. */
  const WHITE_FRAME: seq<bv8> := seq(BUFFER_SIZE, k => 0xFF)

  /** What a full-buffer writer sends before its refresh. */
  function FrameWrite(frame: Option<seq<bv8>>, bothRams: bool): seq<Transfer>
    requires frame.Some? ==> IsFrame(frame.value)
  {
    if frame.None? then []
    else if bothRams then [Cmd(WRITE_RAM)] + FrameData(frame.value, EPD_HEIGHT) + [Cmd(0x26)] + FrameData(frame.value, EPD_HEIGHT)
    else [Cmd(WRITE_RAM)] + FrameData(frame.value, EPD_HEIGHT)
  }

  /** `Display`: 0x24 and the frame when the buffer is not null, then a full refresh. */
  function DisplayRun(frame: Option<seq<bv8>>, busy: nat -> int, at: nat): Run
    requires frame.Some? ==> IsFrame(frame.value)
  {
    var r := RefreshRun(FULL_REFRESH, busy, at);
    Run(Sent(FrameWrite(frame, false)) + r.events, r.used)
  }

  /** `DisplayPart`: as `Display`, but with the partial refresh. */
  function DisplayPartRun(frame: Option<seq<bv8>>, busy: nat -> int, at: nat): Run
    requires frame.Some? ==> IsFrame(frame.value)
  {
    var r := RefreshRun(PARTIAL_REFRESH, busy, at);
    Run(Sent(FrameWrite(frame, false)) + r.events, r.used)
  }

  /** `DisplayPartBaseImage`: the frame to both RAMs (0x24 then 0x26), then a full refresh. */
  function DisplayPartBaseImageRun(frame: Option<seq<bv8>>, busy: nat -> int, at: nat): Run
    requires frame.Some? ==> IsFrame(frame.value)
  {
    var r := RefreshRun(FULL_REFRESH, busy, at);
    Run(Sent(FrameWrite(frame, true)) + r.events, r.used)
  }

  /** `ClearDisplay`: 0x24 and 5000 bytes 0xFF, then a full refresh. */
  function ClearDisplayRun(busy: nat -> int, at: nat): Run {
    var r := RefreshRun(FULL_REFRESH, busy, at);
    Run(Sent([Cmd(WRITE_RAM)] + WhiteBytes(BUFFER_SIZE)) + r.events, r.used)
  }

  /** `DisplayPartBaseWhiteImage`: 5000 bytes 0xFF to both RAMs, then a full refresh. */
  function DisplayPartBaseWhiteImageRun(busy: nat -> int, at: nat): Run {
    var r := RefreshRun(FULL_REFRESH, busy, at);
    Run(Sent([Cmd(WRITE_RAM)] + WhiteBytes(BUFFER_SIZE) + [Cmd(0x26)] + WhiteBytes(BUFFER_SIZE)) + r.events, r.used)
  }

  /** Transfers of a writer followed by a refresh. */
  lemma WriteThenRefresh(write: seq<Transfer>, payload: bv8, busy: nat -> int, at: nat)
    ensures BusBytes(Sent(write) + RefreshRun(payload, busy, at).events) ==
      write + [Cmd(DISPLAY_UPDATE_CONTROL_2), Data(payload), Cmd(MASTER_ACTIVATION)]
  {
    var w := WaitRun(busy, at);
    var refresh := [Cmd(DISPLAY_UPDATE_CONTROL_2), Data(payload), Cmd(MASTER_ACTIVATION)];
    WaitSilent(busy, at);
    SentConcat(write, refresh);
    assert Sent(write) + RefreshRun(payload, busy, at).events == Sent(write + refresh) + w.events;
    BusBytesOfSent(write + refresh);
    BusBytesSkip(Sent(write + refresh), w.events);
  }

  /** `Display` sends 0x24 and the 5000 buffer bytes in index order (nothing of
      the kind for a null buffer), then 0x22, 0xF7, 0x20; `DisplayPart` sends the
      same with 0xFF as the refresh payload. */
  lemma DisplayBytes(frame: Option<seq<bv8>>, busy: nat -> int, at: nat)
    requires frame.Some? ==> IsFrame(frame.value)
    ensures BusBytes(DisplayRun(frame, busy, at).events) ==
      (if frame.Some? then [Cmd(WRITE_RAM)] + DataOf(frame.value[..BUFFER_SIZE]) else []) +
      [Cmd(DISPLAY_UPDATE_CONTROL_2), Data(FULL_REFRESH), Cmd(MASTER_ACTIVATION)]
    ensures BusBytes(DisplayPartRun(frame, busy, at).events) ==
      (if frame.Some? then [Cmd(WRITE_RAM)] + DataOf(frame.value[..BUFFER_SIZE]) else []) +
      [Cmd(DISPLAY_UPDATE_CONTROL_2), Data(PARTIAL_REFRESH), Cmd(MASTER_ACTIVATION)]
  {
    if frame.Some? {
      FrameDataIsBuffer(frame.value);
    }
    WriteThenRefresh(FrameWrite(frame, false), FULL_REFRESH, busy, at);
    WriteThenRefresh(FrameWrite(frame, false), PARTIAL_REFRESH, busy, at);
  }

  /** `DisplayPartBaseImage` sends the buffer twice, to RAM 0x24 and then RAM 0x26. */
  lemma BaseImageBytes(frame: seq<bv8>, busy: nat -> int, at: nat)
    requires IsFrame(frame)
    ensures BusBytes(DisplayPartBaseImageRun(Some(frame), busy, at).events) ==
      [Cmd(WRITE_RAM)] + DataOf(frame[..BUFFER_SIZE]) + [Cmd(0x26)] + DataOf(frame[..BUFFER_SIZE]) +
      [Cmd(DISPLAY_UPDATE_CONTROL_2), Data(FULL_REFRESH), Cmd(MASTER_ACTIVATION)]
  {
    FrameDataIsBuffer(frame);
    WriteThenRefresh(FrameWrite(Some(frame), true), FULL_REFRESH, busy, at);
  }

  /** `ClearDisplay` is `Display` of an all-white frame, and
      `DisplayPartBaseWhiteImage` is `DisplayPartBaseImage` of one. */
  lemma WhiteWritersAreWhiteFrames(busy: nat -> int, at: nat)
    ensures ClearDisplayRun(busy, at) == DisplayRun(Some(WHITE_FRAME), busy, at)
    ensures DisplayPartBaseWhiteImageRun(busy, at) == DisplayPartBaseImageRun(Some(WHITE_FRAME), busy, at)
  {
    FrameDataInOrder(WHITE_FRAME, EPD_HEIGHT, BUFFER_SIZE);
    assert WhiteBytes(BUFFER_SIZE) == FrameData(WHITE_FRAME, EPD_HEIGHT);
  }

  // ----- SetFrameMemory, SetMemoryArea, SetMemoryPointer (epd1in54v2.cpp:339-393, 457-482) -----

  /** The RAM window `SetFrameMemory` settles on: the masked start column, the
      start row, the clamped end column and row, and the source stride in bytes. */
  datatype Window = Window(x: int, y: int, xEnd: int, yEnd: int, stride: nat)

  /** The validation, the `& 0xF8` masks and the clamping of `SetFrameMemory`
      against the logical width and height (`unsigned long`s, so `width - 1` wraps
      to 2^32 - 1 for a width of 0 and then reads as -1 in the `int` x_end). */
  function FrameWindow(x: int, y: int, imageWidth: int, imageHeight: int, width: uint32, height: uint32): (w: Option<Window>)
    ensures w.None? <==> x < 0 || imageWidth < 0 || y < 0 || imageHeight < 0
    ensures w.Some? ==>
      && w.value.x == MaskF8(x) && w.value.y == y
      && w.value.stride == MaskF8(imageWidth) / 8
      && (w.value.xEnd == MaskF8(x) + MaskF8(imageWidth) - 1 || w.value.xEnd == ToSigned(ToUnsigned(width as int - 1)))
      && w.value.xEnd - w.value.x + 1 <= MaskF8(imageWidth)
      && w.value.yEnd - w.value.y + 1 <= imageHeight
      && (1 <= width as int <= 0x8000_0000 ==> w.value.xEnd < width as int)
      && (1 <= height as int <= 0x8000_0000 ==> w.value.yEnd < height as int)
    ensures w.Some? && width as int <= 0x8000_0000 ==>
      w.value.xEnd == if MaskF8(x) + MaskF8(imageWidth) - 1 < width as int - 1
        then MaskF8(x) + MaskF8(imageWidth) - 1 else width as int - 1
    ensures w.Some? && height as int <= 0x8000_0000 ==>
      w.value.yEnd == if y + imageHeight - 1 < height as int - 1 then y + imageHeight - 1 else height as int - 1
  {
    if x < 0 || imageWidth < 0 || y < 0 || imageHeight < 0 then None
    else
      var x' := MaskF8(x);
      var w' := MaskF8(imageWidth);
      var xEnd := if x' + w' >= width as int then ToSigned(ToUnsigned(width as int - 1)) else x' + w' - 1;
      var yEnd := if y + imageHeight >= height as int then ToSigned(ToUnsigned(height as int - 1)) else y + imageHeight - 1;
      Some(Window(x', y, xEnd, yEnd, w' / 8))
  }

  /** Rows the data loop sends: `y_end - y + 1`. */
  function WindowRowCount(w: Window): int {
    w.yEnd - w.y + 1
  }

  /** Bytes per row the data loop sends: `(x_end - x + 1) / 8`, truncated. */
  function WindowByteCount(w: Window): int {
    TruncDiv(w.xEnd - w.x + 1, 8)
  }

  /** Every byte the data loop reads lies in the image. */
  predicate ImageCovers(image: seq<bv8>, w: Window) {
    WindowRowCount(w) <= 0 || WindowByteCount(w) <= 0 ||
    (WindowByteCount(w) - 1) + (WindowRowCount(w) - 1) * w.stride < |image|
  }

  lemma ImageIndexInRange(image: seq<bv8>, w: Window, i: int, j: int)
    requires ImageCovers(image, w)
    requires 0 <= i < WindowByteCount(w) && 0 <= j < WindowRowCount(w)
    ensures 0 <= i + j * w.stride < |image|
  {
    MulMonotone(j, WindowRowCount(w) - 1, w.stride);
  }

  /** The first n bytes of row j of the window: `image[i + j * stride]`. */
  function ImageRow(image: seq<bv8>, w: Window, j: int, n: int): (ts: seq<Transfer>)
    requires ImageCovers(image, w) && 0 <= j < WindowRowCount(w) && (n <= 0 || n <= WindowByteCount(w))
    ensures |ts| == if n <= 0 then 0 else n
    decreases n
  {
    if n <= 0 then []
    else
      ImageIndexInRange(image, w, n - 1, j);
      ImageRow(image, w, j, n - 1) + [Data(image[n - 1 + j * w.stride])]
  }

  /** The first m rows of the window. */
  function ImageRows(image: seq<bv8>, w: Window, m: int): (ts: seq<Transfer>)
    requires ImageCovers(image, w) && (m <= 0 || m <= WindowRowCount(w))
    ensures |ts| == if m <= 0 || WindowByteCount(w) <= 0 then 0 else m * WindowByteCount(w)
    decreases m
  {
    if m <= 0 then [] else ImageRows(image, w, m - 1) + ImageRow(image, w, m - 1, WindowByteCount(w))
  }

  /** Byte j * cols + i of the data is pixel byte (i, j) of the image, read at the
      stride of the masked image width. */
  lemma {:induction false} ImageRowsAt(image: seq<bv8>, w: Window, m: int, i: int, j: int)
    requires ImageCovers(image, w) && m <= WindowRowCount(w)
    requires 0 <= i < WindowByteCount(w) && 0 <= j < m
    ensures 0 <= i + j * w.stride < |image|
    ensures 0 <= j * WindowByteCount(w) + i < |ImageRows(image, w, m)|
    ensures ImageRows(image, w, m)[j * WindowByteCount(w) + i] == Data(image[i + j * w.stride])
    decreases m
  {
    var cols := WindowByteCount(w);
    ImageIndexInRange(image, w, i, j);
    MulMonotone(j, m - 1, cols);
    if j < m - 1 {
      ImageRowsAt(image, w, m - 1, i, j);
    } else {
      ImageRowAt(image, w, j, cols, i);
    }
  }

  lemma {:induction false} ImageRowAt(image: seq<bv8>, w: Window, j: int, n: int, i: int)
    requires ImageCovers(image, w) && 0 <= j < WindowRowCount(w) && n <= WindowByteCount(w)
    requires 0 <= i < n
    ensures 0 <= i + j * w.stride < |image|
    ensures ImageRow(image, w, j, n)[i] == Data(image[i + j * w.stride])
    decreases n
  {
    ImageIndexInRange(image, w, i, j);
    if i < n - 1 {
      ImageRowAt(image, w, j, n - 1, i);
    }
  }

  /** `SetMemoryArea`: X addresses as `x >> 3`, Y addresses as little-endian 16-bit. */
  function AreaBytes(xStart: int, yStart: int, xEnd: int, yEnd: int): seq<Transfer> {
    WindowBytes(LowByte(xStart / 8), LowByte(xEnd / 8), LowByte(yStart), LowByte(yStart / 256),
      LowByte(yEnd), LowByte(yEnd / 256))
  }

  /** `SetMemoryPointer`: the X counter as `x >> 3`, the Y counter as 16 bits, then a wait. */
  function PointerRun(x: int, y: int, busy: nat -> int, at: nat): (r: Run)
    ensures 1 <= r.used <= 2
  {
    var w := WaitRun(busy, at);
    Run(Sent(PointerBytes(x, y)) + w.events, w.used)
  }

  /** The source demands that a non-null image hold every byte the data loop reads. */
  predicate FrameMemoryReadable(image: Option<seq<bv8>>, x: int, y: int, imageWidth: int, imageHeight: int,
                                width: uint32, height: uint32) {
    image.Some? && FrameWindow(x, y, imageWidth, imageHeight, width, height).Some? ==>
      ImageCovers(image.value, FrameWindow(x, y, imageWidth, imageHeight, width, height).value)
  }

  /** `SetFrameMemory`: nothing for a null image or a negative argument; otherwise
      the window, the address pointer (with its wait), 0x24 and the image rows. */
  function FrameMemoryRun(image: Option<seq<bv8>>, x: int, y: int, imageWidth: int, imageHeight: int,
                          width: uint32, height: uint32, busy: nat -> int, at: nat): Run
    requires FrameMemoryReadable(image, x, y, imageWidth, imageHeight, width, height)
  {
    var win := FrameWindow(x, y, imageWidth, imageHeight, width, height);
    if image.None? || win.None? then Run([], 0)
    else ImageRun(image.value, win.value, busy, at)
  }

  /** What `SetFrameMemory` does once its window is known: the window, the address pointer
      (with its wait), 0x24 and the image rows. */
  function ImageRun(image: seq<bv8>, w: Window, busy: nat -> int, at: nat): Run
    requires ImageCovers(image, w)
  {
    var p := PointerRun(w.x, w.y, busy, at);
    Run(Sent(AreaBytes(w.x, w.y, w.xEnd, w.yEnd)) + p.events
        + Sent([Cmd(WRITE_RAM)] + ImageRows(image, w, WindowRowCount(w))), p.used)
  }

  /** A null image or a negative argument sends nothing and reads nothing. */
  lemma FrameMemoryRejects(image: Option<seq<bv8>>, x: int, y: int, imageWidth: int, imageHeight: int,
                           width: uint32, height: uint32, busy: nat -> int, at: nat)
    requires FrameMemoryReadable(image, x, y, imageWidth, imageHeight, width, height)
    requires image.None? || x < 0 || imageWidth < 0 || y < 0 || imageHeight < 0
    ensures FrameMemoryRun(image, x, y, imageWidth, imageHeight, width, height, busy, at) == Run([], 0)
  {
  }

  /** The transfers of `SetMemoryPointer(x, y)`. */
  function PointerBytes(x: int, y: int): seq<Transfer> {
    [Cmd(SET_RAM_X_ADDRESS_COUNTER), Data(LowByte(x / 8)),
     Cmd(SET_RAM_Y_ADDRESS_COUNTER), Data(LowByte(y)), Data(LowByte(y / 256))]
  }

  /** An accepted call sends the window, the address pointer, WRITE_RAM and the window's
      image rows (ImageRowsAt says which image byte each is). */
  lemma FrameMemoryBytes(image: seq<bv8>, x: int, y: int, imageWidth: int, imageHeight: int,
                         width: uint32, height: uint32, busy: nat -> int, at: nat)
    requires FrameMemoryReadable(Some(image), x, y, imageWidth, imageHeight, width, height)
    requires 0 <= x && 0 <= imageWidth && 0 <= y && 0 <= imageHeight
    ensures var w := FrameWindow(x, y, imageWidth, imageHeight, width, height).value;
      BusBytes(FrameMemoryRun(Some(image), x, y, imageWidth, imageHeight, width, height, busy, at).events)
        == AreaBytes(w.x, w.y, w.xEnd, w.yEnd) + PointerBytes(w.x, w.y) + [Cmd(WRITE_RAM)]
           + ImageRows(image, w, WindowRowCount(w))
  {
    var w := FrameWindow(x, y, imageWidth, imageHeight, width, height).value;
    assert FrameMemoryRun(Some(image), x, y, imageWidth, imageHeight, width, height, busy, at)
      == ImageRun(image, w, busy, at);
    ImageBytes(image, w, busy, at);
  }

  /** The window, the address pointer, WRITE_RAM and the rows, whatever the busy pin does. */
  lemma ImageBytes(image: seq<bv8>, w: Window, busy: nat -> int, at: nat)
    requires ImageCovers(image, w)
    ensures BusBytes(ImageRun(image, w, busy, at).events)
      == AreaBytes(w.x, w.y, w.xEnd, w.yEnd) + PointerBytes(w.x, w.y) + [Cmd(WRITE_RAM)]
         + ImageRows(image, w, WindowRowCount(w))
  {
    var wt := WaitRun(busy, at);
    WaitSilent(busy, at);
    SendWaitSend(AreaBytes(w.x, w.y, w.xEnd, w.yEnd), PointerBytes(w.x, w.y), wt.events,
                 [Cmd(WRITE_RAM)] + ImageRows(image, w, WindowRowCount(w)));
  }

  /** Besides the 14 transfers of the window, the address pointer and WRITE_RAM, an accepted
      call sends rows * cols data bytes, none when the window is empty. */
  lemma FrameMemoryCount(image: seq<bv8>, x: int, y: int, imageWidth: int, imageHeight: int,
                         width: uint32, height: uint32, busy: nat -> int, at: nat)
    requires FrameMemoryReadable(Some(image), x, y, imageWidth, imageHeight, width, height)
    requires 0 <= x && 0 <= imageWidth && 0 <= y && 0 <= imageHeight
    ensures var w := FrameWindow(x, y, imageWidth, imageHeight, width, height).value;
      |BusBytes(FrameMemoryRun(Some(image), x, y, imageWidth, imageHeight, width, height, busy, at).events)| - 14
        == if WindowRowCount(w) <= 0 || WindowByteCount(w) <= 0 then 0 else WindowRowCount(w) * WindowByteCount(w)
  {
    FrameMemoryBytes(image, x, y, imageWidth, imageHeight, width, height, busy, at);
  }

  /** Transfers of a command group, another one with a wait after it, and a third. */
  lemma SendWaitSend(a: seq<Transfer>, b: seq<Transfer>, wt: seq<Event>, c: seq<Transfer>)
    requires BusBytes(wt) == []
    ensures BusBytes(Sent(a) + (Sent(b) + wt) + Sent(c)) == a + b + c
  {
    assert Sent(a) + (Sent(b) + wt) + Sent(c) == Sent(a) + Sent(b) + wt + Sent(c);
    BusBytesOfSent(a);
    BusBytesSend(Sent(a), b);
    BusBytesSkip(Sent(a) + Sent(b), wt);
    BusBytesSend(Sent(a) + Sent(b) + wt, c);
  }

  /** The panel reads back from the window and address-pointer bytes the start column as
      x & 0xF8, a multiple of 8 below 256. */
  lemma FrameColumnDecodes(x: int, y: int, imageWidth: int, imageHeight: int, width: uint32, height: uint32)
    requires 0 <= x && 0 <= imageWidth && 0 <= y && 0 <= imageHeight
    ensures var w := FrameWindow(x, y, imageWidth, imageHeight, width, height).value;
      && AreaBytes(w.x, w.y, w.xEnd, w.yEnd)[1].b as int * 8 == MaskF8(x)
      && PointerBytes(w.x, w.y)[1].b as int * 8 == MaskF8(x)
  {
    ByteRoundTrip(MaskF8(x) / 8);
  }

  /** The start row is read back exactly from the window and the address pointer when it is
      below 2^16. */
  lemma FrameRowDecodes(x: int, y: int, imageWidth: int, imageHeight: int, width: uint32, height: uint32)
    requires 0 <= x && 0 <= imageWidth && 0 <= y && 0 <= imageHeight && y < 0x1_0000
    ensures var w := FrameWindow(x, y, imageWidth, imageHeight, width, height).value;
      var area, pointer := AreaBytes(w.x, w.y, w.xEnd, w.yEnd), PointerBytes(w.x, w.y);
      Le16(area[4].b, area[5].b) == y && Le16(pointer[3].b, pointer[4].b) == y
  {
    Le16RoundTrip(y);
  }

  /** An end row below 2^16 is read back exactly from the window bytes. */
  lemma FrameEndDecodes(x: int, y: int, imageWidth: int, imageHeight: int, width: uint32, height: uint32)
    requires 0 <= x && 0 <= imageWidth && 0 <= y && 0 <= imageHeight
    requires 0 <= FrameWindow(x, y, imageWidth, imageHeight, width, height).value.yEnd < 0x1_0000
    ensures var w := FrameWindow(x, y, imageWidth, imageHeight, width, height).value;
      Le16(AreaBytes(w.x, w.y, w.xEnd, w.yEnd)[6].b, AreaBytes(w.x, w.y, w.xEnd, w.yEnd)[7].b) == w.yEnd
  {
    var w := FrameWindow(x, y, imageWidth, imageHeight, width, height).value;
    Le16RoundTrip(w.yEnd);
  }

  /** The worked case of the header comment: x = 3 with image width 13 on a
      200 x 200 view is written from column 0 as one byte per row; x = 264 loses
      its high bits and starts at column 8. */
  lemma FrameWindowExample()
    ensures FrameWindow(3, 0, 13, 10, 200, 200) == Some(Window(0, 0, 7, 9, 1))
    ensures WindowByteCount(Window(0, 0, 7, 9, 1)) == 1 && WindowRowCount(Window(0, 0, 7, 9, 1)) == 10
    ensures FrameWindow(264, 0, 8, 1, 200, 200).value.x == 8
    ensures FrameWindow(192, 190, 64, 64, 200, 200) == Some(Window(192, 190, 199, 199, 8))
  {
    MaskExample();
  }

  // ----- Sleep (epd1in54v2.cpp:490-497) -----

  /** Deep sleep mode 1, a wait, then the reset pin low. */
  function SleepRun(busy: nat -> int, at: nat): Run {
    var w := WaitRun(busy, at);
    Run(Sent([Cmd(DEEP_SLEEP_MODE), Data(0x01)]) + w.events + [ResetPin(LOW)], w.used)
  }

  /** Sleep sends exactly 0x10, 0x01 on the bus and leaves the reset pin low as its
      last act. */
  lemma SleepShape(busy: nat -> int, at: nat)
    ensures BusBytes(SleepRun(busy, at).events) == [Cmd(DEEP_SLEEP_MODE), Data(0x01)]
    ensures var es := SleepRun(busy, at).events; es[|es| - 1] == ResetPin(LOW)
  {
    var w := WaitRun(busy, at);
    WaitBounded(busy, at);
    BusBytesOfSent([Cmd(DEEP_SLEEP_MODE), Data(0x01)]);
    BusBytesSkip(Sent([Cmd(DEEP_SLEEP_MODE), Data(0x01)]), w.events);
    BusBytesOfSideEvents([ResetPin(LOW)]);
    BusBytesSkip(Sent([Cmd(DEEP_SLEEP_MODE), Data(0x01)]) + w.events, [ResetPin(LOW)]);
  }
}
