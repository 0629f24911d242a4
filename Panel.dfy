/** Constants of the Waveshare 1.54" v2 e-paper panel (epd1in54v2.h) and the few
    C integer conversions the driver relies on. */
module Panel {

  /** `unsigned long` and `unsigned int` are both 32 bits wide on the ARM targets
      the driver is built for. */
  newtype uint32 = x: int | 0 <= x < 0x1_0000_0000

  const UINT32_RANGE: int := 0x1_0000_0000

  // Display resolution
  const EPD_WIDTH: int := 200
  const EPD_HEIGHT: int := 200

  // Pixel colours as the callers pass them
  const COLORED: int := 1
  const UNCOLORED: int := 0

  // Pin levels
  const LOW: int := 0
  const HIGH: int := 1

  // Panel commands the driver names (the init sequences and 0x26 use literals)
  const DRIVER_OUTPUT_CONTROL: bv8 := 0x01
  const DEEP_SLEEP_MODE: bv8 := 0x10
  const DATA_ENTRY_MODE_SETTING: bv8 := 0x11
  const SW_RESET: bv8 := 0x12
  const MASTER_ACTIVATION: bv8 := 0x20
  const DISPLAY_UPDATE_CONTROL_2: bv8 := 0x22
  const WRITE_RAM: bv8 := 0x24
  const BORDER_WAVEFORM_CONTROL: bv8 := 0x3C
  const SET_RAM_X_ADDRESS_START_END_POSITION: bv8 := 0x44
  const SET_RAM_Y_ADDRESS_START_END_POSITION: bv8 := 0x45
  const SET_RAM_X_ADDRESS_COUNTER: bv8 := 0x4E
  const SET_RAM_Y_ADDRESS_COUNTER: bv8 := 0x4F

  // Display orientation codes
  const ROTATE_0: int := 0
  const ROTATE_90: int := 1
  const ROTATE_180: int := 2
  const ROTATE_270: int := 3

  /** Bytes per native row, rounding a partial byte up, as every writer computes it. */
  const ROW_BYTES: int := if EPD_WIDTH % 8 == 0 then EPD_WIDTH / 8 else EPD_WIDTH / 8 + 1

  /** Size of a full frame buffer: ROW_BYTES * EPD_HEIGHT bytes (lemma
      GeometryIsByteAligned), written out so that no product of constants is left
      for the solver. */
  const BUFFER_SIZE: int := 5000

  lemma GeometryIsByteAligned()
    ensures EPD_WIDTH % 8 == 0 && ROW_BYTES == 25
    ensures BUFFER_SIZE == ROW_BYTES * EPD_HEIGHT
    ensures BUFFER_SIZE * 8 == EPD_WIDTH * EPD_HEIGHT
  {
  }

  /** Multiplying by a natural number keeps the order of its operands. */
  lemma MulMonotone(a: int, b: int, c: nat)
    requires a <= b
    ensures a * c <= b * c
  {
  }

  /** The value of a C `int` converted to a 32-bit unsigned type (reduction modulo 2^32). */
  function ToUnsigned(v: int): (u: int)
    ensures 0 <= u < UINT32_RANGE
    ensures (u - v) % UINT32_RANGE == 0
  {
    v % UINT32_RANGE
  }

  /** The value of a 32-bit unsigned quantity stored into a C `int` (two's complement). */
  function ToSigned(u: int): (v: int)
    requires 0 <= u < UINT32_RANGE
    ensures -0x8000_0000 <= v < 0x8000_0000
    ensures ToUnsigned(v) == u
  {
    if u < 0x8000_0000 then u else u - UINT32_RANGE
  }

  /** A C `int`. */
  predicate IsInt32(v: int) {
    -0x8000_0000 <= v < 0x8000_0000
  }

  /** A negative `int` compared with an `unsigned long` is converted to a value of at
      least 2^31, so it is never below a width of at most 2^31. */
  lemma NegativeIsLargeUnsigned(v: int, w: int)
    requires IsInt32(v) && v < 0 && w <= 0x8000_0000
    ensures ToUnsigned(v) >= w
  {
    assert v % UINT32_RANGE == v + UINT32_RANGE;
  }

  /** `v & 0xFF`: the low byte of an `int` in two's complement. */
  function LowByte(v: int): bv8 {
    (v % 256) as bv8
  }

  /** Reassembles a little-endian 16-bit value from its two bytes. */
  function Le16(lo: bv8, hi: bv8): (v: int)
    ensures 0 <= v < 0x1_0000
  {
    lo as int + 256 * hi as int
  }

  /** Sending `v & 0xFF` then `(v >> 8) & 0xFF` transmits every value below 2^16 exactly. */
  lemma Le16RoundTrip(v: int)
    requires 0 <= v < 0x1_0000
    ensures Le16(LowByte(v), LowByte(v / 256)) == v
  {
    var lo, hi := v % 256, v / 256;
    ByteRoundTrip(lo);
    ByteRoundTrip(hi);
    assert v == lo + 256 * hi;
  }

  lemma ByteRoundTrip(x: int)
    requires 0 <= x < 256
    ensures LowByte(x) as int == x
  {
    assert x % 256 == x;
  }

  /** `a / b` on C `int`s with b > 0: the quotient is truncated toward zero, so the
      remainder `a - q * b` has the sign of a and is smaller than b in magnitude. */
  function TruncDiv(a: int, b: int): (q: int)
    requires b > 0
    ensures a >= 0 ==> 0 <= a - q * b < b
    ensures a < 0 ==> -b < a - q * b <= 0
  {
    if a >= 0 then a / b else -((-a) / b)
  }

  /** `v & 0xF8` for a non-negative `int`: keeps bits 3 to 7, so the result is a
      multiple of 8 below 256 and the bits from 256 upwards are lost. */
  function MaskF8(v: int): (r: int)
    requires v >= 0
    ensures 0 <= r <= 0xF8 && r % 8 == 0
    ensures r <= v
    ensures v < 256 ==> v - r < 8
    ensures r == v % 256 - v % 8
  {
    (v % 256) / 8 * 8
  }

  /** x = 3 with width 13 is written from x = 0 with width 8 (both masked to multiples of 8). */
  lemma MaskExample()
    ensures MaskF8(3) == 0 && MaskF8(13) == 8 && MaskF8(256 + 13) == 8
  {
  }
}
