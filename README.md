# Touch controller drivers: FT6236 and NS2009

A Dafny model of the two touch-panel drivers of the touch-draw sketch
(`Code/touch_draw_v3`):

- **FT6236** (capacitive). The driver reads the X and Y coordinate registers
  of the first touch point one byte at a time. It packs each high/low pair into
  a 12-bit coordinate, `((H & 0x0F) << 8) | L`. When the top two bits of the
  X high byte are `01`, it reports "no touch" as -1. `ft6236_pos` then stops
  after that first register read and writes -1 into both slots of `pos`.
- **NS2009** (resistive). For every reading the driver sends one command byte
  and receives a two-byte answer. It packs the answer as
  `(b0 << 4) | (b1 >> 4)`. `ns2009_pos` reads pressure (Z1), then X, then Y.
  It scales X and Y to a 320 x 480 screen with `raw * pixels / 4096` and
  returns the pressure.

The model has three modules:

- `Bits` (`bits.dfy`) defines bytes and the C operators the drivers use, on
  non-negative integers. `<<` and `>>` are multiplication and floor division
  by a power of two. `&` and `|` are defined bit by bit. Two lemmas connect
  them to arithmetic: masking with `2^k - 1` is `% 2^k`, and or-ing a
  left-shifted value with a smaller one is addition.
- `Ft6236` (`ft6236.dfy`) models the bus as a `TouchBus` object. It holds the
  register file the controller answers from, where a register that is missing
  means no byte arrives. It also holds the log of register addresses read.
  The driver functions are methods over this object and the caller's `pos`
  array. Pure functions (`PointX`, `PointY`, `Position`, `PosReads`) specify
  them.
- `Ns2009` (`ns2009.dfy`) models the bus as an `Ns2009Bus` object. It holds
  the log of transmissions sent and the queue of answers the controller will
  give, one per request. `Recv` is the byte-copy loop into the caller's
  buffer. `Read`, `GetPress` and `Pos` are the command sequences.

The doc comment of `ns2009_pos` (NS2009.cpp:63-64) speaks of screen
coordinates "0-320" and "0-480". The code yields 0..319 and 0..479, and the
model follows the code (`Ns2009.Scale`, `Ns2009.PosOnScreen`).

C `int` is taken to be 32 bits wide, as on the ESP32 the sketch targets. The
products `x * 320` and `y * 480` of NS2009.cpp:78-79 then cannot overflow
(`Ns2009.ScaleProductsFitInt32`). With a 16-bit `int` they would.

## Model

| member | source | states |
|---|---|---|
| `Bits.Shl` | Code/touch_draw_v3/NS2009.cpp:47 | `a << n` loses no bit: shifting back right by n gives `a`, and the low n bits of the result are 0 |
| `Bits.Shr` | Code/touch_draw_v3/FT6236.cpp:64 | `a >> n` drops the low n bits, rounding down: `r * 2^n <= a < (r + 1) * 2^n` |
| `Bits.And` | Code/touch_draw_v3/FT6236.cpp:68 | `a & b` is at most either operand |
| `Bits.Or` | Code/touch_draw_v3/FT6236.cpp:68 | bitwise or of `a` and `b` is at least either operand and at most their sum |
| `Bits.AndLowMask` | Code/touch_draw_v3/FT6236.cpp:68 | `a & (2^k - 1) == a % 2^k` for every `a` and `k`, so `& 0x0F` keeps the low nibble |
| `Bits.OrShiftedLow` | Code/touch_draw_v3/NS2009.cpp:47 | for `b < 2^k`, or-ing `a << k` with `b` equals `(a << k) + b`: the operands share no set bit |
| `Ft6236.RegValue` | Code/touch_draw_v3/FT6236.cpp:24-33 | the value a register read yields is the byte that arrived for that register, and 0 when no byte is available |
| `Ft6236.NoTouch` | Code/touch_draw_v3/FT6236.cpp:105 | the test `XH >> 6 == 1` holds for a byte exactly when it lies in 0x40..0x7F (top two bits 01) |
| `Ft6236.Coord` | Code/touch_draw_v3/FT6236.cpp:68 | the register-pair decode equals `(hi mod 16) * 256 + lo` and lies in 0..4095 |
| `Ft6236.PointX` | Code/touch_draw_v3/FT6236.cpp:57-69 | the X value is -1 exactly when `XH >> 6 == 1`, and otherwise lies in 0..4095 |
| `Ft6236.PointY` | Code/touch_draw_v3/FT6236.cpp:78-87 | the Y value always lies in 0..4095; there is no sentinel on this path |
| `Ft6236.PosReads` | Code/touch_draw_v3/FT6236.cpp:104-113 | `ft6236_pos` reads XH first, and reads nothing else exactly when no touch is flagged |
| `Ft6236.Position` | Code/touch_draw_v3/FT6236.cpp:97-117 | slot 0 is what `getTouchPointX` returns; either both slots hold -1 or slot 1 is what `getTouchPointY` returns |
| `Ft6236.ReadTouchReg` | Code/touch_draw_v3/FT6236.cpp:22-34 | returns the byte the controller answers for `reg`, or 0 when none arrives, and logs one read of `reg` |
| `Ft6236.GetTouchPointX` | Code/touch_draw_v3/FT6236.cpp:57-69 | returns `PointX` of the registers; reads XH, then XL only when a touch is flagged |
| `Ft6236.GetTouchPointY` | Code/touch_draw_v3/FT6236.cpp:78-87 | returns `PointY` of the registers after reading YH, then YL |
| `Ft6236.Pos` | Code/touch_draw_v3/FT6236.cpp:97-117 | writes `Position` of the registers into `pos[0]` and `pos[1]`, changes no other slot, and reads exactly `PosReads` in order |
| `Ft6236.PointXMatchesPos` | Code/touch_draw_v3/FT6236.cpp:57-117 | on the same register file, `getTouchPointX` returns the value `ft6236_pos` stores in `pos[0]` |
| `Ft6236.CoordNotSentinel` | Code/touch_draw_v3/FT6236.cpp:115-116 | a decoded coordinate is never negative, so it never equals the -1 sentinel |
| `Ft6236.CoordRoundTrip` | Code/touch_draw_v3/FT6236.cpp:68 | for c in 0..4095, `c >> 8` and `c & 0xFF` are bytes and decode back to c |
| `Ft6236.CoordSameIff` | Code/touch_draw_v3/FT6236.cpp:86 | two register pairs decode alike exactly when the high bytes agree in bits 0-3 and the low bytes are equal; bits 4-7 never matter |
| `Ns2009.Arrival` | Code/touch_draw_v3/NS2009.cpp:30-31 | the bytes that arrive are the first `min(len, answer length)` bytes of the controller's next answer; nothing arrives when there is no answer |
| `Ns2009.Remaining` | Code/touch_draw_v3/NS2009.cpp:30 | each request uses up exactly the controller's next answer and leaves the later answers in order; with no answer queued nothing changes |
| `Ns2009.Pack12` | Code/touch_draw_v3/NS2009.cpp:47 | the or of `b0 << 4` and `b1 >> 4` equals `b0 * 16 + b1 / 16` and lies in 0..4095 |
| `Ns2009.Reading` | Code/touch_draw_v3/NS2009.cpp:43-48 | the reading carried by a two-byte answer lies in 0..4095 |
| `Ns2009.Scale` | Code/touch_draw_v3/NS2009.cpp:78-79 | `raw * pixels / 4096` is the floor of the exact quotient, and lies below `pixels` for a 12-bit raw value |
| `Ns2009.Recv` | Code/touch_draw_v3/NS2009.cpp:24-35 | logs the transmission, consumes one answer, copies the arriving bytes into `buf` from index 0 in arrival order, and leaves every other slot unchanged |
| `Ns2009.Read` | Code/touch_draw_v3/NS2009.cpp:43-48 | sends the one command byte and returns the reading of the two-byte answer |
| `Ns2009.GetPress` | Code/touch_draw_v3/NS2009.cpp:55-58 | sends Z1 (0xE0) and returns its reading |
| `Ns2009.Pos` | Code/touch_draw_v3/NS2009.cpp:69-84 | sends Z1, X, Y in that order, always writes both slots with the scaled X and Y readings, changes no other slot, and returns the Z1 reading |
| `Ns2009.PressMatchesGetPress` | Code/touch_draw_v3/NS2009.cpp:55-83 | on the same answers, `ns2009_pos` returns the pressure `ns2009_get_press` returns |
| `Ns2009.PosOnScreen` | Code/touch_draw_v3/NS2009.cpp:78-79 | for any answer bytes, the X slot lies in 0..319 and the Y slot in 0..479, never -1 |
| `Ns2009.ScaleProductsFitInt32` | Code/touch_draw_v3/NS2009.cpp:78-79 | `x * 320` and `y * 480` stay within a 32-bit signed `int` for 12-bit readings |
| `Ns2009.ScaleMonotone` | Code/touch_draw_v3/NS2009.cpp:78-79 | a larger raw reading never maps to a smaller pixel |
| `Ns2009.ScaleOnto` | Code/touch_draw_v3/NS2009.cpp:63-64 | every pixel of an axis at most 4096 wide is the image of a 12-bit reading, named explicitly |
| `Ns2009.PackRoundTrip` | Code/touch_draw_v3/NS2009.cpp:47 | for v in 0..4095, `v >> 4` and `(v & 0xF) << 4` are bytes and pack back to v |
| `Ns2009.PackSameIff` | Code/touch_draw_v3/NS2009.cpp:47 | two answers pack alike exactly when the first bytes are equal and the second bytes agree in bits 4-7; the low nibble is discarded |

## Left out

- The Arduino `Wire` calls (`beginTransmission`, `write`, `endTransmission`, `requestFrom`, `available`, `read`). They are foreign I/O implementing the I2C-bus protocol. Bus traffic is modelled as a register file or an answer queue, plus a log of what the driver sent or read.
- The I2C addresses 0x38 (FT6236.h:12) and 0x48 (NS2009.h:18). They only label the device and have no behaviour here.
- Commented-out code: the earlier `getTouchPointX` (FT6236.cpp:36-47) and the raw-output lines in `ns2009_pos` (NS2009.cpp:81-82).
- The prototype `unsigned ns2009_read(uint8_t cmd, int *val)` at NS2009.h:50. It does not match the definition in NS2009.cpp:43, which is the one modelled.
- Ns2009.Read: requires an answer of at least two bytes. With fewer, the C buffer is uninitialised and its value is unspecified.
- Ns2009.Recv: assumes, as `Wire.requestFrom` guarantees, that no more bytes arrive than were requested. Its caller must supply a buffer of at least that length.
- Ft6236.TouchBus: the register file is fixed for the duration of a call. A controller that updates its registers between two reads is not modelled.
- The physical meaning and accuracy of the pressure value, and any timing, display or drawing code.
