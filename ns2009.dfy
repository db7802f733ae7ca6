/**
 * NS2009 resistive touch controller driver.
 *
 * Every reading is one I2C exchange: the driver sends a command byte and the
 * controller answers with two bytes holding a 12-bit ADC value. `Ns2009Bus`
 * models the bus and the controller behind it: the log of transmissions the
 * driver has sent and the queue of answers the controller will give, one per
 * request.
 */
module Ns2009 {
  import opened Bits

  /** Command bytes for the low-power reads. */
  const CmdReadX: byte := 0xC0
  const CmdReadY: byte := 0xD0
  const CmdReadZ1: byte := 0xE0

  /** Screen size in pixels. */
  const ScreenXPixel: nat := 320
  const ScreenYPixel: nat := 480

  /** Number of distinct 12-bit ADC values, 2^12. */
  const AdcRange: nat := 4096

  class Ns2009Bus {
    /** Byte strings written to the controller, oldest first. */
    var sent: seq<seq<byte>>
    /** Answers the controller will give to the coming requests, next first. */
    var replies: seq<seq<byte>>

    constructor (replies: seq<seq<byte>>)
      ensures this.replies == replies && sent == []
    {
      this.replies := replies;
      sent := [];
    }
  }

  /**
   * The bytes that arrive for a request of `len` bytes: the next answer, of
   * which the bus delivers at most the requested number; nothing when the
   * controller does not answer.
   */
  function Arrival(replies: seq<seq<byte>>, len: nat): (rx: seq<byte>)
    ensures |rx| <= len
    ensures replies == [] ==> rx == []
    ensures replies != [] ==> |rx| <= |replies[0]| && rx == replies[0][..|rx|]
    ensures replies != [] ==> |rx| == if |replies[0]| < len then |replies[0]| else len
  {
    if replies == [] then [] else if |replies[0]| <= len then replies[0] else replies[0][..len]
  }

  /** The answers left once one request has been served. */
  function Remaining(replies: seq<seq<byte>>): (rest: seq<seq<byte>>)
    ensures replies != [] ==> [replies[0]] + rest == replies
    ensures replies == [] ==> rest == []
  {
    if replies == [] then [] else replies[1..]
  }

  /** `(b0 << 4) | (b1 >> 4)`: the 12-bit value carried by an answer. */
  function Pack12(b0: byte, b1: byte): (v: nat)
    ensures v == b0 * 16 + b1 / 16
    ensures v < AdcRange
  {
    Pow2Small();
    OrShiftedLow(b0, Shr(b1, 4), 4);
    Or(Shl(b0, 4), Shr(b1, 4))
  }

  /** True when the next `n` answers each hold at least the two bytes of a reading. */
  predicate Answers(replies: seq<seq<byte>>, n: nat)
  {
    |replies| >= n && forall i :: 0 <= i < n ==> |replies[i]| >= 2
  }

  /** The reading an answer of two or more bytes carries. */
  function Reading(answer: seq<byte>): (v: nat)
    requires |answer| >= 2
    ensures v < AdcRange
  {
    Pack12(answer[0], answer[1])
  }

  /** `raw * pixels / 4096`: a 12-bit reading scaled to a screen axis. */
  function Scale(raw: nat, pixels: nat): (p: nat)
    ensures p * AdcRange <= raw * pixels < (p + 1) * AdcRange
    ensures raw < AdcRange && pixels > 0 ==> p < pixels
  {
    MulLessWhen(raw, AdcRange, pixels);
    raw * pixels / AdcRange
  }

  lemma MulLessWhen(a: nat, b: nat, c: nat)
    ensures a < b && c > 0 ==> a * c < b * c
  {
    if a < b && c > 0 {
      MulLess(a, b, c);
    }
  }

  lemma MulLess(a: nat, b: nat, c: nat)
    requires a < b && c > 0
    ensures a * c < b * c
  {
    assert b * c - a * c == (b - a) * c;
    MulAtLeast(c, b - a);
  }

  lemma MulAtMost(a: nat, b: nat, c: nat)
    requires a <= b
    ensures a * c <= b * c
  {
    assert b * c - a * c == (b - a) * c;
  }

  lemma LessOfMulLess(a: nat, b: nat, c: nat)
    requires a * c < b * c
    ensures a < b
  {
    if b <= a {
      MulAtMost(b, a, c);
    }
  }

  /** `ns2009_recv`: sends `send`, then copies the bytes that arrive into `buf` from index 0. */
  method Recv(bus: Ns2009Bus, send: seq<byte>, buf: array<byte>, len: nat)
    requires len <= buf.Length
    modifies bus, buf
    ensures bus.sent == old(bus.sent) + [send]
    ensures bus.replies == Remaining(old(bus.replies))
    ensures var rx := Arrival(old(bus.replies), len);
      buf[..|rx|] == rx && buf[|rx|..] == old(buf[|rx|..])
  {
    bus.sent := bus.sent + [send];
    var pending := Arrival(bus.replies, len);
    bus.replies := Remaining(bus.replies);
    ghost var arrived := pending;
    var p := 0;
    while pending != []
      invariant 0 <= p <= |arrived| && pending == arrived[p..]
      invariant buf[..p] == arrived[..p]
      invariant buf[p..] == old(buf[p..])
      decreases |pending|
      modifies buf
    {
      buf[p] := pending[0];
      pending := pending[1..];
      p := p + 1;
    }
  }

  /** `ns2009_read`: one command, one two-byte answer, one 12-bit value. */
  method Read(bus: Ns2009Bus, cmd: byte) returns (v: nat)
    requires Answers(bus.replies, 1)
    modifies bus
    ensures bus.sent == old(bus.sent) + [[cmd]]
    ensures bus.replies == old(bus.replies)[1..]
    ensures v == Reading(old(bus.replies)[0])
  {
    var buf := new byte[2];
    Recv(bus, [cmd], buf, 2);
    assert buf[..2] == old(bus.replies)[0][..2];
    v := Or(Shl(buf[0], 4), Shr(buf[1], 4));
    assert v == Pack12(buf[0], buf[1]);
  }

  /** `ns2009_get_press`: the Z1 (pressure) reading. */
  method GetPress(bus: Ns2009Bus) returns (press: int)
    requires Answers(bus.replies, 1)
    modifies bus
    ensures bus.sent == old(bus.sent) + [[CmdReadZ1]]
    ensures bus.replies == old(bus.replies)[1..]
    ensures press == Reading(old(bus.replies)[0])
  {
    press := Read(bus, CmdReadZ1);
  }

  /**
   * `ns2009_pos`: reads Z1, X and Y in that order, stores X and Y scaled to
   * the screen in `pos[0]` and `pos[1]` and returns the Z1 reading.
   */
  method Pos(bus: Ns2009Bus, pos: array<int>) returns (press: int)
    requires Answers(bus.replies, 3)
    requires pos.Length >= 2
    modifies bus, pos
    ensures bus.sent == old(bus.sent) + [[CmdReadZ1], [CmdReadX], [CmdReadY]]
    ensures bus.replies == old(bus.replies)[3..]
    ensures press == Reading(old(bus.replies)[0])
    ensures pos[0] == Scale(Reading(old(bus.replies)[1]), ScreenXPixel)
    ensures pos[1] == Scale(Reading(old(bus.replies)[2]), ScreenYPixel)
    ensures pos[2..] == old(pos[2..])
  {
    press := Read(bus, CmdReadZ1);
    var x := Read(bus, CmdReadX);
    var y := Read(bus, CmdReadY);
    pos[0] := x * ScreenXPixel / AdcRange;
    pos[1] := y * ScreenYPixel / AdcRange;
  }

  /**
   * The pressure `ns2009_pos` returns is the one `ns2009_get_press` returns
   * for the same answer.
   */
  method PressMatchesGetPress(replies: seq<seq<byte>>) returns (fromPos: int, fromGetPress: int)
    requires Answers(replies, 3)
    ensures fromPos == fromGetPress
  {
    var bus1 := new Ns2009Bus(replies);
    var pos := new int[2];
    fromPos := Pos(bus1, pos);
    var bus2 := new Ns2009Bus(replies);
    fromGetPress := GetPress(bus2);
  }

  /**
   * Both slots `ns2009_pos` writes land on the screen, 0..319 and 0..479,
   * whatever the answers; neither can be a -1 no-touch marker.
   */
  lemma PosOnScreen(x0: byte, x1: byte, y0: byte, y1: byte)
    ensures 0 <= Scale(Pack12(x0, x1), ScreenXPixel) < ScreenXPixel
    ensures 0 <= Scale(Pack12(y0, y1), ScreenYPixel) < ScreenYPixel
  {
  }

  /** The products `ns2009_pos` forms fit in a 32-bit C `int`. */
  lemma ScaleProductsFitInt32(raw: nat)
    requires raw < AdcRange
    ensures raw * ScreenXPixel <= Int32Max && raw * ScreenYPixel <= Int32Max
  {
  }

  /** A larger reading never lands on a smaller pixel. */
  lemma ScaleMonotone(a: nat, b: nat, pixels: nat)
    requires a <= b
    ensures Scale(a, pixels) <= Scale(b, pixels)
  {
    MulAtMost(a, b, pixels);
    assert Scale(a, pixels) * AdcRange < (Scale(b, pixels) + 1) * AdcRange;
  }

  /** Every pixel of an axis no wider than 4096 is reached by some reading. */
  lemma ScaleOnto(p: nat, pixels: nat)
    requires 0 < pixels <= AdcRange && p < pixels
    ensures var raw := (p * AdcRange + pixels - 1) / pixels;
      raw < AdcRange && Scale(raw, pixels) == p
  {
    var raw := (p * AdcRange + pixels - 1) / pixels;
    var r := (p * AdcRange + pixels - 1) % pixels;
    assert raw * pixels + r == p * AdcRange + pixels - 1;
    assert p * AdcRange <= raw * pixels < (p + 1) * AdcRange;
    assert raw * pixels < AdcRange * pixels;
    LessOfMulLess(raw, AdcRange, pixels);
  }

  /** Splitting a 12-bit value into `v >> 4` and `(v & 0xF) << 4` and packing gives it back. */
  lemma PackRoundTrip(v: nat)
    requires v < AdcRange
    ensures Shr(v, 4) < 256 && Shl(And(v, 0x0F), 4) < 256
    ensures Pack12(Shr(v, 4), Shl(And(v, 0x0F), 4)) == v
  {
    Pow2Small();
    AndLowMask(v, 4);
    var b0, b1 := v / 16, (v % 16) * 16;
    assert Shr(v, 4) == b0 && Shl(And(v, 0x0F), 4) == b1;
    assert b1 / 16 == v % 16;
  }

  /**
   * Two answers pack to the same value exactly when their first bytes agree
   * and their second bytes agree in bits 4-7: the low nibble of the second
   * byte is discarded.
   */
  lemma PackSameIff(a0: byte, a1: byte, c0: byte, c1: byte)
    ensures Pack12(a0, a1) == Pack12(c0, c1) <==> a0 == c0 && a1 / 16 == c1 / 16
  {
    if Pack12(a0, a1) == Pack12(c0, c1) {
      DivModUnique(Pack12(a0, a1), 16, a0, a1 / 16);
      DivModUnique(Pack12(c0, c1), 16, c0, c1 / 16);
    }
  }
}
