/**
 * FT6236 capacitive touch controller driver.
 *
 * The driver reads single registers over I2C. The bus and the controller
 * behind it are modelled by `TouchBus`: the register file as the controller
 * would answer (a register missing from the map is a read for which no byte
 * arrives) and the log of register addresses the driver has asked for.
 */
module Ft6236 {
  import opened Bits

  /** Register addresses of the first touch point. */
  const RegXH: int := 0x03
  const RegXL: int := 0x04
  const RegYH: int := 0x05
  const RegYL: int := 0x06

  /** Coordinate reported on both axes when the controller flags no touch. */
  const NoTouchSentinel: int := -1

  class TouchBus {
    /** What the controller answers for each register; absent: nothing arrives. */
    var regs: map<int, byte>
    /** Register addresses requested so far, oldest first. */
    var log: seq<int>

    constructor (regs: map<int, byte>)
      ensures this.regs == regs && log == []
    {
      this.regs := regs;
      log := [];
    }
  }

  /** The value one register read yields: the byte that arrives, else 0. */
  function RegValue(regs: map<int, byte>, reg: int): (v: byte)
    ensures reg in regs ==> v == regs[reg]
    ensures reg !in regs ==> v == 0
  {
    if reg in regs then regs[reg] else 0
  }

  /** `hi >> 6 == 1`: the two top bits of the X high byte are 01. */
  function NoTouch(xh: byte): (flagged: bool)
    ensures flagged <==> 0x40 <= xh <= 0x7F
  {
    Pow2Small();
    Shr(xh, 6) == 1
  }

  /** `((hi & 0x0F) << 8) | lo`: the 12-bit coordinate held in a register pair. */
  function Coord(hi: byte, lo: byte): (c: nat)
    ensures c == (hi % 16) * 256 + lo
    ensures c < 4096
  {
    Pow2Small();
    AndLowMask(hi, 4);
    OrShiftedLow(And(hi, 0x0F), lo, 8);
    Or(Shl(And(hi, 0x0F), 8), lo)
  }

  /** What `getTouchPointX` returns for a register file. */
  function PointX(regs: map<int, byte>): (x: int)
    ensures x == NoTouchSentinel <==> NoTouch(RegValue(regs, RegXH))
    ensures x != NoTouchSentinel ==> 0 <= x < 4096
  {
    var xh := RegValue(regs, RegXH);
    if NoTouch(xh) then NoTouchSentinel else Coord(xh, RegValue(regs, RegXL))
  }

  /** What `getTouchPointY` returns for a register file. */
  function PointY(regs: map<int, byte>): (y: int)
    ensures 0 <= y < 4096
  {
    Coord(RegValue(regs, RegYH), RegValue(regs, RegYL))
  }

  /** The registers `ft6236_pos` reads, in order. */
  function PosReads(regs: map<int, byte>): (rs: seq<int>)
    ensures |rs| >= 1 && rs[0] == RegXH
    ensures NoTouch(RegValue(regs, RegXH)) <==> |rs| == 1
  {
    if NoTouch(RegValue(regs, RegXH)) then [RegXH] else [RegXH, RegXL, RegYH, RegYL]
  }

  /** The pair `ft6236_pos` stores into `pos[0]` and `pos[1]`. */
  function Position(regs: map<int, byte>): (p: (int, int))
    ensures p.0 == PointX(regs)
    ensures p.0 == NoTouchSentinel <==> p.1 == NoTouchSentinel
    ensures p.0 != NoTouchSentinel ==> p.1 == PointY(regs)
  {
    if NoTouch(RegValue(regs, RegXH)) then (NoTouchSentinel, NoTouchSentinel)
    else (Coord(RegValue(regs, RegXH), RegValue(regs, RegXL)),
          Coord(RegValue(regs, RegYH), RegValue(regs, RegYL)))
  }

  /** `readTouchReg`: one register read; 0 when no byte is available. */
  method ReadTouchReg(bus: TouchBus, reg: int) returns (data: byte)
    modifies bus`log
    ensures data == RegValue(bus.regs, reg)
    ensures bus.log == old(bus.log) + [reg]
  {
    data := 0;
    bus.log := bus.log + [reg];
    if reg in bus.regs {
      data := bus.regs[reg];
    }
  }

  /** `getTouchPointX`: the X coordinate, or -1 when no touch is flagged. */
  method GetTouchPointX(bus: TouchBus) returns (x: int)
    modifies bus`log
    ensures x == PointX(bus.regs)
    ensures bus.log == old(bus.log) + if NoTouch(RegValue(bus.regs, RegXH)) then [RegXH] else [RegXH, RegXL]
  {
    var xh := ReadTouchReg(bus, RegXH);
    if Shr(xh, 6) == 1 {
      return NoTouchSentinel;
    }
    var xl := ReadTouchReg(bus, RegXL);
    x := Or(Shl(And(xh, 0x0F), 8), xl);
    assert x == Coord(xh, xl);
  }

  /** `getTouchPointY`: the Y coordinate; this path has no sentinel. */
  method GetTouchPointY(bus: TouchBus) returns (y: int)
    modifies bus`log
    ensures y == PointY(bus.regs)
    ensures bus.log == old(bus.log) + [RegYH, RegYL]
  {
    var yh := ReadTouchReg(bus, RegYH);
    var yl := ReadTouchReg(bus, RegYL);
    y := Or(Shl(And(yh, 0x0F), 8), yl);
    assert y == Coord(yh, yl);
  }

  /**
   * `ft6236_pos`: both coordinates into `pos[0]` and `pos[1]`, or -1 in both
   * when no touch is flagged, in which case no register after XH is read.
   */
  method Pos(bus: TouchBus, pos: array<int>)
    requires pos.Length >= 2
    modifies bus`log, pos
    ensures pos[0] == Position(bus.regs).0 && pos[1] == Position(bus.regs).1
    ensures pos[2..] == old(pos[2..])
    ensures bus.log == old(bus.log) + PosReads(bus.regs)
  {
    var xh := ReadTouchReg(bus, RegXH);
    if Shr(xh, 6) == 1 {
      pos[0] := NoTouchSentinel;
      pos[1] := NoTouchSentinel;
      return;
    }
    var xl := ReadTouchReg(bus, RegXL);
    var yh := ReadTouchReg(bus, RegYH);
    var yl := ReadTouchReg(bus, RegYL);
    pos[0] := Or(Shl(And(xh, 0x0F), 8), xl);
    pos[1] := Or(Shl(And(yh, 0x0F), 8), yl);
    assert pos[0] == Coord(xh, xl) && pos[1] == Coord(yh, yl);
  }

  /**
   * A caller reading X with `getTouchPointX` and a caller reading both axes
   * with `ft6236_pos` get the same X from the same register file.
   */
  method PointXMatchesPos(regs: map<int, byte>) returns (x: int, p0: int)
    ensures x == p0
  {
    var bus1 := new TouchBus(regs);
    x := GetTouchPointX(bus1);
    var bus2 := new TouchBus(regs);
    var pos := new int[2];
    Pos(bus2, pos);
    p0 := pos[0];
  }

  /** A decoded coordinate is never the sentinel. */
  lemma CoordNotSentinel(hi: byte, lo: byte)
    ensures 0 <= Coord(hi, lo) && Coord(hi, lo) != NoTouchSentinel
  {
  }

  /** Splitting a 12-bit coordinate into `c >> 8` and `c & 0xFF` and decoding gives it back. */
  lemma CoordRoundTrip(c: nat)
    requires c < 4096
    ensures Shr(c, 8) < 256 && And(c, 0xFF) < 256
    ensures Coord(Shr(c, 8), And(c, 0xFF)) == c
  {
    Pow2Small();
    AndLowMask(c, 8);
    var hi, lo := c / 256, c % 256;
    assert Shr(c, 8) == hi && And(c, 0xFF) == lo;
    assert c == 256 * hi + lo;
    assert hi < 16 && hi % 16 == hi;
  }

  /**
   * Two register pairs decode to the same coordinate exactly when their high
   * bytes agree in bits 0-3 and their low bytes agree: bits 4-7 of the high
   * byte never matter.
   */
  lemma CoordSameIff(h1: byte, l1: byte, h2: byte, l2: byte)
    ensures Coord(h1, l1) == Coord(h2, l2) <==> h1 % 16 == h2 % 16 && l1 == l2
  {
    if Coord(h1, l1) == Coord(h2, l2) {
      DivModUnique(Coord(h1, l1), 256, h1 % 16, l1);
      DivModUnique(Coord(h2, l2), 256, h2 % 16, l2);
    }
  }
}
