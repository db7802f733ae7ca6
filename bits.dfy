/**
 * Bytes and the C bit operators the two touch drivers use.
 *
 * Every operand the drivers shift, mask or combine is a non-negative `int`
 * (a promoted `uint8_t`, or a value built from such bytes), so the C operators
 * are modelled on `nat`: `<<` and `>>` as multiplication and floor division by
 * a power of two, `&` and `|` bit by bit from the least significant bit up.
 */
module Bits {

  /** An unsigned 8-bit value as it arrives from the bus. */
  type byte = x: int | 0 <= x < 256

  /** Largest value of a 32-bit C `int`. */
  const Int32Max: int := 0x7FFF_FFFF

  function Pow2(n: nat): (r: nat)
    ensures r >= 1
  {
    if n == 0 then 1 else 2 * Pow2(n - 1)
  }

  /** `a << n` on a non-negative operand: no bit is lost and the low n bits are clear. */
  function Shl(a: nat, n: nat): (r: nat)
    ensures r / Pow2(n) == a && r % Pow2(n) == 0
  {
    MulDivExact(a, Pow2(n));
    a * Pow2(n)
  }

  /** `a >> n` on a non-negative operand: the low n bits are dropped, rounding down. */
  function Shr(a: nat, n: nat): (r: nat)
    ensures r * Pow2(n) <= a < (r + 1) * Pow2(n)
  {
    DivBracket(a, Pow2(n));
    a / Pow2(n)
  }

  lemma MulDivExact(a: nat, d: nat)
    requires d >= 1
    ensures (a * d) / d == a && (a * d) % d == 0
  {
    DivModUnique(a * d, d, a, 0);
  }

  lemma DivBracket(a: nat, d: nat)
    requires d >= 1
    ensures a / d >= 0
    ensures (a / d) * d <= a < (a / d + 1) * d
  {
    var q, r := a / d, a % d;
    assert a == d * q + r && 0 <= r < d;
    assert (q + 1) * d == q * d + d;
  }

  /** `a & b`: a result bit is set when the bit is set in both operands. */
  function And(a: nat, b: nat): (r: nat)
    ensures r <= a && r <= b
  {
    if a == 0 || b == 0 then 0
    else 2 * And(a / 2, b / 2) + (if a % 2 == 1 && b % 2 == 1 then 1 else 0)
  }

  /** `a | b`: a result bit is set when the bit is set in either operand. */
  function Or(a: nat, b: nat): (r: nat)
    ensures a <= r && b <= r && r <= a + b
  {
    if a == 0 then b
    else if b == 0 then a
    else 2 * Or(a / 2, b / 2) + (if a % 2 == 1 || b % 2 == 1 then 1 else 0)
  }

  lemma Pow2Small()
    ensures Pow2(4) == 16 && Pow2(6) == 64 && Pow2(8) == 256
  {
    assert Pow2(2) == 4;
    assert Pow2(4) == 16;
    assert Pow2(6) == 64;
  }

  lemma MulAtLeast(d: int, k: int)
    requires d > 0 && k >= 1
    ensures d * k >= d
  {
    if k > 1 {
      MulAtLeast(d, k - 1);
      assert d * k == d * (k - 1) + d;
    }
  }

  /** Dividing by d determines quotient and remainder uniquely. */
  lemma DivModUnique(a: int, d: int, q: int, r: int)
    requires d > 0 && 0 <= r < d && a == d * q + r
    ensures a / d == q && a % d == r
  {
    var q', r' := a / d, a % d;
    assert a == d * q' + r' && 0 <= r' < d;
    if q' < q {
      assert d * (q - q') == r' - r by {
        assert d * (q - q') == d * q - d * q';
      }
      MulAtLeast(d, q - q');
    } else if q' > q {
      assert d * (q' - q) == r - r' by {
        assert d * (q' - q) == d * q' - d * q;
      }
      MulAtLeast(d, q' - q);
    }
  }

  /** Taking the low bit off and putting it back keeps the remainder modulo 2p. */
  lemma ModDouble(a: nat, p: nat)
    requires p >= 1
    ensures 2 * ((a / 2) % p) + a % 2 == a % (2 * p)
  {
    var q, t := a / 2, (a / 2) % p;
    var s := q / p;
    assert q == p * s + t;
    assert a == 2 * q + a % 2;
    assert a == (2 * p) * s + (2 * t + a % 2);
    DivModUnique(a, 2 * p, s, 2 * t + a % 2);
  }

  /** One step of `&` against an all-ones mask `2p - 1`: the low bit of `a` passes through. */
  lemma AndOnesStep(a: nat, p: nat)
    requires a > 0 && p >= 1
    ensures And(a, 2 * p - 1) == 2 * And(a / 2, p - 1) + a % 2
  {
    var m := 2 * p - 1;
    DivModUnique(m, 2, p - 1, 1);
  }

  /** Masking with 2^k - 1 keeps the low k bits: `a & (2^k - 1) == a % 2^k`. */
  lemma {:induction false} AndLowMask(a: nat, k: nat)
    ensures And(a, Pow2(k) - 1) == a % Pow2(k)
  {
    if k == 0 {
      DivModUnique(a, 1, a, 0);
    } else if a == 0 {
      DivModUnique(0, Pow2(k), 0, 0);
    } else {
      var p := Pow2(k - 1);
      assert Pow2(k) == 2 * p;
      AndLowMask(a / 2, k - 1);
      AndOnesStep(a, p);
      ModDouble(a, p);
    }
  }

  /**
   * Or-ing a value shifted left by k with a value below 2^k adds them: the
   * two operands have no set bit in common.
   */
  lemma {:induction false} OrShiftedLow(a: nat, b: nat, k: nat)
    requires b < Pow2(k)
    ensures Or(Shl(a, k), b) == Shl(a, k) + b
  {
    var h := Shl(a, k);
    if k > 0 && h != 0 && b != 0 {
      var p := Pow2(k - 1);
      assert h == 2 * (a * p);
      assert h % 2 == 0 && h / 2 == Shl(a, k - 1);
      assert b / 2 < p;
      OrShiftedLow(a, b / 2, k - 1);
      assert Or(h, b) == 2 * (Shl(a, k - 1) + b / 2) + b % 2;
    }
  }
}
