/**
  Fixed-width unsigned integers and the bitwise operators C++ applies to them,
  defined on naturals bit by bit, with the arithmetic facts the model needs:
  masking with 2^k - 1 keeps the value modulo 2^k, masking with a shifted mask
  selects a shifted field, and OR of values with disjoint bit ranges is their sum.
*/
module Bits {

  type u8 = x: int | 0 <= x < 0x100
  type u32 = x: int | 0 <= x < 0x1_0000_0000
  type u64 = x: int | 0 <= x < 0x1_0000_0000_0000_0000

  const TwoTo64: nat := 0x1_0000_0000_0000_0000

  /** Addition of two u64 values, wrapping at 2^64. */
  function Add64(a: u64, b: u64): u64
  {
    (a + b) % TwoTo64
  }

  /** A u64 sum wraps at most once: it is the true sum, or the true sum less 2^64. */
  lemma Add64WrapsOnce(a: u64, b: u64)
    ensures a + b < TwoTo64 ==> Add64(a, b) == a + b
    ensures a + b >= TwoTo64 ==> Add64(a, b) == a + b - TwoTo64
  {
  }

  function Pow2(k: nat): (r: nat)
    ensures r >= 1
  {
    if k == 0 then 1 else 2 * Pow2(k - 1)
  }

  // The powers of two the model uses, as literals.

  lemma Pow2Is8()
    ensures Pow2(3) == 8
  {
  }

  lemma Pow2Is128()
    ensures Pow2(7) == 128
  {
  }

  lemma Pow2Is2To16()
    ensures Pow2(16) == 0x1_0000
  {
    assert Pow2(8) == 0x100;
    Pow2Add(8, 8);
  }

  lemma Pow2Is2To32()
    ensures Pow2(32) == 0x1_0000_0000
  {
    Pow2Is2To16();
    Pow2Add(16, 16);
  }

  lemma Pow2Is2To35()
    ensures Pow2(35) == 0x8_0000_0000
  {
    Pow2Is2To32();
    Pow2Is8();
    Pow2Add(32, 3);
  }

  lemma {:induction false} Pow2Add(a: nat, b: nat)
    ensures Pow2(a + b) == Pow2(a) * Pow2(b)
  {
    if b > 0 {
      Pow2Add(a, b - 1);
    }
  }

  /** Bitwise AND (`&`): never more than either operand. */
  function And(a: nat, b: nat): (r: nat)
    decreases a
    ensures r <= a && r <= b
  {
    if a == 0 || b == 0 then 0
    else 2 * And(a / 2, b / 2) + (if a % 2 == 1 && b % 2 == 1 then 1 else 0)
  }

  /** Bitwise OR (`|`): at least either operand, at most their sum. */
  function Or(a: nat, b: nat): (r: nat)
    decreases a + b
    ensures a <= r && b <= r && r <= a + b
  {
    if a == 0 then b
    else if b == 0 then a
    else 2 * Or(a / 2, b / 2) + (if a % 2 == 1 || b % 2 == 1 then 1 else 0)
  }

  /** Logical right shift (`>>`), one bit at a time. */
  function Shr(a: nat, k: nat): nat
  {
    if k == 0 then a else Shr(a / 2, k - 1)
  }

  // ---------------------------------------------------------------------------
  // Division by powers of two
  // ---------------------------------------------------------------------------

  lemma DivModUnique(x: int, d: int, q: int, r: int)
    requires d > 0 && 0 <= r < d && x == d * q + r
    ensures x / d == q && x % d == r
  {
    var t := q - x / d;
    assert d * t == x % d - r;
    if t >= 1 {
      MulMono(d, 1, t);
      assert false;
    } else if t <= -1 {
      MulMono(d, t, -1);
      assert false;
    }
  }

  lemma MulMono(d: int, a: int, b: int)
    requires d > 0 && a <= b
    ensures d * a <= d * b
  {
  }

  /** Dividing by 2^k is halving, then dividing by 2^(k-1); likewise for the remainder. */
  lemma DivModPow2Step(a: nat, k: nat)
    requires k > 0
    ensures a / Pow2(k) == (a / 2) / Pow2(k - 1)
    ensures a % Pow2(k) == 2 * ((a / 2) % Pow2(k - 1)) + a % 2
  {
    var p := Pow2(k - 1);
    var q, r := (a / 2) / p, (a / 2) % p;
    assert a / 2 == p * q + r;
    assert a == (2 * p) * q + (2 * r + a % 2);
    DivModUnique(a, 2 * p, q, 2 * r + a % 2);
  }

  // ---------------------------------------------------------------------------
  // What the operators mean on fields
  // ---------------------------------------------------------------------------

  /** Masking with 2^k - 1 keeps the low k bits: `a & (2^k - 1) == a % 2^k`. */
  lemma {:induction false} AndLowBits(a: nat, k: nat)
    ensures And(a, Pow2(k) - 1) == a % Pow2(k)
  {
    if k == 0 {
      DivModUnique(a, 1, a, 0);
    } else if a == 0 {
      DivModUnique(0, Pow2(k), 0, 0);
    } else {
      var p := Pow2(k - 1);
      var m := Pow2(k) - 1;
      assert m > 0 && m / 2 == p - 1 && m % 2 == 1 by {
        DivModUnique(m, 2, p - 1, 1);
      }
      AndStep(a, m);
      AndLowBits(a / 2, k - 1);
      DivModPow2Step(a, k);
    }
  }

  /** One step of the definition of `&`: the low bit, and the rest shifted. */
  lemma AndStep(a: nat, b: nat)
    requires a > 0 && b > 0
    ensures And(a, b) == 2 * And(a / 2, b / 2) + (if a % 2 == 1 && b % 2 == 1 then 1 else 0)
  {
  }

  /** Shifting right by k divides by 2^k. */
  lemma {:induction false} ShrIsDiv(a: nat, k: nat)
    ensures Shr(a, k) == a / Pow2(k)
  {
    if k > 0 {
      ShrIsDiv(a / 2, k - 1);
      DivModPow2Step(a, k);
    }
  }

  /** Masking with a mask shifted left by k selects the same field of `a >> k`,
      shifted back: `a & (m << k) == ((a >> k) & m) << k`. */
  lemma {:induction false} AndShifted(a: nat, m: nat, k: nat)
    ensures And(a, m * Pow2(k)) == And(Shr(a, k), m) * Pow2(k)
  {
    if k == 0 {
    } else if a == 0 {
      ShrZero(k);
    } else if m == 0 {
    } else {
      var y := m * Pow2(k - 1);
      var x := And(Shr(a, k), m);
      assert Shr(a, k) == Shr(a / 2, k - 1);
      Pow2Step(m, k);
      AndDouble(a, y);
      AndShifted(a / 2, m, k - 1);
      Pow2Step(x, k);
    }
  }

  lemma {:induction false} ShrZero(k: nat)
    ensures Shr(0, k) == 0
  {
    if k > 0 {
      ShrZero(k - 1);
    }
  }

  lemma Pow2Step(x: nat, k: nat)
    requires k > 0
    ensures x * Pow2(k) == 2 * (x * Pow2(k - 1))
    ensures x > 0 ==> x * Pow2(k - 1) > 0
  {
  }

  lemma AndDouble(a: nat, y: nat)
    requires a > 0 && y > 0
    ensures And(a, 2 * y) == 2 * And(a / 2, y)
  {
    assert (2 * y) / 2 == y && (2 * y) % 2 == 0;
  }

  lemma OrDouble(x: nat, y: nat)
    requires x > 0 && y > 0
    ensures Or(2 * x, 2 * y) == 2 * Or(x, y)
  {
    assert (2 * x) / 2 == x && (2 * x) % 2 == 0;
    assert (2 * y) / 2 == y && (2 * y) % 2 == 0;
  }

  /** OR of a value below 2^k with a multiple of 2^k is their sum:
      `a | (b << k) == a + b * 2^k` when `a < 2^k`. */
  lemma {:induction false} OrDisjoint(a: nat, b: nat, k: nat)
    requires a < Pow2(k)
    ensures Or(a, b * Pow2(k)) == a + b * Pow2(k)
  {
    if k > 0 && a != 0 && b != 0 {
      Pow2Step(b, k);
      OrDisjoint(a / 2, b, k - 1);
    }
  }

  /** OR of two values shifted by the same amount: `(a << k) | (b << k) == (a | b) << k`. */
  lemma {:induction false} OrShifted(a: nat, b: nat, k: nat)
    ensures Or(a * Pow2(k), b * Pow2(k)) == Or(a, b) * Pow2(k)
  {
    if k > 0 && a != 0 && b != 0 {
      Pow2Step(a, k);
      Pow2Step(b, k);
      OrDouble(a * Pow2(k - 1), b * Pow2(k - 1));
      OrShifted(a, b, k - 1);
      Pow2Step(Or(a, b), k);
    }
  }
}
