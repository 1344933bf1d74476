/** Bitwise `|` and `&` on non-negative integers, defined bit by bit, and
    the two facts the colour code relies on: an OR of fields that do not
    overlap is their sum, and an AND with a mask of low bits is a
    remainder. Shifts by a constant are multiplication and division by a
    power of two. */
module Bits {

  function Pow2(k: nat): (p: nat)
    ensures p >= 1
  {
    if k == 0 then 1 else 2 * Pow2(k - 1)
  }

  /** Bitwise OR. */
  function Or(a: nat, b: nat): nat
    decreases a + b
  {
    if a == 0 then b
    else if b == 0 then a
    else 2 * Or(a / 2, b / 2) + (if a % 2 == 1 || b % 2 == 1 then 1 else 0)
  }

  /** Bitwise AND. */
  function And(a: nat, b: nat): nat
    decreases a + b
  {
    if a == 0 || b == 0 then 0
    else 2 * And(a / 2, b / 2) + (if a % 2 == 1 && b % 2 == 1 then 1 else 0)
  }

  /** Shifting `a` left by `k` and OR-ing in a value below `2^k` places the
      two side by side: the OR is the sum. */
  lemma {:induction false} OrDisjoint(a: nat, b: nat, k: nat)
    requires b < Pow2(k)
    ensures Or(a * Pow2(k), b) == a * Pow2(k) + b
    decreases k
  {
    if k == 0 {
      assert b == 0;
    } else if a != 0 && b != 0 {
      OrDisjoint(a, b / 2, k - 1);
      OrDisjointStep(a, b, k);
    }
  }

  lemma OrDisjointStep(a: nat, b: nat, k: nat)
    requires k > 0 && a != 0 && b != 0
    requires Or(a * Pow2(k - 1), b / 2) == a * Pow2(k - 1) + b / 2
    ensures Or(a * Pow2(k), b) == a * Pow2(k) + b
  {
    var p := Pow2(k - 1);
    assert Pow2(k) == 2 * p;
    MulTwice(a, p);
    MulAtLeast(a, p);
    OrEven(a * Pow2(k), a * p, b);
  }

  lemma MulTwice(a: nat, p: nat)
    ensures a * (2 * p) == 2 * (a * p)
  {
  }

  /** OR with an even number: the low bit comes from `b` alone. */
  lemma OrEven(x: nat, half: nat, b: nat)
    requires x == 2 * half && half != 0 && b != 0
    requires Or(half, b / 2) == half + b / 2
    ensures Or(x, b) == x + b
  {
    assert x / 2 == half && x % 2 == 0;
  }

  /** AND with `2^k - 1` keeps the low `k` bits. */
  lemma {:induction false} AndLowBits(a: nat, k: nat)
    ensures And(a, Pow2(k) - 1) == a % Pow2(k)
    decreases k
  {
    if k == 0 {
      assert Pow2(k) == 1;
    } else if a == 0 {
    } else {
      AndLowBits(a / 2, k - 1);
      AndLowBitsStep(a, k);
    }
  }

  lemma AndLowBitsStep(a: nat, k: nat)
    requires k > 0 && a != 0
    requires And(a / 2, Pow2(k - 1) - 1) == (a / 2) % Pow2(k - 1)
    ensures And(a, Pow2(k) - 1) == a % Pow2(k)
  {
    MaskHalf(k);
    DivModPow2(a, k);
    AndStep(a, Pow2(k) - 1, Pow2(k - 1) - 1, a % Pow2(k), (a / 2) % Pow2(k - 1));
  }

  lemma AndStep(a: nat, m: nat, half: nat, lowA: nat, lowHalf: nat)
    requires a != 0 && m != 0 && m / 2 == half && m % 2 == 1
    requires And(a / 2, half) == lowHalf
    requires lowA == 2 * lowHalf + a % 2
    ensures And(a, m) == lowA
  {
  }

  /** A mask of `k` low bits is a mask of `k - 1` bits with a 1 below. */
  lemma MaskHalf(k: nat)
    requires k > 0
    ensures var m := Pow2(k) - 1; m != 0 && m / 2 == Pow2(k - 1) - 1 && m % 2 == 1
  {
  }

  /** `a mod 2^k` from the bits above the lowest. */
  lemma DivModPow2(a: nat, k: nat)
    requires k > 0
    ensures a % Pow2(k) == 2 * ((a / 2) % Pow2(k - 1)) + a % 2
  {
    var p := Pow2(k - 1);
    var q := (a / 2) / p;
    var s := (a / 2) % p;
    assert a / 2 == q * p + s;
    assert a == q * (2 * p) + (2 * s + a % 2);
    assert 0 <= 2 * s + a % 2 < 2 * p;
    ModUnique(a, 2 * p, q, 2 * s + a % 2);
  }

  lemma ModUnique(a: nat, d: nat, q: nat, r: nat)
    requires 0 <= r < d && a == q * d + r
    ensures a % d == r
  {
    var q0, r0 := a / d, a % d;
    assert (q0 - q) * d == r - r0;
    if q0 > q {
      MulAtLeast(q0 - q, d);
    } else if q0 < q {
      MulAtLeast(q - q0, d);
    }
  }

  lemma MulAtLeast(x: int, d: nat)
    requires x >= 1
    ensures x * d >= d
  {
  }

  /** Adding a multiple of `d` does not change the remainder. */
  lemma ModShift(q: nat, x: nat, d: nat)
    requires d > 0
    ensures (q * d + x) % d == x % d
  {
    assert x == x / d * d + x % d;
    assert q * d + x == (q + x / d) * d + x % d;
    ModUnique(q * d + x, d, q + x / d, x % d);
  }
}
