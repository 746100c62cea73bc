/** Shifts and bitwise or on non-negative integers, and the rounding up to a power of two. */
module Bits {

  function Pow2(n: nat): (p: nat)
    ensures p >= 1
  {
    if n == 0 then 1 else 2 * Pow2(n - 1)
  }

  /** x >> k */
  function ShiftRight(x: nat, k: nat): nat {
    if k == 0 then x else ShiftRight(x / 2, k - 1)
  }

  /** a | b */
  function Or(a: nat, b: nat): nat
    decreases a + b
  {
    if a == 0 && b == 0 then 0
    else 2 * Or(a / 2, b / 2) + (if a % 2 == 1 || b % 2 == 1 then 1 else 0)
  }

  /** x has at most n bits, and the upper j of them (all, if j >= n) are ones. */
  predicate UpperOnes(x: nat, n: nat, j: nat) {
    Pow2(n) - Pow2(if j < n then n - j else 0) <= x < Pow2(n)
  }

  lemma {:induction false} ShiftHalf(x: nat, k: nat)
    ensures ShiftRight(x, k) / 2 == ShiftRight(x / 2, k)
  {
    if k > 0 {
      ShiftHalf(x / 2, k - 1);
    }
  }

  lemma {:induction false} Pow2Monotone(m: nat, n: nat)
    requires m <= n
    ensures Pow2(m) <= Pow2(n)
  {
    if m < n {
      Pow2Monotone(m, n - 1);
    }
  }

  /** Bit j of a number with all of its bits from j to n ones. */
  lemma {:induction false} ShiftOdd(x: nat, n: nat, j: nat)
    requires j < n && Pow2(n) - Pow2(j) <= x < Pow2(n)
    ensures ShiftRight(x, j) % 2 == 1
  {
    var half := Pow2(n - 1);
    assert Pow2(n) == 2 * half;
    if j == 0 {
      assert x == 2 * half - 1;
    } else {
      assert Pow2(j) == 2 * Pow2(j - 1);
      assert half - Pow2(j - 1) <= x / 2 < half;
      ShiftOdd(x / 2, n - 1, j - 1);
    }
  }

  /** One smearing step doubles the number of leading ones. */
  lemma {:induction false} Smear(x: nat, n: nat, j: nat)
    requires j >= 1 && UpperOnes(x, n, j)
    ensures UpperOnes(Or(x, ShiftRight(x, j)), n, 2 * j)
    decreases n
  {
    if n > 0 {
      var y := ShiftRight(x, j);
      assert UpperOnes(x / 2, n - 1, j);
      Smear(x / 2, n - 1, j);
      ShiftHalf(x, j);
      if j < n <= 2 * j {
        Pow2Monotone(n - j, j);
        ShiftOdd(x, n, j);
      }
    } else {
      assert x == 0;
      ShiftZero(j);
    }
  }

  lemma ShiftZero(k: nat)
    ensures ShiftRight(0, k) == 0
  {
  }

  /** Number of bits of x. */
  function BitLength(x: nat): (n: nat)
    ensures x < Pow2(n) && (n > 0 ==> Pow2(n - 1) <= x)
  {
    if x == 0 then 0 else 1 + BitLength(x / 2)
  }

  lemma {:induction false} Pow2Strict(m: nat, n: nat)
    requires Pow2(m) < Pow2(n)
    ensures m < n
  {
    if m >= n {
      Pow2Monotone(n, m);
    }
  }

  lemma ThirtyBits(n: nat)
    requires n > 0 ==> Pow2(n - 1) < 0x4000_0000
    ensures n <= 30
  {
    assert Pow2(10) == 1024;
    assert Pow2(20) == 1024 * 1024;
    assert Pow2(30) == 0x4000_0000;
    if n > 0 {
      Pow2Strict(n - 1, 30);
    }
  }

  /** The least power of two that is not below `x0`. */
  method Pow2gt(x0: nat) returns (r: nat)
    requires 1 <= x0 <= 0x4000_0000
    ensures x0 <= r
    ensures exists n: nat :: r == Pow2(n) && (n > 0 ==> Pow2(n - 1) < x0)
  {
    var x := x0 - 1;
    ghost var n := BitLength(x);
    hide Or, ShiftRight;
    ThirtyBits(n);
    Smear(x, n, 1);
    x := Or(x, ShiftRight(x, 1));
    Smear(x, n, 2);
    x := Or(x, ShiftRight(x, 2));
    Smear(x, n, 4);
    x := Or(x, ShiftRight(x, 4));
    Smear(x, n, 8);
    x := Or(x, ShiftRight(x, 8));
    Smear(x, n, 16);
    x := Or(x, ShiftRight(x, 16));
    assert x == Pow2(n) - 1;
    return x + 1;
  }
}
