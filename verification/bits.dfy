/** Integer and bit-level vocabulary shared by the whole model.

    The source works on C integers with shifts, masks and XOR. Here every
    quantity is a natural number; `x << k` is `Shl(x, k)`, `x >> k` is
    `Shr(x, k)`, and `&`, `^` are defined bit by bit on naturals so that the
    model applies the very operators the source applies. */
module Bits {

  /** 2^k. */
  function Pow2(k: nat): (r: nat)
    ensures r >= 1
  {
    if k == 0 then 1 else 2 * Pow2(k - 1)
  }

  /** `x << k` */
  function Shl(x: nat, k: nat): nat
  {
    x * Pow2(k)
  }

  /** `x >> k` */
  function Shr(x: nat, k: nat): nat
  {
    DivModParts(x, Pow2(k));
    x / Pow2(k)
  }

  /** Euclidean division by a positive divisor: quotient and remainder. */
  lemma DivModParts(x: nat, q: nat)
    requires q > 0
    ensures x / q >= 0 && 0 <= x % q < q && x == (x / q) * q + x % q
  {
  }

  /** Bitwise AND of two naturals, least significant bit first. */
  function And(x: nat, y: nat): (r: nat)
    ensures r <= x && r <= y
  {
    if x == 0 || y == 0 then 0
    else 2 * And(x / 2, y / 2) + (if x % 2 == 1 && y % 2 == 1 then 1 else 0)
  }

  /** Bitwise exclusive OR of two naturals, least significant bit first. */
  function Xor(x: nat, y: nat): nat
  {
    if x == 0 then y
    else if y == 0 then x
    else 2 * Xor(x / 2, y / 2) + (if x % 2 != y % 2 then 1 else 0)
  }

  /** Reference floor of log2, for n >= 1. */
  function FloorLog2(n: nat): nat
    requires n >= 1
  {
    if n == 1 then 0 else 1 + FloorLog2(n / 2)
  }

  //----------------------------------------------------------------------------
  // Division and remainder

  /** The quotient and remainder of a * q + b by q, for 0 <= b < q. */
  lemma DivModUnique(x: int, q: int, a: int, b: int)
    requires q > 0 && 0 <= b < q && x == a * q + b
    ensures x / q == a && x % q == b
  {
    var a', b' := x / q, x % q;
    assert x == a' * q + b';
    if a' < a {
      assert (a - a') * q >= q by { MulGe(a - a', q); }
      assert false;
    } else if a' > a {
      assert (a' - a) * q >= q by { MulGe(a' - a, q); }
      assert false;
    }
  }

  lemma MulGe(k: int, q: int)
    requires k >= 1 && q > 0
    ensures k * q >= q
  {
  }

  /** Splitting a remainder modulo 2q into its low bit and the rest. */
  lemma ModDouble(x: nat, q: nat)
    requires q > 0
    ensures x % (2 * q) == 2 * ((x / 2) % q) + x % 2
    ensures x / (2 * q) == (x / 2) / q
  {
    var hi, lo := (x / 2) / q, (x / 2) % q;
    assert x / 2 == hi * q + lo;
    assert x == hi * (2 * q) + (2 * lo + x % 2);
    DivModUnique(x, 2 * q, hi, 2 * lo + x % 2);
  }

  //----------------------------------------------------------------------------
  // Powers of two

  lemma {:induction false} Pow2Add(a: nat, b: nat)
    ensures Pow2(a + b) == Pow2(a) * Pow2(b)
  {
    if a > 0 {
      Pow2Add(a - 1, b);
      assert Pow2(a + b) == 2 * Pow2(a - 1 + b);
    }
  }

  lemma {:induction false} Pow2Monotone(a: nat, b: nat)
    requires a <= b
    ensures Pow2(a) <= Pow2(b)
  {
    if a < b {
      Pow2Monotone(a, b - 1);
    }
  }

  lemma {:induction false} Pow2Injective(a: nat, b: nat)
    requires Pow2(a) == Pow2(b)
    ensures a == b
  {
    if a < b {
      Pow2Monotone(a + 1, b);
    } else if b < a {
      Pow2Monotone(b + 1, a);
    }
  }

  lemma Pow2Even(k: nat)
    requires k >= 1
    ensures Pow2(k) % 2 == 0 && Pow2(k) / 2 == Pow2(k - 1)
  {
  }

  /** FloorLog2 is the k with 2^k <= n < 2^(k+1). */
  lemma {:induction false} FloorLog2Bounds(n: nat)
    requires n >= 1
    ensures Pow2(FloorLog2(n)) <= n < Pow2(FloorLog2(n) + 1)
  {
    if n > 1 {
      FloorLog2Bounds(n / 2);
    }
  }

  lemma {:induction false} FloorLog2Unique(n: nat, k: nat)
    requires Pow2(k) <= n < Pow2(k + 1)
    ensures FloorLog2(n) == k
  {
    if k > 0 {
      assert Pow2(k - 1) <= n / 2 < Pow2(k);
      FloorLog2Unique(n / 2, k - 1);
    }
  }

  lemma FloorLog2Pow2(k: nat)
    ensures FloorLog2(Pow2(k)) == k
  {
    FloorLog2Unique(Pow2(k), k);
  }

  //----------------------------------------------------------------------------
  // Masks and XOR

  /** `x & (2^k - 1)` keeps the k low bits: it is x mod 2^k. */
  lemma {:induction false} AndLowMask(x: nat, k: nat)
    ensures And(x, Pow2(k) - 1) == x % Pow2(k)
  {
    if k > 0 && x > 0 {
      var q := Pow2(k - 1);
      var mask := Pow2(k) - 1;
      assert mask == (q - 1) * 2 + 1;
      DivModUnique(mask, 2, q - 1, 1);
      var low := And(x / 2, q - 1);
      assert And(x, mask) == 2 * low + x % 2;
      assert low == (x / 2) % q by { AndLowMask(x / 2, k - 1); }
      ModDouble(x, q);
      assert x % Pow2(k) == 2 * low + x % 2;
    } else if k == 0 {
      assert Pow2(k) == 1;
    } else {
      DivModUnique(0, Pow2(k), 0, 0);
    }
  }

  /** Toggling the bit 2^k of a number below 2^(k+1). */
  lemma {:induction false} XorHigh(x: nat, k: nat)
    requires x < Pow2(k + 1)
    ensures Xor(x, Pow2(k)) == if x < Pow2(k) then x + Pow2(k) else x - Pow2(k)
  {
    if k > 0 && x > 0 {
      Pow2Even(k);
      XorHigh(x / 2, k - 1);
    }
  }

  /** `x >> k` and `x & (2^k - 1)` split x into its high part and its k low bits. */
  lemma ShrSplit(x: nat, k: nat)
    ensures x == Shr(x, k) * Pow2(k) + And(x, Pow2(k) - 1)
    ensures And(x, Pow2(k) - 1) < Pow2(k)
  {
    AndLowMask(x, k);
    DivModParts(x, Pow2(k));
  }
}
