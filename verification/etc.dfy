/** The small helpers of etc.h: integer log2, power-of-two test, file
    extension test, min and max. */
module Etc {
  import opened Bits

  /** `log2i` on a 32-bit unsigned argument: a four-step binary search that
      shifts right by 16, 8, 4 and 2 bits when the value exceeds the mask
      0xFFFF, 0xFF, 0xF or 0x3 (that is, 2^k - 1), then adds the last bit.
      The partial results occupy disjoint bits, so the source's `r |= s` is
      the sum written here. */
  function Log2i(n: nat): nat
    requires n < Pow2(32)
  {
    Search(n, 4)
  }

  /** The search from the step of width 2^j down: compare against 2^k - 1
      for k = 2^j, shift by k when above, and finish with `v >> 1`. */
  function Search(n: nat, j: nat): nat
  {
    if j == 0 then Shr(n, 1)
    else
      var s := SearchStep(n, Pow2(j));
      s + Search(Shr(n, s), j - 1)
  }

  /** `(n > 2^k - 1) << log2(k)`: the shift one step of the search applies. */
  function SearchStep(n: nat, k: nat): nat
  {
    if n > Pow2(k) - 1 then k else 0
  }

  /** The search from width 2^j computes the floor of log2 of any n below
      2^(2^(j+1)), and 0 for 0. */
  lemma {:induction false} SearchCorrect(n: nat, j: nat)
    requires n < Pow2(2 * Pow2(j))
    ensures n >= 1 ==> Search(n, j) == FloorLog2(n)
    ensures n == 0 ==> Search(n, j) == 0
  {
    if j == 0 {
      assert Pow2(2) == 4 && Pow2(1) == 2;
      assert n < 4;
      if n >= 2 {
        assert FloorLog2(n) == 1 + FloorLog2(n / 2);
      }
    } else {
      var n' := ShiftStep(n, Pow2(j));
      assert 2 * Pow2(j - 1) == Pow2(j);
      SearchCorrect(n', j - 1);
    }
  }

  /** Log2i computes the floor of log2, and log2i(0) is 0. */
  lemma Log2iCorrect(n: nat)
    requires n < Pow2(32)
    ensures n >= 1 ==> Pow2(Log2i(n)) <= n < Pow2(Log2i(n) + 1)
    ensures n == 0 ==> Log2i(n) == 0
  {
    Pow2Small();
    SearchCorrect(n, 4);
    if n >= 1 {
      FloorLog2Bounds(n);
    }
  }

  /** The powers of two the binary search of Log2i compares against. */
  lemma Pow2Small()
    ensures Pow2(1) == 2 && Pow2(2) == 4 && Pow2(4) == 16 && Pow2(8) == 256
    ensures Pow2(16) == 0x1_0000 && Pow2(32) == 0x1_0000_0000
  {
    assert Pow2(2) == 4;
    assert Pow2(4) == 16 by { assert Pow2(3) == 8; }
    assert Pow2(8) == 256 by {
      assert Pow2(5) == 32; assert Pow2(6) == 64; assert Pow2(7) == 128;
    }
    assert Pow2(16) == 0x1_0000 by {
      Pow2Add(8, 8);
    }
    Pow2Add(16, 16);
  }

  /** One step of the binary search: shifting right by k when n >= 2^k keeps
      the floor log2 accounted for and leaves fewer than k significant bits. */
  lemma ShiftStep(n: nat, k: nat) returns (n': nat)
    requires n < Pow2(2 * k)
    ensures n' == Shr(n, SearchStep(n, k))
    ensures n' < Pow2(k)
    ensures n >= 1 ==> n' >= 1 && FloorLog2(n) == SearchStep(n, k) + FloorLog2(n')
  {
    if n > Pow2(k) - 1 {
      n' := n / Pow2(k);
      Pow2Add(k, k);
      assert k + k == 2 * k;
      DivBelow(n, Pow2(k), Pow2(k));
      DivAtLeastOne(n, Pow2(k));
      FloorLog2Shift(n, k);
    } else {
      n' := n;
      assert Pow2(0) == 1;
    }
  }

  lemma DivBelow(n: nat, q: nat, b: nat)
    requires q > 0 && n < q * b
    ensures n / q < b
  {
  }

  lemma DivAtLeastOne(n: nat, q: nat)
    requires q > 0 && n >= q
    ensures n / q >= 1
  {
  }

  /** Shifting right by k subtracts k from the floor log2 of a number >= 2^k. */
  lemma {:induction false} FloorLog2Shift(n: nat, k: nat)
    requires n >= Pow2(k)
    ensures n / Pow2(k) >= 1
    ensures FloorLog2(n) == k + FloorLog2(n / Pow2(k))
  {
    DivAtLeastOne(n, Pow2(k));
    if k > 0 {
      Pow2Even(k);
      FloorLog2Shift(n / 2, k - 1);
      ModDouble(n, Pow2(k - 1));
    }
  }

  /** Log2i agrees with the reference floor of log2. */
  lemma Log2iIsFloorLog2(n: nat)
    requires 1 <= n < Pow2(32)
    ensures Log2i(n) == FloorLog2(n)
  {
    Log2iCorrect(n);
    FloorLog2Unique(n, Log2i(n));
  }

  //----------------------------------------------------------------------------

  /** `ispow2`: n is non-zero and clearing its lowest set bit leaves nothing. */
  predicate IsPow2(n: nat)
  {
    n != 0 && And(n, n - 1) == 0
  }

  lemma {:induction false} AndSelf(q: nat)
    ensures And(q, q) == q
  {
    if q > 0 {
      AndSelf(q / 2);
    }
  }

  /** The bit trick recognises exactly the powers of two. */
  lemma {:induction false} IsPow2Correct(n: nat)
    ensures IsPow2(n) <==> n >= 1 && n == Pow2(FloorLog2(n))
  {
    if n >= 2 {
      var q := n / 2;
      if n % 2 == 0 {
        assert (n - 1) / 2 == q - 1 && (n - 1) % 2 == 1;
        assert And(n, n - 1) == 2 * And(q, q - 1);
        IsPow2Correct(q);
      } else {
        assert (n - 1) / 2 == q && (n - 1) % 2 == 0;
        assert And(n, n - 1) == 2 * And(q, q);
        AndSelf(q);
        Pow2Even(FloorLog2(n));
      }
    } else if n == 1 {
      assert And(1, 0) == 0;
    }
  }

  lemma IsPow2OfPow2(k: nat)
    ensures IsPow2(Pow2(k))
  {
    FloorLog2Pow2(k);
    IsPow2Correct(Pow2(k));
  }

  /** `ispow2(0)` is false, and the powers of two are recognised. */
  lemma IsPow2Iff(n: nat)
    ensures IsPow2(n) <==> exists k: nat :: k <= n && n == Pow2(k)
  {
    IsPow2Correct(n);
    if n >= 1 && n == Pow2(FloorLog2(n)) {
      FloorLog2Bounds(n);
      assert FloorLog2(n) <= n by { Pow2AboveExponent(FloorLog2(n)); }
    }
    if exists k: nat :: k <= n && n == Pow2(k) {
      var k: nat :| k <= n && n == Pow2(k);
      FloorLog2Pow2(k);
    }
  }

  lemma {:induction false} Pow2AboveExponent(k: nat)
    ensures k < Pow2(k)
  {
    if k > 0 {
      Pow2AboveExponent(k - 1);
    }
  }

  //----------------------------------------------------------------------------

  /** `isext`: arg ends with ext; false when arg is the shorter. */
  predicate IsExt(arg: string, ext: string)
  {
    if |arg| < |ext| then false else arg[|arg| - |ext|..] == ext
  }

  /** Any name ending in ext has it as an extension, and only those do. */
  lemma IsExtIff(arg: string, ext: string)
    ensures IsExt(arg, ext) <==> exists pre: string :: pre + ext == arg
  {
    if IsExt(arg, ext) {
      var pre := arg[..|arg| - |ext|];
      assert pre + ext == arg;
    }
    if exists pre: string :: pre + ext == arg {
      var pre: string :| pre + ext == arg;
      assert arg[|arg| - |ext|..] == ext;
    }
  }

  //----------------------------------------------------------------------------

  function Min(a: int, b: int): (r: int)
    ensures r == a || r == b
    ensures r <= a && r <= b
  {
    if a < b then a else b
  }

  function Max(a: int, b: int): (r: int)
    ensures r == a || r == b
    ensures r >= a && r >= b
  {
    if a > b then a else b
  }
}
