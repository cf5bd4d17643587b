/** The bit-reversal lookup table of fft.c. The butterflies of `fft` itself
    are floating-point numerics and are not modelled here; the transforms
    take them as a parameter. */
module Fft {
  import opened Bits
  import opened Status

  //----------------------------------------------------------------------------
  // Reference bit reversal

  /** The b low bits of k, least significant first. */
  function Digits(k: nat, b: nat): (r: seq<nat>)
    ensures |r| == b
    ensures forall i :: 0 <= i < b ==> r[i] < 2
  {
    if b == 0 then [] else [k % 2] + Digits(k / 2, b - 1)
  }

  /** The number whose binary digits, least significant first, are s. */
  function FromDigits(s: seq<nat>): nat
  {
    if s == [] then 0 else s[0] + 2 * FromDigits(s[1..])
  }

  function Reverse<T>(s: seq<T>): (r: seq<T>)
    ensures |r| == |s|
    ensures forall i :: 0 <= i < |s| ==> r[i] == s[|s| - 1 - i]
  {
    if s == [] then [] else Reverse(s[1..]) + [s[0]]
  }

  /** The b-bit reversal of k: bit i of k becomes bit b - 1 - i. */
  function BitRev(k: nat, b: nat): nat
  {
    if b == 0 then 0 else (k % 2) * Pow2(b - 1) + BitRev(k / 2, b - 1)
  }

  lemma {:induction false} DigitsValue(k: nat, b: nat)
    ensures FromDigits(Digits(k, b)) == k % Pow2(b)
  {
    if b > 0 {
      DigitsValue(k / 2, b - 1);
      ModDouble(k, Pow2(b - 1));
    } else {
      assert Pow2(b) == 1;
    }
  }

  lemma {:induction false} FromDigitsAppend(s: seq<nat>, x: nat)
    ensures FromDigits(s + [x]) == FromDigits(s) + x * Pow2(|s|)
  {
    if s != [] {
      assert (s + [x])[1..] == s[1..] + [x];
      FromDigitsAppend(s[1..], x);
      var P := Pow2(|s| - 1);
      assert Pow2(|s|) == 2 * P;
      assert 2 * (x * P) == x * (2 * P);
    } else {
      assert FromDigits([x]) == x + 2 * FromDigits([]);
    }
  }

  /** BitRev reads the b low digits of k in reverse order. */
  lemma {:induction false} BitRevIsReversal(k: nat, b: nat)
    ensures BitRev(k, b) == FromDigits(Reverse(Digits(k, b)))
  {
    if b > 0 {
      var rest := Digits(k / 2, b - 1);
      assert Digits(k, b)[1..] == rest;
      BitRevIsReversal(k / 2, b - 1);
      FromDigitsAppend(Reverse(rest), k % 2);
    }
  }

  lemma {:induction false} BitRevBound(k: nat, b: nat)
    ensures BitRev(k, b) < Pow2(b)
  {
    if b > 0 {
      BitRevBound(k / 2, b - 1);
      BitTimes(k, Pow2(b - 1));
      assert Pow2(b) == 2 * Pow2(b - 1);
    }
  }

  /** The low bit of k times h. */
  lemma BitTimes(k: nat, h: nat)
    ensures (k % 2) * h == if k % 2 == 0 then 0 else h
  {
  }

  /** The top bit of k becomes the low bit of its reversal. */
  lemma {:induction false} BitRevTop(k: nat, b: nat)
    requires b >= 1 && k < Pow2(b)
    ensures BitRev(k, b) == k / Pow2(b - 1) + 2 * BitRev(k % Pow2(b - 1), b - 1)
  {
    if b == 1 {
      assert Pow2(0) == 1;
    } else {
      var q := Pow2(b - 2);
      BitRevTop(k / 2, b - 1);
      ModDouble(k, q);
      assert Pow2(b - 1) == 2 * q;
      var lo := k % Pow2(b - 1);
      assert lo / 2 == (k / 2) % q && lo % 2 == k % 2 by {
        DivModUnique(lo, 2, (k / 2) % q, k % 2);
      }
    }
  }

  /** Reversing b bits twice gives the number back. */
  lemma {:induction false} BitRevInvolution(k: nat, b: nat)
    requires k < Pow2(b)
    ensures BitRev(BitRev(k, b), b) == k
  {
    if b > 0 {
      var hi := Pow2(b - 1);
      assert Pow2(b) == 2 * hi;
      var rest := BitRev(k / 2, b - 1);
      var r := BitRev(k, b);
      BitTimes(k, hi);
      assert r == (k % 2) * hi + rest;
      BitRevBound(k / 2, b - 1);
      DivModUnique(r, hi, k % 2, rest);
      BitRevBound(k, b);
      BitRevTop(r, b);
      assert k / 2 < hi;
      BitRevInvolution(k / 2, b - 1);
      assert BitRev(r, b) == k % 2 + 2 * (k / 2);
    }
  }

  //----------------------------------------------------------------------------
  // revinit and revalloc

  /** The contents of x[0..n] after `revinit(a, d, n, x)`: Some(v) where
      revinit stores v, None where it stores nothing. The left call fills
      x[0..n/2] and the right call x[n/2..2(n/2)], both at stride 2d, the
      right one starting at a + d; for odd n the last entry is never
      written. The recursion halves n until it reaches 1, so n must be
      positive. */
  function RevInit(a: nat, d: nat, n: nat): (x: seq<Option<nat>>)
    requires n >= 1
    ensures |x| == n
    ensures x[0] == Some(a)
    decreases n
  {
    if n == 1 then [Some(a)]
    else RevInit(a, d * 2, n / 2) + RevInit(a + d, d * 2, n / 2) + (if n % 2 == 1 then [None] else [])
  }

  /** An entry moved by e; an unwritten entry stays unwritten. */
  function Moved(o: Option<nat>, e: nat): Option<nat>
  {
    if o.Some? then Some(o.value + e) else None
  }

  /** For n = 2^b: entry k is a + d * (b-bit reversal of k). */
  lemma {:induction false} RevInitEntry(a: nat, d: nat, b: nat, k: nat)
    requires k < Pow2(b)
    ensures RevInit(a, d, Pow2(b))[k] == Some(a + d * BitRev(k, b))
    decreases b, 1
  {
    if b == 0 {
      assert Pow2(b) == 1 && k == 0 && BitRev(k, b) == 0;
      assert RevInit(a, d, 1) == [Some(a)];
    } else if k < Pow2(b - 1) {
      RevInitEntryLeft(a, d, b, k);
    } else {
      RevInitEntryRight(a, d, b, k);
    }
  }

  /** The table for 2^b, b >= 1, is the tables for 2^(b-1) at stride 2d
      starting at a and at a + d, one after the other. */
  lemma RevInitHalves2(a: nat, d: nat, b: nat)
    requires b >= 1
    ensures Pow2(b) == 2 * Pow2(b - 1)
    ensures RevInit(a, d, Pow2(b)) == RevInit(a, d * 2, Pow2(b - 1)) + RevInit(a + d, d * 2, Pow2(b - 1))
  {
    var half := Pow2(b - 1);
    assert Pow2(b) == 2 * half && Pow2(b) / 2 == half && Pow2(b) % 2 == 0 && Pow2(b) != 1;
  }

  /** An entry of the left half: an even reversal. */
  lemma {:induction false} RevInitEntryLeft(a: nat, d: nat, b: nat, k: nat)
    requires b >= 1 && k < Pow2(b - 1)
    ensures RevInit(a, d, Pow2(b))[k] == Some(a + d * BitRev(k, b))
    decreases b, 0
  {
    var half := Pow2(b - 1);
    var v := BitRev(k, b - 1);
    var x := RevInit(a, d, Pow2(b));
    assert x[k] == RevInit(a, d * 2, half)[k] by {
      RevInitHalves2(a, d, b);
    }
    assert RevInit(a, d * 2, half)[k] == Some(a + (d * 2) * v) by {
      RevInitEntry(a, d * 2, b - 1, k);
    }
    assert a + (d * 2) * v == a + d * BitRev(k, b) by {
      BitRevLow(k, b);
      Twice(d, v);
    }
  }

  /** An entry of the right half: an odd reversal, offset by d. */
  lemma {:induction false} RevInitEntryRight(a: nat, d: nat, b: nat, k: nat)
    requires b >= 1 && Pow2(b - 1) <= k < Pow2(b)
    ensures RevInit(a, d, Pow2(b))[k] == Some(a + d * BitRev(k, b))
    decreases b, 0
  {
    var half := Pow2(b - 1);
    var v := BitRev(k - half, b - 1);
    var x := RevInit(a, d, Pow2(b));
    assert x[k] == RevInit(a + d, d * 2, half)[k - half] by {
      RevInitHalves2(a, d, b);
    }
    assert RevInit(a + d, d * 2, half)[k - half] == Some(a + d + (d * 2) * v) by {
      assert k - half < Pow2(b - 1) by {
        assert Pow2(b) == 2 * half;
      }
      RevInitEntry(a + d, d * 2, b - 1, k - half);
    }
    assert a + d + (d * 2) * v == a + d * BitRev(k, b) by {
      BitRevHigh(k, b);
      Twice(d, v);
    }
  }

  /** Below 2^(b-1), the b-bit reversal is twice the (b-1)-bit one. */
  lemma BitRevLow(k: nat, b: nat)
    requires b >= 1 && k < Pow2(b - 1)
    ensures BitRev(k, b) == 2 * BitRev(k, b - 1)
  {
    assert Pow2(b) == 2 * Pow2(b - 1);
    BitRevTop(k, b);
    DivModUnique(k, Pow2(b - 1), 0, k);
  }

  /** From 2^(b-1) on, the top bit becomes the low bit of the reversal. */
  lemma BitRevHigh(k: nat, b: nat)
    requires b >= 1 && Pow2(b - 1) <= k < Pow2(b)
    ensures BitRev(k, b) == 1 + 2 * BitRev(k - Pow2(b - 1), b - 1)
  {
    assert Pow2(b) == 2 * Pow2(b - 1);
    BitRevTop(k, b);
    DivModUnique(k, Pow2(b - 1), 1, k - Pow2(b - 1));
  }

  lemma Twice(d: nat, v: nat)
    ensures d * (1 + 2 * v) == d + (d * 2) * v && d * (2 * v) == (d * 2) * v
  {
  }

  /** Shifting the start shifts every written entry and leaves the unwritten
      ones unwritten. */
  lemma {:induction false} RevInitShift(a: nat, e: nat, d: nat, n: nat, k: nat)
    requires n >= 1 && k < n
    ensures RevInit(a + e, d, n)[k] == Moved(RevInit(a, d, n)[k], e)
    decreases n
  {
    if n > 1 {
      var h := n / 2;
      if k < h {
        RevInitShift(a, e, d * 2, h, k);
      } else if k < 2 * h {
        RevInitShift(a + d, e, d * 2, h, k - h);
        assert a + e + d == a + d + e;
      }
    }
  }

  /** revinit's two recursive calls: x[0..n/2] is the table of stride 2d
      starting at a, x[n/2..2(n/2)] is that table plus d, and for odd n the
      last entry is left unwritten. */
  lemma RevInitHalves(a: nat, d: nat, n: nat)
    requires n >= 2
    ensures var x := RevInit(a, d, n); var h := n / 2;
            && x[..h] == RevInit(a, d * 2, h)
            && (forall k :: 0 <= k < h ==> x[h + k] == Moved(x[k], d))
            && (n % 2 == 1 ==> x[n - 1] == None)
  {
    var h := n / 2;
    var left := RevInit(a, d * 2, h);
    var x := RevInit(a, d, n);
    assert x[..h] == left;
    forall k | 0 <= k < h
      ensures x[h + k] == Moved(x[k], d)
    {
      RevInitShift(a, d, d * 2, h, k);
    }
  }

  /** revinit writes every entry of x[0..n] exactly when n is a power of two;
      otherwise some entry is left as malloc returned it. */
  lemma {:induction false} RevInitComplete(a: nat, d: nat, n: nat)
    requires n >= 1
    ensures (forall k :: 0 <= k < n ==> RevInit(a, d, n)[k].Some?) <==> n == Pow2(FloorLog2(n))
    decreases n
  {
    var x := RevInit(a, d, n);
    if n > 1 {
      var h := n / 2;
      var left := RevInit(a, d * 2, h);
      assert Pow2(FloorLog2(n)) == 2 * Pow2(FloorLog2(h));
      RevInitHalves(a, d, n);
      RevInitComplete(a, d * 2, h);
      if n % 2 == 1 {
        assert !x[n - 1].Some?;
      } else {
        assert x[..h] == left;
        if forall k :: 0 <= k < h ==> left[k].Some? {
          forall k | 0 <= k < n
            ensures x[k].Some?
          {
            if k >= h {
              assert x[k] == Moved(x[k - h], d);
              assert x[k - h] == left[k - h];
            } else {
              assert x[k] == left[k];
            }
          }
        } else {
          var k :| 0 <= k < h && !left[k].Some?;
          assert x[k] == left[k];
        }
      }
    }
  }

  /** `revalloc`: the table, or nothing when malloc fails. */
  function RevAlloc(n: nat, allocOk: bool): (r: Option<seq<Option<nat>>>)
    requires n >= 1
    ensures r.Some? <==> allocOk
    ensures r.Some? ==> |r.value| == n && r.value[0] == Some(0)
  {
    if allocOk then Some(RevInit(0, 1, n)) else None
  }

  /** revalloc(6): the halves are written at x and x + 3, three entries
      each, of which the last is never reached. */
  lemma RevAllocSix()
    ensures RevAlloc(6, true).value == [Some(0), Some(2), None, Some(1), Some(3), None]
  {
  }

  /** The table of revalloc(2^b) holds the b-bit reversal of each index. */
  lemma RevAllocReverses(b: nat, k: nat)
    requires k < Pow2(b)
    ensures |RevAlloc(Pow2(b), true).value| == Pow2(b)
    ensures RevAlloc(Pow2(b), true).value[k] == Some(BitRev(k, b))
  {
    RevInitEntry(0, 1, b, k);
  }

  /** The table of revalloc(2^b) is an involution: x[x[k]] = k. */
  lemma RevAllocInvolution(b: nat, k: nat)
    requires k < Pow2(b)
    ensures var x := RevAlloc(Pow2(b), true).value;
            |x| == Pow2(b) && x[k].Some? && x[k].value < |x| && x[x[k].value] == Some(k)
  {
    RevAllocReverses(b, k);
    BitRevBound(k, b);
    RevAllocReverses(b, BitRev(k, b));
    BitRevInvolution(k, b);
  }

  /** The table of revalloc(2^b) is a permutation of [0, 2^b): every entry is
      written and in range, entries are distinct, and every index appears. */
  lemma RevAllocPermutation(b: nat)
    ensures var x := RevAlloc(Pow2(b), true).value;
            && |x| == Pow2(b)
            && (forall k :: 0 <= k < |x| ==> x[k].Some? && x[k].value < |x|)
            && (forall i, j :: 0 <= i < j < |x| ==> x[i] != x[j])
            && (forall v :: 0 <= v < |x| ==> Some(v) in x)
  {
    var x := RevAlloc(Pow2(b), true).value;
    forall k | 0 <= k < |x|
      ensures x[k].Some? && x[k].value < |x| && x[x[k].value] == Some(k)
    {
      RevAllocInvolution(b, k);
    }
    forall i, j | 0 <= i < j < |x|
      ensures x[i] != x[j]
    {
      assert x[x[i].value] == Some(i) && x[x[j].value] == Some(j);
    }
    forall v | 0 <= v < |x|
      ensures Some(v) in x
    {
      assert x[x[v].value] == Some(v);
    }
  }

  /** The table as the int array the transforms read, once every entry is
      written. */
  function Written(x: seq<Option<nat>>): (v: seq<nat>)
    requires forall k :: 0 <= k < |x| ==> x[k].Some?
    ensures |v| == |x| && forall k :: 0 <= k < |x| ==> x[k] == Some(v[k])
  {
    seq(|x|, k requires 0 <= k < |x| => x[k].value)
  }
}
