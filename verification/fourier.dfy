/** transform, dorow and fourier of fourier.c: the raster of one line of tiles
    is cut into segments of one FFT each, and every line of tiles of the
    image is gathered, transformed and scattered back in turn.

    The FFT itself is a parameter `fft(s, x)` that returns a sequence as
    long as x; nothing about its values is assumed. */
module Fourier {
  import opened Bits
  import opened Status
  import opened Store
  import opened Raster
  import opened LineCopy
  import opened Fft

  /** The FFT the orchestration applies to each segment keeps its length. */
  ghost predicate KeepsLength<T(!new)>(fft: (int, seq<T>) -> seq<T>)
  {
    forall sg: int, x: seq<T> :: |fft(sg, x)| == |x|
  }

  //----------------------------------------------------------------------------
  // transform

  /** The start of segment (k, r) of a raster of p planes of n rows of m:
      `z + n * m * k + m * r`. */
  function Segment(n: nat, m: nat, k: nat, r: nat): nat
  {
    n * m * k + m * r
  }

  /** Segments follow one another without gap: the row after r of plane k,
      and the first row of the plane after k. */
  lemma SegmentNext(n: nat, m: nat, k: nat, r: nat)
    ensures Segment(n, m, k, r) + m == Segment(n, m, k, r + 1)
    ensures Segment(n, m, k, n) == Segment(n, m, k + 1, 0)
  {
  }

  /** A segment earlier in the loop ends where a later one may start. */
  lemma SegmentOrder(n: nat, m: nat, k1: nat, r1: nat, k2: nat, r2: nat)
    requires r1 < n && r2 < n && (k1 < k2 || (k1 == k2 && r1 < r2))
    ensures Segment(n, m, k1, r1) + m <= Segment(n, m, k2, r2)
  {
    var N := n * m;
    assert m * r1 + m == (r1 + 1) * m;
    if k1 < k2 {
      MulMono(r1 + 1, n, m);
      MulMono(k1 + 1, k2, N);
      assert N * k1 + N == (k1 + 1) * N;
    } else {
      MulMono(r1 + 1, r2, m);
    }
  }

  /** The p n segments of length m lie inside the raster of p n m samples. */
  lemma SegmentInside(n: nat, m: nat, p: nat, k: nat, r: nat)
    requires k < p && r < n
    ensures Segment(n, m, k, r) + m <= p * n * m
  {
    MulMono(r + 1, n, m);
    MulMono(k + 1, p, n * m);
    assert Segment(n, m, k, r) + m == n * m * k + (r + 1) * m;
    assert n * m * k + (r + 1) * m <= n * m * k + n * m == (k + 1) * (n * m);
  }

  /** Every position of the raster of p n m samples lies in one of the
      segments. */
  lemma SegmentsCover(n: nat, m: nat, p: nat, o: nat) returns (k: nat, r: nat, x: nat)
    requires o < p * n * m
    ensures k < p && r < n && x < m && o == Segment(n, m, k, r) + x
  {
    assert m >= 1 && n >= 1;
    var g: nat;
    g, x := DivMod(o, m);
    k, r := DivMod(g, n);
    assert Segment(n, m, k, r) == (n * k + r) * m;
    if k >= p {
      MulMono(p, k, n);
      MulMono(p * n, k * n + r, m);
      assert false;
    }
  }

  /** Segment (k, r) starts at row n k + r of m samples. */
  lemma SegmentRow(n: nat, m: nat, k: nat, r: nat)
    ensures Segment(n, m, k, r) == (n * k + r) * m
  {
  }

  /** The segments are pairwise disjoint: a position lies in one only. */
  lemma SegmentsDisjoint(n: nat, m: nat, k1: nat, r1: nat, x1: nat, k2: nat, r2: nat, x2: nat)
    requires r1 < n && r2 < n && x1 < m && x2 < m
    requires Segment(n, m, k1, r1) + x1 == Segment(n, m, k2, r2) + x2
    ensures k1 == k2 && r1 == r2 && x1 == x2
  {
    var g1, g2 := n * k1 + r1, n * k2 + r2;
    SegmentRow(n, m, k1, r1);
    SegmentRow(n, m, k2, r2);
    var o := g1 * m + x1;
    DivModUnique(o, m, g1, x1);
    DivModUnique(o, m, g2, x2);
    DivModUnique(g1, n, k1, r1);
    DivModUnique(g1, n, k2, r2);
  }

  /** Replace y.len samples of z from b on by y: an in-place FFT of one
      segment. */
  function Splice<T>(z: seq<T>, b: nat, y: seq<T>): (r: seq<T>)
    requires b + |y| <= |z|
    ensures |r| == |z| && r[b..b + |y|] == y
    ensures forall o :: 0 <= o < |z| && !(b <= o < b + |y|) ==> r[o] == z[o]
  {
    z[..b] + y + z[b + |y|..]
  }

  /** Two sequences that agree on [lo, hi) have equal slices there. */
  lemma SliceAgree<T>(z1: seq<T>, z2: seq<T>, lo: nat, hi: nat)
    requires lo <= hi <= |z1| && hi <= |z2|
    requires forall o :: lo <= o < hi ==> z1[o] == z2[o]
    ensures z1[lo..hi] == z2[lo..hi]
  {
  }

  /** The transform loop's invariant once segment (k, r) is next: every
      earlier segment holds the FFT of its original samples, and everything
      from segment (k, r) on is as it was. */
  ghost predicate TransformInv<T>(n: nat, m: nat, p: nat, sg: int, fft: (int, seq<T>) -> seq<T>,
                                  z0: seq<T>, z: seq<T>, k: nat, r: nat)
  {
    && |z| == |z0| && p * n * m <= |z0|
    && (forall k': nat, r': nat :: k' < p && r' < n && (k' < k || (k' == k && r' < r)) ==>
          Segment(n, m, k', r') + m <= |z| &&
          z[Segment(n, m, k', r')..Segment(n, m, k', r') + m]
            == fft(sg, z0[Segment(n, m, k', r')..Segment(n, m, k', r') + m]))
    && (forall o :: Segment(n, m, k, r) <= o < |z| ==> z[o] == z0[o])
  }

  /** One in-place FFT keeps the transform loop's invariant, one segment on. */
  lemma TransformStep<T(!new)>(n: nat, m: nat, p: nat, sg: int, fft: (int, seq<T>) -> seq<T>,
                         z0: seq<T>, z: seq<T>, k: nat, r: nat)
    requires KeepsLength(fft) && TransformInv(n, m, p, sg, fft, z0, z, k, r) && k < p && r < n
    ensures Segment(n, m, k, r) + m <= |z|
    ensures var b := Segment(n, m, k, r);
            TransformInv(n, m, p, sg, fft, z0, Splice(z, b, fft(sg, z[b..b + m])), k, r + 1)
  {
    var b := Segment(n, m, k, r);
    SegmentInside(n, m, p, k, r);
    SegmentNext(n, m, k, r);
    SliceAgree(z, z0, b, b + m);
    var z' := Splice(z, b, fft(sg, z[b..b + m]));
    forall k': nat, r': nat | k' < p && r' < n && (k' < k || (k' == k && r' < r + 1))
      ensures Segment(n, m, k', r') + m <= |z'|
      ensures z'[Segment(n, m, k', r')..Segment(n, m, k', r') + m]
                == fft(sg, z0[Segment(n, m, k', r')..Segment(n, m, k', r') + m])
    {
      SegmentInside(n, m, p, k', r');
      if k' != k || r' != r {
        SegmentOrder(n, m, k', r', k, r);
        SliceAgree(z', z, Segment(n, m, k', r'), Segment(n, m, k', r') + m);
      }
    }
  }

  /** z' is z with each of the p n segments of m samples replaced by its
      FFT of sign sg. */
  ghost predicate Transformed<T>(n: nat, m: nat, p: nat, sg: int, fft: (int, seq<T>) -> seq<T>, z: seq<T>, z': seq<T>)
  {
    && |z'| == |z|
    && forall k: nat, r: nat :: k < p && r < n ==>
         Segment(n, m, k, r) + m <= |z| &&
         z'[Segment(n, m, k, r)..Segment(n, m, k, r) + m] == fft(sg, z[Segment(n, m, k, r)..Segment(n, m, k, r) + m])
  }

  /** The transform loop's invariant after the last plane is its result. */
  lemma TransformFinish<T>(n: nat, m: nat, p: nat, sg: int, fft: (int, seq<T>) -> seq<T>, z0: seq<T>, z: seq<T>)
    requires TransformInv(n, m, p, sg, fft, z0, z, p, 0)
    ensures Transformed(n, m, p, sg, fft, z0, z)
    ensures forall o :: p * n * m <= o < |z0| ==> z[o] == z0[o]
  {
    assert Segment(n, m, p, 0) == p * n * m;
  }

  /** `transform(n, m, p, s, z)`: run the FFT of sign s over each of the n
      rows of m samples of each of the p planes of the raster; the samples
      past the p planes are untouched. */
  method Transform<T(!new)>(n: nat, m: nat, p: nat, sg: int, z: seq<T>, fft: (int, seq<T>) -> seq<T>)
    returns (z': seq<T>)
    requires KeepsLength(fft) && p * n * m <= |z|
    ensures Transformed(n, m, p, sg, fft, z, z')
    ensures forall o :: p * n * m <= o < |z| ==> z'[o] == z[o]
  {
    z' := z;
    var k := 0;
    while k < p
      invariant k <= p && TransformInv(n, m, p, sg, fft, z, z', k, 0)
    {
      z' := TransformPlane(n, m, p, sg, fft, z, z', k);
      k := k + 1;
    }
    TransformFinish(n, m, p, sg, fft, z, z');
  }

  /** The inner loop of transform: the n rows of plane k. */
  method TransformPlane<T(!new)>(n: nat, m: nat, p: nat, sg: int, fft: (int, seq<T>) -> seq<T>,
                                 z0: seq<T>, z: seq<T>, k: nat) returns (z': seq<T>)
    requires KeepsLength(fft) && TransformInv(n, m, p, sg, fft, z0, z, k, 0) && k < p
    ensures TransformInv(n, m, p, sg, fft, z0, z', k + 1, 0)
  {
    z' := z;
    var r := 0;
    while r < n
      invariant r <= n && TransformInv(n, m, p, sg, fft, z0, z', k, r)
    {
      TransformStep(n, m, p, sg, fft, z0, z', k, r);
      var b := Segment(n, m, k, r);
      z' := Splice(z', b, fft(sg, z'[b..b + m]));
      r := r + 1;
    }
    SegmentNext(n, m, k, n);
  }

  //----------------------------------------------------------------------------
  // dorow

  /** The sign of the transform: negative for the inverse. */
  function Sign(inverse: bool): (sg: int)
    ensures sg == 1 || sg == -1
    ensures sg < 0 <==> inverse
  {
    if inverse then -1 else 1
  }

  /** What dorow demands of line q of tiles: the gather's and the scatter's
      demands for both signs, which come to lines of at least two samples. */
  predicate RowArgs(d: Img, tr: bool, q: nat, v: seq<nat>)
  {
    && Valid(d) && Chans(d) <= d.p && q < Lines(d, tr)
    && AxisLog(d, tr) >= 1 && Involution(v, Pow2(AxisLog(d, tr)))
  }

  /** Every channel imgget copies of every sample of the line is inside the
      store. */
  lemma TargetInside(d: Img, tr: bool, q: nat, k: nat, a: nat, x: nat)
    requires Valid(d) && Chans(d) <= d.p && q < Lines(d, tr)
    requires k < Chans(d) && a < d.s && x < Pow2(AxisLog(d, tr))
    ensures Target(d, tr, q, k, a, x) < Len(d)
  {
    var P := LinePixel(d, tr, q, a, x);
    LinePixelInImage(d, tr, q, a, x);
    ImgzInBounds(d, P.0, P.1);
  }

  /** Channel k of raster line a of line q of tiles as the gather leaves it:
      position x holds sample Source(v, x) of the line, the sample the table
      and the half shift send there. */
  function LineIn<T>(d: Img, tr: bool, q: nat, sg: int, v: seq<nat>, A: seq<T>, k: nat, a: nat): (line: seq<T>)
    requires RowArgs(d, tr, q, v) && |A| == Len(d) && k < Chans(d) && a < d.s
    ensures |line| == Pow2(AxisLog(d, tr))
  {
    var L := AxisLog(d, tr);
    seq(Pow2(L), x requires 0 <= x < Pow2(L) =>
      DestSource(v, 0, x, L, sg);
      TargetInside(d, tr, q, k, a, Source(v, x, L, sg));
      A[Target(d, tr, q, k, a, Source(v, x, L, sg))])
  }

  /** The raster after getrow or getcol: channel k of line a, position x,
      holds channel k of the sample gathered there. */
  ghost predicate GatherDone<T>(d: Img, tr: bool, q: nat, sg: int, v: seq<nat>, A: seq<T>, z: seq<T>)
    requires RowArgs(d, tr, q, v)
  {
    forall k: nat, a: nat, x: nat :: k < Chans(d) && a < d.s && x < Pow2(AxisLog(d, tr)) ==>
      && Pos(d, tr, k, a, x) < |z| && GatherFrom(d, tr, q, sg, v, a, x) + k < |A|
      && z[Pos(d, tr, k, a, x)] == A[GatherFrom(d, tr, q, sg, v, a, x) + k]
  }

  /** dorow's raster shape: n = s rows of m = s w samples, so that a row is a
      whole line of the image, n m is the gather's plane stride s << L, and
      the p planes fill the scratch buffer of p s s w samples. */
  lemma RowShape(d: Img, tr: bool)
    requires Valid(d)
    ensures var n, m := d.s, d.s * Tiles(d, tr);
            && m == Pow2(AxisLog(d, tr)) && n * m == Stride(d, tr)
            && ScratchSize(d, tr) == d.p * n * m == d.p * Stride(d, tr)
  {
    LineGeometry(d, tr);
    var n, m := d.s, d.s * Tiles(d, tr);
    Comm2(d.s, Tiles(d, tr));
    Assoc3(d.p, n, m);
  }

  lemma Assoc3(a: nat, b: nat, c: nat)
    ensures a * b * c == a * (b * c)
  {
  }

  /** Row a of plane k of dorow's raster is channel k of raster line a. */
  lemma SegmentIsLine(d: Img, tr: bool, k: nat, a: nat, x: nat)
    requires Valid(d)
    ensures Segment(d.s, d.s * Tiles(d, tr), k, a) + x == Pos(d, tr, k, a, x)
  {
    RowShape(d, tr);
    var N := Pow2(AxisLog(d, tr));
    assert Shl(a, AxisLog(d, tr)) == a * N;
    Comm2(a, N);
    Comm2(k, Stride(d, tr));
  }

  /** After the gather, row a of plane k of the raster is LineIn(k, a). */
  lemma GatheredLine<T>(d: Img, tr: bool, q: nat, sg: int, v: seq<nat>, A: seq<T>, z: seq<T>, k: nat, a: nat)
    requires RowArgs(d, tr, q, v) && |A| == Len(d) && GatherDone(d, tr, q, sg, v, A, z)
    requires k < Chans(d) && a < d.s
    ensures var b := Segment(d.s, d.s * Tiles(d, tr), k, a);
            b + Pow2(AxisLog(d, tr)) <= |z| && z[b..b + Pow2(AxisLog(d, tr))] == LineIn(d, tr, q, sg, v, A, k, a)
  {
    var N := Pow2(AxisLog(d, tr));
    var b := Segment(d.s, d.s * Tiles(d, tr), k, a);
    var line := LineIn(d, tr, q, sg, v, A, k, a);
    assert b + N <= |z| by {
      SegmentIsLine(d, tr, k, a, N - 1);
      GatheredSample(d, tr, q, sg, v, A, z, k, a, N - 1);
    }
    forall x | 0 <= x < N
      ensures z[b..b + N][x] == line[x]
    {
      SegmentIsLine(d, tr, k, a, x);
      GatheredSample(d, tr, q, sg, v, A, z, k, a, x);
    }
  }

  /** After the gather, channel k of raster line a, position x, is entry x
      of LineIn(k, a). */
  lemma GatheredSample<T>(d: Img, tr: bool, q: nat, sg: int, v: seq<nat>, A: seq<T>, z: seq<T>, k: nat, a: nat, x: nat)
    requires RowArgs(d, tr, q, v) && |A| == Len(d) && GatherDone(d, tr, q, sg, v, A, z)
    requires k < Chans(d) && a < d.s && x < Pow2(AxisLog(d, tr))
    ensures Pos(d, tr, k, a, x) < |z| && z[Pos(d, tr, k, a, x)] == LineIn(d, tr, q, sg, v, A, k, a)[x]
  {
    var L := AxisLog(d, tr);
    var src := Source(v, x, L, sg);
    assert z[Pos(d, tr, k, a, x)] == A[GatherFrom(d, tr, q, sg, v, a, x) + k];
    assert GatherFrom(d, tr, q, sg, v, a, x) + k == Target(d, tr, q, k, a, src);
  }

  /** After the transform, row a of plane k of the raster is the FFT of
      LineIn(k, a). */
  lemma TransformedRow<T(!new)>(d: Img, tr: bool, q: nat, sg: int, v: seq<nat>, A: seq<T>,
                                z1: seq<T>, z2: seq<T>, fft: (int, seq<T>) -> seq<T>, k: nat, a: nat)
    requires RowArgs(d, tr, q, v) && |A| == Len(d) && KeepsLength(fft)
    requires GatherDone(d, tr, q, sg, v, A, z1)
    requires Transformed(d.s, d.s * Tiles(d, tr), d.p, sg, fft, z1, z2)
    requires k < Chans(d) && a < d.s
    ensures var b := Segment(d.s, d.s * Tiles(d, tr), k, a);
            b + Pow2(AxisLog(d, tr)) <= |z2| && z2[b..b + Pow2(AxisLog(d, tr))] == fft(sg, LineIn(d, tr, q, sg, v, A, k, a))
  {
    var m := d.s * Tiles(d, tr);
    var b := Segment(d.s, m, k, a);
    RowShape(d, tr);
    GatheredLine(d, tr, q, sg, v, A, z1, k, a);
    TransformedAt(d.s, m, d.p, sg, fft, z1, z2, k, a);
  }

  /** One segment of a transformed scratch buffer. */
  lemma TransformedAt<T>(n: nat, m: nat, p: nat, sg: int, fft: (int, seq<T>) -> seq<T>, z: seq<T>, z': seq<T>, k: nat, r: nat)
    requires Transformed(n, m, p, sg, fft, z, z') && k < p && r < n
    ensures var b := Segment(n, m, k, r);
            b + m <= |z'| && z'[b..b + m] == fft(sg, z[b..b + m])
  {
  }

  /** After the transform, the raster position the scatter reads for
      sample x of line a, channel k, holds entry offset(x, L, -s) of the FFT
      of LineIn(k, a). */
  lemma TransformedLine<T(!new)>(d: Img, tr: bool, q: nat, sg: int, v: seq<nat>, A: seq<T>,
                                 z1: seq<T>, z2: seq<T>, fft: (int, seq<T>) -> seq<T>, k: nat, a: nat, x: nat)
    requires RowArgs(d, tr, q, v) && |A| == Len(d) && KeepsLength(fft)
    requires GatherDone(d, tr, q, sg, v, A, z1)
    requires Transformed(d.s, d.s * Tiles(d, tr), d.p, sg, fft, z1, z2)
    requires k < Chans(d) && a < d.s && x < Pow2(AxisLog(d, tr))
    ensures Offset(x, AxisLog(d, tr), -sg) < Pow2(AxisLog(d, tr))
    ensures ScatterFrom(d, tr, sg, k, a, x) < |z2|
    ensures z2[ScatterFrom(d, tr, sg, k, a, x)] == fft(sg, LineIn(d, tr, q, sg, v, A, k, a))[Offset(x, AxisLog(d, tr), -sg)]
  {
    TransformedRow(d, tr, q, sg, v, A, z1, z2, fft, k, a);
    PickSample(d, tr, sg, z2, fft(sg, LineIn(d, tr, q, sg, v, A, k, a)), k, a, x);
  }

  /** Entry offset(x, L, -s) of a raster row is the sample the scatter reads
      for position x. */
  lemma PickSample<T>(d: Img, tr: bool, sg: int, z: seq<T>, line: seq<T>, k: nat, a: nat, x: nat)
    requires Valid(d) && (sg < 0 || AxisLog(d, tr) >= 1)
    requires a < d.s && x < Pow2(AxisLog(d, tr))
    requires var b := Segment(d.s, d.s * Tiles(d, tr), k, a);
             b + Pow2(AxisLog(d, tr)) <= |z| && z[b..b + Pow2(AxisLog(d, tr))] == line
    ensures Offset(x, AxisLog(d, tr), -sg) < Pow2(AxisLog(d, tr))
    ensures ScatterFrom(d, tr, sg, k, a, x) < |z|
    ensures z[ScatterFrom(d, tr, sg, k, a, x)] == line[Offset(x, AxisLog(d, tr), -sg)]
  {
    var L := AxisLog(d, tr);
    var m := Pow2(L);
    var b := Segment(d.s, d.s * Tiles(d, tr), k, a);
    var y := Offset(x, L, -sg);
    assert y < m && b + y == ScatterFrom(d, tr, sg, k, a, x) by {
      OffsetInvolution(x, L, -sg);
      SegmentIsLine(d, tr, k, a, y);
    }
    assert z[b + y] == z[b..b + m][y];
  }

  /** The store after putrow or putcol: channel k of sample x of line a
      holds the raster position read for it, and all samples outside the
      line are as they were. */
  ghost predicate ScatterDone<T>(d: Img, tr: bool, q: nat, sg: int, z: seq<T>, A: seq<T>, A': seq<T>)
    requires ScatterArgs(d, tr, q, sg)
  {
    && |A'| == |A|
    && (forall k: nat, a: nat, x: nat :: k < Chans(d) && a < d.s && x < Pow2(AxisLog(d, tr)) ==>
          && Target(d, tr, q, k, a, x) < |A'| && ScatterFrom(d, tr, sg, k, a, x) < |z|
          && A'[Target(d, tr, q, k, a, x)] == z[ScatterFrom(d, tr, sg, k, a, x)])
    && (forall o :: 0 <= o < |A| && !InLine(d, tr, q, o) ==> A'[o] == A[o])
  }

  /** The gather half of dorow: getcol when transposed, getrow otherwise. */
  method GatherLine<T>(d: Img, tr: bool, q: nat, sg: int, v: seq<nat>, A: seq<T>, z: seq<T>) returns (z': seq<T>)
    requires RowArgs(d, tr, q, v) && |A| == Len(d) && |z| == d.p * Stride(d, tr)
    ensures |z'| == |z| && GatherDone(d, tr, q, sg, v, A, z')
  {
    if tr {
      z' := GetCol(d, q, sg, v, A, z);
      assert AxisLog(d, tr) == d.n;
    } else {
      z' := GetRow(d, q, sg, v, A, z);
      assert AxisLog(d, tr) == d.m;
    }
  }

  /** The scatter half of dorow: putcol when transposed, putrow otherwise. */
  method ScatterLine<T>(d: Img, tr: bool, q: nat, sg: int, z: seq<T>, A: seq<T>) returns (A': seq<T>)
    requires ScatterArgs(d, tr, q, sg) && |A| == Len(d) && |z| == d.p * Stride(d, tr)
    ensures ScatterDone(d, tr, q, sg, z, A, A')
  {
    if tr {
      A' := PutCol(d, q, sg, z, A);
      assert AxisLog(d, tr) == d.n;
    } else {
      A' := PutRow(d, q, sg, z, A);
      assert AxisLog(d, tr) == d.m;
    }
  }

  /** The store after dorow on line q of tiles with sign sg: channel k of
      sample x of raster line a holds entry offset(x, L, -sg) of the FFT of
      that line as the gather ordered it, and every store sample outside the
      line, or in a channel imgput does not copy, is as it was in A. */
  ghost predicate RowDone<T(!new)>(d: Img, tr: bool, q: nat, sg: int, v: seq<nat>, fft: (int, seq<T>) -> seq<T>,
                             A: seq<T>, A': seq<T>)
    requires RowArgs(d, tr, q, v) && |A| == Len(d) && KeepsLength(fft)
  {
    && |A'| == |A|
    && (forall k: nat, a: nat, x: nat :: k < Chans(d) && a < d.s && x < Pow2(AxisLog(d, tr)) ==>
          && Target(d, tr, q, k, a, x) < |A'|
          && A'[Target(d, tr, q, k, a, x)] == fft(sg, LineIn(d, tr, q, sg, v, A, k, a))[Offset(x, AxisLog(d, tr), -sg)])
    && (forall o :: 0 <= o < |A| && !InLine(d, tr, q, o) ==> A'[o] == A[o])
  }

  /** `dorow(d, i, opt, v, z)`: gather line q of tiles into the raster z,
      transform every row of every plane, and scatter it back. Channel k of
      sample x of raster line a ends up as entry offset(x, L, -s) of the
      FFT of that line as the gather ordered it; every store sample outside
      the line, or in a channel imgput does not copy, is unchanged. */
  method DoRow<T(!new)>(d: Img, q: nat, inverse: bool, tr: bool, v: seq<nat>, z: seq<T>, A: seq<T>,
                        fft: (int, seq<T>) -> seq<T>) returns (A': seq<T>, z': seq<T>)
    requires RowArgs(d, tr, q, v) && |A| == Len(d) && |z| == d.p * Stride(d, tr) && KeepsLength(fft)
    ensures |z'| == |z| && RowDone(d, tr, q, Sign(inverse), v, fft, A, A')
  {
    var n := d.s;
    var m := d.s * (if tr then d.h else d.w);
    var p := d.p;
    var sg := Sign(inverse);
    RowShape(d, tr);
    var z1 := GatherLine(d, tr, q, sg, v, A, z);
    z' := Transform(n, m, p, sg, z1, fft);
    A' := ScatterLine(d, tr, q, sg, z', A);
    forall k: nat, a: nat, x: nat | k < Chans(d) && a < d.s && x < Pow2(AxisLog(d, tr))
      ensures Target(d, tr, q, k, a, x) < |A'|
      ensures A'[Target(d, tr, q, k, a, x)] == fft(sg, LineIn(d, tr, q, sg, v, A, k, a))[Offset(x, AxisLog(d, tr), -sg)]
    {
      TransformedLine(d, tr, q, sg, v, A, z1, z', fft, k, a, x);
    }
  }

  //----------------------------------------------------------------------------
  // The whole image

  /** The bit-reversal table fourier allocates for lines of 2^L samples. */
  function Table(L: nat): (v: seq<nat>)
    ensures Involution(v, Pow2(L))
  {
    var x := RevAlloc(Pow2(L), true).value;
    RevAllocPermutation(L);
    var v := Written(x);
    forall k | 0 <= k < Pow2(L)
      ensures v[k] < Pow2(L) && v[v[k]] == k
    {
      RevAllocInvolution(L, k);
    }
    v
  }

  /** Channel k of sample x of raster line a of line q of tiles is the store
      offset whose pixel has channel k and lies in line q. */
  lemma TargetLine(d: Img, tr: bool, q: nat, k: nat, a: nat, x: nat)
    requires Valid(d) && Chans(d) <= d.p && q < Lines(d, tr)
    requires k < Chans(d) && a < d.s && x < Pow2(AxisLog(d, tr))
    ensures Target(d, tr, q, k, a, x) < Len(d)
    ensures PixelOf(d, Target(d, tr, q, k, a, x)).k == k
    ensures LineOf(d, tr, Target(d, tr, q, k, a, x)) == q
  {
    var P := LinePixel(d, tr, q, a, x);
    LinePixelInImage(d, tr, q, a, x);
    PixelOfImgz(d, Sample(P.0, P.1, k));
    Geometry(d);
    DivModUnique(q * d.s + a, d.s, q, a);
  }

  /** Every store offset lies in some line of tiles. */
  lemma LineOfBound(d: Img, tr: bool, o: nat)
    requires Valid(d) && o < Len(d)
    ensures LineOf(d, tr, o) < Lines(d, tr)
  {
    PixelOfInverse(d, o);
    Geometry(d);
    var e := PixelOf(d, o);
    var y := if tr then e.x else e.y;
    assert y < Lines(d, tr) * d.s;
    var hi, lo := DivMod(y, d.s);
    if hi >= Lines(d, tr) {
      MulMono(Lines(d, tr), hi, d.s);
      assert false;
    }
  }

  /** The line dorow gathers depends only on the samples of its line. */
  lemma LineInAgree<T>(d: Img, tr: bool, q: nat, sg: int, v: seq<nat>, A: seq<T>, B: seq<T>, k: nat, a: nat)
    requires RowArgs(d, tr, q, v) && |A| == Len(d) && |B| == Len(d) && k < Chans(d) && a < d.s
    requires forall o :: 0 <= o < |A| && InLine(d, tr, q, o) ==> A[o] == B[o]
    ensures LineIn(d, tr, q, sg, v, A, k, a) == LineIn(d, tr, q, sg, v, B, k, a)
  {
    var L := AxisLog(d, tr);
    forall x | 0 <= x < Pow2(L)
      ensures LineIn(d, tr, q, sg, v, A, k, a)[x] == LineIn(d, tr, q, sg, v, B, k, a)[x]
    {
      DestSource(v, 0, x, L, sg);
      TargetLine(d, tr, q, k, a, Source(v, x, L, sg));
    }
  }

  /** Store offset o holds a channel imgput copies, of a pixel of one of
      the lines of tiles 0 .. i-1. */
  predicate Finished(d: Img, tr: bool, i: nat, o: nat)
    requires Valid(d)
  {
    PixelOf(d, o).k < Chans(d) && LineOf(d, tr, o) < i
  }

  /** What fourier demands of the image, for the table v. */
  predicate ImageArgs(d: Img, tr: bool, v: seq<nat>)
  {
    && Valid(d) && Chans(d) <= d.p && AxisLog(d, tr) >= 1 && Involution(v, Pow2(AxisLog(d, tr)))
  }

  /** The loop of fourier after lines of tiles 0 .. i-1: each holds what
      dorow makes of the original store, every other sample is unchanged. */
  ghost predicate FourierInv<T(!new)>(d: Img, tr: bool, sg: int, v: seq<nat>, fft: (int, seq<T>) -> seq<T>,
                                A0: seq<T>, A: seq<T>, i: nat)
    requires ImageArgs(d, tr, v) && |A0| == Len(d) && KeepsLength(fft)
  {
    && |A| == |A0|
    && (forall q: nat, k: nat, a: nat, x: nat ::
          q < i && q < Lines(d, tr) && k < Chans(d) && a < d.s && x < Pow2(AxisLog(d, tr)) ==>
          && Target(d, tr, q, k, a, x) < |A|
          && A[Target(d, tr, q, k, a, x)] == fft(sg, LineIn(d, tr, q, sg, v, A0, k, a))[Offset(x, AxisLog(d, tr), -sg)])
    && (forall o :: 0 <= o < |A| && !Finished(d, tr, i, o) ==> A[o] == A0[o])
  }

  /** One dorow advances the loop of fourier by a line of tiles. */
  lemma FourierStep<T(!new)>(d: Img, tr: bool, sg: int, v: seq<nat>, fft: (int, seq<T>) -> seq<T>,
                             A0: seq<T>, A: seq<T>, A': seq<T>, i: nat)
    requires ImageArgs(d, tr, v) && |A0| == Len(d) && KeepsLength(fft) && i < Lines(d, tr)
    requires FourierInv(d, tr, sg, v, fft, A0, A, i)
    requires RowDone(d, tr, i, sg, v, fft, A, A')
    ensures FourierInv(d, tr, sg, v, fft, A0, A', i + 1)
  {
    var L := AxisLog(d, tr);
    forall o | 0 <= o < |A| && InLine(d, tr, i, o)
      ensures A[o] == A0[o]
    {
      assert !Finished(d, tr, i, o);
    }
    forall q: nat, k: nat, a: nat, x: nat | q < i + 1 && q < Lines(d, tr) && k < Chans(d) && a < d.s && x < Pow2(L)
      ensures Target(d, tr, q, k, a, x) < |A'|
      ensures A'[Target(d, tr, q, k, a, x)] == fft(sg, LineIn(d, tr, q, sg, v, A0, k, a))[Offset(x, L, -sg)]
    {
      TargetLine(d, tr, q, k, a, x);
      if q < i {
        assert !InLine(d, tr, i, Target(d, tr, q, k, a, x));
      } else {
        LineInAgree(d, tr, q, sg, v, A, A0, k, a);
      }
    }
    forall o | 0 <= o < |A'| && !Finished(d, tr, i + 1, o)
      ensures A'[o] == A0[o]
    {
      assert !InLine(d, tr, i, o) && !Finished(d, tr, i, o);
    }
  }

  /** `fourier(d, opt)`: transform every line of tiles of the image in turn,
      rows of tiles or, with TRANSPOSE, columns. revOk and scratchOk are the
      outcomes of allocating the bit-reversal table and the raster; when
      either fails the store is left as it was. Otherwise channel k of
      sample x of raster line a of every line of tiles q holds entry
      offset(x, L, -s) of the FFT of that line of the original store, read
      in bit-reversed order; channels imgput does not copy are untouched. */
  method TransformImage<T(!new)>(d: Img, tr: bool, inverse: bool, revOk: bool, scratchOk: bool, zero: T,
                                 fft: (int, seq<T>) -> seq<T>, A: seq<T>) returns (A': seq<T>)
    requires Valid(d) && Chans(d) <= d.p && AxisLog(d, tr) >= 1 && |A| == Len(d) && KeepsLength(fft)
    ensures |A'| == |A|
    ensures !(revOk && scratchOk) ==> A' == A
    ensures revOk && scratchOk ==>
              forall q: nat, k: nat, a: nat, x: nat ::
                q < Lines(d, tr) && k < Chans(d) && a < d.s && x < Pow2(AxisLog(d, tr)) ==>
                && Target(d, tr, q, k, a, x) < |A'|
                && A'[Target(d, tr, q, k, a, x)] ==
                     fft(Sign(inverse), LineIn(d, tr, q, Sign(inverse), Table(AxisLog(d, tr)), A, k, a))
                       [Offset(x, AxisLog(d, tr), -Sign(inverse))]
    ensures forall o :: 0 <= o < |A| && PixelOf(d, o).k >= Chans(d) ==> A'[o] == A[o]
  {
    A' := A;
    var L := AxisLog(d, tr);
    LineGeometry(d, tr);
    var rev := RevAlloc(Tiles(d, tr) * d.s, revOk);
    if rev.None? || !scratchOk {
      return;
    }
    RevAllocPermutation(L);
    var v := Written(rev.value);
    assert v == Table(L);
    var z := seq(ScratchSize(d, tr), _ => zero);
    var sg := Sign(inverse);
    var i := 0;
    while i < Lines(d, tr)
      invariant i <= Lines(d, tr) && |z| == d.p * Stride(d, tr)
      invariant FourierInv(d, tr, sg, v, fft, A, A', i)
    {
      ghost var B := A';
      A', z := DoRow(d, i, inverse, tr, v, z, A', fft);
      FourierStep(d, tr, sg, v, fft, A, B, A', i);
      i := i + 1;
    }
    forall o | 0 <= o < |A| && PixelOf(d, o).k >= Chans(d)
      ensures A'[o] == A[o]
    {
      assert !Finished(d, tr, i, o);
    }
  }
}
