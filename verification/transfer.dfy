/** blit of transfer.c: copy a W by H region of pixels from a source store
    to a destination store, channel by channel, as many channels as both
    stores have; and the defaulting of the region extent in proc. */
module Transfer {
  import opened Bits
  import opened Etc
  import opened Store

  /** The channels blit copies: the smaller pixel size. */
  function Channels(d: Img, s: Img): (c: nat)
    requires Valid(d) && Valid(s)
    ensures c <= d.p && c <= s.p && (c == d.p || c == s.p) && c >= 1
  {
    Min(s.p, d.p)
  }

  /** What blit needs of its caller: both stores well formed, both regions
      inside their images. The code checks none of this. */
  predicate BlitArgs<T>(d: Img, x: nat, y: nat, s: Img, X: nat, Y: nat, W: nat, H: nat, A: seq<T>, B: seq<T>)
  {
    && Valid(d) && Valid(s) && |A| == Len(d) && |B| == Len(s)
    && y + H <= Pow2(d.n) && x + W <= Pow2(d.m)
    && Y + H <= Pow2(s.n) && X + W <= Pow2(s.m)
  }

  /** Sample e of the destination lies in the copied region and in a copied
      channel. */
  predicate InRegion(d: Img, x: nat, y: nat, W: nat, H: nat, c: nat, e: Sample)
  {
    y <= e.y < y + H && x <= e.x < x + W && e.k < c
  }

  /** Sample e of the region comes before row i, column j, channel k of
      the region in copy order: row, then column, then channel. */
  predicate Before(x: nat, y: nat, e: Sample, i: nat, j: nat, k: nat)
  {
    var a, b := e.y - y, e.x - x;
    a < i || (a == i && (b < j || (b == j && e.k < k)))
  }

  /** Channel k of pixel (y + i, x + j) of a store. */
  function At(d: Img, y: nat, x: nat, i: nat, j: nat, k: nat): nat
    requires Valid(d)
  {
    Imgz(d, y + i, x + j) + k
  }

  /** Channel k of pixel (y + i, x + j) of the image is inside the store
      and decodes back to that sample. */
  lemma AtSample(d: Img, y: nat, x: nat, i: nat, j: nat, k: nat)
    requires Valid(d) && y + i < Pow2(d.n) && x + j < Pow2(d.m) && k < d.p
    ensures At(d, y, x, i, j, k) < Len(d)
    ensures PixelOf(d, At(d, y, x, i, j, k)) == Sample(y + i, x + j, k)
  {
    PixelOfImgz(d, Sample(y + i, x + j, k));
  }

  /** The source offset that blit reads for destination sample e. */
  function From(x: nat, y: nat, s: Img, X: nat, Y: nat, e: Sample): nat
    requires Valid(s) && e.y >= y && e.x >= x
  {
    At(s, Y, X, e.y - y, e.x - x, e.k)
  }

  /** The blit loop before the copy of row i, column j, channel k: the
      region samples copied so far hold their source values, all others
      are as they were. */
  ghost predicate BlitInv<T>(d: Img, x: nat, y: nat, s: Img, X: nat, Y: nat, W: nat, H: nat,
                             A0: seq<T>, B: seq<T>, A: seq<T>, i: nat, j: nat, k: nat)
    requires BlitArgs(d, x, y, s, X, Y, W, H, A0, B)
  {
    && |A| == |A0|
    && forall o :: 0 <= o < |A| ==>
         var e := PixelOf(d, o);
         if InRegion(d, x, y, W, H, Channels(d, s), e) && Before(x, y, e, i, j, k)
         then From(x, y, s, X, Y, e) < |B| && A[o] == B[From(x, y, s, X, Y, e)]
         else A[o] == A0[o]
  }

  /** One copy of the blit loop, at row i, column j, channel k. */
  lemma BlitStep<T>(d: Img, x: nat, y: nat, s: Img, X: nat, Y: nat, W: nat, H: nat,
                    A0: seq<T>, B: seq<T>, A: seq<T>, i: nat, j: nat, k: nat)
    requires BlitArgs(d, x, y, s, X, Y, W, H, A0, B)
    requires i < H && j < W && k < Channels(d, s)
    requires BlitInv(d, x, y, s, X, Y, W, H, A0, B, A, i, j, k)
    ensures At(d, y, x, i, j, k) < |A| && At(s, Y, X, i, j, k) < |B|
    ensures BlitInv(d, x, y, s, X, Y, W, H, A0, B, A[At(d, y, x, i, j, k) := B[At(s, Y, X, i, j, k)]], i, j, k + 1)
  {
    var c := Channels(d, s);
    AtSample(d, y, x, i, j, k);
    AtSample(s, Y, X, i, j, k);
    var o0 := At(d, y, x, i, j, k);
    var A' := A[o0 := B[At(s, Y, X, i, j, k)]];
    forall o | 0 <= o < |A'|
      ensures var e := PixelOf(d, o);
              if InRegion(d, x, y, W, H, c, e) && Before(x, y, e, i, j, k + 1)
              then From(x, y, s, X, Y, e) < |B| && A'[o] == B[From(x, y, s, X, Y, e)]
              else A'[o] == A0[o]
    {
      if o == o0 {
        assert PixelOf(d, o) == Sample(y + i, x + j, k);
        assert From(x, y, s, X, Y, Sample(y + i, x + j, k)) == At(s, Y, X, i, j, k);
      } else {
        BlitStepOther(d, x, y, W, H, c, i, j, k, o);
      }
    }
  }

  /** Every store offset other than that of (y + i, x + j, k) comes before
      channel k + 1 exactly when it comes before channel k. */
  lemma BlitStepOther(d: Img, x: nat, y: nat, W: nat, H: nat, c: nat, i: nat, j: nat, k: nat, o: nat)
    requires Valid(d) && o < Len(d) && o != At(d, y, x, i, j, k)
    ensures InRegion(d, x, y, W, H, c, PixelOf(d, o)) ==>
              (Before(x, y, PixelOf(d, o), i, j, k + 1) <==> Before(x, y, PixelOf(d, o), i, j, k))
  {
    PixelOfInverse(d, o);
  }

  /** The copies of the channels of row i, column j of the region. */
  method BlitPixel<T>(d: Img, x: nat, y: nat, s: Img, X: nat, Y: nat, W: nat, H: nat,
                      A0: seq<T>, B: seq<T>, A: seq<T>, i: nat, j: nat) returns (A': seq<T>)
    requires BlitArgs(d, x, y, s, X, Y, W, H, A0, B)
    requires i < H && j < W
    requires BlitInv(d, x, y, s, X, Y, W, H, A0, B, A, i, j, 0)
    ensures BlitInv(d, x, y, s, X, Y, W, H, A0, B, A', i, j + 1, 0)
  {
    var c := Channels(d, s);
    A' := A;
    var k := 0;
    while k < c
      invariant k <= c && BlitInv(d, x, y, s, X, Y, W, H, A0, B, A', i, j, k)
    {
      BlitStep(d, x, y, s, X, Y, W, H, A0, B, A', i, j, k);
      A' := A'[At(d, y, x, i, j, k) := B[At(s, Y, X, i, j, k)]];
      k := k + 1;
    }
    BlitInvNext(d, x, y, s, X, Y, W, H, A0, B, A', i, j, k, i, j + 1, 0);
  }

  /** The loop invariant depends only on which region samples come before
      the position. */
  lemma BlitInvNext<T>(d: Img, x: nat, y: nat, s: Img, X: nat, Y: nat, W: nat, H: nat,
                       A0: seq<T>, B: seq<T>, A: seq<T>, i: nat, j: nat, k: nat, i': nat, j': nat, k': nat)
    requires BlitArgs(d, x, y, s, X, Y, W, H, A0, B)
    requires BlitInv(d, x, y, s, X, Y, W, H, A0, B, A, i, j, k)
    requires forall e :: InRegion(d, x, y, W, H, Channels(d, s), e) ==>
               (Before(x, y, e, i, j, k) <==> Before(x, y, e, i', j', k'))
    ensures BlitInv(d, x, y, s, X, Y, W, H, A0, B, A, i', j', k')
  {
  }

  /** After all copies every region sample holds its source value and every
      other sample is as it was. */
  lemma BlitFinish<T>(d: Img, x: nat, y: nat, s: Img, X: nat, Y: nat, W: nat, H: nat,
                      A0: seq<T>, B: seq<T>, A: seq<T>)
    requires BlitArgs(d, x, y, s, X, Y, W, H, A0, B)
    requires BlitInv(d, x, y, s, X, Y, W, H, A0, B, A, H, 0, 0)
    ensures |A| == |A0|
    ensures forall i: nat, j: nat, k: nat :: i < H && j < W && k < Channels(d, s) ==>
              && At(d, y, x, i, j, k) < |A| && At(s, Y, X, i, j, k) < |B|
              && A[At(d, y, x, i, j, k)] == B[At(s, Y, X, i, j, k)]
    ensures forall o :: 0 <= o < |A| && !InRegion(d, x, y, W, H, Channels(d, s), PixelOf(d, o)) ==> A[o] == A0[o]
  {
    var c := Channels(d, s);
    forall i: nat, j: nat, k: nat | i < H && j < W && k < c
      ensures At(d, y, x, i, j, k) < |A| && At(s, Y, X, i, j, k) < |B|
      ensures A[At(d, y, x, i, j, k)] == B[At(s, Y, X, i, j, k)]
    {
      BlitCopied(d, x, y, s, X, Y, W, H, A0, B, A, i, j, k, H, 0, 0);
    }
  }

  /** A region sample the loop has passed holds its source value. */
  lemma BlitCopied<T>(d: Img, x: nat, y: nat, s: Img, X: nat, Y: nat, W: nat, H: nat,
                      A0: seq<T>, B: seq<T>, A: seq<T>, i: nat, j: nat, k: nat, i0: nat, j0: nat, k0: nat)
    requires BlitArgs(d, x, y, s, X, Y, W, H, A0, B)
    requires BlitInv(d, x, y, s, X, Y, W, H, A0, B, A, i0, j0, k0)
    requires i < H && j < W && k < Channels(d, s) && Before(x, y, Sample(y + i, x + j, k), i0, j0, k0)
    ensures At(d, y, x, i, j, k) < |A| && At(s, Y, X, i, j, k) < |B|
    ensures A[At(d, y, x, i, j, k)] == B[At(s, Y, X, i, j, k)]
  {
    var e := Sample(y + i, x + j, k);
    AtSample(d, y, x, i, j, k);
    AtSample(s, Y, X, i, j, k);
    var o := At(d, y, x, i, j, k);
    assert PixelOf(d, o) == e;
    assert From(x, y, s, X, Y, e) == At(s, Y, X, i, j, k);
  }

  /** `blit(d, x, y, s, X, Y, W, H)`: for every row i < H, column j < W and
      channel k < min(s.p, d.p), destination pixel (y + i, x + j) channel k
      becomes source pixel (Y + i, X + j) channel k. No other destination
      sample changes; the source is only read. */
  method Blit<T>(d: Img, x: nat, y: nat, s: Img, X: nat, Y: nat, W: nat, H: nat, A: seq<T>, B: seq<T>)
    returns (A': seq<T>)
    requires BlitArgs(d, x, y, s, X, Y, W, H, A, B)
    ensures |A'| == |A|
    ensures forall i: nat, j: nat, k: nat :: i < H && j < W && k < Channels(d, s) ==>
              && At(d, y, x, i, j, k) < |A'| && At(s, Y, X, i, j, k) < |B|
              && A'[At(d, y, x, i, j, k)] == B[At(s, Y, X, i, j, k)]
    ensures forall o :: 0 <= o < |A| && !InRegion(d, x, y, W, H, Channels(d, s), PixelOf(d, o)) ==> A'[o] == A[o]
  {
    A' := A;
    var i := 0;
    while i < H
      invariant i <= H && BlitInv(d, x, y, s, X, Y, W, H, A, B, A', i, 0, 0)
    {
      var j := 0;
      while j < W
        invariant j <= W && BlitInv(d, x, y, s, X, Y, W, H, A, B, A', i, j, 0)
      {
        A' := BlitPixel(d, x, y, s, X, Y, W, H, A, B, A', i, j);
        j := j + 1;
      }
      BlitInvNext(d, x, y, s, X, Y, W, H, A, B, A', i, j, 0, i + 1, 0, 0);
      i := i + 1;
    }
    BlitFinish(d, x, y, s, X, Y, W, H, A, B, A');
  }

  /** The region extent proc passes to blit as (width, height). */
  function Extent(W: nat, H: nat, N: nat, M: nat): (r: (nat, nat))
  {
    (if W == 0 then Pow2(M) else W, if H == 0 then Pow2(N) else H)
  }

  /** A nonzero extent is passed on as given; with the zero default and the
      zero origin, the region is the whole source image: a source pixel is
      in the region exactly when it is in the image. */
  lemma ExtentDefault(s: Img, W: nat, H: nat, yy: nat, xx: nat)
    ensures W != 0 && H != 0 ==> Extent(W, H, s.n, s.m) == (W, H)
    ensures var r := Extent(0, 0, s.n, s.m);
            (yy < r.1 && xx < r.0) <==> (yy < Pow2(s.n) && xx < Pow2(s.m))
  {
  }
}
