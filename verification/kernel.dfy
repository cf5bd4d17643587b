/** dd and the fill loop of calc in kernel.c: every pixel of the image
    receives a value computed from its squared distance to the origin on
    the torus, the image wrapping around at its edges, and that value is
    stored in every channel of the pixel.

    The shape of the kernel (the circle and the Gaussian, both in floating
    point) is a parameter `shape` applied to the squared distance. */
module Kernel {
  import opened Bits
  import opened Etc
  import opened Store

  /** `1 << (K - 1)`: half the extent of an axis of 2^K pixels. */
  function Half(K: nat): nat
    requires K >= 1
  {
    Pow2(K - 1)
  }

  /** `(v ^ h) - h` with h = 2^(K-1): pixel coordinate v on an axis of 2^K
      pixels, moved to the interval [-h, h) centred on the origin. */
  function Centred(v: nat, K: nat): (u: int)
    requires K >= 1 && v < Pow2(K)
    ensures -(Half(K) as int) <= u < Half(K)
    ensures u == if v < Half(K) then v else v - Pow2(K)
  {
    XorHigh(v, K - 1);
    Xor(v, Half(K)) - Half(K)
  }

  /** `dd` in unbounded arithmetic: the squared distance of pixel (y, x)
      from the origin, the image wrapping around. It is never negative and
      is zero at the origin only. */
  function Dd(d: Img, y: nat, x: nat): (r: int)
    requires d.n >= 1 && d.m >= 1 && y < Pow2(d.n) && x < Pow2(d.m)
    ensures r >= 0
    ensures r == 0 <==> y == 0 && x == 0
  {
    var cy, cx := Centred(y, d.n), Centred(x, d.m);
    Sq(cy) + Sq(cx)
  }

  /** u * u: never negative, and zero only at zero. */
  function Sq(u: int): (r: int)
    ensures r >= 0
    ensures r == 0 <==> u == 0
  {
    if u == 0 then 0
    else
      SqPositive(u);
      u * u
  }

  lemma SqPositive(u: int)
    requires u != 0
    ensures u * u > 0
  {
    if u < 0 {
      assert u * u == (-u) * (-u);
    }
  }

  /** The centred coordinate of 2^K - v is the negation of that of v,
      except at v = 2^(K-1), which is its own mirror image. */
  lemma CentredMirror(v: nat, K: nat)
    requires K >= 1 && 0 < v < Pow2(K)
    ensures v != Half(K) ==> Centred(Pow2(K) - v, K) == -Centred(v, K)
    ensures v == Half(K) ==> Pow2(K) - v == v
  {
    var h, w := Half(K), Pow2(K) - v;
    assert Pow2(K) == 2 * h;
    if v < h {
      assert Centred(w, K) == w - Pow2(K);
    } else if v > h {
      assert Centred(v, K) == v - Pow2(K);
    }
  }

  /** Mirroring a coordinate about the origin keeps its centred square. */
  lemma CentredMirrorSquare(v: nat, K: nat)
    requires K >= 1 && 0 < v < Pow2(K)
    ensures Sq(Centred(Pow2(K) - v, K)) == Sq(Centred(v, K))
  {
    CentredMirror(v, K);
    var a, b := Centred(v, K), Centred(Pow2(K) - v, K);
    if v != Half(K) {
      NegSquare(a, b);
    } else {
      assert b == a;
    }
  }

  lemma NegSquare(a: int, b: int)
    requires b == -a
    ensures Sq(b) == Sq(a)
  {
    assert b * b == a * a;
  }

  /** dd is symmetric: mirroring the row (y to 2^n - y) or the column (x to
      2^m - x) about the origin leaves it unchanged. */
  lemma DdSymmetric(d: Img, y: nat, x: nat)
    requires d.n >= 1 && d.m >= 1 && y < Pow2(d.n) && x < Pow2(d.m)
    ensures 0 < y ==> Dd(d, Pow2(d.n) - y, x) == Dd(d, y, x)
    ensures 0 < x ==> Dd(d, y, Pow2(d.m) - x) == Dd(d, y, x)
  {
    if 0 < y {
      CentredMirrorSquare(y, d.n);
    }
    if 0 < x {
      CentredMirrorSquare(x, d.m);
    }
  }

  //----------------------------------------------------------------------------
  // dd as written

  /** A 32-bit two's-complement int: v reduced into [-2^31, 2^31). */
  function Wrap32(v: int): (r: int)
    ensures -0x8000_0000 <= r < 0x8000_0000
    ensures (r - v) % 0x1_0000_0000 == 0
    ensures -0x8000_0000 <= v < 0x8000_0000 ==> r == v
  {
    Wrap32Arith(v);
    (v + 0x8000_0000) % 0x1_0000_0000 - 0x8000_0000
  }

  lemma Wrap32Arith(v: int)
    ensures var u := (v + 0x8000_0000) % 0x1_0000_0000 - 0x8000_0000;
            (u - v) % 0x1_0000_0000 == 0 && (-0x8000_0000 <= v < 0x8000_0000 ==> u == v)
  {
    var u := (v + 0x8000_0000) % 0x1_0000_0000 - 0x8000_0000;
    var q := (v + 0x8000_0000) / 0x1_0000_0000;
    assert u - v == -q * 0x1_0000_0000;
    DivModUnique(u - v, 0x1_0000_0000, -q, 0);
    if -0x8000_0000 <= v < 0x8000_0000 {
      DivModUnique(v + 0x8000_0000, 0x1_0000_0000, 0, v + 0x8000_0000);
    }
  }

  /** `dd` as written: y * y + x * x is evaluated in int, which on a
      two's-complement machine wraps at 2^31. */
  function DdAsWritten(d: Img, y: nat, x: nat): (r: int)
    requires d.n >= 1 && d.m >= 1 && y < Pow2(d.n) && x < Pow2(d.m)
    ensures -0x8000_0000 <= r < 0x8000_0000
  {
    var cy, cx := Centred(y, d.n), Centred(x, d.m);
    Wrap32(Sq(cy) + Sq(cx))
  }

  /** While the squared distance fits an int, dd as written is dd. */
  lemma DdAsWrittenAgrees(d: Img, y: nat, x: nat)
    requires d.n >= 1 && d.m >= 1 && y < Pow2(d.n) && x < Pow2(d.m)
    requires Dd(d, y, x) < 0x8000_0000
    ensures DdAsWritten(d, y, x) == Dd(d, y, x)
  {
  }

  /** A 2^16 by 2^16 image: at pixel (2^15, 2^15) both centred coordinates
      are -2^15, the squared distance is 2^31, and dd as written returns a
      negative number. */
  lemma DdAsWrittenOverflows(d: Img)
    requires d.n == 16 && d.m == 16
    ensures Pow2(15) < Pow2(d.n)
    ensures Dd(d, Pow2(15), Pow2(15)) == 0x8000_0000
    ensures DdAsWritten(d, Pow2(15), Pow2(15)) == -0x8000_0000
  {
    Pow2Small();
    assert Pow2(16) == 2 * Pow2(15);
    assert Centred(Pow2(15), 16) == -0x8000;
  }

  //----------------------------------------------------------------------------
  // The fill loop of calc

  /** The value calc stores at offset o: the kernel shape at the squared
      distance of the offset's pixel. */
  function Value<T>(d: Img, shape: int -> T, o: nat): T
    requires Valid(d) && d.n >= 1 && d.m >= 1 && o < Len(d)
  {
    PixelOfInverse(d, o);
    var e := PixelOf(d, o);
    shape(Dd(d, e.y, e.x))
  }

  /** The fill loop after the first cur components, in buffer order: those
      hold their values, all others are as they were. */
  ghost predicate Filled<T>(d: Img, shape: int -> T, A0: seq<T>, A: seq<T>, cur: nat)
    requires Valid(d) && d.n >= 1 && d.m >= 1 && |A0| == Len(d)
  {
    && |A| == |A0| && cur <= |A|
    && (forall o :: 0 <= o < cur ==> A[o] == Value(d, shape, o))
    && (forall o :: cur <= o < |A| ==> A[o] == A0[o])
  }

  /** The loops of calc visit the buffer in order: channel k of pixel
      (i, j) of tile (r, c) is component imgbuf(r, c, i, j) + k, and the
      offset after the last channel of a pixel, row or tile is the first of
      the next. */
  lemma Sweep(d: Img, r: nat, c: nat, i: nat, j: nat)
    requires Valid(d)
    ensures Imgbuf(d, r, c, i, j) + d.p == Imgbuf(d, r, c, i, j + 1)
    ensures Imgbuf(d, r, c, i, d.s) == Imgbuf(d, r, c, i + 1, 0)
    ensures Imgbuf(d, r, c, d.s, 0) == TileBase(d, r, c + 1)
    ensures TileBase(d, r, d.w) == TileBase(d, r + 1, 0)
    ensures TileBase(d, d.h, 0) == Len(d)
    ensures TileBase(d, r, c) == Imgbuf(d, r, c, 0, 0)
  {
    Geometry(d);
    assert (d.s * i + d.s) * d.p == (d.s * (i + 1) + 0) * d.p;
    assert (d.s * d.s + 0) * d.p == d.t;
    assert (d.w * r + d.w) * d.t == (d.w * (r + 1) + 0) * d.t;
  }

  /** `dd(d, r, c, i, j)`: dd of pixel (i, j) of tile (r, c). */
  function DdAt(d: Img, r: nat, c: nat, i: nat, j: nat): int
    requires Valid(d) && d.n >= 1 && d.m >= 1 && r < d.h && c < d.w && i < d.s && j < d.s
  {
    Geometry(d);
    RowBoundK(d.s, d.h, r, i);
    RowBoundK(d.s, d.w, c, j);
    Dd(d, r * d.s + i, c * d.s + j)
  }

  lemma RowBoundK(s: nat, h: nat, r: nat, i: nat)
    requires r < h && i < s
    ensures r * s + i < h * s
  {
    MulLe(r + 1, h, s);
  }

  /** The value calc stores in channel k of pixel (i, j) of tile (r, c). */
  lemma ValueAt<T>(d: Img, shape: int -> T, r: nat, c: nat, i: nat, j: nat, k: nat)
    requires Valid(d) && d.n >= 1 && d.m >= 1
    requires r < d.h && c < d.w && i < d.s && j < d.s && k < d.p
    ensures Imgbuf(d, r, c, i, j) + k < Len(d)
    ensures Value(d, shape, Imgbuf(d, r, c, i, j) + k) == shape(DdAt(d, r, c, i, j))
  {
    ImgbufInTile(d, r, c, i, j);
    PixelOfImgbuf(d, r, c, i, j, k);
  }

  /** Storing the value of the next offset extends the filled prefix. */
  lemma FilledExtend<T>(d: Img, shape: int -> T, A0: seq<T>, A: seq<T>, cur: nat, v: T)
    requires Valid(d) && d.n >= 1 && d.m >= 1 && |A0| == Len(d)
    requires Filled(d, shape, A0, A, cur) && cur < |A| && v == Value(d, shape, cur)
    ensures Filled(d, shape, A0, A[cur := v], cur + 1)
  {
  }

  /** One store of the fill loop. */
  lemma CalcStep<T>(d: Img, shape: int -> T, A0: seq<T>, A: seq<T>, r: nat, c: nat, i: nat, j: nat, k: nat)
    requires Valid(d) && d.n >= 1 && d.m >= 1 && |A0| == Len(d)
    requires r < d.h && c < d.w && i < d.s && j < d.s && k < d.p
    requires Filled(d, shape, A0, A, Imgbuf(d, r, c, i, j) + k)
    ensures Imgbuf(d, r, c, i, j) + k < |A|
    ensures Filled(d, shape, A0, A[Imgbuf(d, r, c, i, j) + k := shape(DdAt(d, r, c, i, j))],
                   Imgbuf(d, r, c, i, j) + k + 1)
  {
    ValueAt(d, shape, r, c, i, j, k);
    FilledExtend(d, shape, A0, A, Imgbuf(d, r, c, i, j) + k, shape(DdAt(d, r, c, i, j)));
  }

  /** Stores the value t in the p channels of pixel (i, j) of tile (r, c). */
  method CalcPixel<T>(d: Img, shape: int -> T, A0: seq<T>, A: seq<T>, r: nat, c: nat, i: nat, j: nat)
    returns (A': seq<T>)
    requires Valid(d) && d.n >= 1 && d.m >= 1 && |A0| == Len(d)
    requires r < d.h && c < d.w && i < d.s && j < d.s
    requires Filled(d, shape, A0, A, Imgbuf(d, r, c, i, j))
    ensures Filled(d, shape, A0, A', Imgbuf(d, r, c, i, j + 1))
  {
    CalcStep(d, shape, A0, A, r, c, i, j, 0);
    var t := shape(DdAt(d, r, c, i, j));
    A' := A;
    var k := 0;
    while k < d.p
      invariant k <= d.p && Filled(d, shape, A0, A', Imgbuf(d, r, c, i, j) + k)
    {
      CalcStep(d, shape, A0, A', r, c, i, j, k);
      A' := A'[Imgbuf(d, r, c, i, j) + k := t];
      k := k + 1;
    }
    Sweep(d, r, c, i, j);
  }

  /** Fills every pixel of tile (r, c). */
  method CalcTile<T>(d: Img, shape: int -> T, A0: seq<T>, A: seq<T>, r: nat, c: nat) returns (A': seq<T>)
    requires Valid(d) && d.n >= 1 && d.m >= 1 && |A0| == Len(d)
    requires r < d.h && c < d.w
    requires Filled(d, shape, A0, A, TileBase(d, r, c))
    ensures Filled(d, shape, A0, A', TileBase(d, r, c + 1))
  {
    A' := A;
    Sweep(d, r, c, 0, 0);
    var i := 0;
    while i < d.s
      invariant i <= d.s && Filled(d, shape, A0, A', Imgbuf(d, r, c, i, 0))
    {
      var j := 0;
      while j < d.s
        invariant j <= d.s && Filled(d, shape, A0, A', Imgbuf(d, r, c, i, j))
      {
        A' := CalcPixel(d, shape, A0, A', r, c, i, j);
        j := j + 1;
      }
      Sweep(d, r, c, i, j);
      i := i + 1;
    }
    Sweep(d, r, c, i, 0);
  }

  /** The fill loop of `calc`: every channel of every pixel (y, x) of the
      image receives shape(dd(y, x)), the same value in all p channels. */
  method Calc<T>(d: Img, shape: int -> T, A: seq<T>) returns (A': seq<T>)
    requires Valid(d) && d.n >= 1 && d.m >= 1 && |A| == Len(d)
    ensures |A'| == |A|
    ensures forall o :: 0 <= o < |A'| ==> A'[o] == Value(d, shape, o)
  {
    A' := A;
    Sweep(d, 0, 0, 0, 0);
    var r := 0;
    while r < d.h
      invariant r <= d.h && Filled(d, shape, A, A', TileBase(d, r, 0))
    {
      var c := 0;
      while c < d.w
        invariant c <= d.w && Filled(d, shape, A, A', TileBase(d, r, c))
      {
        A' := CalcTile(d, shape, A, A', r, c);
        c := c + 1;
      }
      Sweep(d, r, c, 0, 0);
      r := r + 1;
    }
    Sweep(d, r, 0, 0, 0);
  }

  /** After calc every channel of a pixel holds the same value,
      shape(dd(y, x)). */
  lemma CalcSameInAllChannels<T>(d: Img, shape: int -> T, A: seq<T>, A': seq<T>, e: Sample)
    requires Valid(d) && d.n >= 1 && d.m >= 1 && |A| == Len(d) && InImage(d, e)
    requires |A'| == |A| && forall o :: 0 <= o < |A'| ==> A'[o] == Value(d, shape, o)
    ensures Imgz(d, e.y, e.x) + e.k < |A'|
    ensures A'[Imgz(d, e.y, e.x) + e.k] == shape(Dd(d, e.y, e.x))
  {
    PixelOfImgz(d, e);
  }
}
