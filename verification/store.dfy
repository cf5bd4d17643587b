/** The tile-blocked image store of img.h: a flat buffer of complex
    components holding a 2^n by 2^m image of p-component pixels, cut into
    2^l by 2^l tiles that are stored one after another in row-major order
    of the tile grid. Within a tile, pixels are row-major and the p
    components of a pixel are adjacent.

    The buffer is a `seq<T>`; `T` stands for one `float complex` component,
    whose value the addressing never looks at. */
module Store {
  import opened Bits

  /** The layout fields of `struct img`; the file descriptor and the mapping
      address are not part of the model. */
  datatype Img = Img(l: nat, n: nat, m: nat, p: nat, t: nat, s: nat, h: nat, w: nat)

  /** One component of one pixel: row y, column x, channel k. */
  datatype Sample = Sample(y: nat, x: nat, k: nat)

  /** The relations between the fields that opening a store establishes:
      t = p << 2l, s = 1 << l, h = 1 << (n - l), w = 1 << (m - l). */
  predicate Valid(d: Img)
  {
    && d.l <= d.n && d.l <= d.m && d.p >= 1
    && d.t == d.p * Pow2(d.l + d.l) && d.s == Pow2(d.l)
    && d.h == Pow2(d.n - d.l) && d.w == Pow2(d.m - d.l)
  }

  /** Number of components in the buffer, p * 2^(n+m). */
  function Len(d: Img): nat
  {
    d.p * Pow2(d.n + d.m)
  }

  predicate InImage(d: Img, e: Sample)
  {
    e.y < Pow2(d.n) && e.x < Pow2(d.m) && e.k < d.p
  }

  /** `imgbuf`: offset of pixel (i, j) of tile (r, c). */
  function Imgbuf(d: Img, r: nat, c: nat, i: nat, j: nat): nat
  {
    (d.w * r + c) * d.t + (d.s * i + j) * d.p
  }

  /** First component of tile (r, c). */
  function TileBase(d: Img, r: nat, c: nat): nat
  {
    (d.w * r + c) * d.t
  }

  /** `imgz`: offset of pixel (y, x), splitting each coordinate into its
      tile index `v >> l` and its position in the tile `v & (s - 1)`. */
  function Imgz(d: Img, y: nat, x: nat): nat
    requires Valid(d)
  {
    var c := Shr(x, d.l);
    var j := And(x, d.s - 1);
    var r := Shr(y, d.l);
    var i := And(y, d.s - 1);
    Imgbuf(d, r, c, i, j)
  }

  /** The coordinate with tile index hi and position lo in a tile of edge s. */
  function Join(hi: nat, s: nat, lo: nat): nat
  {
    hi * s + lo
  }

  /** The sample stored at offset o: the inverse of the addressing. */
  function PixelOf(d: Img, o: nat): Sample
    requires Valid(d)
  {
    Geometry(d);
    Unpack(d.w, d.s, d.t, d.p, o)
  }

  /** Decodes an offset of a buffer with w tiles per row, tiles of edge s
      holding t components, and p components per pixel. */
  function Unpack(w: nat, s: nat, t: nat, p: nat, o: nat): Sample
    requires w >= 1 && s >= 1 && t >= 1 && p >= 1
  {
    DivModParts(o, t);
    var tile := o / t;
    var within := o % t;
    DivModParts(within, p);
    var pix := within / p;
    DivModParts(tile, w);
    DivModParts(pix, s);
    Sample(Join(tile / w, s, pix / s), Join(tile % w, s, pix % s), within % p)
  }

  //----------------------------------------------------------------------------
  // Layout arithmetic, stated over plain numbers

  lemma MulLe(a: nat, b: nat, c: nat)
    requires a <= b
    ensures a * c <= b * c
  {
  }

  lemma DivBound(v: nat, s: nat, k: nat)
    requires s >= 1 && v < k * s
    ensures v / s < k
  {
  }

  /** a q + b < k q when b < q and a < k. */
  lemma LinearBound(a: nat, b: nat, q: nat, k: nat)
    requires b < q && a < k
    ensures a * q + b + 1 <= k * q
    ensures q * a + b + 1 <= k * q
  {
    MulLe(a + 1, k, q);
  }

  lemma Reassoc(p: nat, h: nat, w: nat, s: nat)
    ensures p * ((h * s) * (w * s)) == (h * w) * (p * (s * s))
  {
  }

  /** A pixel's p components fit in its tile, and the tile in the grid. */
  lemma TileArith(w: nat, h: nat, t: nat, s: nat, p: nat, r: nat, c: nat, i: nat, j: nat)
    requires t == p * (s * s) && r < h && c < w && i < s && j < s
    ensures (w * r + c) * t <= (w * r + c) * t + (s * i + j) * p
    ensures (w * r + c) * t + (s * i + j) * p + p <= (w * r + c) * t + t
    ensures (w * r + c) * t + t <= (h * w) * t
  {
    MulNonneg(s * i + j, p);
    LinearBound(i, j, s, s);
    MulLe(s * i + j + 1, s * s, p);
    LinearBound(r, c, w, h);
    MulLe(w * r + c + 1, h * w, t);
  }

  /** Decoding an offset into tile row, tile column, intra-tile row and
      column, and channel. */
  lemma DecodeArith(w: nat, h: nat, t: nat, s: nat, p: nat, o: nat)
    returns (r: nat, c: nat, i: nat, j: nat, k: nat)
    requires s >= 1 && p >= 1 && w >= 1 && t == p * (s * s) && o < (h * w) * t
    ensures t >= 1
    ensures r == (o / t) / w && c == (o / t) % w
    ensures i == ((o % t) / p) / s && j == ((o % t) / p) % s && k == (o % t) % p
    ensures r < h && c < w && i < s && j < s && k < p
    ensures o == (w * r + c) * t + (s * i + j) * p + k
  {
    MulPos(p, s * s);
    var tile, within := DivMod(o, t);
    var pix, k' := DivMod(within, p);
    r, c := DivMod(tile, w);
    i, j := DivMod(pix, s);
    k := k';
    DivBound(o, t, h * w);
    DivBound(tile, w, h);
    DivBound(within, p, s * s);
    DivBound(pix, s, s);
  }

  lemma MulNonneg(a: nat, b: nat)
    ensures a * b >= 0
  {
  }

  lemma MulPos(a: nat, b: nat)
    requires a >= 1 && b >= 1
    ensures a * b >= 1
  {
  }

  /** Quotient and remainder, named. */
  lemma DivMod(x: nat, q: nat) returns (a: nat, b: nat)
    requires q >= 1
    ensures a == x / q && b == x % q && b < q && x == a * q + b
  {
    a, b := x / q, x % q;
  }

  /** Encoding then decoding gives the coordinates back. */
  lemma EncodeArith(w: nat, t: nat, s: nat, p: nat, r: nat, c: nat, i: nat, j: nat, k: nat)
    requires t == p * (s * s) && c < w && i < s && j < s && k < p
    ensures var o := (w * r + c) * t + (s * i + j) * p + k;
            t >= 1 && (o / t) / w == r && (o / t) % w == c
            && ((o % t) / p) / s == i && ((o % t) / p) % s == j && (o % t) % p == k
  {
    var o := (w * r + c) * t + (s * i + j) * p + k;
    var a, b := w * r + c, s * i + j;
    var inner := b * p + k;
    assert inner < t by {
      LinearBound(i, j, s, s);
      MulLe(b + 1, s * s, p);
    }
    assert o == a * t + inner;
    DivModUnique(o, t, a, inner);
    DivModUnique(a, w, r, c);
    DivModUnique(inner, p, b, k);
    DivModUnique(b, s, i, j);
  }

  //----------------------------------------------------------------------------
  // Geometry

  /** The derived fields describe the image: s = 2^l, t = p s s, the tile
      grid times the tile edge is the image, and the tiles fill the buffer. */
  lemma Geometry(d: Img)
    requires Valid(d)
    ensures d.s == Pow2(d.l) && d.s >= 1 && d.h >= 1 && d.w >= 1
    ensures d.t == d.p * (d.s * d.s) && d.t >= 1
    ensures d.h * d.s == Pow2(d.n) && d.w * d.s == Pow2(d.m)
    ensures Len(d) == (d.h * d.w) * d.t
  {
    GeometryArith(d.l, d.n, d.m, d.p);
  }

  lemma GeometryArith(l: nat, n: nat, m: nat, p: nat)
    requires l <= n && l <= m && p >= 1
    ensures var s, h, w := Pow2(l), Pow2(n - l), Pow2(m - l);
            && Shl(p, l + l) == p * (s * s) && p * (s * s) >= 1
            && h * s == Pow2(n) && w * s == Pow2(m)
            && p * Pow2(n + m) == (h * w) * (p * (s * s))
  {
    var s, h, w := Pow2(l), Pow2(n - l), Pow2(m - l);
    Pow2Add(l, l);
    Pow2Add(n - l, l);
    Pow2Add(m - l, l);
    Pow2Add(n, m);
    MulPos(p, s * s);
    calc {
      p * Pow2(n + m);
      p * (Pow2(n) * Pow2(m));
      p * ((h * s) * (w * s));
      { Reassoc(p, h, w, s); }
      (h * w) * (p * (s * s));
    }
  }

  /** Every pixel of tile (r, c) lies in the contiguous range
      [(w r + c) t, (w r + c + 1) t), and that range lies in the buffer. */
  lemma ImgbufInTile(d: Img, r: nat, c: nat, i: nat, j: nat)
    requires Valid(d) && r < d.h && c < d.w && i < d.s && j < d.s
    ensures TileBase(d, r, c) <= Imgbuf(d, r, c, i, j)
    ensures Imgbuf(d, r, c, i, j) + d.p <= TileBase(d, r, c) + d.t
    ensures TileBase(d, r, c) + d.t <= Len(d)
  {
    Geometry(d);
    TileArith(d.w, d.h, d.t, d.s, d.p, r, c, i, j);
  }

  /** `imgz(y, x)` is `imgbuf(y >> l, x >> l, y & (s-1), x & (s-1))`, and the
      split satisfies v = (v >> l) s + (v & (s-1)) with 0 <= v & (s-1) < s. */
  lemma ImgzIsImgbuf(d: Img, y: nat, x: nat)
    requires Valid(d)
    ensures Imgz(d, y, x) == Imgbuf(d, Shr(y, d.l), Shr(x, d.l), And(y, d.s - 1), And(x, d.s - 1))
    ensures Imgz(d, y, x) == Imgbuf(d, y / d.s, x / d.s, y % d.s, x % d.s)
    ensures y == Shr(y, d.l) * d.s + And(y, d.s - 1) && And(y, d.s - 1) < d.s
    ensures x == Shr(x, d.l) * d.s + And(x, d.s - 1) && And(x, d.s - 1) < d.s
    ensures Shr(y, d.l) == y / d.s && And(y, d.s - 1) == y % d.s
    ensures Shr(x, d.l) == x / d.s && And(x, d.s - 1) == x % d.s
  {
    ShrSplit(y, d.l);
    ShrSplit(x, d.l);
    AndLowMask(y, d.l);
    AndLowMask(x, d.l);
  }

  /** Pixel (y, x) of the image lies in tile (y / s, x / s) of the tile grid,
      at (y % s, x % s) inside it. */
  lemma TileIndexBounds(d: Img, y: nat, x: nat)
    requires Valid(d) && y < Pow2(d.n) && x < Pow2(d.m)
    ensures y / d.s < d.h && x / d.s < d.w && y % d.s < d.s && x % d.s < d.s
  {
    Geometry(d);
    DivBound(y, d.s, d.h);
    DivBound(x, d.s, d.w);
  }

  /** For a pixel of the image, the offset plus p stays inside the buffer. */
  lemma ImgzInBounds(d: Img, y: nat, x: nat)
    requires Valid(d) && y < Pow2(d.n) && x < Pow2(d.m)
    ensures Imgz(d, y, x) + d.p <= Len(d)
  {
    ImgzIsImgbuf(d, y, x);
    TileIndexBounds(d, y, x);
    ImgbufInTile(d, y / d.s, x / d.s, y % d.s, x % d.s);
  }

  //----------------------------------------------------------------------------
  // The addressing is a bijection between samples and buffer offsets

  /** Decoding the offset of pixel (i, j) of tile (r, c), channel k, gives
      that sample back. */
  lemma PixelOfImgbuf(d: Img, r: nat, c: nat, i: nat, j: nat, k: nat)
    requires Valid(d) && r < d.h && c < d.w && i < d.s && j < d.s && k < d.p
    ensures PixelOf(d, Imgbuf(d, r, c, i, j) + k) == Sample(r * d.s + i, c * d.s + j, k)
  {
    Geometry(d);
    EncodeArith(d.w, d.t, d.s, d.p, r, c, i, j, k);
  }

  /** Distinct samples of the image have distinct offsets: decoding the
      offset of (y, x, k) gives (y, x, k) back. */
  lemma PixelOfImgz(d: Img, e: Sample)
    requires Valid(d) && InImage(d, e)
    ensures Imgz(d, e.y, e.x) + e.k < Len(d)
    ensures PixelOf(d, Imgz(d, e.y, e.x) + e.k) == e
  {
    Geometry(d);
    var r, i := DivMod(e.y, d.s);
    var c, j := DivMod(e.x, d.s);
    ImgzIsImgbuf(d, e.y, e.x);
    TileIndexBounds(d, e.y, e.x);
    ImgzInBounds(d, e.y, e.x);
    PixelOfImgbuf(d, r, c, i, j, e.k);
    assert Sample(r * d.s + i, c * d.s + j, e.k) == e;
  }

  /** Every offset of the buffer is the address of a sample of the image:
      together the pixels' ranges cover the buffer. */
  lemma PixelOfInverse(d: Img, o: nat)
    requires Valid(d) && o < Len(d)
    ensures InImage(d, PixelOf(d, o))
    ensures Imgz(d, PixelOf(d, o).y, PixelOf(d, o).x) + PixelOf(d, o).k == o
  {
    Geometry(d);
    var r, c, i, j, k := DecodeArith(d.w, d.h, d.t, d.s, d.p, o);
    var e := PixelOf(d, o);
    assert e == Sample(Join(r, d.s, i), Join(c, d.s, j), k);
    assert InImage(d, e) by {
      LinearBound(r, i, d.s, d.h);
      LinearBound(c, j, d.s, d.w);
    }
    DivModUnique(e.y, d.s, r, i);
    DivModUnique(e.x, d.s, c, j);
    ImgzIsImgbuf(d, e.y, e.x);
    assert Imgz(d, e.y, e.x) == Imgbuf(d, r, c, i, j);
  }

  /** Two samples of the image at the same offset are the same sample. */
  lemma ImgzInjective(d: Img, e1: Sample, e2: Sample)
    requires Valid(d) && InImage(d, e1) && InImage(d, e2)
    requires Imgz(d, e1.y, e1.x) + e1.k == Imgz(d, e2.y, e2.x) + e2.k
    ensures e1 == e2
  {
    PixelOfImgz(d, e1);
    PixelOfImgz(d, e2);
  }

  //----------------------------------------------------------------------------
  // Channel de-interleave and re-interleave

  /** Number of channels imgget and imgput copy: three when p > 1, else one. */
  function Chans(d: Img): nat
  {
    if d.p > 1 then 3 else 1
  }

  /** Position of channel k in a raster whose channel planes are st apart. */
  function Slot(zo: nat, st: nat, k: nat): nat
  {
    zo + k * st
  }

  predicate IsSlot(q: nat, zo: nat, st: nat, ch: nat)
  {
    exists k: nat :: k < ch && q == Slot(zo, st, k)
  }

  /** `imgget`: copy the channels of pixel (i, j) of tile (r, c) to
      z[zo], z[zo + st], z[zo + 2 st]. Channel k lands at z[zo + k st] and
      no other element of z changes. */
  function ImgGet<T>(d: Img, a: seq<T>, r: nat, c: nat, i: nat, j: nat,
                     z: seq<T>, zo: nat, st: nat): (z': seq<T>)
    requires Imgbuf(d, r, c, i, j) + Chans(d) <= |a|
    requires st >= 1 && Slot(zo, st, Chans(d) - 1) < |z|
    ensures |z'| == |z|
    ensures forall k: nat :: k < Chans(d) ==> z'[Slot(zo, st, k)] == a[Imgbuf(d, r, c, i, j) + k]
    ensures forall q :: 0 <= q < |z| && !IsSlot(q, zo, st, Chans(d)) ==> z'[q] == z[q]
  {
    var o := Imgbuf(d, r, c, i, j);
    var z1 := if d.p > 1 then z[zo + st + st := a[o + 2]][zo + st := a[o + 1]] else z;
    assert Slot(zo, st, 1) == zo + st && Slot(zo, st, 2) == zo + st + st && Slot(zo, st, 0) == zo;
    z1[zo := a[o]]
  }

  /** `imgput`: copy z[zo + k st] back to channel k of pixel (i, j) of tile
      (r, c); no other component of the store changes. */
  function ImgPut<T>(d: Img, a: seq<T>, r: nat, c: nat, i: nat, j: nat,
                     z: seq<T>, zo: nat, st: nat): (a': seq<T>)
    requires Imgbuf(d, r, c, i, j) + Chans(d) <= |a|
    requires Slot(zo, st, Chans(d) - 1) < |z|
    ensures |a'| == |a|
    ensures forall k: nat :: k < Chans(d) ==> a'[Imgbuf(d, r, c, i, j) + k] == z[Slot(zo, st, k)]
    ensures forall q :: 0 <= q < |a| && !(Imgbuf(d, r, c, i, j) <= q < Imgbuf(d, r, c, i, j) + Chans(d)) ==> a'[q] == a[q]
  {
    var o := Imgbuf(d, r, c, i, j);
    assert Slot(zo, st, 1) == zo + st && Slot(zo, st, 2) == zo + st + st && Slot(zo, st, 0) == zo;
    var a1 := if d.p > 1 then a[o + 2 := z[zo + st + st]][o + 1 := z[zo + st]] else a;
    a1[o := z[zo]]
  }

  /** Putting back what was got restores the store. */
  lemma GetThenPut<T>(d: Img, a: seq<T>, r: nat, c: nat, i: nat, j: nat,
                      z: seq<T>, zo: nat, st: nat)
    requires Imgbuf(d, r, c, i, j) + Chans(d) <= |a|
    requires st >= 1 && Slot(zo, st, Chans(d) - 1) < |z|
    ensures ImgPut(d, a, r, c, i, j, ImgGet(d, a, r, c, i, j, z, zo, st), zo, st) == a
  {
    var a' := ImgPut(d, a, r, c, i, j, ImgGet(d, a, r, c, i, j, z, zo, st), zo, st);
    var o := Imgbuf(d, r, c, i, j);
    forall q | 0 <= q < |a|
      ensures a'[q] == a[q]
    {
      if o <= q < o + Chans(d) {
        var k: nat := q - o;
        assert a'[o + k] == a[o + k];
      }
    }
  }

  /** Getting what was put gives back the raster entries that were put. */
  lemma PutThenGet<T>(d: Img, a: seq<T>, r: nat, c: nat, i: nat, j: nat,
                      z: seq<T>, zo: nat, st: nat)
    requires Imgbuf(d, r, c, i, j) + Chans(d) <= |a|
    requires st >= 1 && Slot(zo, st, Chans(d) - 1) < |z|
    ensures ImgGet(d, ImgPut(d, a, r, c, i, j, z, zo, st), r, c, i, j, z, zo, st) == z
  {
    var z' := ImgGet(d, ImgPut(d, a, r, c, i, j, z, zo, st), r, c, i, j, z, zo, st);
    forall q | 0 <= q < |z|
      ensures z'[q] == z[q]
    {
      if IsSlot(q, zo, st, Chans(d)) {
        var k: nat :| k < Chans(d) && q == Slot(zo, st, k);
        assert z'[Slot(zo, st, k)] == z[Slot(zo, st, k)];
      }
    }
  }
}
