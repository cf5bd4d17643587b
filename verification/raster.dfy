/** The raster of fourier.c: the scratch buffer into which a row (or, with
    the TRANSPOSE option, a column) of tiles is gathered for the FFT, and the
    circular half-shift `offset` applied on the way in and out.

    A line of tiles holds s lines of 2^L pixels, where L is the log2 width of
    the image for a row and its log2 height for a column. The raster holds,
    for each channel k, one plane of s lines of 2^L samples: position
    `(a << L) + x + k (s << L)` for line a and sample x. */
module Raster {
  import opened Bits
  import opened Store

  //----------------------------------------------------------------------------
  // offset

  /** `offset(x, m, s)`: x when the sign s is positive, and otherwise x
      moved half a period round a circle of 2^m, computed as
      `(x + (1 << (m - 1))) & ((1 << m) - 1)`, which needs m >= 1. */
  function Offset(x: nat, m: nat, sg: int): (r: nat)
    requires sg > 0 || m >= 1
    ensures sg > 0 ==> r == x
    ensures sg <= 0 ==> r < Pow2(m) && r == (x + Pow2(m - 1)) % Pow2(m)
  {
    if sg > 0 then x
    else
      AndLowMask(x + Shl(1, m - 1), m);
      And(x + Shl(1, m - 1), Shl(1, m) - 1)
  }

  /** The half shift on [0, 2^m): the upper half moves down, the lower up. */
  lemma OffsetHalves(x: nat, m: nat, sg: int)
    requires sg <= 0 && m >= 1 && x < Pow2(m)
    ensures Pow2(m) == 2 * Pow2(m - 1)
    ensures x < Pow2(m - 1) ==> Offset(x, m, sg) == x + Pow2(m - 1)
    ensures x >= Pow2(m - 1) ==> Offset(x, m, sg) == x - Pow2(m - 1)
  {
    var h := Pow2(m - 1);
    assert Pow2(m) == 2 * h;
    if x < h {
      DivModUnique(x + h, 2 * h, 0, x + h);
    } else {
      DivModUnique(x + h, 2 * h, 1, x - h);
    }
  }

  /** The half shift is its own inverse. */
  lemma OffsetInvolution(x: nat, m: nat, sg: int)
    requires (sg > 0 || m >= 1) && x < Pow2(m)
    ensures Offset(x, m, sg) < Pow2(m)
    ensures Offset(Offset(x, m, sg), m, sg) == x
  {
    if sg <= 0 {
      OffsetHalves(x, m, sg);
      OffsetHalves(Offset(x, m, sg), m, sg);
    }
  }

  /** Either way, offset permutes [0, 2^m). */
  lemma OffsetBijective(x1: nat, x2: nat, m: nat, sg: int)
    requires (sg > 0 || m >= 1) && x1 < Pow2(m) && x2 < Pow2(m)
    ensures Offset(x1, m, sg) == Offset(x2, m, sg) <==> x1 == x2
    ensures exists x: nat :: x < Pow2(m) && Offset(x, m, sg) == x1
  {
    OffsetInvolution(x1, m, sg);
    OffsetInvolution(x2, m, sg);
  }

  //----------------------------------------------------------------------------
  // Line geometry

  /** Log2 length of a line: the width for rows, the height for columns. */
  function AxisLog(d: Img, tr: bool): nat
  {
    if tr then d.n else d.m
  }

  /** Tiles along a line of tiles. */
  function Tiles(d: Img, tr: bool): nat
  {
    if tr then d.h else d.w
  }

  /** Lines of tiles in the image: rows of tiles, or columns with TRANSPOSE. */
  function Lines(d: Img, tr: bool): nat
  {
    if tr then d.w else d.h
  }

  /** `d->s << L`: the distance between channel planes of the raster. */
  function Stride(d: Img, tr: bool): nat
  {
    Shl(d.s, AxisLog(d, tr))
  }

  /** The raster position of channel k of sample x of line a. */
  function Pos(d: Img, tr: bool, k: nat, a: nat, x: nat): nat
  {
    Slot(Shl(a, AxisLog(d, tr)) + x, Stride(d, tr), k)
  }

  /** `M = p * s * s * w`: the scratch buffer of one thread. */
  function ScratchSize(d: Img, tr: bool): nat
  {
    d.p * d.s * d.s * Tiles(d, tr)
  }

  /** The image pixel (y, x) at position `along` of line `a` of line q of tiles. */
  function LinePixel(d: Img, tr: bool, q: nat, a: nat, along: nat): (nat, nat)
  {
    if tr then (along, q * d.s + a) else (q * d.s + a, along)
  }

  /** Line a of line q of tiles, sample `along`, is a pixel of the image. */
  lemma LinePixelInImage(d: Img, tr: bool, q: nat, a: nat, along: nat)
    requires Valid(d) && q < Lines(d, tr) && a < d.s && along < Pow2(AxisLog(d, tr))
    ensures LinePixel(d, tr, q, a, along).0 < Pow2(d.n)
    ensures LinePixel(d, tr, q, a, along).1 < Pow2(d.m)
  {
    Geometry(d);
    RowBound(d.s, Lines(d, tr), q, a);
    Comm2(Lines(d, tr), d.s);
  }

  lemma Comm2(a: nat, b: nat)
    ensures a * b == b * a
  {
  }

  /** A line of tiles is s lines of 2^L pixels; the plane stride is the
      length n * m of dorow's raster, and the scratch buffer holds p planes. */
  lemma LineGeometry(d: Img, tr: bool)
    requires Valid(d)
    ensures Tiles(d, tr) * d.s == Pow2(AxisLog(d, tr)) && Tiles(d, tr) >= 1
    ensures Stride(d, tr) == d.s * Pow2(AxisLog(d, tr))
    ensures Stride(d, tr) == d.s * (d.s * Tiles(d, tr))
    ensures ScratchSize(d, tr) == d.p * Stride(d, tr)
    ensures Lines(d, tr) * Tiles(d, tr) * (d.s * d.s) == Pow2(d.n + d.m)
  {
    Geometry(d);
    var N, T := Pow2(AxisLog(d, tr)), Tiles(d, tr);
    assert T * d.s == N;
    assert Stride(d, tr) == d.s * N;
    Comm3(d.s, T);
    Assoc4(d.p, d.s, d.s, T);
    Pow2Add(d.n, d.m);
    Swap4(d.h, d.w, d.s, tr);
  }

  lemma Comm3(s: nat, t: nat)
    ensures s * (t * s) == s * (s * t)
  {
  }

  lemma Assoc4(p: nat, s: nat, s': nat, w: nat)
    ensures p * s * s' * w == p * (s * (s' * w))
  {
  }

  lemma Swap4(h: nat, w: nat, s: nat, tr: bool)
    ensures (if tr then w else h) * (if tr then h else w) * (s * s) == (h * s) * (w * s)
  {
  }

  /** Three raster coordinates determine the position and back. */
  lemma PosUnique(N: nat, s: nat, k1: nat, a1: nat, x1: nat, k2: nat, a2: nat, x2: nat)
    requires a1 < s && a2 < s && x1 < N && x2 < N
    requires a1 * N + x1 + k1 * (s * N) == a2 * N + x2 + k2 * (s * N)
    ensures k1 == k2 && a1 == a2 && x1 == x2
  {
    var o := a1 * N + x1 + k1 * (s * N);
    RowBound(N, s, a1, x1);
    RowBound(N, s, a2, x2);
    DivModUnique(o, s * N, k1, a1 * N + x1);
    DivModUnique(o, s * N, k2, a2 * N + x2);
    DivModUnique(a1 * N + x1, N, a1, x1);
    DivModUnique(a2 * N + x2, N, a2, x2);
  }

  lemma RowBound(N: nat, s: nat, a: nat, x: nat)
    requires a < s && x < N
    ensures a * N + x < s * N
  {
    assert (a + 1) * N <= s * N by { MulMono(a + 1, s, N); }
  }

  lemma MulMono(a: nat, b: nat, c: nat)
    requires a <= b
    ensures a * c <= b * c
  {
  }

  /** Positions of distinct raster samples differ, and channel k's plane
      lies in [k S, (k + 1) S) for the stride S. */
  lemma PosFacts(d: Img, tr: bool, k: nat, a: nat, x: nat)
    requires Valid(d) && a < d.s && x < Pow2(AxisLog(d, tr))
    ensures k * Stride(d, tr) <= Pos(d, tr, k, a, x) < (k + 1) * Stride(d, tr)
    ensures Pos(d, tr, k, a, x) == a * Pow2(AxisLog(d, tr)) + x + k * (d.s * Pow2(AxisLog(d, tr)))
  {
    LineGeometry(d, tr);
    RowBound(Pow2(AxisLog(d, tr)), d.s, a, x);
  }

  lemma PosInjective(d: Img, tr: bool, k1: nat, a1: nat, x1: nat, k2: nat, a2: nat, x2: nat)
    requires Valid(d) && a1 < d.s && a2 < d.s
    requires x1 < Pow2(AxisLog(d, tr)) && x2 < Pow2(AxisLog(d, tr))
    requires Pos(d, tr, k1, a1, x1) == Pos(d, tr, k2, a2, x2)
    ensures k1 == k2 && a1 == a2 && x1 == x2
  {
    PosFacts(d, tr, k1, a1, x1);
    PosFacts(d, tr, k2, a2, x2);
    PosUnique(Pow2(AxisLog(d, tr)), d.s, k1, a1, x1, k2, a2, x2);
  }

  //----------------------------------------------------------------------------
  // The bit-reversal table as the gather uses it

  /** v permutes [0, N) and is its own inverse, as a bit-reversal table is. */
  predicate Involution(v: seq<nat>, N: nat)
  {
    |v| == N && forall x :: 0 <= x < N ==> v[x] < N && v[v[x]] == x
  }

  /** Where getrow and getcol put sample `along` of a line: its offset,
      looked up in the table. */
  function Dest(v: seq<nat>, along: nat, L: nat, sg: int): nat
    requires (sg > 0 || L >= 1) && Involution(v, Pow2(L)) && along < Pow2(L)
  {
    OffsetInvolution(along, L, sg);
    v[Offset(along, L, sg)]
  }

  /** The sample gathered into raster column x: Dest's inverse. */
  function Source(v: seq<nat>, x: nat, L: nat, sg: int): nat
    requires (sg > 0 || L >= 1) && Involution(v, Pow2(L)) && x < Pow2(L)
  {
    Offset(v[x], L, sg)
  }

  /** Dest and Source are inverse permutations of [0, 2^L). */
  lemma DestSource(v: seq<nat>, along: nat, x: nat, L: nat, sg: int)
    requires (sg > 0 || L >= 1) && Involution(v, Pow2(L)) && along < Pow2(L) && x < Pow2(L)
    ensures Dest(v, along, L, sg) < Pow2(L) && Source(v, x, L, sg) < Pow2(L)
    ensures Source(v, Dest(v, along, L, sg), L, sg) == along
    ensures Dest(v, Source(v, x, L, sg), L, sg) == x
    ensures Dest(v, along, L, sg) == x <==> Source(v, x, L, sg) == along
  {
    OffsetInvolution(along, L, sg);
    OffsetInvolution(v[x], L, sg);
  }

  /** In getrow, the channel-0 destinations `(i << m) + v[offset(c s + j)]`
      over c < w, i < s, j < s cover [0, s 2^m) once each. */
  lemma GetRowCover(d: Img, v: seq<nat>, sg: int, o: nat) returns (c: nat, i: nat, j: nat)
    requires Valid(d) && (sg > 0 || d.m >= 1) && Involution(v, Pow2(d.m))
    requires o < d.s * Pow2(d.m)
    ensures c < d.w && i < d.s && j < d.s && Shl(c, d.l) + j < Pow2(d.m)
    ensures o == Shl(i, d.m) + Dest(v, Shl(c, d.l) + j, d.m, sg)
  {
    Geometry(d);
    var x, along;
    i, x := SplitBelow(o, d.s, Pow2(d.m));
    along := Source(v, x, d.m, sg);
    DestSource(v, along, x, d.m, sg);
    c, j := SplitBelow(along, d.w, d.s);
  }

  /** A number below a b is q b + r for unique q < a and r < b. */
  lemma SplitBelow(o: nat, a: nat, b: nat) returns (q: nat, r: nat)
    requires o < a * b
    ensures q < a && r < b && o == q * b + r
    ensures q == o / b && r == o % b
  {
    q, r := o / b, o % b;
    if q >= a {
      MulMono(a, q, b);
    }
  }

  lemma GetRowCoverOnce(d: Img, v: seq<nat>, sg: int, c1: nat, i1: nat, j1: nat, c2: nat, i2: nat, j2: nat)
    requires Valid(d) && (sg > 0 || d.m >= 1) && Involution(v, Pow2(d.m))
    requires c1 < d.w && i1 < d.s && j1 < d.s && c2 < d.w && i2 < d.s && j2 < d.s
    requires Shl(c1, d.l) + j1 < Pow2(d.m) && Shl(c2, d.l) + j2 < Pow2(d.m)
    requires Shl(i1, d.m) + Dest(v, Shl(c1, d.l) + j1, d.m, sg) == Shl(i2, d.m) + Dest(v, Shl(c2, d.l) + j2, d.m, sg)
    ensures c1 == c2 && i1 == i2 && j1 == j2
  {
    var N := Pow2(d.m);
    var a1, a2 := Shl(c1, d.l) + j1, Shl(c2, d.l) + j2;
    DestSource(v, a1, 0, d.m, sg);
    DestSource(v, a2, 0, d.m, sg);
    PosUnique(N, d.s, 0, i1, Dest(v, a1, d.m, sg), 0, i2, Dest(v, a2, d.m, sg));
    DestSource(v, a1, Dest(v, a1, d.m, sg), d.m, sg);
    DestSource(v, a2, Dest(v, a2, d.m, sg), d.m, sg);
    DivModUnique(a1, d.s, c1, j1);
    DivModUnique(a2, d.s, c2, j2);
  }
}
