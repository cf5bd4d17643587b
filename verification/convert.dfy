/** The index logic of the TIFF converter, convert.c: recognising TIFF file
    names, decoding and encoding the sample count of a TIFF header, reversing
    a buffer of records in place, and the rows and tiles where the extended
    (mirrored) half of an image is written.

    The TIFF library is not modelled: a header is the record of the fields
    tifopenr reads, and tifopenw's result is the record of the fields it
    sets. */
module Convert {
  import opened Bits
  import opened Status
  import opened Etc
  import opened Store

  //----------------------------------------------------------------------------
  // File names

  /** `istif`: the name has one of the extensions .tif, .TIF, .tiff, .TIFF. */
  predicate IsTif(arg: string)
  {
    IsExt(arg, ".tif") || IsExt(arg, ".TIF") || IsExt(arg, ".tiff") || IsExt(arg, ".TIFF")
  }

  /** A name is a TIFF name exactly when it is some prefix followed by one of
      the four extensions. */
  lemma IsTifIff(arg: string)
    ensures IsTif(arg) <==>
              exists pre: string :: pre + ".tif" == arg || pre + ".TIF" == arg || pre + ".tiff" == arg || pre + ".TIFF" == arg
  {
    IsExtIff(arg, ".tif");
    IsExtIff(arg, ".TIF");
    IsExtIff(arg, ".tiff");
    IsExtIff(arg, ".TIFF");
  }

  //----------------------------------------------------------------------------
  // TIFF headers

  /** libtiff's PLANARCONFIG_CONTIG and SAMPLEFORMAT_IEEEFP. */
  const PlanarContig: nat := 1
  const SampleIeeeFp: nat := 3

  /** The fields of a TIFF header the converter reads or writes: image width
      and length, tile width (zero when the file is in scanlines), samples per
      pixel, bits per sample, planar configuration, sample format. */
  datatype Header = Header(W: nat, L: nat, S: nat, P: nat, B: nat, G: nat, F: nat)

  /** The field widths of the header: 32-bit sizes, 16-bit codes. */
  predicate WellTyped(h: Header)
  {
    && h.W < 0x1_0000_0000 && h.L < 0x1_0000_0000 && h.S < 0x1_0000_0000
    && h.P < 0x1_0000 && h.B < 0x1_0000 && h.G < 0x1_0000 && h.F < 0x1_0000
  }

  /** What tifopenr returns through its pointers: complex or real, log2 tile
      size, log2 height, log2 width, pixel size. */
  datatype Params = Params(c: bool, l: nat, n: nat, m: nat, p: nat)

  /** `tifopenr`: accept a contiguous 32-bit floating-point TIFF whose sides
      are powers of two. An odd sample count is a real image of P channels,
      an even one a complex image of P/2 channels, stored as magnitude and
      phase planes. `openOk` is whether TIFFOpen succeeded. The exponents
      are the log2i of the fields, written as FieldLog2. */
  function TifOpenR(h: Header, openOk: bool): (r: Result<Params>)
    requires WellTyped(h)
    ensures r.Ok? <==>
              openOk && h.G == PlanarContig && h.F == SampleIeeeFp && h.B == 32 && IsPow2(h.W) && IsPow2(h.L)
    ensures r.Ok? ==> Pow2(r.value.n) == h.L && Pow2(r.value.m) == h.W
    ensures r.Ok? ==> (r.value.c <==> h.P % 2 == 0)
    ensures r.Ok? ==> h.P == (if r.value.c then 2 * r.value.p else r.value.p)
    ensures r.Ok? && h.S == 0 ==> r.value.l == 0
    ensures r.Ok? && h.S >= 1 ==> Pow2(r.value.l) <= h.S < Pow2(r.value.l + 1)
  {
    if !openOk then Err(IOError("Failed to open TIFF"))
    else if h.G != PlanarContig then Err(ParameterError("TIFF must have contiguous planar configuration"))
    else if h.F != SampleIeeeFp then Err(ParameterError("TIFF must have floating point sample format"))
    else if h.B != 32 then Err(ParameterError("TIFF must have 32 bits per sample"))
    else if !(IsPow2(h.W) && IsPow2(h.L)) then Err(ParameterError("TIFF image size must be power of 2"))
    else
      FieldLog2OfPow2(h.L);
      FieldLog2OfPow2(h.W);
      Ok(Params(h.P % 2 == 0,
                FieldLog2(h.S),
                FieldLog2(h.L),
                FieldLog2(h.W),
                if h.P % 2 == 1 then h.P else h.P / 2))
  }

  /** `log2i` of a header field: the floor of log2, and 0 for 0. */
  function FieldLog2(v: nat): (k: nat)
    ensures v == 0 ==> k == 0
    ensures v >= 1 ==> Pow2(k) <= v < Pow2(k + 1)
  {
    if v == 0 then 0
    else
      FloorLog2Bounds(v);
      FloorLog2(v)
  }

  /** FieldLog2 is what log2i computes on a 32-bit field. */
  lemma FieldLog2IsLog2i(v: nat)
    requires v < 0x1_0000_0000
    ensures v < Pow2(32) && FieldLog2(v) == Log2i(v)
  {
    Pow2Small();
    Log2iCorrect(v);
    if v >= 1 {
      FloorLog2Unique(v, Log2i(v));
    }
  }

  /** For a power of two, the log recovers the exponent. */
  lemma FieldLog2OfPow2(v: nat)
    requires IsPow2(v)
    ensures Pow2(FieldLog2(v)) == v
  {
    IsPow2Iff(v);
    var k: nat :| k <= v && Pow2(k) == v;
    FloorLog2Pow2(k);
  }

  /** `tifopenw`: the header of a new TIFF of 2^m by 2^n pixels, twice p
      samples per pixel for a complex image, 32-bit floating point,
      contiguous. No tile width is set. */
  function TifOpenW(c: bool, n: nat, m: nat, p: nat): (h: Header)
    ensures h.W == Pow2(m) && h.L == Pow2(n) && h.S == 0
    ensures h.P == (if c then 2 * p else p)
    ensures h.B == 32 && h.G == PlanarContig && h.F == SampleIeeeFp
  {
    Header(Pow2(m), Pow2(n), 0, if c then 2 * p else p, 32, PlanarContig, SampleIeeeFp)
  }

  /** A power of two with exponent below 32 fits a 32-bit field. */
  lemma Pow2Below32(k: nat)
    requires k < 32
    ensures Pow2(k) < 0x1_0000_0000
  {
    Pow2Monotone(k + 1, 32);
    Pow2Small();
    assert Pow2(k + 1) == 2 * Pow2(k);
  }

  /** The header tifopenw writes for sizes below 2^32 and a sample count
      below 2^16 fits its fields. */
  lemma TifOpenWFits(c: bool, n: nat, m: nat, p: nat)
    requires n < 32 && m < 32 && (if c then 2 * p else p) < 0x1_0000
    ensures WellTyped(TifOpenW(c, n, m, p))
  {
    Pow2Below32(n);
    Pow2Below32(m);
  }

  /** tifopenr accepts every header tifopenw writes. */
  lemma TifOpenWAccepted(c: bool, n: nat, m: nat, p: nat)
    requires n < 32 && m < 32 && (if c then 2 * p else p) < 0x1_0000
    ensures WellTyped(TifOpenW(c, n, m, p))
    ensures TifOpenR(TifOpenW(c, n, m, p), true).Ok?
  {
    TifOpenWFits(c, n, m, p);
    IsPow2OfPow2(n);
    IsPow2OfPow2(m);
  }

  /** Writing a header and reading it back gives the parameters back for
      every complex image and for every real image of odd pixel size (the
      sizes and the sample count fitting their fields). A real image of
      even pixel size comes back as complex: see TifEvenIsReadAsComplex. */
  lemma TifRoundTrip(c: bool, n: nat, m: nat, p: nat)
    requires n < 32 && m < 32 && 2 * p < 0x1_0000 && (c || p % 2 == 1)
    ensures WellTyped(TifOpenW(c, n, m, p))
    ensures TifOpenR(TifOpenW(c, n, m, p), true) == Ok(Params(c, 0, n, m, p))
  {
    TifOpenWAccepted(c, n, m, p);
    var h := TifOpenW(c, n, m, p);
    var R := TifOpenR(h, true);
    assert R.Ok?;
    var r := R.value;
    assert r.c <==> h.P % 2 == 0;
    assert h.P == (if r.c then 2 * r.p else r.p);
    if !c {
      SampleCount(c, p, h.P, r.c, r.p);
    }
    Pow2Injective(r.n, n);
    Pow2Injective(r.m, m);
    assert r == Params(c, 0, n, m, p);
  }

  /** An odd pixel size is recovered from its sample count, both for a real
      image (p samples) and a complex one (2p samples). */
  lemma SampleCount(c: bool, p: nat, P: nat, c': bool, p': nat)
    requires p % 2 == 1 && P == (if c then 2 * p else p)
    requires (c' <==> P % 2 == 0) && P == (if c' then 2 * p' else p')
    ensures c' == c && p' == p
  {
  }

  /** A real image of even pixel size does not survive the round trip: it is
      read back as complex with half the channels. */
  lemma TifEvenIsReadAsComplex(n: nat, m: nat, p: nat)
    requires n < 32 && m < 32 && p < 0x1_0000 && p % 2 == 0
    ensures WellTyped(TifOpenW(false, n, m, p))
    ensures TifOpenR(TifOpenW(false, n, m, p), true).Ok?
    ensures TifOpenR(TifOpenW(false, n, m, p), true).value.c
    ensures TifOpenR(TifOpenW(false, n, m, p), true).value.p == p / 2
  {
    TifOpenWAccepted(false, n, m, p);
  }

  //----------------------------------------------------------------------------
  // Reversing records

  /** Offset of float k of record r, records being c floats long. */
  function Rec(c: nat, r: nat, k: nat): nat
  {
    r * c + k
  }

  /** Offset of float k of the record opposite record r among n records. */
  function Opp(c: nat, n: nat, r: nat, k: nat): nat
    requires r < n
  {
    Rec(c, n - 1 - r, k)
  }

  lemma RecBound(c: nat, n: nat, r: nat, k: nat)
    requires r < n && k < c
    ensures Rec(c, r, k) < n * c
  {
    MulLe(r + 1, n, c);
  }

  /** q is p with its first n records of c floats in reverse order, each
      record's own floats in their original order, and the rest of the
      buffer untouched. */
  ghost predicate IsReversal<T>(p: seq<T>, q: seq<T>, c: nat, n: nat)
  {
    && n * c <= |p| && |q| == |p|
    && (forall r: nat, k: nat :: r < n && k < c ==>
          && Rec(c, r, k) < |q| && Opp(c, n, r, k) < |p|
          && q[Rec(c, r, k)] == p[Opp(c, n, r, k)])
    && (forall o :: n * c <= o < |p| ==> q[o] == p[o])
  }

  /** The reversal loop after swapping the records i .. n-1-i's outer pairs:
      records below i and above n-1-i are swapped, the middle unchanged. */
  ghost predicate ReverseInv<T>(p: seq<T>, q: seq<T>, c: nat, n: nat, i: nat)
    requires n * c <= |p|
  {
    && |q| == |p|
    && (forall r: nat, k: nat :: r < n && k < c ==>
          && Rec(c, r, k) < |q| && Opp(c, n, r, k) < |p|
          && q[Rec(c, r, k)] == if r < i || r > n - 1 - i then p[Opp(c, n, r, k)] else p[Rec(c, r, k)])
    && (forall o :: n * c <= o < |p| ==> q[o] == p[o])
  }

  /** The c floats of record r. */
  predicate InRecord(c: nat, r: nat, o: int)
  {
    Rec(c, r, 0) <= o < Rec(c, r, 0) + c
  }

  /** Float k of record r lies in record i only when r is i. */
  lemma RecDisjoint(c: nat, r: nat, i: nat, k: nat)
    requires k < c && r != i
    ensures !InRecord(c, i, Rec(c, r, k))
  {
    if r < i {
      MulLe(r + 1, i, c);
    } else {
      MulLe(i + 1, r, c);
    }
  }

  /** Records are laid out in order: all of record i precedes record j > i. */
  lemma RecOrder(c: nat, i: nat, j: nat)
    requires i < j
    ensures Rec(c, i, 0) + c <= Rec(c, j, 0)
  {
    MulLe(i + 1, j, c);
  }

  /** Swaps records i and j float by float: the inner loop of reverse. */
  method SwapRecords<T>(q: seq<T>, c: nat, i: nat, j: nat) returns (q': seq<T>)
    requires i < j && Rec(c, j, 0) + c <= |q|
    ensures |q'| == |q| && Rec(c, i, 0) + c <= Rec(c, j, 0)
    ensures forall k :: 0 <= k < c ==>
              q'[Rec(c, i, k)] == q[Rec(c, j, k)] && q'[Rec(c, j, k)] == q[Rec(c, i, k)]
    ensures forall o :: 0 <= o < |q| && !InRecord(c, i, o) && !InRecord(c, j, o) ==> q'[o] == q[o]
  {
    RecOrder(c, i, j);
    q' := q;
    var k := 0;
    while k < c
      invariant k <= c && |q'| == |q|
      invariant forall k' :: 0 <= k' < k ==>
                  q'[Rec(c, i, k')] == q[Rec(c, j, k')] && q'[Rec(c, j, k')] == q[Rec(c, i, k')]
      invariant forall o :: 0 <= o < |q| && !(Rec(c, i, 0) <= o < Rec(c, i, k)) && !(Rec(c, j, 0) <= o < Rec(c, j, k)) ==>
                  q'[o] == q[o]
    {
      var temp := q'[Rec(c, i, k)];
      q' := q'[Rec(c, i, k) := q'[Rec(c, j, k)]];
      q' := q'[Rec(c, j, k) := temp];
      k := k + 1;
    }
  }

  /** One pass of the reversal loop, swapping records i and j = n-1-i. */
  lemma ReverseStep<T>(p: seq<T>, q: seq<T>, q': seq<T>, c: nat, n: nat, i: nat, j: nat)
    requires n * c <= |p| && j == n - 1 - i && i < j && ReverseInv(p, q, c, n, i)
    requires |q'| == |q|
    requires forall k :: 0 <= k < c ==>
               Rec(c, i, k) < |q| && Rec(c, j, k) < |q| &&
               q'[Rec(c, i, k)] == q[Rec(c, j, k)] && q'[Rec(c, j, k)] == q[Rec(c, i, k)]
    requires forall o :: 0 <= o < |q| && !InRecord(c, i, o) && !InRecord(c, j, o) ==> q'[o] == q[o]
    ensures ReverseInv(p, q', c, n, i + 1)
  {
    forall r: nat, k: nat | r < n && k < c
      ensures Rec(c, r, k) < |q'| && Opp(c, n, r, k) < |p|
      ensures q'[Rec(c, r, k)] == if r < i + 1 || r > n - 1 - (i + 1) then p[Opp(c, n, r, k)] else p[Rec(c, r, k)]
    {
      if r != i && r != j {
        RecDisjoint(c, r, i, k);
        RecDisjoint(c, r, j, k);
      }
    }
    forall o | n * c <= o < |p|
      ensures q'[o] == p[o]
    {
      MulLe(j + 1, n, c);
      RecOrder(c, i, j);
    }
  }

  /** `reverse(p, c, n)`: reverse the order of the first n records of c
      floats of p in place. */
  method Reverse<T>(p: seq<T>, c: nat, n: nat) returns (q: seq<T>)
    requires n * c <= |p|
    ensures IsReversal(p, q, c, n)
  {
    q := p;
    ReverseStart(p, c, n);
    var i: int := 0;
    var j: int := n - 1;
    while i < j
      invariant 0 <= i && j == n - 1 - i && i <= j + 1
      invariant ReverseInv(p, q, c, n, i)
    {
      MulLe(j + 1, n, c);
      var q' := SwapRecords(q, c, i, j);
      ReverseStep(p, q, q', c, n, i, j);
      q := q';
      i, j := i + 1, j - 1;
    }
    ReverseDone(p, q, c, n, i);
  }

  /** Before the first swap nothing is reversed yet. */
  lemma ReverseStart<T>(p: seq<T>, c: nat, n: nat)
    requires n * c <= |p|
    ensures ReverseInv(p, p, c, n, 0)
  {
    forall r: nat, k: nat | r < n && k < c
      ensures Rec(c, r, k) < |p| && Opp(c, n, r, k) < |p|
    {
      RecBound(c, n, r, k);
      RecBound(c, n, n - 1 - r, k);
    }
  }

  /** Once the loop has met the middle, the buffer is reversed: the one
      record left in place, if any, is its own opposite. */
  lemma ReverseDone<T>(p: seq<T>, q: seq<T>, c: nat, n: nat, i: nat)
    requires n * c <= |p| && n <= 2 * i + 1 && ReverseInv(p, q, c, n, i)
    ensures IsReversal(p, q, c, n)
  {
    forall r: nat, k: nat | r < n && k < c
      ensures q[Rec(c, r, k)] == p[Opp(c, n, r, k)]
    {
      if !(r < i || r > n - 1 - i) {
        assert Opp(c, n, r, k) == Rec(c, r, k);
      }
    }
  }

  /** Every float of the first n records is float k of some record r. */
  lemma RecCover(c: nat, n: nat, o: nat) returns (r: nat, k: nat)
    requires o < n * c
    ensures r < n && k < c && o == Rec(c, r, k)
  {
    var a, b := DivMod(o, c);
    r, k := a, b;
    if r >= n {
      MulLe(n, r, c);
    }
  }

  /** Reversal determines its result: two reversals of the same buffer are
      equal. */
  lemma ReversalUnique<T>(p: seq<T>, q1: seq<T>, q2: seq<T>, c: nat, n: nat)
    requires IsReversal(p, q1, c, n) && IsReversal(p, q2, c, n)
    ensures q1 == q2
  {
    forall o | 0 <= o < |q1|
      ensures q1[o] == q2[o]
    {
      if o < n * c {
        var r, k := RecCover(c, n, o);
      }
    }
  }

  /** Reversing twice gives the original buffer back. */
  lemma ReverseInvolution<T>(p: seq<T>, q: seq<T>, q': seq<T>, c: nat, n: nat)
    requires IsReversal(p, q, c, n) && IsReversal(q, q', c, n)
    ensures q' == p
  {
    forall o | 0 <= o < |p|
      ensures q'[o] == p[o]
    {
      if o < n * c {
        var r, k := RecCover(c, n, o);
        assert q'[Rec(c, r, k)] == q[Opp(c, n, r, k)];
      }
    }
  }

  /** Reversing no record or a single one changes nothing. */
  lemma ReverseShort<T>(p: seq<T>, q: seq<T>, c: nat, n: nat)
    requires n <= 1 && IsReversal(p, q, c, n)
    ensures q == p
  {
    forall o | 0 <= o < |p|
      ensures q[o] == p[o]
    {
      if o < n * c {
        var r, k := RecCover(c, n, o);
      }
    }
  }

  //----------------------------------------------------------------------------
  // The extended half of the image

  /** `2 * n - r - 1`: the row where scantoimg writes the reversed copy of
      scanline r of an image of n rows, extended to 2n. */
  function MirrorRow(n: nat, r: nat): (y: nat)
    requires r < n
    ensures n <= y < 2 * n
    ensures r + y == 2 * n - 1
  {
    2 * n - r - 1
  }

  /** The original rows and their mirrors cover the 2n rows of the extended
      image, each row once. */
  lemma MirrorRowsCover(n: nat, y: nat)
    requires y < 2 * n
    ensures y < n <==> !(exists r :: 0 <= r < n && MirrorRow(n, r) == y)
    ensures y >= n ==> y == MirrorRow(n, 2 * n - 1 - y)
  {
    if y >= n {
      assert MirrorRow(n, 2 * n - 1 - y) == y;
    }
  }

  /** `(2n - y - s, m - x - s)`: the corner where tiletoimg writes the
      reversed copy of the tile at (y, x), for an image of n rows and m
      columns in tiles of s by s, extended to 2n rows. */
  function MirrorTile(n: nat, m: nat, s: nat, y: nat, x: nat): (t: (nat, nat))
    requires s >= 1 && n % s == 0 && m % s == 0
    requires y < n && x < m && y % s == 0 && x % s == 0
    ensures t.0 % s == 0 && t.1 % s == 0
    ensures n <= t.0 && t.0 + s <= 2 * n
    ensures t.1 + s <= m
  {
    MirrorAligned(n, s, y, 2);
    MirrorAligned(m, s, x, 1);
    (2 * n - y - s, m - x - s)
  }

  /** For multiples y < n of s, f * n - y - s is a multiple of s at least
      (f - 1) * n, and at most f * n - s. */
  lemma MirrorAligned(n: nat, s: nat, y: nat, f: nat)
    requires s >= 1 && n % s == 0 && y % s == 0 && y < n && f >= 1
    ensures y + s <= n && (f * n - y - s) % s == 0
  {
    var N, _ := DivMod(n, s);
    var Y, _ := DivMod(y, s);
    if Y >= N {
      MulLe(N, Y, s);
    }
    MulLe(Y + 1, N, s);
    assert f * n - y - s == (f * N - Y - 1) * s;
    DivModUnique(f * n - y - s, s, f * N - Y - 1, 0);
  }

  /** Tile copies visit the s by s pixels of a tile row by row: record i of
      the tile buffer is pixel (i / s, i % s) of the tile at (y, x). */
  function TilePixel(y: nat, x: nat, s: nat, i: nat): (nat, nat)
    requires s >= 1
  {
    (y + i / s, x + i % s)
  }

  /** Extension in tiles reflects the image through its centre: the record
      written at pixel P of the mirrored tile is the one the direct copy of
      the tile wrote at pixel (2n - 1 - P.y, m - 1 - P.x). */
  lemma MirrorTileReflects(n: nat, m: nat, s: nat, y: nat, x: nat, i: nat)
    requires s >= 1 && n % s == 0 && m % s == 0
    requires y < n && x < m && y % s == 0 && x % s == 0 && i < s * s
    ensures var t := MirrorTile(n, m, s, y, x);
            var P := TilePixel(t.0, t.1, s, i);
            && P.0 < 2 * n && P.1 < m
            && TilePixel(y, x, s, s * s - 1 - i) == (2 * n - 1 - P.0, m - 1 - P.1)
  {
    var t := MirrorTile(n, m, s, y, x);
    var a, b := DivMod(i, s);
    if a >= s {
      MulLe(s, a, s);
    }
    assert s * s - 1 - i == (s - 1 - a) * s + (s - 1 - b);
    DivModUnique(s * s - 1 - i, s, s - 1 - a, s - 1 - b);
  }

  /** Extension in scanlines reflects the image through its centre as well:
      float k of record x of the reversed scanline r, written at pixel
      (2n - r - 1, x), is float k of pixel (r, m - 1 - x) of the original. */
  lemma MirrorRowReflects<T>(n: nat, m: nat, r: nat, line: seq<T>, rev: seq<T>, c: nat, x: nat, k: nat)
    requires r < n && x < m && k < c && IsReversal(line, rev, c, m)
    ensures Rec(c, x, k) < |rev| && Rec(c, m - 1 - x, k) < |line|
    ensures rev[Rec(c, x, k)] == line[Rec(c, m - 1 - x, k)]
    ensures r == 2 * n - 1 - MirrorRow(n, r)
  {
  }
}
