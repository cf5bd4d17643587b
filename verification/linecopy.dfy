/** getrow, getcol, putrow and putcol of fourier.c: gathering a line of
    tiles into the raster with channels de-interleaved, the half shift and
    the bit-reversal permutation applied, and scattering the raster back.

    The loops visit the tiles of the line, then the rows i and columns j of
    each tile, in that order. A loop position is a `Step(u, i, j)`, u the
    tile along the line. */
module LineCopy {
  import opened Bits
  import opened Store
  import opened Raster

  datatype Step = Step(u: nat, i: nat, j: nat)

  /** Loop position t comes before (u, i, j). */
  predicate Before(t: Step, u: nat, i: nat, j: nat)
  {
    t.u < u || (t.u == u && t.i < i) || (t.u == u && t.i == i && t.j < j)
  }

  /** The tile the loop visits at tile u of line q: (q, u) along a row of
      tiles, (u, q) down a column. */
  function TileRow(tr: bool, q: nat, u: nat): nat
  {
    if tr then u else q
  }

  function TileCol(tr: bool, q: nat, u: nat): nat
  {
    if tr then q else u
  }

  /** The position along the line of pixel (i, j) of tile u: `(c << l) + j`
      for a row, `(r << l) + i` for a column. */
  function Along(d: Img, tr: bool, u: nat, i: nat, j: nat): nat
  {
    Shl(u, d.l) + (if tr then i else j)
  }

  /** The raster line of pixel (i, j): i for a row, j for a column. */
  function Across(tr: bool, i: nat, j: nat): nat
  {
    if tr then j else i
  }

  /** The loop position that visits raster line a, position `along`. */
  function StepOf(d: Img, tr: bool, a: nat, along: nat): Step
    requires d.s >= 1
  {
    var u := along / d.s;
    var inner := along % d.s;
    if tr then Step(u, inner, a) else Step(u, a, inner)
  }

  /** Loop positions and (line, position) pairs correspond one to one. */
  lemma StepCorrespondence(d: Img, tr: bool, u: nat, i: nat, j: nat, a: nat, along: nat)
    requires Valid(d) && u < Tiles(d, tr) && i < d.s && j < d.s && a < d.s
    ensures Along(d, tr, u, i, j) < Pow2(AxisLog(d, tr)) && Across(tr, i, j) < d.s
    ensures StepOf(d, tr, Across(tr, i, j), Along(d, tr, u, i, j)) == Step(u, i, j)
    ensures StepOf(d, tr, a, along) == Step(u, i, j) ==> a == Across(tr, i, j) && along == Along(d, tr, u, i, j)
  {
    LineGeometry(d, tr);
    StepArith(d.s, Tiles(d, tr), u, if tr then i else j, along);
  }

  lemma StepArith(s: nat, T: nat, u: nat, inner: nat, along: nat)
    requires s >= 1 && u < T && inner < s
    ensures u * s + inner < T * s
    ensures (u * s + inner) / s == u && (u * s + inner) % s == inner
    ensures along / s == u && along % s == inner ==> along == u * s + inner
  {
    RowBound(s, T, u, inner);
    DivModUnique(u * s + inner, s, u, inner);
  }

  /** Every raster position belongs to a loop position inside the line. */
  lemma StepInLine(d: Img, tr: bool, a: nat, along: nat)
    requires Valid(d) && along < Pow2(AxisLog(d, tr))
    ensures StepOf(d, tr, a, along).u < Tiles(d, tr)
    ensures StepOf(d, tr, a, along).i < d.s || StepOf(d, tr, a, along).i == a
    ensures StepOf(d, tr, a, along).j < d.s || StepOf(d, tr, a, along).j == a
  {
    LineGeometry(d, tr);
    DivBound(along, d.s, Tiles(d, tr));
  }

  //----------------------------------------------------------------------------
  // Gather

  /** What getrow and getcol demand: a valid image whose pixels have no more
      components than imgget copies, a line of tiles inside the image, a
      positive sign or a line of at least two samples (offset shifts by
      2^(L-1)), and an involutive permutation table of the line's length. */
  predicate GatherArgs(d: Img, tr: bool, q: nat, sg: int, v: seq<nat>)
  {
    && Valid(d) && Chans(d) <= d.p && q < Lines(d, tr)
    && (sg > 0 || AxisLog(d, tr) >= 1) && Involution(v, Pow2(AxisLog(d, tr)))
  }

  /** The image offset of the pixel gathered into raster line a, column x. */
  function GatherFrom(d: Img, tr: bool, q: nat, sg: int, v: seq<nat>, a: nat, x: nat): nat
    requires GatherArgs(d, tr, q, sg, v) && a < d.s && x < Pow2(AxisLog(d, tr))
  {
    Target(d, tr, q, 0, a, Source(v, x, AxisLog(d, tr), sg))
  }

  /** The raster positions filled once the loop has reached (u, i, j). */
  predicate Gathered(d: Img, tr: bool, sg: int, v: seq<nat>, a: nat, x: nat, u: nat, i: nat, j: nat)
    requires Valid(d) && (sg > 0 || AxisLog(d, tr) >= 1) && Involution(v, Pow2(AxisLog(d, tr)))
    requires x < Pow2(AxisLog(d, tr))
  {
    Before(StepOf(d, tr, a, Source(v, x, AxisLog(d, tr), sg)), u, i, j)
  }

  /** The gather loop's invariant at (u, i, j): positions already visited
      hold their pixel's components, all others are as they were. */
  ghost predicate GatherInv<T>(d: Img, tr: bool, q: nat, sg: int, v: seq<nat>, A: seq<T>,
                         z0: seq<T>, z: seq<T>, u: nat, i: nat, j: nat)
  {
    && GatherArgs(d, tr, q, sg, v) && |A| == Len(d)
    && |z| == |z0| == d.p * Stride(d, tr)
    && (forall k: nat, a: nat, x: nat ::
          k < Chans(d) && a < d.s && x < Pow2(AxisLog(d, tr))
          && Pos(d, tr, k, a, x) < |z| && GatherFrom(d, tr, q, sg, v, a, x) + k < |A| ==>
          z[Pos(d, tr, k, a, x)] ==
            if Gathered(d, tr, sg, v, a, x, u, i, j) then A[GatherFrom(d, tr, q, sg, v, a, x) + k]
            else z0[Pos(d, tr, k, a, x)])
    && (forall o :: Chans(d) * Stride(d, tr) <= o < |z| ==> z[o] == z0[o])
  }

  /** The pixel gathered into raster line a, column x exists, and its
      components are inside the store; the position is inside the raster. */
  lemma GatherBounds(d: Img, tr: bool, q: nat, sg: int, v: seq<nat>, k: nat, a: nat, x: nat)
    requires GatherArgs(d, tr, q, sg, v) && k < Chans(d) && a < d.s && x < Pow2(AxisLog(d, tr))
    ensures GatherFrom(d, tr, q, sg, v, a, x) + d.p <= Len(d)
    ensures Pos(d, tr, k, a, x) < Chans(d) * Stride(d, tr) <= d.p * Stride(d, tr)
  {
    var L := AxisLog(d, tr);
    DestSource(v, 0, x, L, sg);
    var P := LinePixel(d, tr, q, a, Source(v, x, L, sg));
    LinePixelInImage(d, tr, q, a, Source(v, x, L, sg));
    ImgzInBounds(d, P.0, P.1);
    PosFacts(d, tr, k, a, x);
    MulMono(k + 1, Chans(d), Stride(d, tr));
    MulMono(Chans(d), d.p, Stride(d, tr));
  }

  /** The pixel that the loop visits at (u, i, j) is the one gathered into
      the raster position it writes. */
  lemma GatherVisit(d: Img, tr: bool, q: nat, sg: int, v: seq<nat>, u: nat, i: nat, j: nat)
    requires GatherArgs(d, tr, q, sg, v) && u < Tiles(d, tr) && i < d.s && j < d.s
    ensures var L := AxisLog(d, tr);
            var along := Along(d, tr, u, i, j);
            && along < Pow2(L)
            && Dest(v, along, L, sg) < Pow2(L)
            && StepOf(d, tr, Across(tr, i, j), along) == Step(u, i, j)
            && Source(v, Dest(v, along, L, sg), L, sg) == along
            && GatherFrom(d, tr, q, sg, v, Across(tr, i, j), Dest(v, along, L, sg))
               == Imgbuf(d, TileRow(tr, q, u), TileCol(tr, q, u), i, j)
            && TileRow(tr, q, u) < d.h && TileCol(tr, q, u) < d.w
  {
    var L := AxisLog(d, tr);
    LineVisit(d, tr, q, u, i, j);
    DestSource(v, Along(d, tr, u, i, j), 0, L, sg);
  }

  /** Raster position (k, a, x) is none of the channel slots of another
      position (a', x'). */
  lemma NotSlot(d: Img, tr: bool, k: nat, a: nat, x: nat, a': nat, x': nat)
    requires Valid(d) && a < d.s && a' < d.s
    requires x < Pow2(AxisLog(d, tr)) && x' < Pow2(AxisLog(d, tr)) && (a, x) != (a', x')
    ensures !IsSlot(Pos(d, tr, k, a, x), Shl(a', AxisLog(d, tr)) + x', Stride(d, tr), Chans(d))
  {
    var zo := Shl(a', AxisLog(d, tr)) + x';
    if IsSlot(Pos(d, tr, k, a, x), zo, Stride(d, tr), Chans(d)) {
      var k': nat :| k' < Chans(d) && Pos(d, tr, k, a, x) == Slot(zo, Stride(d, tr), k');
      assert Slot(zo, Stride(d, tr), k') == Pos(d, tr, k', a', x');
      PosInjective(d, tr, k, a, x, k', a', x');
      assert false;
    }
  }

  /** The pixel one imgget of the gather loop visits lies inside the store
      and its raster slots inside the raster. */
  lemma GatherStepBounds<T>(d: Img, tr: bool, q: nat, sg: int, v: seq<nat>, A: seq<T>,
                            z0: seq<T>, z: seq<T>, u: nat, i: nat, j: nat)
    requires GatherInv(d, tr, q, sg, v, A, z0, z, u, i, j)
    requires u < Tiles(d, tr) && i < d.s && j < d.s
    ensures Along(d, tr, u, i, j) < Pow2(AxisLog(d, tr))
    ensures var zo := Shl(Across(tr, i, j), AxisLog(d, tr)) + Dest(v, Along(d, tr, u, i, j), AxisLog(d, tr), sg);
            && Imgbuf(d, TileRow(tr, q, u), TileCol(tr, q, u), i, j) + Chans(d) <= |A|
            && Stride(d, tr) >= 1 && Slot(zo, Stride(d, tr), Chans(d) - 1) < Chans(d) * Stride(d, tr) <= |z|
  {
    var L, St := AxisLog(d, tr), Stride(d, tr);
    var r, c := TileRow(tr, q, u), TileCol(tr, q, u);
    var along, ac := Along(d, tr, u, i, j), Across(tr, i, j);
    GatherVisit(d, tr, q, sg, v, u, i, j);
    var x := Dest(v, along, L, sg);
    ImgbufInTile(d, r, c, i, j);
    GatherBounds(d, tr, q, sg, v, Chans(d) - 1, ac, x);
    assert Slot(Shl(ac, L) + x, St, Chans(d) - 1) == Pos(d, tr, Chans(d) - 1, ac, x);
    PosFacts(d, tr, 1, 0, 0);
  }

  /** imgget in the gather loop writes below the planes of the copied
      channels only. */
  lemma GatherStepHigh<T>(d: Img, A: seq<T>, r: nat, c: nat, i: nat, j: nat, z: seq<T>, zo: nat, st: nat)
    requires Valid(d) && r < d.h && c < d.w && i < d.s && j < d.s && |A| == Len(d)
    requires Imgbuf(d, r, c, i, j) + Chans(d) <= |A|
    requires st >= 1 && Slot(zo, st, Chans(d) - 1) < Chans(d) * st <= |z|
    ensures forall o :: Chans(d) * st <= o < |z| ==> ImgGet(d, A, r, c, i, j, z, zo, st)[o] == z[o]
  {
    forall o | Chans(d) * st <= o < |z|
      ensures ImgGet(d, A, r, c, i, j, z, zo, st)[o] == z[o]
    {
      if IsSlot(o, zo, st, Chans(d)) {
        var k: nat :| k < Chans(d) && o == Slot(zo, st, k);
        assert false;
      }
    }
  }

  /** One imgget of the gather loop keeps the invariant, one step on: tile
      (r, c), tile line i, tile column j, written at raster offset zo with
      plane stride st. */
  lemma GatherStep<T>(d: Img, tr: bool, q: nat, sg: int, v: seq<nat>, A: seq<T>,
                      z0: seq<T>, z: seq<T>, u: nat, i: nat, j: nat, r: nat, c: nat, zo: nat, st: nat)
    requires GatherInv(d, tr, q, sg, v, A, z0, z, u, i, j)
    requires u < Tiles(d, tr) && i < d.s && j < d.s
    requires r == TileRow(tr, q, u) && c == TileCol(tr, q, u) && st == Stride(d, tr)
    requires Along(d, tr, u, i, j) < Pow2(AxisLog(d, tr))
    requires zo == Shl(Across(tr, i, j), AxisLog(d, tr)) + Dest(v, Along(d, tr, u, i, j), AxisLog(d, tr), sg)
    ensures && Imgbuf(d, r, c, i, j) + Chans(d) <= |A|
            && st >= 1 && Slot(zo, st, Chans(d) - 1) < |z|
    ensures GatherInv(d, tr, q, sg, v, A, z0, ImgGet(d, A, r, c, i, j, z, zo, st), u, i, j + 1)
  {
    GatherStepBounds(d, tr, q, sg, v, A, z0, z, u, i, j);
    var L := AxisLog(d, tr);
    GatherStepHigh(d, A, r, c, i, j, z, zo, st);
    var z' := ImgGet(d, A, r, c, i, j, z, zo, st);
    forall k: nat, a: nat, x': nat |
      k < Chans(d) && a < d.s && x' < Pow2(L)
      && Pos(d, tr, k, a, x') < |z'| && GatherFrom(d, tr, q, sg, v, a, x') + k < |A|
      ensures z'[Pos(d, tr, k, a, x')] ==
                if Gathered(d, tr, sg, v, a, x', u, i, j + 1) then A[GatherFrom(d, tr, q, sg, v, a, x') + k]
                else z0[Pos(d, tr, k, a, x')]
    {
      GatherStepAt(d, tr, q, sg, v, A, z0, z, u, i, j, k, a, x');
    }
  }

  /** GatherStep at one raster position. */
  lemma GatherStepAt<T>(d: Img, tr: bool, q: nat, sg: int, v: seq<nat>, A: seq<T>,
                        z0: seq<T>, z: seq<T>, u: nat, i: nat, j: nat, k: nat, a: nat, x': nat)
    requires GatherInv(d, tr, q, sg, v, A, z0, z, u, i, j)
    requires u < Tiles(d, tr) && i < d.s && j < d.s
    requires k < Chans(d) && a < d.s && x' < Pow2(AxisLog(d, tr))
    requires Along(d, tr, u, i, j) < Pow2(AxisLog(d, tr))
    requires var zo := Shl(Across(tr, i, j), AxisLog(d, tr)) + Dest(v, Along(d, tr, u, i, j), AxisLog(d, tr), sg);
             && Imgbuf(d, TileRow(tr, q, u), TileCol(tr, q, u), i, j) + Chans(d) <= |A|
             && Stride(d, tr) >= 1 && Slot(zo, Stride(d, tr), Chans(d) - 1) < |z|
    requires Pos(d, tr, k, a, x') < |z| && GatherFrom(d, tr, q, sg, v, a, x') + k < |A|
    ensures var zo := Shl(Across(tr, i, j), AxisLog(d, tr)) + Dest(v, Along(d, tr, u, i, j), AxisLog(d, tr), sg);
            var z' := ImgGet(d, A, TileRow(tr, q, u), TileCol(tr, q, u), i, j, z, zo, Stride(d, tr));
            z'[Pos(d, tr, k, a, x')] ==
              if Gathered(d, tr, sg, v, a, x', u, i, j + 1) then A[GatherFrom(d, tr, q, sg, v, a, x') + k]
              else z0[Pos(d, tr, k, a, x')]
  {
    var L, St := AxisLog(d, tr), Stride(d, tr);
    var along, ac := Along(d, tr, u, i, j), Across(tr, i, j);
    GatherVisit(d, tr, q, sg, v, u, i, j);
    var x := Dest(v, along, L, sg);
    var zo := Shl(ac, L) + x;
    if a == ac && x' == x {
      assert Pos(d, tr, k, a, x') == Slot(zo, St, k);
    } else {
      NotSlot(d, tr, k, a, x', ac, x);
      DestSource(v, along, x', L, sg);
      StepCorrespondence(d, tr, u, i, j, a, Source(v, x', L, sg));
    }
  }

  /** Finishing a row of a tile, or a whole tile, is reaching the start of
      the next. */
  lemma GatherCarry<T>(d: Img, tr: bool, q: nat, sg: int, v: seq<nat>, A: seq<T>,
                       z0: seq<T>, z: seq<T>, u: nat, i: nat)
    ensures GatherInv(d, tr, q, sg, v, A, z0, z, u, i, d.s) ==> GatherInv(d, tr, q, sg, v, A, z0, z, u, i + 1, 0)
    ensures GatherInv(d, tr, q, sg, v, A, z0, z, u, d.s, 0) ==> GatherInv(d, tr, q, sg, v, A, z0, z, u + 1, 0, 0)
  {
    if GatherArgs(d, tr, q, sg, v) {
      var L := AxisLog(d, tr);
      forall a: nat, x: nat | a < d.s && x < Pow2(L)
        ensures Gathered(d, tr, sg, v, a, x, u, i, d.s) == Gathered(d, tr, sg, v, a, x, u, i + 1, 0)
        ensures Gathered(d, tr, sg, v, a, x, u, d.s, 0) == Gathered(d, tr, sg, v, a, x, u + 1, 0, 0)
      {
        DestSource(v, 0, x, L, sg);
        StepInLine(d, tr, a, Source(v, x, L, sg));
      }
    }
  }

  /** After the last tile every position of the first Chans planes is filled. */
  lemma GatherAll(d: Img, tr: bool, sg: int, v: seq<nat>, a: nat, x: nat)
    requires Valid(d) && (sg > 0 || AxisLog(d, tr) >= 1) && Involution(v, Pow2(AxisLog(d, tr)))
    requires x < Pow2(AxisLog(d, tr))
    ensures Gathered(d, tr, sg, v, a, x, Tiles(d, tr), 0, 0)
  {
    DestSource(v, 0, x, AxisLog(d, tr), sg);
    StepInLine(d, tr, a, Source(v, x, AxisLog(d, tr), sg));
  }

  /** What the gather leaves behind: channel k of raster line a, column x
      holds component k of the pixel GatherFrom names, and the planes past
      the Chans copied are as they were in z0. */
  ghost predicate GatherResult<T>(d: Img, tr: bool, q: nat, sg: int, v: seq<nat>, A: seq<T>, z0: seq<T>, z: seq<T>)
    requires GatherArgs(d, tr, q, sg, v)
  {
    && |z| == |z0|
    && (forall k: nat, a: nat, x: nat :: k < Chans(d) && a < d.s && x < Pow2(AxisLog(d, tr)) ==>
          && Pos(d, tr, k, a, x) < |z| && GatherFrom(d, tr, q, sg, v, a, x) + k < |A|
          && z[Pos(d, tr, k, a, x)] == A[GatherFrom(d, tr, q, sg, v, a, x) + k])
    && (forall o :: Chans(d) * Stride(d, tr) <= o < |z0| ==> z[o] == z0[o])
  }

  /** The gather loop's invariant after the last tile is its result. */
  lemma GatherFinish<T>(d: Img, tr: bool, q: nat, sg: int, v: seq<nat>, A: seq<T>, z0: seq<T>, z: seq<T>)
    requires GatherInv(d, tr, q, sg, v, A, z0, z, Tiles(d, tr), 0, 0)
    ensures GatherResult(d, tr, q, sg, v, A, z0, z)
  {
    forall k: nat, a: nat, x: nat | k < Chans(d) && a < d.s && x < Pow2(AxisLog(d, tr))
      ensures && Pos(d, tr, k, a, x) < |z| && GatherFrom(d, tr, q, sg, v, a, x) + k < |A|
              && z[Pos(d, tr, k, a, x)] == A[GatherFrom(d, tr, q, sg, v, a, x) + k]
    {
      GatherBounds(d, tr, q, sg, v, k, a, x);
      GatherAll(d, tr, sg, v, a, x);
    }
  }

  /** GatherStep in the terms getrow writes. */
  lemma GetRowStep<T>(d: Img, r: nat, sg: int, v: seq<nat>, A: seq<T>, z0: seq<T>, z: seq<T>,
                      c: nat, i: nat, j: nat)
    requires GatherInv(d, false, r, sg, v, A, z0, z, c, i, j) && c < d.w && i < d.s && j < d.s
    ensures (sg > 0 || d.m >= 1) && Offset(Shl(c, d.l) + j, d.m, sg) < |v|
    ensures var zo := Shl(i, d.m) + v[Offset(Shl(c, d.l) + j, d.m, sg)];
            && Imgbuf(d, r, c, i, j) + Chans(d) <= |A|
            && Shl(d.s, d.m) >= 1 && Slot(zo, Shl(d.s, d.m), Chans(d) - 1) < |z|
    ensures var zo := Shl(i, d.m) + v[Offset(Shl(c, d.l) + j, d.m, sg)];
            GatherInv(d, false, r, sg, v, A, z0, ImgGet(d, A, r, c, i, j, z, zo, Shl(d.s, d.m)), c, i, j + 1)
  {
    GatherStepBounds(d, false, r, sg, v, A, z0, z, c, i, j);
    var zo := Shl(i, d.m) + v[Offset(Shl(c, d.l) + j, d.m, sg)];
    GatherStep(d, false, r, sg, v, A, z0, z, c, i, j, r, c, zo, Shl(d.s, d.m));
  }

  /** GatherStep in the terms getcol writes. */
  lemma GetColStep<T>(d: Img, c: nat, sg: int, v: seq<nat>, A: seq<T>, z0: seq<T>, z: seq<T>,
                      r: nat, i: nat, j: nat)
    requires GatherInv(d, true, c, sg, v, A, z0, z, r, i, j) && r < d.h && i < d.s && j < d.s
    ensures (sg > 0 || d.n >= 1) && Offset(Shl(r, d.l) + i, d.n, sg) < |v|
    ensures var zo := Shl(j, d.n) + v[Offset(Shl(r, d.l) + i, d.n, sg)];
            && Imgbuf(d, r, c, i, j) + Chans(d) <= |A|
            && Shl(d.s, d.n) >= 1 && Slot(zo, Shl(d.s, d.n), Chans(d) - 1) < |z|
    ensures var zo := Shl(j, d.n) + v[Offset(Shl(r, d.l) + i, d.n, sg)];
            GatherInv(d, true, c, sg, v, A, z0, ImgGet(d, A, r, c, i, j, z, zo, Shl(d.s, d.n)), r, i, j + 1)
  {
    GatherStepBounds(d, true, c, sg, v, A, z0, z, r, i, j);
    var zo := Shl(j, d.n) + v[Offset(Shl(r, d.l) + i, d.n, sg)];
    GatherStep(d, true, c, sg, v, A, z0, z, r, i, j, r, c, zo, Shl(d.s, d.n));
  }

  /** The innermost loop of getrow: the s pixels of line i of tile (r, c). */
  method GetRowSpan<T>(d: Img, r: nat, sg: int, v: seq<nat>, A: seq<T>, z0: seq<T>, z: seq<T>,
                       c: nat, i: nat) returns (z': seq<T>)
    requires GatherInv(d, false, r, sg, v, A, z0, z, c, i, 0) && c < d.w && i < d.s
    ensures GatherInv(d, false, r, sg, v, A, z0, z', c, i + 1, 0)
  {
    z' := z;
    var j := 0;
    while j < d.s
      invariant j <= d.s && GatherInv(d, false, r, sg, v, A, z0, z', c, i, j)
    {
      GetRowStep(d, r, sg, v, A, z0, z', c, i, j);
      var x := v[Offset(Shl(c, d.l) + j, d.m, sg)];
      z' := ImgGet(d, A, r, c, i, j, z', Shl(i, d.m) + x, Shl(d.s, d.m));
      j := j + 1;
    }
    GatherCarry(d, false, r, sg, v, A, z0, z', c, i);
  }

  /** The innermost loop of getcol: the s pixels of line i of tile (r, c). */
  method GetColSpan<T>(d: Img, c: nat, sg: int, v: seq<nat>, A: seq<T>, z0: seq<T>, z: seq<T>,
                       r: nat, i: nat) returns (z': seq<T>)
    requires GatherInv(d, true, c, sg, v, A, z0, z, r, i, 0) && r < d.h && i < d.s
    ensures GatherInv(d, true, c, sg, v, A, z0, z', r, i + 1, 0)
  {
    z' := z;
    var j := 0;
    while j < d.s
      invariant j <= d.s && GatherInv(d, true, c, sg, v, A, z0, z', r, i, j)
    {
      GetColStep(d, c, sg, v, A, z0, z', r, i, j);
      var y := v[Offset(Shl(r, d.l) + i, d.n, sg)];
      z' := ImgGet(d, A, r, c, i, j, z', Shl(j, d.n) + y, Shl(d.s, d.n));
      j := j + 1;
    }
    GatherCarry(d, true, c, sg, v, A, z0, z', r, i);
  }

  /** One tile of getrow's or getcol's loop: every pixel line of tile u,
      through GetRowSpan or GetColSpan. */
  method GatherTile<T>(d: Img, tr: bool, q: nat, sg: int, v: seq<nat>, A: seq<T>, z0: seq<T>, z: seq<T>,
                       u: nat) returns (z': seq<T>)
    requires GatherInv(d, tr, q, sg, v, A, z0, z, u, 0, 0) && u < Tiles(d, tr)
    ensures GatherInv(d, tr, q, sg, v, A, z0, z', u + 1, 0, 0)
  {
    z' := z;
    var i := 0;
    while i < d.s
      invariant i <= d.s && GatherInv(d, tr, q, sg, v, A, z0, z', u, i, 0)
    {
      if tr {
        z' := GetColSpan(d, q, sg, v, A, z0, z', u, i);
      } else {
        z' := GetRowSpan(d, q, sg, v, A, z0, z', u, i);
      }
      i := i + 1;
    }
    GatherCarry(d, tr, q, sg, v, A, z0, z', u, i);
  }

  /** The tile loop getrow and getcol share, and what it leaves behind. */
  method GatherTiles<T>(d: Img, tr: bool, q: nat, sg: int, v: seq<nat>, A: seq<T>, z: seq<T>)
    returns (z': seq<T>)
    requires GatherArgs(d, tr, q, sg, v) && |A| == Len(d) && |z| == d.p * Stride(d, tr)
    ensures GatherResult(d, tr, q, sg, v, A, z, z')
  {
    z' := GatherLoop(d, tr, q, sg, v, A, z);
    GatherFinish(d, tr, q, sg, v, A, z, z');
  }

  /** The loop over the tiles of the line. */
  method GatherLoop<T>(d: Img, tr: bool, q: nat, sg: int, v: seq<nat>, A: seq<T>, z: seq<T>)
    returns (z': seq<T>)
    requires GatherArgs(d, tr, q, sg, v) && |A| == Len(d) && |z| == d.p * Stride(d, tr)
    ensures GatherInv(d, tr, q, sg, v, A, z, z', Tiles(d, tr), 0, 0)
  {
    z' := z;
    var u := 0;
    while u < Tiles(d, tr)
      invariant u <= Tiles(d, tr) && GatherInv(d, tr, q, sg, v, A, z, z', u, 0, 0)
    {
      z' := GatherTile(d, tr, q, sg, v, A, z, z', u);
      u := u + 1;
    }
  }

  /** `getrow(d, r, s, v, z)`: gather row r of tiles into the raster. Raster
      line i, column x, channel k receives channel k of pixel
      (r s + i, offset(v[x])) of the image; the planes of channels imgget
      does not copy are left as they were. */
  method GetRow<T>(d: Img, r: nat, sg: int, v: seq<nat>, A: seq<T>, z: seq<T>) returns (z': seq<T>)
    requires GatherArgs(d, false, r, sg, v) && |A| == Len(d) && |z| == d.p * Stride(d, false)
    ensures |z'| == |z|
    ensures forall k: nat, a: nat, x: nat :: k < Chans(d) && a < d.s && x < Pow2(d.m) ==>
              && Pos(d, false, k, a, x) < |z'| && GatherFrom(d, false, r, sg, v, a, x) + k < |A|
              && z'[Pos(d, false, k, a, x)] == A[GatherFrom(d, false, r, sg, v, a, x) + k]
    ensures forall o :: Chans(d) * Stride(d, false) <= o < |z| ==> z'[o] == z[o]
  {
    z' := GatherTiles(d, false, r, sg, v, A, z);
    assert AxisLog(d, false) == d.m;
  }

  /** `getcol(d, c, s, v, z)`: gather column c of tiles into the raster,
      transposed. Raster line j, position y, channel k receives channel k of
      pixel (offset(v[y]), c s + j); the plane stride is s << n. */
  method GetCol<T>(d: Img, c: nat, sg: int, v: seq<nat>, A: seq<T>, z: seq<T>) returns (z': seq<T>)
    requires GatherArgs(d, true, c, sg, v) && |A| == Len(d) && |z| == d.p * Stride(d, true)
    ensures |z'| == |z|
    ensures forall k: nat, a: nat, y: nat :: k < Chans(d) && a < d.s && y < Pow2(d.n) ==>
              && Pos(d, true, k, a, y) < |z'| && GatherFrom(d, true, c, sg, v, a, y) + k < |A|
              && z'[Pos(d, true, k, a, y)] == A[GatherFrom(d, true, c, sg, v, a, y) + k]
    ensures forall o :: Chans(d) * Stride(d, true) <= o < |z| ==> z'[o] == z[o]
  {
    z' := GatherTiles(d, true, c, sg, v, A, z);
    assert AxisLog(d, true) == d.n;
  }


  /** What putrow and putcol demand: as for the gather, but offset is taken
      with the sign negated and there is no table. */
  predicate ScatterArgs(d: Img, tr: bool, q: nat, sg: int)
  {
    && Valid(d) && Chans(d) <= d.p && q < Lines(d, tr)
    && (sg < 0 || AxisLog(d, tr) >= 1)
  }

  /** The store offset of channel k of sample `along` of raster line a of
      line q of tiles. */
  function Target(d: Img, tr: bool, q: nat, k: nat, a: nat, along: nat): nat
    requires Valid(d)
  {
    var P := LinePixel(d, tr, q, a, along);
    Imgz(d, P.0, P.1) + k
  }

  /** The raster position putrow and putcol read for that sample. */
  function ScatterFrom(d: Img, tr: bool, sg: int, k: nat, a: nat, along: nat): nat
    requires sg < 0 || AxisLog(d, tr) >= 1
  {
    Pos(d, tr, k, a, Offset(along, AxisLog(d, tr), -sg))
  }

  /** The line of tiles holding the sample at store offset o: its tile row,
      or its tile column when transposed. */
  function LineOf(d: Img, tr: bool, o: nat): nat
    requires Valid(d)
  {
    var e := PixelOf(d, o);
    Shr(if tr then e.x else e.y, d.l)
  }

  /** Store offset o holds a channel imgput copies, of a pixel of line q of
      tiles. */
  predicate InLine(d: Img, tr: bool, q: nat, o: nat)
    requires Valid(d)
  {
    PixelOf(d, o).k < Chans(d) && LineOf(d, tr, o) == q
  }

  /** The scatter loop's invariant at (u, i, j): samples already visited
      hold their raster values, all others are as they were. */
  ghost predicate ScatterInv<T>(d: Img, tr: bool, q: nat, sg: int, z: seq<T>,
                                A0: seq<T>, A: seq<T>, u: nat, i: nat, j: nat)
  {
    && ScatterArgs(d, tr, q, sg) && |A| == |A0| == Len(d) && |z| == d.p * Stride(d, tr)
    && (forall k: nat, a: nat, x: nat ::
          k < Chans(d) && a < d.s && x < Pow2(AxisLog(d, tr))
          && Target(d, tr, q, k, a, x) < |A| && ScatterFrom(d, tr, sg, k, a, x) < |z| ==>
          A[Target(d, tr, q, k, a, x)] ==
            if Before(StepOf(d, tr, a, x), u, i, j) then z[ScatterFrom(d, tr, sg, k, a, x)]
            else A0[Target(d, tr, q, k, a, x)])
    && (forall o :: 0 <= o < |A| && !InLine(d, tr, q, o) ==> A[o] == A0[o])
  }

  /** A sample of the line is inside the store, and the raster position it
      is read from inside the planes of the copied channels. */
  lemma ScatterBounds(d: Img, tr: bool, q: nat, sg: int, k: nat, a: nat, x: nat)
    requires ScatterArgs(d, tr, q, sg) && k < Chans(d) && a < d.s && x < Pow2(AxisLog(d, tr))
    ensures Target(d, tr, q, k, a, x) < Len(d)
    ensures Offset(x, AxisLog(d, tr), -sg) < Pow2(AxisLog(d, tr))
    ensures ScatterFrom(d, tr, sg, k, a, x) < Chans(d) * Stride(d, tr) <= d.p * Stride(d, tr)
  {
    var L := AxisLog(d, tr);
    OffsetInvolution(x, L, -sg);
    var P := LinePixel(d, tr, q, a, x);
    LinePixelInImage(d, tr, q, a, x);
    ImgzInBounds(d, P.0, P.1);
    PosFacts(d, tr, k, a, Offset(x, L, -sg));
    MulMono(k + 1, Chans(d), Stride(d, tr));
    MulMono(Chans(d), d.p, Stride(d, tr));
  }

  /** The loop position (u, i, j) visits the first channel of sample
      (Across, Along) of the line. */
  lemma LineVisit(d: Img, tr: bool, q: nat, u: nat, i: nat, j: nat)
    requires Valid(d) && q < Lines(d, tr) && u < Tiles(d, tr) && i < d.s && j < d.s
    ensures Along(d, tr, u, i, j) < Pow2(AxisLog(d, tr)) && Across(tr, i, j) < d.s
    ensures StepOf(d, tr, Across(tr, i, j), Along(d, tr, u, i, j)) == Step(u, i, j)
    ensures TileRow(tr, q, u) < d.h && TileCol(tr, q, u) < d.w
    ensures Target(d, tr, q, 0, Across(tr, i, j), Along(d, tr, u, i, j))
            == Imgbuf(d, TileRow(tr, q, u), TileCol(tr, q, u), i, j)
  {
    var along := Along(d, tr, u, i, j);
    StepCorrespondence(d, tr, u, i, j, 0, 0);
    var P := LinePixel(d, tr, q, Across(tr, i, j), along);
    Geometry(d);
    ImgzIsImgbuf(d, P.0, P.1);
    assert along == u * d.s + (if tr then i else j);
    DivModUnique(along, d.s, u, if tr then i else j);
    DivModUnique(q * d.s + Across(tr, i, j), d.s, q, Across(tr, i, j));
    LineGeometry(d, tr);
    assert Lines(d, tr) * d.s == Pow2(if tr then d.m else d.n);
    assert q < (if tr then d.w else d.h);
  }

  /** Distinct samples of the line own disjoint channel ranges of the store. */
  lemma ScatterDisjoint(d: Img, tr: bool, q: nat, k: nat, a: nat, x: nat, a': nat, x': nat)
    requires Valid(d) && q < Lines(d, tr) && Chans(d) <= d.p && k < Chans(d)
    requires a < d.s && a' < d.s && x < Pow2(AxisLog(d, tr)) && x' < Pow2(AxisLog(d, tr))
    requires (a, x) != (a', x')
    ensures !(Target(d, tr, q, 0, a', x') <= Target(d, tr, q, k, a, x) < Target(d, tr, q, 0, a', x') + Chans(d))
  {
    var b := Target(d, tr, q, 0, a', x');
    if b <= Target(d, tr, q, k, a, x) < b + Chans(d) {
      var k' := Target(d, tr, q, k, a, x) - b;
      var P, P' := LinePixel(d, tr, q, a, x), LinePixel(d, tr, q, a', x');
      LinePixelInImage(d, tr, q, a, x);
      LinePixelInImage(d, tr, q, a', x');
      ImgzInjective(d, Sample(P.0, P.1, k), Sample(P'.0, P'.1, k'));
      assert false;
    }
  }

  /** Every copied channel of a pixel of the line is one the scatter writes. */
  lemma InLineTarget(d: Img, tr: bool, q: nat, o: nat) returns (k: nat, a: nat, x: nat)
    requires Valid(d) && q < Lines(d, tr) && o < Len(d) && InLine(d, tr, q, o)
    ensures k < Chans(d) && a < d.s && x < Pow2(AxisLog(d, tr))
    ensures o == Target(d, tr, q, k, a, x)
  {
    PixelOfInverse(d, o);
    var e := PixelOf(d, o);
    Geometry(d);
    var across := if tr then e.x else e.y;
    var hi, lo := DivMod(across, d.s);
    k, a, x := e.k, lo, if tr then e.y else e.x;
    assert LinePixel(d, tr, q, a, x) == (e.y, e.x);
  }

  /** The sample that one imgput of the scatter loop writes lies inside the
      store, and the raster slots it reads inside the raster. */
  lemma ScatterStepBounds<T>(d: Img, tr: bool, q: nat, sg: int, z: seq<T>, A0: seq<T>, A: seq<T>,
                             u: nat, i: nat, j: nat)
    requires ScatterInv(d, tr, q, sg, z, A0, A, u, i, j)
    requires u < Tiles(d, tr) && i < d.s && j < d.s
    ensures Along(d, tr, u, i, j) < Pow2(AxisLog(d, tr))
    ensures var zo := Shl(Across(tr, i, j), AxisLog(d, tr)) + Offset(Along(d, tr, u, i, j), AxisLog(d, tr), -sg);
            && Imgbuf(d, TileRow(tr, q, u), TileCol(tr, q, u), i, j) + Chans(d) <= |A|
            && Stride(d, tr) >= 1 && Slot(zo, Stride(d, tr), Chans(d) - 1) < Chans(d) * Stride(d, tr) <= |z|
  {
    var L, St := AxisLog(d, tr), Stride(d, tr);
    var along, ac := Along(d, tr, u, i, j), Across(tr, i, j);
    LineVisit(d, tr, q, u, i, j);
    ImgbufInTile(d, TileRow(tr, q, u), TileCol(tr, q, u), i, j);
    ScatterBounds(d, tr, q, sg, Chans(d) - 1, ac, along);
    assert Slot(Shl(ac, L) + Offset(along, L, -sg), St, Chans(d) - 1) == ScatterFrom(d, tr, sg, Chans(d) - 1, ac, along);
    PosFacts(d, tr, 1, 0, 0);
  }

  /** imgput in the scatter loop writes only copied channels of the line. */
  lemma ScatterStepOut<T>(d: Img, tr: bool, q: nat, u: nat, i: nat, j: nat, r: nat, c: nat,
                          A: seq<T>, z: seq<T>, zo: nat, st: nat)
    requires Valid(d) && q < Lines(d, tr) && u < Tiles(d, tr) && i < d.s && j < d.s && Chans(d) <= d.p
    requires r == TileRow(tr, q, u) && c == TileCol(tr, q, u)
    requires Imgbuf(d, r, c, i, j) + Chans(d) <= |A| && Slot(zo, st, Chans(d) - 1) < |z|
    ensures forall o :: 0 <= o < |A| && !InLine(d, tr, q, o) ==> ImgPut(d, A, r, c, i, j, z, zo, st)[o] == A[o]
  {
    forall o | 0 <= o < |A| && !InLine(d, tr, q, o)
      ensures ImgPut(d, A, r, c, i, j, z, zo, st)[o] == A[o]
    {
      var b := Imgbuf(d, r, c, i, j);
      if b <= o < b + Chans(d) {
        LineVisit(d, tr, q, u, i, j);
        PixelOfImgbuf(d, r, c, i, j, o - b);
        DivModUnique(q * d.s + Across(tr, i, j), d.s, q, Across(tr, i, j));
        assert false;
      }
    }
  }

  /** ScatterStep at one sample of the line. */
  lemma ScatterStepAt<T>(d: Img, tr: bool, q: nat, sg: int, z: seq<T>, A0: seq<T>, A: seq<T>,
                         u: nat, i: nat, j: nat, r: nat, c: nat, zo: nat, st: nat, k: nat, a: nat, x: nat)
    requires ScatterInv(d, tr, q, sg, z, A0, A, u, i, j)
    requires u < Tiles(d, tr) && i < d.s && j < d.s
    requires r == TileRow(tr, q, u) && c == TileCol(tr, q, u) && st == Stride(d, tr)
    requires zo == Shl(Across(tr, i, j), AxisLog(d, tr)) + Offset(Along(d, tr, u, i, j), AxisLog(d, tr), -sg)
    requires Imgbuf(d, r, c, i, j) + Chans(d) <= |A| && Slot(zo, st, Chans(d) - 1) < |z|
    requires k < Chans(d) && a < d.s && x < Pow2(AxisLog(d, tr))
    requires Target(d, tr, q, k, a, x) < |A| && ScatterFrom(d, tr, sg, k, a, x) < |z|
    ensures ImgPut(d, A, r, c, i, j, z, zo, st)[Target(d, tr, q, k, a, x)] ==
              if Before(StepOf(d, tr, a, x), u, i, j + 1) then z[ScatterFrom(d, tr, sg, k, a, x)]
              else A0[Target(d, tr, q, k, a, x)]
  {
    var along, ac := Along(d, tr, u, i, j), Across(tr, i, j);
    LineVisit(d, tr, q, u, i, j);
    if a == ac && x == along {
      assert Target(d, tr, q, k, a, x) == Imgbuf(d, r, c, i, j) + k;
      assert ScatterFrom(d, tr, sg, k, a, x) == Slot(zo, st, k);
    } else {
      StepCorrespondence(d, tr, u, i, j, a, x);
      ScatterDisjoint(d, tr, q, k, a, x, ac, along);
    }
  }

  /** One imgput of the scatter loop keeps the invariant, one step on: tile
      (r, c), tile line i, tile column j, read from raster offset zo with
      plane stride st. */
  lemma ScatterStep<T>(d: Img, tr: bool, q: nat, sg: int, z: seq<T>, A0: seq<T>, A: seq<T>,
                       u: nat, i: nat, j: nat, r: nat, c: nat, zo: nat, st: nat)
    requires ScatterInv(d, tr, q, sg, z, A0, A, u, i, j)
    requires u < Tiles(d, tr) && i < d.s && j < d.s
    requires r == TileRow(tr, q, u) && c == TileCol(tr, q, u) && st == Stride(d, tr)
    requires zo == Shl(Across(tr, i, j), AxisLog(d, tr)) + Offset(Along(d, tr, u, i, j), AxisLog(d, tr), -sg)
    ensures Imgbuf(d, r, c, i, j) + Chans(d) <= |A| && Slot(zo, st, Chans(d) - 1) < |z|
    ensures ScatterInv(d, tr, q, sg, z, A0, ImgPut(d, A, r, c, i, j, z, zo, st), u, i, j + 1)
  {
    ScatterStepBounds(d, tr, q, sg, z, A0, A, u, i, j);
    ScatterStepOut(d, tr, q, u, i, j, r, c, A, z, zo, st);
    var A' := ImgPut(d, A, r, c, i, j, z, zo, st);
    forall k: nat, a: nat, x: nat |
      k < Chans(d) && a < d.s && x < Pow2(AxisLog(d, tr))
      && Target(d, tr, q, k, a, x) < |A'| && ScatterFrom(d, tr, sg, k, a, x) < |z|
      ensures A'[Target(d, tr, q, k, a, x)] ==
                if Before(StepOf(d, tr, a, x), u, i, j + 1) then z[ScatterFrom(d, tr, sg, k, a, x)]
                else A0[Target(d, tr, q, k, a, x)]
    {
      ScatterStepAt(d, tr, q, sg, z, A0, A, u, i, j, r, c, zo, st, k, a, x);
    }
  }

  /** Finishing a row of a tile, or a whole tile, is reaching the start of
      the next. */
  lemma ScatterCarry<T>(d: Img, tr: bool, q: nat, sg: int, z: seq<T>, A0: seq<T>, A: seq<T>, u: nat, i: nat)
    ensures ScatterInv(d, tr, q, sg, z, A0, A, u, i, d.s) ==> ScatterInv(d, tr, q, sg, z, A0, A, u, i + 1, 0)
    ensures ScatterInv(d, tr, q, sg, z, A0, A, u, d.s, 0) ==> ScatterInv(d, tr, q, sg, z, A0, A, u + 1, 0, 0)
  {
    if ScatterArgs(d, tr, q, sg) {
      forall a: nat, x: nat | a < d.s && x < Pow2(AxisLog(d, tr))
        ensures Before(StepOf(d, tr, a, x), u, i, d.s) == Before(StepOf(d, tr, a, x), u, i + 1, 0)
        ensures Before(StepOf(d, tr, a, x), u, d.s, 0) == Before(StepOf(d, tr, a, x), u + 1, 0, 0)
      {
        StepInLine(d, tr, a, x);
      }
    }
  }

  /** The scatter loop's invariant after the last tile is its result. */
  lemma ScatterFinish<T>(d: Img, tr: bool, q: nat, sg: int, z: seq<T>, A0: seq<T>, A: seq<T>)
    requires ScatterInv(d, tr, q, sg, z, A0, A, Tiles(d, tr), 0, 0)
    ensures |A| == |A0|
    ensures forall k: nat, a: nat, x: nat :: k < Chans(d) && a < d.s && x < Pow2(AxisLog(d, tr)) ==>
              && Target(d, tr, q, k, a, x) < |A| && ScatterFrom(d, tr, sg, k, a, x) < |z|
              && A[Target(d, tr, q, k, a, x)] == z[ScatterFrom(d, tr, sg, k, a, x)]
    ensures forall o :: 0 <= o < |A0| && !InLine(d, tr, q, o) ==> A[o] == A0[o]
  {
    forall k: nat, a: nat, x: nat | k < Chans(d) && a < d.s && x < Pow2(AxisLog(d, tr))
      ensures && Target(d, tr, q, k, a, x) < |A| && ScatterFrom(d, tr, sg, k, a, x) < |z|
              && A[Target(d, tr, q, k, a, x)] == z[ScatterFrom(d, tr, sg, k, a, x)]
    {
      ScatterBounds(d, tr, q, sg, k, a, x);
      StepInLine(d, tr, a, x);
    }
  }

  /** ScatterStep in the terms putrow writes. */
  lemma PutRowStep<T>(d: Img, r: nat, sg: int, z: seq<T>, A0: seq<T>, A: seq<T>, c: nat, i: nat, j: nat)
    requires ScatterInv(d, false, r, sg, z, A0, A, c, i, j) && c < d.w && i < d.s && j < d.s
    ensures sg < 0 || d.m >= 1
    ensures var zo := Shl(i, d.m) + Offset(Shl(c, d.l) + j, d.m, -sg);
            && Imgbuf(d, r, c, i, j) + Chans(d) <= |A| && Slot(zo, Shl(d.s, d.m), Chans(d) - 1) < |z|
            && ScatterInv(d, false, r, sg, z, A0, ImgPut(d, A, r, c, i, j, z, zo, Shl(d.s, d.m)), c, i, j + 1)
  {
    var zo := Shl(i, d.m) + Offset(Shl(c, d.l) + j, d.m, -sg);
    ScatterStep(d, false, r, sg, z, A0, A, c, i, j, r, c, zo, Shl(d.s, d.m));
  }

  /** ScatterStep in the terms putcol writes. */
  lemma PutColStep<T>(d: Img, c: nat, sg: int, z: seq<T>, A0: seq<T>, A: seq<T>, r: nat, i: nat, j: nat)
    requires ScatterInv(d, true, c, sg, z, A0, A, r, i, j) && r < d.h && i < d.s && j < d.s
    ensures sg < 0 || d.n >= 1
    ensures var zo := Shl(j, d.n) + Offset(Shl(r, d.l) + i, d.n, -sg);
            && Imgbuf(d, r, c, i, j) + Chans(d) <= |A| && Slot(zo, Shl(d.s, d.n), Chans(d) - 1) < |z|
            && ScatterInv(d, true, c, sg, z, A0, ImgPut(d, A, r, c, i, j, z, zo, Shl(d.s, d.n)), r, i, j + 1)
  {
    var zo := Shl(j, d.n) + Offset(Shl(r, d.l) + i, d.n, -sg);
    ScatterStep(d, true, c, sg, z, A0, A, r, i, j, r, c, zo, Shl(d.s, d.n));
  }

  /** The innermost loop of putrow: the s pixels of line i of tile (r, c). */
  method PutRowSpan<T>(d: Img, r: nat, sg: int, z: seq<T>, A0: seq<T>, A: seq<T>, c: nat, i: nat)
    returns (A': seq<T>)
    requires ScatterInv(d, false, r, sg, z, A0, A, c, i, 0) && c < d.w && i < d.s
    ensures ScatterInv(d, false, r, sg, z, A0, A', c, i + 1, 0)
  {
    A' := A;
    var j := 0;
    while j < d.s
      invariant j <= d.s && ScatterInv(d, false, r, sg, z, A0, A', c, i, j)
    {
      PutRowStep(d, r, sg, z, A0, A', c, i, j);
      var x := Offset(Shl(c, d.l) + j, d.m, -sg);
      A' := ImgPut(d, A', r, c, i, j, z, Shl(i, d.m) + x, Shl(d.s, d.m));
      j := j + 1;
    }
    ScatterCarry(d, false, r, sg, z, A0, A', c, i);
  }

  /** The innermost loop of putcol: the s pixels of line i of tile (r, c). */
  method PutColSpan<T>(d: Img, c: nat, sg: int, z: seq<T>, A0: seq<T>, A: seq<T>, r: nat, i: nat)
    returns (A': seq<T>)
    requires ScatterInv(d, true, c, sg, z, A0, A, r, i, 0) && r < d.h && i < d.s
    ensures ScatterInv(d, true, c, sg, z, A0, A', r, i + 1, 0)
  {
    A' := A;
    var j := 0;
    while j < d.s
      invariant j <= d.s && ScatterInv(d, true, c, sg, z, A0, A', r, i, j)
    {
      PutColStep(d, c, sg, z, A0, A', r, i, j);
      var y := Offset(Shl(r, d.l) + i, d.n, -sg);
      A' := ImgPut(d, A', r, c, i, j, z, Shl(j, d.n) + y, Shl(d.s, d.n));
      j := j + 1;
    }
    ScatterCarry(d, true, c, sg, z, A0, A', r, i);
  }

  /** `putrow(d, r, s, z)`: scatter the raster back into row r of tiles.
      Channel k of pixel (r s + a, x) receives raster line a, column
      offset(x, m, -s), channel k; every other sample of the store, in
      other rows of tiles or channels imgput does not copy, is unchanged. */
  method PutRow<T>(d: Img, r: nat, sg: int, z: seq<T>, A: seq<T>) returns (A': seq<T>)
    requires ScatterArgs(d, false, r, sg) && |A| == Len(d) && |z| == d.p * Stride(d, false)
    ensures |A'| == |A|
    ensures forall k: nat, a: nat, x: nat :: k < Chans(d) && a < d.s && x < Pow2(d.m) ==>
              && Target(d, false, r, k, a, x) < |A'| && ScatterFrom(d, false, sg, k, a, x) < |z|
              && A'[Target(d, false, r, k, a, x)] == z[ScatterFrom(d, false, sg, k, a, x)]
    ensures forall o :: 0 <= o < |A| && !InLine(d, false, r, o) ==> A'[o] == A[o]
  {
    A' := A;
    var c := 0;
    while c < d.w
      invariant c <= d.w && ScatterInv(d, false, r, sg, z, A, A', c, 0, 0)
    {
      var i := 0;
      while i < d.s
        invariant i <= d.s && ScatterInv(d, false, r, sg, z, A, A', c, i, 0)
      {
        A' := PutRowSpan(d, r, sg, z, A, A', c, i);
        i := i + 1;
      }
      ScatterCarry(d, false, r, sg, z, A, A', c, i);
      c := c + 1;
    }
    assert AxisLog(d, false) == d.m && Tiles(d, false) == c;
    ScatterFinish(d, false, r, sg, z, A, A');
  }

  /** `putcol(d, c, s, z)`: scatter the transposed raster back into column c
      of tiles. Channel k of pixel (y, c s + a) receives raster line a,
      position offset(y, n, -s), channel k; the plane stride is s << n. */
  method PutCol<T>(d: Img, c: nat, sg: int, z: seq<T>, A: seq<T>) returns (A': seq<T>)
    requires ScatterArgs(d, true, c, sg) && |A| == Len(d) && |z| == d.p * Stride(d, true)
    ensures |A'| == |A|
    ensures forall k: nat, a: nat, y: nat :: k < Chans(d) && a < d.s && y < Pow2(d.n) ==>
              && Target(d, true, c, k, a, y) < |A'| && ScatterFrom(d, true, sg, k, a, y) < |z|
              && A'[Target(d, true, c, k, a, y)] == z[ScatterFrom(d, true, sg, k, a, y)]
    ensures forall o :: 0 <= o < |A| && !InLine(d, true, c, o) ==> A'[o] == A[o]
  {
    A' := A;
    var r := 0;
    while r < d.h
      invariant r <= d.h && ScatterInv(d, true, c, sg, z, A, A', r, 0, 0)
    {
      var i := 0;
      while i < d.s
        invariant i <= d.s && ScatterInv(d, true, c, sg, z, A, A', r, i, 0)
      {
        A' := PutColSpan(d, c, sg, z, A, A', r, i);
        i := i + 1;
      }
      ScatterCarry(d, true, c, sg, z, A, A', r, i);
      r := r + 1;
    }
    assert AxisLog(d, true) == d.n && Tiles(d, true) == r;
    ScatterFinish(d, true, c, sg, z, A, A');
  }
}
