/** The image cache file of img.c: guessing the parameters of a file from its
    size, reserving a file of the right size, and opening and closing it.

    The operating system is not part of the model. What `stat` reports is an
    `Option<nat>` byte count, and whether `malloc`, `open`, `mmap` and each
    `write` succeed are parameters. */
module StoreFile {
  import opened Bits
  import opened Etc
  import opened Status
  import opened Store

  /** `sizeof (float complex)`. */
  const ComponentBytes: nat := 8

  /** imginit's staging buffer: N = 1024 components, O = 8 N bytes. */
  const ChunkComponents: nat := 1024
  const ChunkBytes: nat := 8192

  /** Log2 height, log2 width and pixel size of an image. */
  datatype Dims = Dims(n: nat, m: nat, p: nat)

  //----------------------------------------------------------------------------
  // imgargs

  /** The pixel size guessed from the component count: 1 unless the count is
      divisible by three. */
  function GuessP(whp: nat): (p: nat)
    ensures p == 3 <==> whp % 3 == 0
    ensures p == 1 <==> whp % 3 != 0
  {
    if whp % 3 != 0 then 1 else 3
  }

  /** The aspect rule: 2^nm pixels are 2^n rows of 2^m, square when nm is
      even and twice as wide as tall when it is odd. */
  function Split(nm: nat, p: nat): (r: Dims)
    ensures r.n + r.m == nm && r.p == p
    ensures nm % 2 == 0 ==> r.m == r.n
    ensures nm % 2 == 1 ==> r.m == r.n + 1
  {
    if nm % 2 == 1 then Dims((nm - 1) / 2, (nm + 1) / 2, p) else Dims(nm / 2, nm / 2, p)
  }

  /** `imgargs`, where size is what `stat` reports for the file. The
      component count is size / 8; the pixel count must be a power of two. */
  function ImgArgs(size: Option<nat>): (r: Result<Dims>)
    ensures size.None? ==> r.Err? && r.error.IOError?
    ensures r.Ok? ==> size.Some? && size.value / ComponentBytes == r.value.p * Pow2(r.value.n + r.value.m)
    ensures r.Ok? ==> r.value.p == GuessP(size.value / ComponentBytes)
    ensures r.Ok? ==> r.value.m == r.value.n || r.value.m == r.value.n + 1
  {
    match size
    case None => Err(IOError("Failed to stat image"))
    case Some(bytes) =>
      var whp := bytes / ComponentBytes;
      var p := GuessP(whp);
      if IsPow2(whp / p) then
        ImgArgsExact(whp, p);
        Ok(Split(FloorLog2(whp / p), p))
      else
        Err(ParameterError("File size is not a power of two"))
  }

  /** The pixel count divides the component count exactly and is 2^nm. */
  lemma ImgArgsExact(whp: nat, p: nat)
    requires p == GuessP(whp) && IsPow2(whp / p)
    ensures whp / p >= 1 && whp == p * Pow2(FloorLog2(whp / p))
  {
    IsPow2Correct(whp / p);
  }

  /** ImgArgs fails exactly when stat fails or the pixel count is not a power
      of two. */
  lemma ImgArgsFails(bytes: nat)
    ensures var whp := bytes / ComponentBytes;
            ImgArgs(Some(bytes)).Err? <==> !(exists k: nat :: k <= whp / GuessP(whp) && whp / GuessP(whp) == Pow2(k))
  {
    var whp := bytes / ComponentBytes;
    IsPow2Iff(whp / GuessP(whp));
  }

  lemma {:induction false} Pow2NotDiv3(k: nat)
    ensures Pow2(k) % 3 != 0
  {
    if k > 0 {
      var x := Pow2(k - 1);
      Pow2NotDiv3(k - 1);
      if x % 3 == 1 {
        DivModUnique(2 * x, 3, 2 * (x / 3), 2);
      } else {
        DivModUnique(2 * x, 3, 2 * (x / 3) + 1, 1);
      }
    }
  }

  /** Every file whose parameters follow the guessing rule is recognised: a
      file holding a p-component image of 2^k pixels, p one or three, gives
      back its dimensions, whatever padding follows the last component. */
  lemma ImgArgsRecognises(p: nat, k: nat, bytes: nat)
    requires (p == 1 || p == 3) && bytes / ComponentBytes == p * Pow2(k)
    ensures ImgArgs(Some(bytes)) == Ok(Split(k, p))
  {
    var whp := bytes / ComponentBytes;
    if p == 1 {
      assert whp == Pow2(k);
      Pow2NotDiv3(k);
      DivModUnique(whp, 1, whp, 0);
    } else {
      DivModUnique(whp, 3, Pow2(k), 0);
    }
    var q := whp / p;
    assert GuessP(whp) == p && q == Pow2(k);
    IsPow2OfPow2(k);
    FloorLog2Pow2(k);
    assert IsPow2(q) && FloorLog2(q) == k;
    ImgArgsUnfold(bytes);
  }

  /** ImgArgs on a file that stat can see, one step unfolded. */
  lemma ImgArgsUnfold(bytes: nat)
    ensures var whp := bytes / ComponentBytes;
            var q := whp / GuessP(whp);
            ImgArgs(Some(bytes)) == if IsPow2(q) then Ok(Split(FloorLog2(q), GuessP(whp)))
                                    else Err(ParameterError("File size is not a power of two"))
  {
  }

  /** 8 * 3 * 2^20 bytes are a 1024 by 1024 colour image, and 8 * 2^21 bytes
      a 1024 by 2048 grey one. */
  lemma ImgArgsExamples()
    ensures ImgArgs(Some(8 * 3 * Pow2(20))) == Ok(Dims(10, 10, 3))
    ensures ImgArgs(Some(8 * Pow2(21))) == Ok(Dims(10, 11, 1))
  {
    DivModUnique(8 * 3 * Pow2(20), ComponentBytes, 3 * Pow2(20), 0);
    ImgArgsRecognises(3, 20, 8 * 3 * Pow2(20));
    DivModUnique(8 * Pow2(21), ComponentBytes, 1 * Pow2(21), 0);
    ImgArgsRecognises(1, 21, 8 * Pow2(21));
  }

  /** The conversion of a size_t to the `unsigned int` parameter of ispow2
      and log2i: the value modulo 2^32. */
  function Trunc32(x: nat): (r: nat)
    ensures r < Pow2(32)
    ensures x < Pow2(32) ==> r == x
  {
    Pow2Small();
    x % 0x1_0000_0000
  }

  /** `imgargs` as written: the pixel count, a size_t, reaches ispow2 and
      log2i through their 32-bit unsigned parameter. */
  function ImgArgsAsWritten(size: Option<nat>): (r: Result<Dims>)
    ensures size.None? ==> r.Err?
    ensures r.Ok? ==> size.Some? && IsPow2(Trunc32(size.value / ComponentBytes / GuessP(size.value / ComponentBytes)))
  {
    match size
    case None => Err(IOError("Failed to stat image"))
    case Some(bytes) =>
      var whp := bytes / ComponentBytes;
      var p := GuessP(whp);
      if IsPow2(Trunc32(whp / p)) then
        Ok(Split(Log2i(Trunc32(whp / p)), p))
      else
        Err(ParameterError("File size is not a power of two"))
  }

  /** Below 2^32 pixels the code as written and the corrected ImgArgs agree. */
  lemma ImgArgsAsWrittenBelow4G(bytes: nat)
    requires (bytes / ComponentBytes) / GuessP(bytes / ComponentBytes) < Pow2(32)
    ensures ImgArgsAsWritten(Some(bytes)) == ImgArgs(Some(bytes))
  {
    var whp := bytes / ComponentBytes;
    DivModParts(whp, GuessP(whp));
    var q := whp / GuessP(whp);
    assert Trunc32(q) == q;
    ImgArgsUnfold(bytes);
    if IsPow2(q) {
      IsPow2Correct(q);
      Log2iIsFloorLog2(q);
      assert ImgArgsAsWritten(Some(bytes)) == Ok(Split(FloorLog2(q), GuessP(whp)));
    }
  }

  /** A 65536 by 65536 grey image, 2^32 pixels in a file of 8 * 2^32 bytes,
      is rejected as written, because 2^32 reaches ispow2 as zero; the
      corrected ImgArgs recognises it. */
  lemma ImgArgsAsWrittenRejects4G()
    ensures ImgArgsAsWritten(Some(8 * Pow2(32))).Err?
    ensures ImgArgs(Some(8 * Pow2(32))) == Ok(Dims(16, 16, 1))
  {
    var whp := Pow2(32);
    Pow2Small();
    DivModUnique(8 * whp, ComponentBytes, whp, 0);
    Pow2NotDiv3(32);
    assert GuessP(whp) == 1;
    DivModUnique(whp, 1, whp, 0);
    assert Trunc32(whp / 1) == 0;
    ImgArgsRecognises(1, 32, 8 * whp);
  }

  //----------------------------------------------------------------------------
  // imgopen and imgclose

  /** Outcomes of the system calls imgopen makes after stat. */
  datatype Os = Os(allocOk: bool, openOk: bool, mapOk: bool)

  /** `(sizeof (float complex) * p) << (n + m)`: the bytes of the file. */
  function MapLength(p: nat, n: nat, m: nat): (len: nat)
    ensures len == ComponentBytes * (p * Pow2(n + m))
  {
    Shl(ComponentBytes * p, n + m)
  }

  /** The fields imgopen derives from l, n, m and p. */
  function Derive(l: nat, n: nat, m: nat, p: nat): (d: Img)
    requires l <= n && l <= m
    ensures d.l == l && d.n == n && d.m == m && d.p == p
    ensures p >= 1 ==> Valid(d)
  {
    Img(l, n, m, p, Shl(p, l + l), Shl(1, l), Shl(1, n - l), Shl(1, m - l))
  }

  /** `imgopen`. The file must be exactly MapLength bytes long; then the
      descriptor is allocated, the file opened and mapped. A mapping of zero
      bytes fails, as mmap does. The shifts n - l and m - l must not be
      negative. */
  function ImgOpen(size: Option<nat>, l: nat, n: nat, m: nat, p: nat, os: Os): (r: Result<Img>)
    requires l <= n && l <= m
    ensures r.Ok? <==> size == Some(MapLength(p, n, m)) && os.allocOk && os.openOk && os.mapOk && p >= 1
    ensures size != Some(MapLength(p, n, m)) ==> r.Err? && r.error.ParameterError?
    ensures r.Ok? ==> Valid(r.value) && r.value.l == l && r.value.n == n && r.value.m == m && r.value.p == p
    ensures r.Ok? ==> ComponentBytes * Len(r.value) == size.value
  {
    var len := MapLength(p, n, m);
    if size != Some(len) then Err(ParameterError("Size does not match arguments"))
    else if !os.allocOk then Err(AllocationError("Failed to allocate image"))
    else if !os.openOk then Err(IOError("Failed to open image"))
    else if !os.mapOk || len == 0 then Err(IOError("Failed to map image"))
    else
      assert p >= 1;
      Ok(Derive(l, n, m, p))
  }

  /** `imgclose`: the number of bytes it unmaps. */
  function ImgClose(d: Img): (len: nat)
    ensures len == ComponentBytes * Len(d)
  {
    MapLength(d.p, d.n, d.m)
  }

  /** Closing unmaps exactly the bytes that opening mapped. */
  lemma OpenCloseLength(size: Option<nat>, l: nat, n: nat, m: nat, p: nat, os: Os)
    requires l <= n && l <= m && ImgOpen(size, l, n, m, p, os).Ok?
    ensures ImgClose(ImgOpen(size, l, n, m, p, os).value) == MapLength(p, n, m)
    ensures Some(ImgClose(ImgOpen(size, l, n, m, p, os).value)) == size
  {
  }

  //----------------------------------------------------------------------------
  // imginit

  /** Bytes still to be written after k full chunks. */
  function Remaining(total: nat, k: nat): (rest: nat)
    ensures rest <= total
    ensures rest == 0 <==> ChunkBytes * k >= total
  {
    if ChunkBytes * k >= total then 0 else total - ChunkBytes * k
  }

  /** k copies of v. */
  function Fill<T>(v: T, k: nat): (r: seq<T>)
    ensures |r| == k && forall i :: 0 <= i < k ==> r[i] == v
  {
    seq(k, _ => v)
  }

  /** `imginit`: write 8 p 2^(n+m) bytes, every byte part of a component v,
      in chunks of at most 8 KiB. The k-th call to write succeeds when
      writes(k) holds; a short or failed write ends the loop. The result is
      true exactly when nothing remains to be written, and file holds the
      components written. The tile size l plays no part. */
  method ImgInit<T>(openOk: bool, n: nat, m: nat, p: nat, v: T, writes: nat -> bool)
    returns (ok: bool, file: seq<T>)
    ensures ok <==> MapLength(p, n, m) == 0
                    || (openOk && forall k: nat :: ChunkBytes * k < MapLength(p, n, m) ==> writes(k))
    ensures ok ==> ComponentBytes * |file| == MapLength(p, n, m) && |file| == p * Pow2(n + m)
    ensures ComponentBytes * |file| <= MapLength(p, n, m)
    ensures forall i :: 0 <= i < |file| ==> file[i] == v
  {
    var total := MapLength(p, n, m);
    var M := total;
    file := [];
    if openOk {
      var k: nat := 0;
      while M > 0
        invariant M == Remaining(total, k)
        invariant forall j: nat :: j < k ==> writes(j)
        invariant ComponentBytes * |file| + M == total
        invariant forall i :: 0 <= i < |file| ==> file[i] == v
        decreases M
      {
        var o := Min(M, ChunkBytes);
        if writes(k) {
          ChunkStep(total, k);
          M := M - o;
          file := file + Fill(v, o / ComponentBytes);
          k := k + 1;
        } else {
          break;
        }
      }
      if M > 0 {
        assert ChunkBytes * k < total && !writes(k);
      } else {
        AllChunksWritten(total, k, writes);
      }
    }
    ok := M == 0;
  }

  /** One successful chunk moves the remaining count to the next chunk
      boundary, by a whole number of components. */
  lemma ChunkStep(total: nat, k: nat)
    requires total % ComponentBytes == 0 && Remaining(total, k) > 0
    ensures Remaining(total, k) - Min(Remaining(total, k), ChunkBytes) == Remaining(total, k + 1)
    ensures Min(Remaining(total, k), ChunkBytes) % ComponentBytes == 0
  {
    var rest := Remaining(total, k);
    assert ChunkBytes * (k + 1) == ChunkBytes * k + ChunkBytes;
    if rest <= ChunkBytes {
      var a := total / ComponentBytes;
      assert total == ComponentBytes * a;
      assert rest == ComponentBytes * (a - 1024 * k);
      DivModUnique(rest, ComponentBytes, a - 1024 * k, 0);
    }
  }

  lemma AllChunksWritten(total: nat, k: nat, writes: nat -> bool)
    requires Remaining(total, k) == 0 && forall j: nat :: j < k ==> writes(j)
    ensures forall j: nat :: ChunkBytes * j < total ==> writes(j)
  {
  }

  /** A file reserved by ImgInit with every write succeeding opens with the
      same parameters. */
  lemma InitThenOpen(l: nat, n: nat, m: nat, p: nat)
    requires l <= n && l <= m && p >= 1
    ensures ImgOpen(Some(MapLength(p, n, m)), l, n, m, p, Os(true, true, true)).Ok?
  {
    MulPos(p, Pow2(n + m));
  }
}
