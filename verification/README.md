# gigo core, modelled in Dafny

gigo processes very large images as memory-mapped cache files. A cache file
holds a 2^n by 2^m image with p complex components per pixel. The image is
cut into 2^l by 2^l tiles, and the tiles are stored one after another. The
tools transform, filter and copy these stores. This project models the parts
every tool relies on, and proves what they promise:

- **Bits, Etc** (`etc.h`): the integer log2 of a 32-bit value, the
  power-of-two bit trick, the file-extension test, min and max.
  - The source's shifts, masks and XORs are modelled on naturals, so the
    model applies the same operators the code does.
- **Store** (`img.h`): tile-blocked addressing (`imgbuf`, `imgz`) and the
  channel copies `imgget` and `imgput`.
  - The buffer is a `seq<T>`; `T` stands for one `float complex` component.
  - `PixelOf` decodes an offset back into (row, column, channel). It is used
    to prove the addressing is a bijection and to say "nothing else changes".
- **StoreFile** (`img.c`): guessing a file's dimensions from its size
  (`imgargs`), writing a new file in 8 KiB chunks (`imginit`), and the size
  check and derived fields of `imgopen`/`imgclose`.
- **Fft** (`fft.c`): the recursive bit-reversal table `revinit`/`revalloc`,
  proved to be the bit-reversal permutation and an involution when the
  length is a power of two, the only lengths `fourier` asks for (fourier.c:166).
  For other lengths revinit leaves some entries unwritten.
- **Raster, LineCopy, Fourier** (`fourier.c`):
  - the half-period shift `offset`;
  - the gather and scatter of a row or column of tiles (`getrow`, `getcol`,
    `putrow`, `putcol`);
  - the per-row transform `transform`, the orchestration `dorow`, and the
    whole-image loop `fourier`.
  - The FFT butterflies are a function parameter `fft(sign, line)` that
    preserves length.
  - The result is stated sample by sample: after `fourier`, every copied
    channel of every pixel holds the right entry of the FFT of its line, and
    the other channels are untouched.
- **Transfer** (`transfer.c`): `blit` and the default region extent.
- **Kernel** (`kernel.c`): the centred squared distance `dd` and the fill
  loop of `calc`. The shape function (circle or Gaussian) is a parameter.
- **Convert** (`convert.c`):
  - the TIFF name test;
  - the sample-count encoding of `tifopenr`/`tifopenw`;
  - the in-place record reversal `reverse`;
  - the mirrored rows and tiles written when an image is extended.

Operating-system calls are parameters:
- `stat` is an `Option<nat>` byte count;
- whether `malloc`, `open`, `mmap`, `TIFFOpen` succeed is a boolean;
- whether the k-th `write` succeeds is `writes(k)`.

## Model

| member | source | states |
|---|---|---|
| Etc.SearchCorrect | etc.h:36-41 | Each step of log2i's binary search shifts right by 2^j when the value exceeds 2^(2^j)-1. The whole search yields the floor of log2 of any value below 2^(2^(j+1)), and 0 for 0. |
| Etc.Log2iCorrect | etc.h:32-42 | For 1 <= n < 2^32, log2i(n) is the k with 2^k <= n < 2^(k+1); log2i(0) is 0. |
| Etc.Log2iIsFloorLog2 | etc.h:32-42 | log2i agrees with an independent recursive floor-log2 on every 32-bit input. |
| Etc.IsPow2Correct | etc.h:46-49 | `n && !(n & (n-1))` holds exactly when n >= 1 and n is 2 to its floor log2. |
| Etc.IsPow2Iff | etc.h:46-49 | ispow2(n) holds exactly when n = 2^k for some k; so ispow2(0) is false. |
| Etc.IsPow2OfPow2 | etc.h:46-49 | Every power of two passes ispow2. |
| Etc.IsExtIff | etc.h:60-69 | isext(arg, ext) holds exactly when arg is some prefix followed by ext. A shorter arg is rejected. |
| Etc.Min | etc.h:73-76 | The result is one of the arguments and at most both. |
| Etc.Max | etc.h:78-81 | The result is one of the arguments and at least both. |
| Store.Geometry | img.c:139-142 | Fields derived as t = p << 2l, s = 1 << l, h = 1 << (n-l), w = 1 << (m-l) make the tile grid times the tile edge equal the image. The tiles exactly fill the p·2^(n+m) components. |
| Store.ImgbufInTile | img.h:57-61 | Pixel (i, j) of tile (r, c), with all p components, lies inside that tile's contiguous block of t components, and the block lies inside the buffer. |
| Store.ImgzIsImgbuf | img.h:48-55 | imgz(y, x) is imgbuf(y >> l, x >> l, y & (s-1), x & (s-1)). The shift and mask split each coordinate into tile index and in-tile position, i.e. quotient and remainder by s. |
| Store.TileIndexBounds | img.h:50-51 | For a pixel of the image, the tile indices are below h and w and the in-tile positions below s. |
| Store.ImgzInBounds | img.h:48-55 | For every pixel of the image, imgz plus p stays within the buffer. |
| Store.PixelOfImgbuf | img.h:57-61 | Decoding the offset of channel k of pixel (i, j) of tile (r, c) gives sample (r s + i, c s + j, k) back. |
| Store.PixelOfImgz | img.h:48-55 | Decoding imgz(y, x) + k gives (y, x, k) back: a left inverse. |
| Store.PixelOfInverse | img.h:48-55 | Every buffer offset is imgz(y, x) + k for the in-image sample it decodes to: the addressing is onto. |
| Store.ImgzInjective | img.h:48-55 | Two in-image samples with the same offset are the same sample. |
| Store.ImgGet | img.h:63-74 | Channel k < (3 if p > 1 else 1) of the pixel lands at z[zo + k·st]; no other element of z changes. |
| Store.ImgPut | img.h:76-87 | z[zo + k·st] is written to channel k of the pixel, for the same channels; no other store component changes. |
| Store.GetThenPut | img.h:63-87 | Putting back what imgget fetched leaves the store unchanged. |
| Store.PutThenGet | img.h:63-87 | Fetching what imgput stored gives back the raster unchanged. |
| StoreFile.GuessP | img.c:40 | The guessed pixel size is 3 exactly when the component count is divisible by 3, and 1 exactly when it is not. |
| StoreFile.Split | img.c:46-55 | n + m = nm. The image is square for even nm and twice as wide as tall for odd nm. |
| StoreFile.ImgArgs | img.c:29-63 | A failed stat is an I/O error. On success the component count size/8 equals p·2^(n+m), p is the guessed size, and m is n or n + 1. |
| StoreFile.ImgArgsFails | img.c:36-60 | For a file stat can see, imgargs fails exactly when the pixel count is not a power of two. |
| StoreFile.ImgArgsExact | img.c:40-44 | When the pixel count passes ispow2, it divides the component count exactly and equals 2^log2i. |
| StoreFile.ImgArgsRecognises | img.c:38-56 | Every file of p·2^k components, p one or three, is recognised with p and the aspect rule's n, m. This holds whatever padding below 8 bytes follows. |
| StoreFile.ImgArgsExamples | img.c:38-56 | 8·3·2^20 bytes is a 1024×1024 colour image; 8·2^21 bytes is a 1024×2048 grey image. |
| StoreFile.ImgArgsAsWritten | img.c:38-44 | imgargs as written, with the size_t pixel count truncated to the 32-bit unsigned parameter of ispow2 and log2i. |
| StoreFile.ImgArgsAsWrittenBelow4G | img.c:38-44 | Below 2^32 pixels, the code as written and the corrected ImgArgs agree. |
| StoreFile.ImgArgsAsWrittenRejects4G | img.c:38-44 | A 65536×65536 grey file (8·2^32 bytes) is rejected as written and recognised by the corrected ImgArgs. |
| StoreFile.MapLength | img.c:117 | `(8 p) << (n+m)` is 8·p·2^(n+m) bytes. |
| StoreFile.Derive | img.c:133-142 | The opened descriptor keeps l, n, m, p. For p >= 1 its derived fields satisfy the store invariant. |
| StoreFile.ImgOpen | img.c:111-157 | imgopen succeeds exactly when the file is exactly MapLength bytes and malloc, open and mmap succeed (mmap of zero bytes fails). A size mismatch is a parameter error. On success the store is valid and its buffer has the file's size. |
| StoreFile.ImgClose | img.c:161-171 | imgclose unmaps 8 × (the store's component count) bytes. |
| StoreFile.OpenCloseLength | img.c:161-171 | Closing an opened store unmaps exactly the bytes that opening mapped: the file size. |
| StoreFile.Remaining | img.c:90-101 | The bytes left after k chunks never exceed the total, and are zero exactly when k chunks of 8 KiB cover the total. |
| StoreFile.ChunkStep | img.c:90-101 | One successful write of min(M, O) bytes moves the remaining count to the next chunk boundary, by a whole number of components. |
| StoreFile.AllChunksWritten | img.c:90-106 | When nothing remains after k chunks, every write the loop made succeeded. |
| StoreFile.ImgInit | img.c:67-107 | imginit reports success exactly when there is nothing to write, or the file opened and every chunk write succeeded. On success the file holds exactly p·2^(n+m) components; it never holds more. Every component written is v. |
| StoreFile.InitThenOpen | img.c:111-142 | A file of the size imginit writes opens with the same l, n, m, p when the system calls succeed. |
| Fft.BitRevInvolution | fft.c:21-22 | Reversing the b low bits twice gives the index back. |
| Fft.RevInit | fft.c:24-33 | The n entries of x after revinit, each written (Some) or left unwritten (None); x[0] is a. |
| Fft.RevInitEntry | fft.c:24-33 | For n = 2^b, entry k is written with a + d · (b-bit reversal of k). |
| Fft.RevInitShift | fft.c:24-33 | Starting at a + e instead of a adds e to every written entry; the unwritten entries stay unwritten. |
| Fft.RevInitHalves | fft.c:29-32 | x[0..n/2] is the table at stride 2d; x[n/2 + k] is x[k] plus d, the right half starting at `x + n/2`; for odd n the last entry is never written. |
| Fft.RevAlloc | fft.c:37-45 | revalloc returns a table exactly when malloc succeeds. The table has n entries, the first written with 0. |
| Fft.RevInitComplete | fft.c:24-33 | revinit writes every one of the n entries exactly when n is a power of two. |
| Fft.RevAllocSix | fft.c:37-45 | revalloc(6) writes 0, 2 at x[0], x[1] and 1, 3 at x[3], x[4], and leaves x[2] and x[5] unwritten. |
| Fft.RevAllocReverses | fft.c:37-45 | The table of revalloc(2^b) holds the b-bit reversal of each index. |
| Fft.RevAllocInvolution | fft.c:37-45 | The table is its own inverse: x[x[k]] = k. |
| Fft.RevAllocPermutation | fft.c:37-45 | The table of revalloc(2^b) is a permutation of [0, 2^b): every entry written and in range, pairwise distinct, every index present. |
| Raster.Offset | fourier.c:30-41 | For a positive sign, offset is the identity. Otherwise it is (x + 2^(m-1)) mod 2^m, computed with the source's `& ((1 << m) - 1)`. |
| Raster.OffsetHalves | fourier.c:30-41 | With the shift, the lower half of [0, 2^m) moves up by 2^(m-1) and the upper half moves down. |
| Raster.OffsetInvolution | fourier.c:30-41 | offset stays in [0, 2^m) and applying it twice gives x back. |
| Raster.OffsetBijective | fourier.c:30-41 | offset is injective and onto on [0, 2^m). |
| Raster.LineGeometry | fourier.c:159-169 | A line of tiles holds s lines of 2^L samples. The raster plane stride s << L equals n·m of dorow. The scratch buffer M = p·s·s·w holds p planes. The lines of tiles together cover the 2^(n+m) pixels. |
| Raster.PosInjective | fourier.c:47-57 | Raster positions `(a << L) + x + k·(s << L)` of distinct (channel, line, sample) triples differ. |
| Raster.DestSource | fourier.c:47-73 | The gather's destination v[offset(·)] and its inverse are inverse permutations of [0, 2^L). |
| Raster.GetRowCover | fourier.c:47-57 | getrow's channel-0 destinations `(i << m) + v[offset((c << l) + j)]` cover [0, s·2^m). |
| Raster.GetRowCoverOnce | fourier.c:47-57 | Each such destination is reached by one (c, i, j) only. |
| LineCopy.GetRow | fourier.c:47-57 | For every copied channel k, raster line a and position x: z[Pos(k, a, x)] holds channel k of the pixel of tile row r whose offset-shifted index the table sends to x. Raster planes of uncopied channels are unchanged. |
| LineCopy.GetCol | fourier.c:79-89 | The same for tile column c, with the roles of rows and columns exchanged (raster lines are image columns). |
| LineCopy.GatherAll | fourier.c:49-51 | The three nested loops visit every raster position of the line. |
| LineCopy.PutRow | fourier.c:63-73 | Every copied channel of every pixel of tile row r receives the raster entry at its offset position with the sign negated. Every store component outside the row, or in an uncopied channel, is unchanged. |
| LineCopy.PutCol | fourier.c:95-105 | The same for tile column c. |
| LineCopy.ScatterDisjoint | fourier.c:63-73 | The components imgput writes for distinct samples of the line do not overlap. |
| LineCopy.InLineTarget | fourier.c:63-73 | Every copied component of the line is the target of some (channel, line, sample): the scatter misses nothing. |
| Fourier.SegmentsCover | fourier.c:111-123 | The segments `z + n·m·k + m·r` (k < p, r < n) of length m cover [0, p·n·m). |
| Fourier.SegmentsDisjoint | fourier.c:111-123 | Those segments are pairwise disjoint. |
| Fourier.SegmentInside | fourier.c:111-123 | Each segment lies within p·n·m. |
| Fourier.Transform | fourier.c:111-123 | Every segment (k, r) becomes fft(sign) of its original contents, and everything past p·n·m is unchanged. |
| Fourier.Sign | fourier.c:139 | The sign is ±1, negative exactly for INVERSE. |
| Fourier.RowShape | fourier.c:135-137 | dorow's m = s·w is the line length 2^L, n·m is the plane stride, and p·n·m is the scratch size. |
| Fourier.DoRow | fourier.c:129-148 | For every copied channel, raster line and sample x of line q, the store holds entry offset(x, L, -sign) of the FFT of the gathered line. Everything outside the line, or in an uncopied channel, is unchanged. |
| Fourier.Table | fourier.c:166 | The table fourier allocates is an involutive permutation of the line length. |
| Fourier.TargetLine | fourier.c:177-179 | A component dorow writes for line q belongs to line q and keeps its channel, so the loop iterations touch disjoint parts of the store. |
| Fourier.FourierStep | fourier.c:177-179 | One dorow on line i extends "lines below i are transformed, the rest untouched" to i + 1. It reads only data no earlier iteration wrote. |
| Fourier.TransformImage | fourier.c:159-185 | If either allocation fails, the store is unchanged. Otherwise every line of tiles holds the FFT of that line of the original store, in the order dorow gives. Uncopied channels are never touched. |
| Transfer.Channels | transfer.c:25 | blit copies min(s.p, d.p) channels: one of the two sizes, at most both. |
| Transfer.AtSample | transfer.c:34 | `imgz(d, y + i, x + j)[k]` lies inside the store and decodes to sample (y + i, x + j, k). |
| Transfer.Blit | transfer.c:23-35 | Every channel k < c of destination pixel (y + i, x + j) becomes channel k of source pixel (Y + i, X + j), for i < H, j < W. No other destination component changes; the source is only read. |
| Transfer.ExtentDefault | transfer.c:67-68 | A nonzero W and H are kept. Zero defaults make the region exactly the whole source image. |
| Kernel.Centred | kernel.c:45-49 | `(v ^ 2^(K-1)) - 2^(K-1)` centres v: it lies in [-2^(K-1), 2^(K-1)), equals v below 2^(K-1), and v - 2^K above. |
| Kernel.CentredMirror | kernel.c:45-49 | Coordinates v and 2^K - v centre to opposite values, except at the half point. |
| Kernel.Dd | kernel.c:43-52 | dd is a non-negative squared distance, zero exactly at pixel (0, 0). |
| Kernel.DdSymmetric | kernel.c:43-52 | dd is unchanged by reflecting a row (y → 2^n - y) or a column (x → 2^m - x). |
| Kernel.DdAsWritten | kernel.c:51 | dd as written: `y*y + x*x` computed in 32-bit int (two's-complement wrap made explicit). |
| Kernel.DdAsWrittenAgrees | kernel.c:51 | Where the distance fits in an int, the code as written gives the corrected value. |
| Kernel.DdAsWrittenOverflows | kernel.c:51 | For a 65536×65536 image, the distance at pixel (2^15, 2^15) is 2^31, which the code as written turns into -2^31. |
| Kernel.ValueAt | kernel.c:72-79 | The value calc stores in channel k of pixel (i, j) of tile (r, c) is shape(dd(r, c, i, j)). |
| Kernel.Calc | kernel.c:64-80 | After the fill loop, every store component holds the shape value of its pixel's distance. |
| Kernel.CalcSameInAllChannels | kernel.c:78-79 | After calc, every channel of pixel (y, x) holds shape(dd(y, x)): all channels carry the same value. |
| Convert.IsTifIff | convert.c:27-33 | istif holds exactly when the name ends in .tif, .TIF, .tiff or .TIFF. |
| Convert.TifOpenR | convert.c:37-90 | tifopenr accepts exactly when the file opens and is contiguous, IEEE float, 32-bit, with power-of-two width and length. For an accepted file: 2^n = length and 2^m = width; complex exactly for an even sample count, with p = P/2, and otherwise p = P; l is the floor log2 of the tile width (0 for scanlines). |
| Convert.FieldLog2 | convert.c:74-76 | The exponent read from a field is its floor log2, and 0 for 0. |
| Convert.FieldLog2IsLog2i | convert.c:74-76 | That exponent is log2i of the 32-bit field. |
| Convert.FieldLog2OfPow2 | convert.c:70-76 | For a power-of-two field, 2 to the exponent is the field. |
| Convert.TifOpenW | convert.c:94-124 | tifopenw sets width 2^m, length 2^n, no tiles, 2p samples for complex and p otherwise, 32-bit contiguous IEEE float. |
| Convert.TifOpenWAccepted | convert.c:104-109 | Every header tifopenw writes (with in-range fields) is accepted by tifopenr. |
| Convert.TifRoundTrip | convert.c:104-109 | For every complex image, and for every real image of odd p, reading a written header gives back (c, 0, n, m, p). |
| Convert.SampleCount | convert.c:72-73 | An odd pixel size is recovered from its sample count, real or complex. |
| Convert.TifEvenIsReadAsComplex | convert.c:72-73 | A real image of even pixel size is read back as complex with half the channels. |
| Convert.SwapRecords | convert.c:234-239 | Swapping records i < j exchanges their c floats and leaves every other float alone. |
| Convert.Reverse | convert.c:229-240 | The first n records of c floats end up in reverse order, each record intact, and the rest of the buffer is untouched. |
| Convert.ReversalUnique | convert.c:229-240 | That description determines the result. |
| Convert.ReverseInvolution | convert.c:229-240 | Reversing twice gives the buffer back. |
| Convert.ReverseShort | convert.c:231-233 | Reversing zero or one record changes nothing. |
| Convert.MirrorRow | convert.c:265-266 | Row 2n - r - 1 lies in the added half [n, 2n) and mirrors r. |
| Convert.MirrorRowsCover | convert.c:253-267 | The original rows and their mirrors together cover the 2n rows of the extended image. |
| Convert.MirrorRowReflects | convert.c:261-267 | Float k of pixel x of the mirrored row is float k of pixel m - 1 - x of the original scanline. |
| Convert.MirrorTile | convert.c:300-301 | The mirrored tile's corner (2n - y - s, m - x - s) is tile-aligned and lies in the added half. |
| Convert.MirrorAligned | convert.c:287-301 | For tile-aligned y < n, f·n - y - s is a multiple of s: the mirrored corner is tile-aligned. |
| Convert.MirrorTileReflects | convert.c:296-302 | Reversing a tile's records and writing them at the mirrored corner reflects the image through its centre. Pixel P of the mirror gets the record the direct copy wrote at (2n - 1 - P.y, m - 1 - P.x). |

## Left out

- The FFT butterflies of `fft` (fft.c:50-74), its floating-point arithmetic and any scaling. The transforms take `fft` as a length-preserving parameter.
- OpenMP (fourier.c:177-179, transfer.c:30, kernel.c:64, kernel.c:82). The loops are modelled sequentially. Fourier.TargetLine and Fourier.FourierStep show that the iterations of fourier's loop touch disjoint parts of the store. The per-thread scratch offset `M * omp_get_thread_num()` is modelled as one buffer.
- The error messages of `syserr`/`apperr` and the file-descriptor and pointer bookkeeping (`close`, `free`, `munmap` failure). Errors are modelled as `Err` values; the bytes unmapped are modelled as a length.
- `circle` and `gauss` (kernel.c:27-39) and the floating-point normalisation pass of `calc` (kernel.c:82-88). The shape is a parameter `shape: int -> T`.
- The TIFF library calls, the ICC profiles and compression, the scanline and tile copy loops, and the float conversions ctor/ctop/rtoc/ptoc (convert.c:128-225). Only the header fields and the mirror indices are modelled.
- `main`, usage parsing and `proc` of each tool, and the other tools (compute, filter, gradient, measure, reserve, gigo.py).
- LineCopy.GetRow: requires the pixel size to be at least the number of channels imgget copies (three when p > 1). With p = 2, imgget reads and writes past the pixel; that out-of-bounds case is not modelled. The same holds for LineCopy.GetCol, LineCopy.PutRow, LineCopy.PutCol, Fourier.DoRow and Fourier.TransformImage.
- Fourier.DoRow: requires lines of at least two samples (L >= 1), because offset computes `1 << (m - 1)`, which is undefined for m = 0. Fourier.TransformImage has the same requirement.
- Transfer.Blit: coordinates are naturals and both regions must lie inside their images. The source checks neither; outside them it reads or writes outside the mapping.
- Fft.RevAlloc: requires n >= 1, because revinit never reaches its base case for n = 0. An entry revinit never writes is None; the indeterminate value malloc left there is not modelled.
- Kernel.Dd: requires n, m >= 1, because `1 << (d->n - 1)` is undefined otherwise.
- Etc.Min: models `long long` arguments as unbounded integers. The same holds for Etc.Max.
- StoreFile.ImgOpen: requires l <= n and l <= m. imgopen accepts any l (tiftoimg passes `-l` straight through, convert.c:331-333), but for l > n or l > m it shifts by the negative counts `n - l` or `m - l` (img.c:141-142), which is undefined in C; that case is not modelled. StoreFile.Derive has the same requirement for the same reason.
- StoreFile.ImgOpen: the `int` fields and the shifts of `imgopen` are unbounded naturals. Only the size_t-to-unsigned truncation of imgargs and the int overflow of dd are modelled as machine widths (see Findings).
- Convert.TifOpenR: the header fields are naturals. WellTyped states their TIFF widths where a lemma needs them.

## Findings

| source | as written | input that shows it | evidently intended | confidence | as-written member | corrected member |
|---|---|---|---|---|---|---|
| img.c:38-44 | The size_t pixel count `whp / p` is passed to `ispow2` and `log2i`, whose parameter is `unsigned int`, so it is reduced modulo 2^32 | A 65536×65536 grey cache file of 8·2^32 bytes: 2^32 reaches ispow2 as 0 and the file is rejected | Any power-of-two pixel count is recognised | not executed | StoreFile.ImgArgsAsWritten, StoreFile.ImgArgsAsWrittenRejects4G | StoreFile.ImgArgs, StoreFile.ImgArgsRecognises |
| kernel.c:51 | `y * y + x * x` is evaluated in `int` | A 65536×65536 image (n = m = 16), pixel (32768, 32768): both coordinates centre to -32768, and 2^30 + 2^30 = 2^31 overflows (signed overflow, which wraps to -2^31 on common targets) | The squared distance 2^31, non-negative | not executed | Kernel.DdAsWritten, Kernel.DdAsWrittenOverflows | Kernel.Dd, Kernel.DdSymmetric |
