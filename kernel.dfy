/** The frame kernel of the invert filter: one pass over the luma plane that,
    for every luma sample, reconstructs a triple from the luma sample and the
    chroma samples of its 2x2 block, applies the selected effect and stores
    one luma sample and two chroma samples into the destination frame.

    Planes are flat arrays addressed with a row stride, as the source's
    plane pointers are. The luma pointers move one stride per luma row; the
    chroma pointers move one stride only after odd luma rows, and the chroma
    column is `x / 2`. So the four luma positions of a 2x2 block all store
    into the same chroma cell and the last of them in raster order wins. */
module Kernel {
  import opened CArith
  import opened Color

  /** Plane 0 is luma at full resolution; planes 1 (Cb) and 2 (Cr) are chroma
      subsampled by two in both directions. */
  datatype Channel = Luma | Cb | Cr

  datatype Strides = Strides(luma: nat, cb: nat, cr: nat)

  datatype Planes = Planes(luma: seq<byte>, cb: seq<byte>, cr: seq<byte>)

  /** A frame as the kernel sees it: the luma width and height (as read from
      plane 0), the sample arrays of the three planes and their strides. */
  datatype Frame = Frame(width: nat, height: nat, planes: Planes, strides: Strides) {
    /** Every plane is large enough for the kernel's addressing. */
    predicate Valid() {
      PlanesFit(width, height, |planes.luma|, |planes.cb|, |planes.cr|, strides)
    }
  }

  /** Planes of these lengths and strides hold a `w` x `h` frame in this layout. */
  predicate PlanesFit(w: nat, h: nat, lumaLen: nat, cbLen: nat, crLen: nat, s: Strides) {
    PlaneFits(lumaLen, s.luma, Extent(Luma, w), Extent(Luma, h)) &&
    PlaneFits(cbLen, s.cb, Extent(Cb, w), Extent(Cb, h)) &&
    PlaneFits(crLen, s.cr, Extent(Cr, w), Extent(Cr, h))
  }

  function Plane(p: Planes, c: Channel): seq<byte> {
    match c
    case Luma => p.luma
    case Cb => p.cb
    case Cr => p.cr
  }

  function Stride(s: Strides, c: Channel): nat {
    match c
    case Luma => s.luma
    case Cb => s.cb
    case Cr => s.cr
  }

  function Pick(s: Sample, c: Channel): byte {
    match c
    case Luma => s.luma
    case Cb => s.cb
    case Cr => s.cr
  }

  function Min(a: int, b: int): int {
    if a <= b then a else b
  }

  /** Position of sample (x, y) in a plane whose rows lie `stride` apart. */
  function Offset(stride: nat, x: nat, y: nat): nat {
    y * stride + x
  }

  /** The plane coordinate that luma coordinate `i` maps to: `i` itself in
      the luma plane and `i / 2` in a chroma plane. */
  function PlaneIndex(c: Channel, i: nat): (r: nat)
    ensures c == Luma ==> r == i
    ensures c != Luma ==> 2 * r <= i < 2 * r + 2
  {
    if c == Luma then i else i / 2
  }

  /** The number of plane coordinates that luma coordinates `0 .. n-1` map to. */
  function Extent(c: Channel, n: nat): (e: nat)
    ensures e <= n
    ensures 0 < n ==> e == PlaneIndex(c, n - 1) + 1
  {
    if c == Luma then n else (n + 1) / 2
  }

  /** Every luma coordinate below `n` maps below `Extent(c, n)`. */
  lemma ExtentCovers(c: Channel, n: nat, i: nat)
    requires i < n
    ensures PlaneIndex(c, i) < Extent(c, n)
  {
  }

  /** The LAST luma coordinate below `n` that maps to plane coordinate `j`:
      the one whose store survives when stores go out in increasing order.
      `WriterIsLast` states that no later one maps there. */
  function Writer(c: Channel, j: nat, n: nat): (i: nat)
    requires j < Extent(c, n)
    ensures i < n && PlaneIndex(c, i) == j
    ensures c != Luma ==> i == Min(2 * j + 1, n - 1)
  {
    if c == Luma then j else if 2 * j + 1 < n then 2 * j + 1 else n - 1
  }

  lemma WriterIsLast(c: Channel, j: nat, n: nat, k: nat)
    requires j < Extent(c, n) && k < n && PlaneIndex(c, k) == j
    ensures k <= Writer(c, j, n)
  {
  }

  /** A plane of `rows` rows of `cols` samples fits a buffer of `len` samples
      with rows `stride` apart: strides are positive and no shorter than a
      row, and the last row ends inside the buffer. */
  predicate PlaneFits(len: nat, stride: nat, cols: nat, rows: nat) {
    0 < stride && cols <= stride && (rows == 0 || Offset(stride, cols, rows - 1) <= len)
  }

  /** Offset `k` lies in the first `rows` rows and the first `cols` columns. */
  predicate InRegion(k: nat, stride: nat, cols: nat, rows: nat)
    requires 0 < stride
  {
    k / stride < rows && k % stride < cols
  }

  // ---------------------------------------------------------------------
  // Addressing arithmetic

  lemma MulLe(a: nat, b: nat, c: nat)
    requires a <= b
    ensures a * c <= b * c
  {
  }

  lemma InPlane(len: nat, stride: nat, cols: nat, rows: nat, i: nat, j: nat)
    requires PlaneFits(len, stride, cols, rows) && i < cols && j < rows
    ensures Offset(stride, i, j) < len
  {
    MulLe(j, rows - 1, stride);
  }

  /** The plane row that luma row `y` stores into ends inside the buffer. */
  lemma RowFits(len: nat, stride: nat, w: nat, h: nat, c: Channel, y: nat)
    requires PlaneFits(len, stride, Extent(c, w), Extent(c, h)) && y < h
    ensures Offset(stride, Extent(c, w), PlaneIndex(c, y)) <= len
  {
    MulLe(PlaneIndex(c, y), Extent(c, h) - 1, stride);
  }

  /** Advancing a row pointer by one stride moves it to the next row. */
  lemma NextRow(stride: nat, y: nat)
    ensures Offset(stride, 0, y + 1) == Offset(stride, 0, y) + stride
  {
  }

  /** The chroma row pointer after luma row `y` moves one stride exactly
      when `y` is odd. */
  lemma NextChromaRow(stride: nat, y: nat)
    ensures Offset(stride, 0, (y + 1) / 2) == Offset(stride, 0, y / 2) + (if y % 2 == 1 then stride else 0)
  {
    if y % 2 == 1 {
      assert (y + 1) / 2 == y / 2 + 1;
      NextRow(stride, y / 2);
    } else {
      assert (y + 1) / 2 == y / 2;
    }
  }

  /** Row `y`, column `x` of a plane is recovered from its offset. */
  lemma OffsetDivMod(stride: nat, x: nat, y: nat)
    requires x < stride
    ensures Offset(stride, x, y) / stride == y && Offset(stride, x, y) % stride == x
  {
    var k := Offset(stride, x, y);
    var q, r := k / stride, k % stride;
    assert k == q * stride + r;
    if q < y {
      MulLe(q + 1, y, stride);
    } else if y < q {
      MulLe(y + 1, q, stride);
    }
  }

  /** The rows of a plane do not overlap: an offset lies in the row range of
      row `y` exactly when its row is `y` and its column is within the row. */
  lemma RowRange(stride: nat, cols: nat, k: nat, y: nat)
    requires cols <= stride && 0 < stride
    ensures Offset(stride, 0, y) <= k < Offset(stride, cols, y) <==> (k / stride == y && k % stride < cols)
  {
    var q, r := k / stride, k % stride;
    assert k == q * stride + r;
    if Offset(stride, 0, y) <= k < Offset(stride, cols, y) {
      OffsetDivMod(stride, k - Offset(stride, 0, y), y);
    }
    if q == y && r < cols {
      assert k == Offset(stride, r, y);
    }
  }

  // ---------------------------------------------------------------------
  // What the kernel reads and computes

  lemma ValidPlane(f: Frame, c: Channel)
    requires f.Valid()
    ensures PlaneFits(|Plane(f.planes, c)|, Stride(f.strides, c), Extent(c, f.width), Extent(c, f.height))
  {
    match c
    case Luma =>
    case Cb =>
    case Cr =>
  }

  /** The sample of plane `c` that luma position (x, y) reads: (x, y) in the
      luma plane, (x / 2, y / 2) in a chroma plane. */
  function SourceAt(f: Frame, c: Channel, x: nat, y: nat): byte
    requires f.Valid() && x < f.width && y < f.height
  {
    ValidPlane(f, c);
    InPlane(|Plane(f.planes, c)|, Stride(f.strides, c), Extent(c, f.width), Extent(c, f.height),
            PlaneIndex(c, x), PlaneIndex(c, y));
    Plane(f.planes, c)[Offset(Stride(f.strides, c), PlaneIndex(c, x), PlaneIndex(c, y))]
  }

  /** Where `SourceAt` reads, and that the read is in bounds. */
  lemma SourceIndex(f: Frame, c: Channel, x: nat, y: nat)
    requires f.Valid() && x < f.width && y < f.height
    ensures Offset(Stride(f.strides, c), PlaneIndex(c, x), PlaneIndex(c, y)) < |Plane(f.planes, c)|
    ensures SourceAt(f, c, x, y) == Plane(f.planes, c)[Offset(Stride(f.strides, c), PlaneIndex(c, x), PlaneIndex(c, y))]
  {
    ValidPlane(f, c);
    InPlane(|Plane(f.planes, c)|, Stride(f.strides, c), Extent(c, f.width), Extent(c, f.height),
            PlaneIndex(c, x), PlaneIndex(c, y));
  }

  /** The three samples computed for luma position (x, y). */
  function PixelAt(f: Frame, mode: int64, x: nat, y: nat): Sample
    requires f.Valid() && x < f.width && y < f.height
  {
    PixelOut(mode, SourceAt(f, Luma, x, y), SourceAt(f, Cb, x, y), SourceAt(f, Cr, x, y))
  }

  /** What is computed for (x, y) depends only on the luma sample at (x, y)
      and the chroma samples at (x / 2, y / 2) of the source frame. */
  lemma PixelAtIsLocal(f: Frame, g: Frame, mode: int64, x: nat, y: nat)
    requires f.Valid() && g.Valid() && x < f.width && y < f.height && x < g.width && y < g.height
    requires SourceAt(f, Luma, x, y) == SourceAt(g, Luma, x, y)
    requires SourceAt(f, Cb, x, y) == SourceAt(g, Cb, x, y)
    requires SourceAt(f, Cr, x, y) == SourceAt(g, Cr, x, y)
    ensures PixelAt(f, mode, x, y) == PixelAt(g, mode, x, y)
  {
  }

  /** `row` holds what is computed for the first `|row|` luma positions of
      row `y`. */
  predicate ComputedPrefix(f: Frame, mode: int64, y: nat, row: seq<Sample>)
    requires f.Valid() && y < f.height
  {
    |row| <= f.width && forall x :: 0 <= x < |row| ==> row[x] == PixelAt(f, mode, x, y)
  }

  /** `row` holds what is computed for the luma positions of row `y`. */
  predicate ComputedRow(f: Frame, mode: int64, y: nat, row: seq<Sample>)
    requires f.Valid() && y < f.height
  {
    |row| == f.width && ComputedPrefix(f, mode, y, row)
  }

  lemma ComputedPrefixStep(f: Frame, mode: int64, y: nat, row: seq<Sample>, s: Sample)
    requires f.Valid() && y < f.height && |row| < f.width
    requires ComputedPrefix(f, mode, y, row) && s == PixelAt(f, mode, |row|, y)
    ensures ComputedPrefix(f, mode, y, row + [s])
  {
    forall x | 0 <= x < |row| + 1
      ensures (row + [s])[x] == PixelAt(f, mode, x, y)
    {
      if x < |row| {
        assert (row + [s])[x] == row[x];
      }
    }
  }

  /** `img` holds what is computed for every luma position, row by row. */
  predicate ComputedImage(f: Frame, mode: int64, img: seq<seq<Sample>>)
    requires f.Valid()
  {
    |img| == f.height && forall y :: 0 <= y < |img| ==> ComputedRow(f, mode, y, img[y])
  }

  /** Appending the row computed for luma row `|img|` extends a computed
      prefix of the frame by one row. */
  lemma ComputedImageStep(f: Frame, mode: int64, img: seq<seq<Sample>>, row: seq<Sample>)
    requires f.Valid() && |img| < f.height
    requires forall j :: 0 <= j < |img| ==> ComputedRow(f, mode, j, img[j])
    requires ComputedRow(f, mode, |img|, row)
    ensures forall j :: 0 <= j < |img| + 1 ==> ComputedRow(f, mode, j, (img + [row])[j])
  {
    forall j | 0 <= j < |img| + 1
      ensures ComputedRow(f, mode, j, (img + [row])[j])
    {
      if j < |img| {
        assert (img + [row])[j] == img[j];
      } else {
        assert (img + [row])[j] == row;
      }
    }
  }

  /** Every row of `img` holds `w` samples. */
  predicate Rectangular(img: seq<seq<Sample>>, w: nat) {
    forall y :: 0 <= y < |img| ==> |img[y]| == w
  }

  // ---------------------------------------------------------------------
  // The destination planes as functions of their prior contents and of the
  // samples computed per luma position (`row` for one row, `img` for all rows)

  /** Destination plane `c` after the stores of luma positions
      `0 .. |row|-1` of one row, whose plane row starts at offset `base`:
      each plane column holds channel `c` of its last writer. */
  function RowAfter(c: Channel, before: seq<byte>, row: seq<Sample>, base: nat): seq<byte> {
    seq(|before|, k requires 0 <= k < |before| =>
      if base <= k < base + Extent(c, |row|) then Pick(row[Writer(c, k - base, |row|)], c) else before[k])
  }

  function PlaneValue(c: Channel, before: seq<byte>, img: seq<seq<Sample>>, stride: nat, w: nat, k: nat): byte
    requires Rectangular(img, w) && 0 < stride && k < |before|
  {
    if InRegion(k, stride, Extent(c, w), Extent(c, |img|))
    then Pick(img[Writer(c, k / stride, |img|)][Writer(c, k % stride, w)], c)
    else before[k]
  }

  /** Destination plane `c` (rows `stride` apart) after the luma rows of
      `img` have been processed, starting from contents `before`. */
  function PlaneAfter(c: Channel, before: seq<byte>, img: seq<seq<Sample>>, stride: nat, w: nat): seq<byte>
    requires Rectangular(img, w) && 0 < stride
  {
    seq(|before|, k requires 0 <= k < |before| => PlaneValue(c, before, img, stride, w, k))
  }

  /** Before the first store of a row, nothing has changed. */
  lemma RowAfterNone(c: Channel, before: seq<byte>, base: nat)
    ensures RowAfter(c, before, [], base) == before
  {
    var after := RowAfter(c, before, [], base);
    forall k | 0 <= k < |before| ensures after[k] == before[k] {
      assert Extent(c, 0) == 0;
    }
  }

  /** Before the first row, nothing has changed. */
  lemma PlaneAfterNone(c: Channel, before: seq<byte>, stride: nat, w: nat)
    requires 0 < stride
    ensures PlaneAfter(c, before, [], stride, w) == before
  {
    var after := PlaneAfter(c, before, [], stride, w);
    forall k | 0 <= k < |before| ensures after[k] == before[k] {
      assert Extent(c, 0) == 0;
    }
  }

  /** One more luma coordinate adds a plane coordinate exactly when it maps
      to a new one. */
  lemma ExtentStep(c: Channel, n: nat)
    ensures PlaneIndex(c, n) <= Extent(c, n)
    ensures Extent(c, n + 1) == PlaneIndex(c, n) + 1
  {
  }

  /** One more luma coordinate becomes the writer of the plane coordinate it
      maps to and leaves the writers of the others unchanged. */
  lemma WriterStep(c: Channel, j: nat, n: nat)
    requires j < Extent(c, n + 1)
    ensures j == PlaneIndex(c, n) ==> Writer(c, j, n + 1) == n
    ensures j != PlaneIndex(c, n) ==> j < Extent(c, n) && Writer(c, j, n + 1) == Writer(c, j, n)
  {
    ExtentStep(c, n);
  }

  /** One more luma position of the row stores its channel-`c` value at plane
      column `PlaneIndex(c, |row|)`, overwriting what an earlier position of
      the same 2x2 block stored there. */
  lemma RowAfterStep(c: Channel, before: seq<byte>, row: seq<Sample>, s: Sample, base: nat)
    requires base + Extent(c, |row| + 1) <= |before|
    ensures RowAfter(c, before, row + [s], base)
         == RowAfter(c, before, row, base)[base + PlaneIndex(c, |row|) := Pick(s, c)]
  {
    var n := |row|;
    var lhs := RowAfter(c, before, row + [s], base);
    var rhs := RowAfter(c, before, row, base)[base + PlaneIndex(c, n) := Pick(s, c)];
    forall k | 0 <= k < |before|
      ensures lhs[k] == rhs[k]
    {
      if base <= k < base + Extent(c, n + 1) {
        WriterStep(c, k - base, n);
      }
    }
  }

  lemma AppendRow(img: seq<seq<Sample>>, row: seq<Sample>, w: nat)
    requires Rectangular(img, w) && |row| == w
    ensures Rectangular(img + [row], w)
    ensures forall y :: 0 <= y < |img| ==> (img + [row])[y] == img[y]
    ensures (img + [row])[|img|] == row
  {
  }

  /** An offset in the plane row of the new luma row takes that row's value. */
  lemma PlaneValueInRow(c: Channel, before: seq<byte>, img: seq<seq<Sample>>, row: seq<Sample>, stride: nat, w: nat, k: nat)
    requires Rectangular(img, w) && |row| == w && Extent(c, w) <= stride && k < |before|
    requires Offset(stride, 0, PlaneIndex(c, |img|)) <= k < Offset(stride, Extent(c, w), PlaneIndex(c, |img|))
    ensures Rectangular(img + [row], w)
    ensures PlaneValue(c, before, img + [row], stride, w, k)
         == Pick(row[Writer(c, k - Offset(stride, 0, PlaneIndex(c, |img|)), w)], c)
  {
    var n := |img|;
    var base := Offset(stride, 0, PlaneIndex(c, n));
    var q, r := k / stride, k % stride;
    AppendRow(img, row, w);
    assert q == PlaneIndex(c, n) && r < Extent(c, w) && r == k - base by {
      RowRange(stride, Extent(c, w), k, PlaneIndex(c, n));
      assert k == q * stride + r;
    }
    assert q < Extent(c, n + 1) && Writer(c, q, n + 1) == n by {
      ExtentStep(c, n);
      WriterStep(c, q, n);
    }
  }

  /** Any other offset keeps the value it had before the new luma row. */
  lemma PlaneValueOffRow(c: Channel, before: seq<byte>, img: seq<seq<Sample>>, row: seq<Sample>, stride: nat, w: nat, k: nat)
    requires Rectangular(img, w) && |row| == w && 0 < stride && Extent(c, w) <= stride && k < |before|
    requires !(Offset(stride, 0, PlaneIndex(c, |img|)) <= k < Offset(stride, Extent(c, w), PlaneIndex(c, |img|)))
    ensures Rectangular(img + [row], w)
    ensures PlaneValue(c, before, img + [row], stride, w, k) == PlaneValue(c, before, img, stride, w, k)
  {
    var n := |img|;
    var q, r := k / stride, k % stride;
    var e := Extent(c, w);
    AppendRow(img, row, w);
    assert !(q == PlaneIndex(c, n) && r < e) by {
      RowRange(stride, e, k, PlaneIndex(c, n));
    }
    assert Extent(c, n) <= Extent(c, n + 1) && Extent(c, n + 1) == PlaneIndex(c, n) + 1 by {
      ExtentStep(c, n);
    }
    if q < Extent(c, n + 1) && r < e {
      assert q < Extent(c, n) && Writer(c, q, n + 1) == Writer(c, q, n) by {
        WriterStep(c, q, n);
      }
      assert (img + [row])[Writer(c, q, n + 1)] == img[Writer(c, q, n)];
    } else {
      assert !InRegion(k, stride, e, Extent(c, n));
    }
  }

  /** One more luma row stores one complete row of plane `c`, row
      `PlaneIndex(c, |img|)`, overwriting what an earlier luma row stored there. */
  lemma PlaneAfterStep(c: Channel, before: seq<byte>, img: seq<seq<Sample>>, row: seq<Sample>, stride: nat, w: nat)
    requires Rectangular(img, w) && |row| == w && 0 < stride && Extent(c, w) <= stride
    ensures Rectangular(img + [row], w)
    ensures PlaneAfter(c, before, img + [row], stride, w)
         == RowAfter(c, PlaneAfter(c, before, img, stride, w), row, Offset(stride, 0, PlaneIndex(c, |img|)))
  {
    AppendRow(img, row, w);
    var lhs := PlaneAfter(c, before, img + [row], stride, w);
    var rhs := RowAfter(c, PlaneAfter(c, before, img, stride, w), row, Offset(stride, 0, PlaneIndex(c, |img|)));
    forall k | 0 <= k < |before|
      ensures lhs[k] == rhs[k]
    {
      if Offset(stride, 0, PlaneIndex(c, |img|)) <= k < Offset(stride, Extent(c, w), PlaneIndex(c, |img|)) {
        PlaneValueInRow(c, before, img, row, stride, w, k);
      } else {
        PlaneValueOffRow(c, before, img, row, stride, w, k);
      }
    }
  }

  /** Each sample (i, j) of the written region of plane `c` holds channel `c`
      of its last writer: luma position (i, j) itself in the luma plane, luma
      position (min(2i+1, w-1), min(2j+1, rows-1)) in a chroma plane. */
  lemma PlaneAfterAt(c: Channel, before: seq<byte>, img: seq<seq<Sample>>, stride: nat, w: nat, i: nat, j: nat)
    requires Rectangular(img, w) && Extent(c, w) <= stride
    requires i < Extent(c, w) && j < Extent(c, |img|) && Offset(stride, i, j) < |before|
    ensures PlaneAfter(c, before, img, stride, w)[Offset(stride, i, j)]
         == Pick(img[Writer(c, j, |img|)][Writer(c, i, w)], c)
  {
    OffsetDivMod(stride, i, j);
  }

  /** Samples outside the written region keep their prior values. */
  lemma PlaneAfterElsewhere(c: Channel, before: seq<byte>, img: seq<seq<Sample>>, stride: nat, w: nat, k: nat)
    requires Rectangular(img, w) && 0 < stride && k < |before|
    requires !InRegion(k, stride, Extent(c, w), Extent(c, |img|))
    ensures PlaneAfter(c, before, img, stride, w)[k] == before[k]
  {
  }

  /** The frame-level statement: after the whole frame, destination sample
      (i, j) of plane `c` holds channel `c` of what was computed for its last
      writer, a function of the source samples that writer reads. */
  lemma FrameResultAt(c: Channel, before: seq<byte>, f: Frame, mode: int64, img: seq<seq<Sample>>, stride: nat, i: nat, j: nat)
    requires f.Valid() && ComputedImage(f, mode, img) && Extent(c, f.width) <= stride
    requires i < Extent(c, f.width) && j < Extent(c, f.height) && Offset(stride, i, j) < |before|
    ensures Rectangular(img, f.width)
    ensures PlaneAfter(c, before, img, stride, f.width)[Offset(stride, i, j)]
         == Pick(PixelAt(f, mode, Writer(c, i, f.width), Writer(c, j, f.height)), c)
  {
    PlaneAfterAt(c, before, img, stride, f.width, i, j);
  }

  /** A one-column, four-row strip: chroma row 0 holds what luma row 1 (the
      odd row) computed, and chroma row 1 what luma row 3 computed. */
  lemma StripChromaFromOddRows(before: seq<byte>, f: Frame, mode: int64, img: seq<seq<Sample>>, stride: nat)
    requires f.Valid() && f.width == 1 && f.height == 4 && ComputedImage(f, mode, img)
    requires 0 < stride && stride < |before|
    ensures Rectangular(img, 1)
    ensures PlaneAfter(Cb, before, img, stride, 1)[0] == PixelAt(f, mode, 0, 1).cb
    ensures PlaneAfter(Cb, before, img, stride, 1)[stride] == PixelAt(f, mode, 0, 3).cb
  {
    assert Writer(Cb, 0, 1) == 0 && Writer(Cb, 0, 4) == 1 && Writer(Cb, 1, 4) == 3;
    assert Offset(stride, 0, 0) == 0 && Offset(stride, 0, 1) == stride;
    FrameResultAt(Cb, before, f, mode, img, stride, 0, 0);
    FrameResultAt(Cb, before, f, mode, img, stride, 0, 1);
  }

  // ---------------------------------------------------------------------
  // The luma stores: every in-region offset exactly once

  /** The luma offsets stored to by one row, in order. */
  function RowOffsets(base: nat, n: nat): seq<int> {
    seq(n, i => base + i)
  }

  lemma RowOffsetsStep(base: nat, n: nat)
    ensures RowOffsets(base, n + 1) == RowOffsets(base, n) + [base + n]
  {
  }

  /** A log of the first `n` offsets of a row, extended by the next one. */
  lemma RowOffsetsExtend(log: seq<int>, base: nat, n: nat, off: int)
    requires log == RowOffsets(base, n) && off == base + n
    ensures log + [off] == RowOffsets(base, n + 1)
  {
    RowOffsetsStep(base, n);
  }

  /** The luma offsets stored to by the first `rows` rows, in order. */
  function RasterOffsets(stride: nat, w: nat, rows: nat): seq<int> {
    if rows == 0 then [] else RasterOffsets(stride, w, rows - 1) + RowOffsets(Offset(stride, 0, rows - 1), w)
  }

  lemma {:induction false} RowOffsetsOnce(base: nat, n: nat, k: nat)
    ensures multiset(RowOffsets(base, n))[k] == if base <= k < base + n then 1 else 0
  {
    if n > 0 {
      RowOffsetsOnce(base, n - 1, k);
      RowOffsetsStep(base, n - 1);
    }
  }

  /** The region of `rows` rows is that of `rows - 1` rows plus, disjoint
      from it, the range of the last row. */
  lemma RegionSplit(stride: nat, w: nat, rows: nat, k: nat)
    requires 0 < stride && w <= stride && 0 < rows
    ensures InRegion(k, stride, w, rows)
        <==> InRegion(k, stride, w, rows - 1) || Offset(stride, 0, rows - 1) <= k < Offset(stride, w, rows - 1)
    ensures !(InRegion(k, stride, w, rows - 1) && Offset(stride, 0, rows - 1) <= k < Offset(stride, w, rows - 1))
  {
    RowRange(stride, w, k, rows - 1);
  }

  /** Every offset of the first `rows` rows and `w` columns is stored to
      exactly once, and no other offset is stored to. */
  lemma {:induction false} RasterOffsetsExactlyOnce(stride: nat, w: nat, rows: nat, k: nat)
    requires 0 < stride && w <= stride
    ensures multiset(RasterOffsets(stride, w, rows))[k] == if InRegion(k, stride, w, rows) then 1 else 0
  {
    if rows > 0 {
      var prev := RasterOffsets(stride, w, rows - 1);
      var row := RowOffsets(Offset(stride, 0, rows - 1), w);
      RasterOffsetsExactlyOnce(stride, w, rows - 1, k);
      RowOffsetsOnce(Offset(stride, 0, rows - 1), w, k);
      RegionSplit(stride, w, rows, k);
      assert multiset(prev + row) == multiset(prev) + multiset(row);
    }
  }

  // ---------------------------------------------------------------------
  // The imperative kernel

  /** The mode `switch`, rewriting the channels of `bgr` in place. */
  method ApplyEffect(mode: int64, avg: int, bgr: array<int>)
    requires bgr.Length == 3 && avg == Avg(Rgb(bgr[0], bgr[1], bgr[2]))
    modifies bgr
    ensures Rgb(bgr[0], bgr[1], bgr[2]) == Effect(mode, old(Rgb(bgr[0], bgr[1], bgr[2])))
  {
    ghost var t := Rgb(bgr[0], bgr[1], bgr[2]);
    match mode
    case 0 =>
      bgr[0] := avg;
      bgr[1] := avg;
      bgr[2] := avg;
      assert Rgb(bgr[0], bgr[1], bgr[2]) == Desaturate(t);
    case 1 =>
      bgr[0] := Trunc(0.393 * (bgr[0] as real) + 0.769 * (bgr[1] as real) + 0.189 * (bgr[2] as real));
      assert bgr[0] == Sepia(t).r;
      bgr[1] := Trunc(0.349 * (bgr[0] as real) + 0.686 * (bgr[1] as real) + 0.168 * (bgr[2] as real));
      assert bgr[1] == Sepia(t).g;
      bgr[2] := Trunc(0.272 * (bgr[0] as real) + 0.534 * (bgr[2] as real) + 0.131 * (bgr[2] as real));
      assert bgr[2] == Sepia(t).b;
    case 2 =>
      bgr[0] := CDiv(Abs(bgr[1] - bgr[2] + bgr[1] + bgr[0]) * bgr[0], 256);
      assert bgr[0] == Comic(t).r;
      bgr[1] := CDiv(Abs(bgr[2] - bgr[1] + bgr[2] + bgr[0]) * bgr[0], 256);
      assert bgr[1] == Comic(t).g;
      bgr[2] := CDiv(Abs(bgr[2] - bgr[1] + bgr[2] + bgr[0]) * bgr[1], 256);
      assert bgr[2] == Comic(t).b;
    case 3 =>
      bgr[0] := 256 - bgr[0];
      bgr[1] := 256 - bgr[1];
      bgr[2] := 256 - bgr[2];
    case 4 =>
      bgr[1] := 0;
      bgr[2] := 0;
    case _ =>
  }

  /** The body of the inner loop up to the stores: reconstruct `bgr`, take
      `avg` of the reconstructed triple, apply the effect, re-project. */
  method ComputePixel(mode: int64, luma: byte, cb: byte, cr: byte, bgr: array<int>) returns (s: Sample)
    requires bgr.Length == 3
    modifies bgr
    ensures s == PixelOut(mode, luma, cb, cr)
  {
    var t := Reconstruct(luma, cb, cr);
    bgr[0] := t.r;
    bgr[1] := t.g;
    bgr[2] := t.b;
    var avg := CDiv(bgr[0] + bgr[1] + bgr[2], 3);
    ApplyEffect(mode, avg, bgr);
    s := Reproject(Rgb(bgr[0], bgr[1], bgr[2]));
  }

  /** The body of the inner loop for luma position (x, y) of a row whose
      source and destination row pointers are at `sY`, `sCb`, `sCr` and `dY`,
      `dCb`, `dCr`: read the three source samples, compute, and store the
      luma sample, then the Cr sample, then the Cb sample. `off` is the offset
      the luma sample was stored at. */
  method StorePixel(mode: int64, ghost f: Frame, x: nat, y: nat,
                    srcY: array<byte>, srcCb: array<byte>, srcCr: array<byte>, sY: nat, sCb: nat, sCr: nat,
                    dstY: array<byte>, dstCb: array<byte>, dstCr: array<byte>, dY: nat, dCb: nat, dCr: nat,
                    bgr: array<int>)
    returns (s: Sample, ghost off: nat)
    requires f.Valid() && x < f.width && y < f.height && f.planes == Planes(srcY[..], srcCb[..], srcCr[..])
    requires sY == Offset(f.strides.luma, 0, y)
    requires sCb == Offset(f.strides.cb, 0, y / 2) && sCr == Offset(f.strides.cr, 0, y / 2)
    requires dY + x < dstY.Length && dCb + x / 2 < dstCb.Length && dCr + x / 2 < dstCr.Length
    requires dstY != dstCb && dstY != dstCr && dstCb != dstCr
    requires bgr.Length == 3
    modifies dstY, dstCb, dstCr, bgr
    ensures s == PixelAt(f, mode, x, y)
    ensures off == dY + x && dstY[..] == old(dstY[..])[off := s.luma]
    ensures dstCb[..] == old(dstCb[..])[dCb + PlaneIndex(Cb, x) := s.cb]
    ensures dstCr[..] == old(dstCr[..])[dCr + PlaneIndex(Cr, x) := s.cr]
  {
    assert sY + x < srcY.Length && srcY[sY + x] == SourceAt(f, Luma, x, y) by {
      SourceIndex(f, Luma, x, y);
    }
    assert sCb + x / 2 < srcCb.Length && srcCb[sCb + x / 2] == SourceAt(f, Cb, x, y) by {
      SourceIndex(f, Cb, x, y);
    }
    assert sCr + x / 2 < srcCr.Length && srcCr[sCr + x / 2] == SourceAt(f, Cr, x, y) by {
      SourceIndex(f, Cr, x, y);
    }
    s := ComputePixel(mode, srcY[sY + x], srcCb[sCb + x / 2], srcCr[sCr + x / 2], bgr);
    dstY[dY + x] := s.luma;
    dstCr[dCr + x / 2] := s.cr;
    dstCb[dCb + x / 2] := s.cb;
    off := dY + x;
  }

  /** The inner loop over the columns of luma row `y`. `sY`, `sCb`, `sCr`
      and `dY`, `dCb`, `dCr` are the current source and destination row
      pointers, as offsets into the plane arrays. `row` is what was computed
      for each column, in order. */
  method ProcessRow(mode: int64, ghost f: Frame, w: nat, y: nat,
                    srcY: array<byte>, srcCb: array<byte>, srcCr: array<byte>, sY: nat, sCb: nat, sCr: nat,
                    dstY: array<byte>, dstCb: array<byte>, dstCr: array<byte>, dY: nat, dCb: nat, dCr: nat,
                    bgr: array<int>)
    returns (ghost log: seq<int>, ghost row: seq<Sample>)
    requires f.Valid() && w == f.width && y < f.height && f.planes == Planes(srcY[..], srcCb[..], srcCr[..])
    requires sY == Offset(f.strides.luma, 0, y)
    requires sCb == Offset(f.strides.cb, 0, y / 2) && sCr == Offset(f.strides.cr, 0, y / 2)
    requires dY + w <= dstY.Length
    requires dCb + Extent(Cb, w) <= dstCb.Length && dCr + Extent(Cr, w) <= dstCr.Length
    requires dstY != dstCb && dstY != dstCr && dstCb != dstCr
    requires srcY != dstY && srcY != dstCb && srcY != dstCr
    requires srcCb != dstY && srcCb != dstCb && srcCb != dstCr
    requires srcCr != dstY && srcCr != dstCb && srcCr != dstCr
    requires bgr.Length == 3
    modifies dstY, dstCb, dstCr, bgr
    ensures ComputedRow(f, mode, y, row)
    ensures dstY[..] == RowAfter(Luma, old(dstY[..]), row, dY)
    ensures dstCb[..] == RowAfter(Cb, old(dstCb[..]), row, dCb)
    ensures dstCr[..] == RowAfter(Cr, old(dstCr[..]), row, dCr)
    ensures log == RowOffsets(dY, w)
  {
    RowAfterNone(Luma, old(dstY[..]), dY);
    RowAfterNone(Cb, old(dstCb[..]), dCb);
    RowAfterNone(Cr, old(dstCr[..]), dCr);
    log, row := [], [];
    var x := 0;
    while x < w
      invariant 0 <= x <= w && |row| == x
      invariant ComputedPrefix(f, mode, y, row)
      invariant f.planes == Planes(srcY[..], srcCb[..], srcCr[..])
      invariant dstY[..] == RowAfter(Luma, old(dstY[..]), row, dY)
      invariant dstCb[..] == RowAfter(Cb, old(dstCb[..]), row, dCb)
      invariant dstCr[..] == RowAfter(Cr, old(dstCr[..]), row, dCr)
      invariant log == RowOffsets(dY, x)
    {
      ExtentCovers(Cb, w, x);
      ExtentCovers(Cr, w, x);
      var s, off := StorePixel(mode, f, x, y, srcY, srcCb, srcCr, sY, sCb, sCr, dstY, dstCb, dstCr, dY, dCb, dCr, bgr);
      assert dstY[..] == RowAfter(Luma, old(dstY[..]), row + [s], dY) by {
        RowAfterStep(Luma, old(dstY[..]), row, s, dY);
      }
      assert dstCb[..] == RowAfter(Cb, old(dstCb[..]), row + [s], dCb) by {
        RowAfterStep(Cb, old(dstCb[..]), row, s, dCb);
      }
      assert dstCr[..] == RowAfter(Cr, old(dstCr[..]), row + [s], dCr) by {
        RowAfterStep(Cr, old(dstCr[..]), row, s, dCr);
      }
      RowOffsetsExtend(log, dY, x, off);
      assert ComputedPrefix(f, mode, y, row + [s]) by {
        ComputedPrefixStep(f, mode, y, row, s);
      }
      log, row := log + [off], row + [s];
      x := x + 1;
    }
  }

  /** The live processing block of `invertGetFrame`: narrow the selector to
      the mode, walk the luma rows advancing the luma pointers after every row
      and the chroma pointers only after odd rows, processing each row.

      `img` is what was computed for every luma position. Each destination
      plane ends up as `PlaneAfter` of its prior contents: the written region
      holds the values `FrameResultAt` describes and everything else keeps its
      prior value (`PlaneAfterElsewhere`). The source planes are not modified,
      and the luma stores hit every offset of the region exactly once. */
  method InvertFrame(key: real, w: nat, h: nat,
                     srcY: array<byte>, srcCb: array<byte>, srcCr: array<byte>, ss: Strides,
                     dstY: array<byte>, dstCb: array<byte>, dstCr: array<byte>, ds: Strides)
    returns (ghost lumaWrites: seq<int>, ghost img: seq<seq<Sample>>)
    requires -9223372036854775809.0 < key < 9223372036854775808.0
    requires PlanesFit(w, h, srcY.Length, srcCb.Length, srcCr.Length, ss)
    requires PlanesFit(w, h, dstY.Length, dstCb.Length, dstCr.Length, ds)
    requires dstY != dstCb && dstY != dstCr && dstCb != dstCr
    requires srcY != dstY && srcY != dstCb && srcY != dstCr
    requires srcCb != dstY && srcCb != dstCb && srcCb != dstCr
    requires srcCr != dstY && srcCr != dstCb && srcCr != dstCr
    modifies dstY, dstCb, dstCr
    ensures ComputedImage(Frame(w, h, Planes(srcY[..], srcCb[..], srcCr[..]), ss), ModeOf(key), img)
    ensures Rectangular(img, w)
    ensures dstY[..] == PlaneAfter(Luma, old(dstY[..]), img, ds.luma, w)
    ensures dstCb[..] == PlaneAfter(Cb, old(dstCb[..]), img, ds.cb, w)
    ensures dstCr[..] == PlaneAfter(Cr, old(dstCr[..]), img, ds.cr, w)
    ensures lumaWrites == RasterOffsets(ds.luma, w, h)
    ensures forall k :: multiset(lumaWrites)[k] == if InRegion(k, ds.luma, w, h) then 1 else 0
  {
    var mode := ModeOf(key);
    ghost var f := Frame(w, h, Planes(srcY[..], srcCb[..], srcCr[..]), ss);
    var bgr := new int[3];
    var sY, sCb, sCr := 0, 0, 0;
    var dY, dCb, dCr := 0, 0, 0;
    PlaneAfterNone(Luma, old(dstY[..]), ds.luma, w);
    PlaneAfterNone(Cb, old(dstCb[..]), ds.cb, w);
    PlaneAfterNone(Cr, old(dstCr[..]), ds.cr, w);
    lumaWrites, img := [], [];
    var y := 0;
    while y < h
      invariant 0 <= y <= h && |img| == y && Rectangular(img, w)
      invariant forall j :: 0 <= j < y ==> ComputedRow(f, mode, j, img[j])
      invariant f.planes == Planes(srcY[..], srcCb[..], srcCr[..])
      invariant sY == Offset(ss.luma, 0, y) && dY == Offset(ds.luma, 0, y)
      invariant sCb == Offset(ss.cb, 0, y / 2) && sCr == Offset(ss.cr, 0, y / 2)
      invariant dCb == Offset(ds.cb, 0, y / 2) && dCr == Offset(ds.cr, 0, y / 2)
      invariant dstY[..] == PlaneAfter(Luma, old(dstY[..]), img, ds.luma, w)
      invariant dstCb[..] == PlaneAfter(Cb, old(dstCb[..]), img, ds.cb, w)
      invariant dstCr[..] == PlaneAfter(Cr, old(dstCr[..]), img, ds.cr, w)
      invariant lumaWrites == RasterOffsets(ds.luma, w, y)
    {
      assert dY + w <= dstY.Length by {
        RowFits(dstY.Length, ds.luma, w, h, Luma, y);
      }
      assert dCb + Extent(Cb, w) <= dstCb.Length && dCr + Extent(Cr, w) <= dstCr.Length by {
        RowFits(dstCb.Length, ds.cb, w, h, Cb, y);
        RowFits(dstCr.Length, ds.cr, w, h, Cr, y);
      }
      var rowWrites, row := ProcessRow(mode, f, w, y, srcY, srcCb, srcCr, sY, sCb, sCr,
                                       dstY, dstCb, dstCr, dY, dCb, dCr, bgr);
      assert Rectangular(img + [row], w) by {
        AppendRow(img, row, w);
      }
      assert dstY[..] == PlaneAfter(Luma, old(dstY[..]), img + [row], ds.luma, w) by {
        PlaneAfterStep(Luma, old(dstY[..]), img, row, ds.luma, w);
      }
      assert dstCb[..] == PlaneAfter(Cb, old(dstCb[..]), img + [row], ds.cb, w) by {
        PlaneAfterStep(Cb, old(dstCb[..]), img, row, ds.cb, w);
      }
      assert dstCr[..] == PlaneAfter(Cr, old(dstCr[..]), img + [row], ds.cr, w) by {
        PlaneAfterStep(Cr, old(dstCr[..]), img, row, ds.cr, w);
      }
      assert forall j :: 0 <= j < y + 1 ==> ComputedRow(f, mode, j, (img + [row])[j]) by {
        ComputedImageStep(f, mode, img, row);
      }
      assert lumaWrites + rowWrites == RasterOffsets(ds.luma, w, y + 1);
      lumaWrites, img := lumaWrites + rowWrites, img + [row];
      assert Offset(ss.luma, 0, y + 1) == sY + ss.luma && Offset(ds.luma, 0, y + 1) == dY + ds.luma by {
        NextRow(ss.luma, y);
        NextRow(ds.luma, y);
      }
      assert Offset(ss.cb, 0, (y + 1) / 2) == sCb + (if y % 2 == 1 then ss.cb else 0) by {
        NextChromaRow(ss.cb, y);
      }
      assert Offset(ss.cr, 0, (y + 1) / 2) == sCr + (if y % 2 == 1 then ss.cr else 0) by {
        NextChromaRow(ss.cr, y);
      }
      assert Offset(ds.cb, 0, (y + 1) / 2) == dCb + (if y % 2 == 1 then ds.cb else 0) by {
        NextChromaRow(ds.cb, y);
      }
      assert Offset(ds.cr, 0, (y + 1) / 2) == dCr + (if y % 2 == 1 then ds.cr else 0) by {
        NextChromaRow(ds.cr, y);
      }
      dY := dY + ds.luma;
      sY := sY + ss.luma;
      if y % 2 == 1 {
        dCb := dCb + ds.cb;
        sCb := sCb + ss.cb;
        sCr := sCr + ss.cr;
        dCr := dCr + ds.cr;
      }
      y := y + 1;
    }
    forall k ensures multiset(lumaWrites)[k] == if InRegion(k, ds.luma, w, h) then 1 else 0 {
      RasterOffsetsExactlyOnce(ds.luma, w, h, k);
    }
  }
}
