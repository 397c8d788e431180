# Invert: the per-frame pixel kernel of a VapourSynth filter

The filter is a VapourSynth plugin. For every frame, `invertGetFrame` walks the three 8-bit planes of a
YUV 4:2:0-style clip. Plane 0 is full-resolution luma. Planes 1 (Cb) and 2 (Cr) are chroma planes
at half resolution in both directions. For every luma position (x, y) the kernel does four things:

1. It reads the luma sample at (x, y) and the two chroma samples at (x/2, y/2).
2. It reconstructs an integer triple `bgr[0..2]` from those samples (red, green, blue despite the name).
3. It applies one of five effects, chosen by a `key` narrowed to a 64-bit integer: desaturate,
   sepia, comic, invert, or red only. Any other mode leaves the triple unchanged.
4. It re-projects the triple into luma, Cb and Cr. It stores the luma sample at (x, y) and the two
   chroma samples at (x/2, y/2) of the destination.

The chroma row pointers advance only after odd luma rows. Each chroma cell is therefore stored by
up to four luma positions, two columns by two rows, and the last store wins.

The project has four modules:

- `CArith` (`c_arith.dfy`) holds the C arithmetic the kernel depends on: `uint8_t`, `int64_t`,
  truncation of a floating value toward zero, C's truncating integer division, and the narrowing
  store into a byte.
- `Color` (`color.dfy`) holds the per-sample arithmetic as pure functions. These are the
  reconstruction, the five effects (each reproducing the source's channel-by-channel rewrite), and
  the re-projection. Lemmas state each effect's properties and show that no C `int` overflows.
- `Kernel` (`kernel.dfy`) holds the imperative part:
  - The mode `switch` as a method over a three-element array.
  - The inner loop over the columns as a method with loop invariants.
  - The outer loop over the rows as a method that advances six row pointers by stride,
    exactly as the source does.
  - Specification functions (`RowAfter`, `PlaneAfter`) that give each destination plane after the
    loops in terms of its prior contents and of what was computed per luma position.
  - Lemmas stating the last-writer-wins layout, the untouched bytes, and the exactly-once luma
    stores.
- `Format` (`format.dfy`) holds the clip-format test of `invertCreate`, set against the plane
  layout the kernel assumes (see "## Findings").

## Model

| member | source | states |
|---|---|---|
| CArith.Abs | VSPLUGIN/main.cpp:229-231 | `abs` returns a non-negative value equal to its argument or its negation. |
| CArith.Trunc | VSPLUGIN/main.cpp:211-213 | A `double` converted to `int` loses its fraction toward zero: the result is the largest integer not above a non-negative value, and the smallest not below a negative one. |
| CArith.CDiv | VSPLUGIN/main.cpp:215 | C's `a / b` for a positive divisor truncates toward zero: a negative dividend rounds up, a non-negative one rounds down, and the quotient's magnitude times `b` never exceeds the dividend's magnitude. |
| CArith.NarrowToByte | VSPLUGIN/main.cpp:276-278 | Storing a `double` into a `uint8_t` keeps the truncated value modulo 256. A value already in [0, 256) is stored as its truncation. |
| CArith.ModeOf | VSPLUGIN/main.cpp:36 | `int64_t key = d->key` narrows the selector toward zero, whatever the selector's sign. |
| CArith.ModeOfTruncatesTowardZero | VSPLUGIN/main.cpp:36 | 1.7 selects mode 1, 0.9 and -0.9 select mode 0, -1.7 selects -1, and 4.0 selects 4. |
| Color.Reconstruct | VSPLUGIN/main.cpp:211-213 | Every reconstructed channel lies in a fixed band around the sample range (red [-175, 429], green [-177, 434], blue [-221, 475]). Neutral chroma (128, 128) gives the grey triple (y, y, y). |
| Color.Avg | VSPLUGIN/main.cpp:215 | `avg` is the channel sum divided by 3 with truncation toward zero: three times it is within 3 of the sum, from below for a non-negative sum and from above for a negative one. |
| Color.Effect | VSPLUGIN/main.cpp:217-246 | The `switch` on the mode, dispatching to one per-mode function. Its properties are the lemmas `DesaturateIsTruncatedMean` to `OtherModesPassThrough` below, and `Kernel.ApplyEffect` is proved to compute it. |
| Color.Desaturate | VSPLUGIN/main.cpp:218-222 | Mode 0. `DesaturateIsTruncatedMean` and `DesaturateIdempotent` state what it computes. |
| Color.Sepia | VSPLUGIN/main.cpp:223-226 | Mode 1. `SepiaReadsRewrittenChannels`, `SepiaBlueIgnoresGreen` and `SepiaDiffersFromMatrix` state which channels each assignment reads. |
| Color.Comic | VSPLUGIN/main.cpp:228-231 | Mode 2. `ComicReadsRewrittenChannels`, `ComicReadsOnlyRewrittenRedGreen` and `ComicDiffersFromSnapshot` state which channels each assignment reads. |
| Color.Invert | VSPLUGIN/main.cpp:233-236 | Mode 3. `InvertIsInvolution` states that each channel becomes 256 - c and that the mode undoes itself. |
| Color.RedOnly | VSPLUGIN/main.cpp:238-241 | Mode 4. `RedIsolateKeepsRed` states that red is kept, green and blue cleared, and the mode is idempotent. |
| Color.Reproject | VSPLUGIN/main.cpp:276-278 | The three stores' expressions, each narrowed to a byte. `GreyHasNeutralChroma` and `MidGreyScenario` state what it does to grey triples, in exact arithmetic. |
| Color.PixelOut | VSPLUGIN/main.cpp:211-278 | Everything computed for one luma position from its three input samples. `Kernel.ComputePixel` is proved to compute it, and `PixelArithmeticFitsInt32` shows none of its `int` steps overflows. |
| Color.DesaturateIsTruncatedMean | VSPLUGIN/main.cpp:215-222 | Mode 0 sets all three channels to one value, which is the pre-effect channel sum divided by 3 with truncation toward zero, for negative sums too. |
| Color.DesaturateIdempotent | VSPLUGIN/main.cpp:215-222 | Applying mode 0 twice gives the same triple as applying it once. |
| Color.SepiaReadsRewrittenChannels | VSPLUGIN/main.cpp:223-226 | In mode 1 only red equals the matrix product of the original triple. Green reads the rewritten red. Blue reads the rewritten red and the original blue with coefficient 0.534 + 0.131, and never reads green. |
| Color.SepiaBlueIgnoresGreen | VSPLUGIN/main.cpp:226 | Two triples with the same rewritten red and the same blue get the same mode-1 blue, whatever their green: blue never reads green. |
| Color.SepiaDiffersFromMatrix | VSPLUGIN/main.cpp:223-226 | On (100, 200, 50), mode 1 gives (202, 216, 88) while the matrix product gives (202, 180, 140). |
| Color.ComicReadsRewrittenChannels | VSPLUGIN/main.cpp:228-231 | In mode 2, red is the snapshot formula. Green is abs(2b - g + r') * r' / 256 and blue is abs(2b - g' + r') * g' / 256, using the rewritten r' and g' and C division. |
| Color.ComicReadsOnlyRewrittenRedGreen | VSPLUGIN/main.cpp:230-231 | Mode-2 green depends only on the rewritten red and the old green and blue. Mode-2 blue depends only on the rewritten red and green and the old blue, so it reads the old red and green only through them. |
| Color.ComicDiffersFromSnapshot | VSPLUGIN/main.cpp:228-231 | On (100, 50, 20), mode 2 gives (70, 16, 5) while the same formulas over the original triple give (70, 35, 17). |
| Color.InvertIsInvolution | VSPLUGIN/main.cpp:233-236 | Mode 3 maps each channel independently to 256 - c, and applying it twice returns the original triple. |
| Color.RedIsolateKeepsRed | VSPLUGIN/main.cpp:238-241 | Mode 4 keeps red, sets green and blue to 0, and is idempotent. |
| Color.OtherModesPassThrough | VSPLUGIN/main.cpp:243-246 | Every mode outside 0..4 leaves the triple unchanged, so the output is the re-projection of the bare reconstruction. |
| Color.GreyHasNeutralChroma | VSPLUGIN/main.cpp:277-278 | In exact arithmetic, a grey triple (v, v, v) at any level re-projects to Cb = Cr = 128. |
| Color.DesaturateWritesNeutralChroma | VSPLUGIN/main.cpp:218-222 | In exact arithmetic, every chroma sample mode 0 stores is 128, whatever the input. |
| Color.MidGreyScenario | VSPLUGIN/main.cpp:211-213 | Input (16, 128, 128) reconstructs to the grey (16, 16, 16). In mode 0 and in a pass-through mode it is stored as (29, 128, 128), not as the input. |
| Color.ComicProductsFitInt32 | VSPLUGIN/main.cpp:229-231 | On any reconstructed triple, each of the three mode-2 products and quotients is bounded, with the largest product at most 1456380744 < 2^31. |
| Color.SepiaStaysSmall | VSPLUGIN/main.cpp:224-226 | On any reconstructed triple, each mode-1 channel has magnitude at most 1000. |
| Color.EffectFitsInt32 | VSPLUGIN/main.cpp:217-246 | On any reconstructed triple, every mode leaves all three channels in the 32-bit range. |
| Color.PixelArithmeticFitsInt32 | VSPLUGIN/main.cpp:211-231 | For every input sample triple and every mode, every intermediate value in `int` lies in the 32-bit range: the reconstructed channels, the sum behind `avg`, the mode-2 products, and the channels after the effect. So unbounded integers compute what the source's `int` computes. |
| Kernel.Extent | VSPLUGIN/main.cpp:277-278 | Luma coordinates 0..n-1 map to plane coordinates 0..Extent-1 (n for luma, (n+1)/2 for chroma), and Extent never exceeds n. |
| Kernel.ExtentCovers | VSPLUGIN/main.cpp:277-278 | Every luma coordinate below n maps to a plane coordinate below Extent(c, n). |
| Kernel.Writer | VSPLUGIN/main.cpp:277-278 | The luma coordinate whose store to plane coordinate j survives maps to j and lies below n. For chroma it is min(2j+1, n-1). |
| Kernel.WriterIsLast | VSPLUGIN/main.cpp:277-278 | No luma coordinate below n that maps to plane coordinate j comes after Writer(c, j, n). |
| Kernel.InPlane | VSPLUGIN/main.cpp:188-199 | In a plane that fits its buffer, every in-region offset y*stride + x lies inside the buffer. |
| Kernel.RowFits | VSPLUGIN/main.cpp:276-278 | The plane row that luma row y stores into ends inside the destination buffer. |
| Kernel.NextRow | VSPLUGIN/main.cpp:282-283 | Adding one stride to a row pointer moves it from row y to row y + 1. |
| Kernel.NextChromaRow | VSPLUGIN/main.cpp:285-290 | Advancing a chroma pointer by a stride exactly when y is odd keeps it at chroma row y/2 for every luma row y. |
| Kernel.OffsetDivMod | VSPLUGIN/main.cpp:276-278 | The row and column of a plane sample are recovered from its offset, so distinct in-region positions have distinct offsets. |
| Kernel.RowRange | VSPLUGIN/main.cpp:276 | An offset lies in the range a row's stores cover exactly when its row is that row and its column is within the width. |
| Kernel.ValidPlane | VSPLUGIN/main.cpp:184-199 | Each plane of a valid frame fits its buffer with that plane's own stride and extent. |
| Kernel.SourceAt | VSPLUGIN/main.cpp:211-213 | The read of plane c for luma position (x, y). `SourceIndex` states where it reads and that the read is in bounds. |
| Kernel.PixelAt | VSPLUGIN/main.cpp:209-278 | What the kernel computes for luma position (x, y) of a frame. `PixelAtIsLocal` states that it depends only on the samples read there, and `StorePixel` is proved to compute it. |
| Kernel.SourceIndex | VSPLUGIN/main.cpp:211-213 | The sample read for luma position (x, y) in plane c lies at (x, y) for luma and at (x/2, y/2) for chroma, and the read is in bounds. |
| Kernel.PixelAtIsLocal | VSPLUGIN/main.cpp:209-213 | What is computed for (x, y) depends only on the source luma at (x, y) and the source chroma at (x/2, y/2). Two frames that agree there give the same samples. |
| Kernel.ComputedPrefixStep | VSPLUGIN/main.cpp:210 | Appending the sample computed for the next column extends the row computed so far. |
| Kernel.ComputedImageStep | VSPLUGIN/main.cpp:209 | Appending the row computed for the next luma row extends the image computed so far. |
| Kernel.RowAfter | VSPLUGIN/main.cpp:210-279 | Closed form of a destination plane after one row's stores: each cell of the plane row holds channel c of its last writer, every other byte its prior value. `ProcessRow` is proved to produce it, and `RowAfterNone` and `RowAfterStep` relate it to one store at a time. |
| Kernel.PlaneAfter | VSPLUGIN/main.cpp:209-290 | Closed form of a destination plane after the whole frame. `InvertFrame` is proved to produce it. `PlaneAfterAt`, `PlaneAfterElsewhere` and `FrameResultAt` state what it holds inside and outside the written region. |
| Kernel.RowAfterNone | VSPLUGIN/main.cpp:210 | Before the first column of a row, the destination plane is unchanged. |
| Kernel.PlaneAfterNone | VSPLUGIN/main.cpp:209 | Before the first row, the destination plane is unchanged. |
| Kernel.ExtentStep | VSPLUGIN/main.cpp:277-278 | Adding luma coordinate n makes the extent one past the plane coordinate n maps to. That plane coordinate is at most the old extent, so the extent grows by at most one. |
| Kernel.WriterStep | VSPLUGIN/main.cpp:277-278 | One more luma coordinate becomes the last writer of exactly the plane coordinate it maps to, and every other coordinate's writer is unchanged. |
| Kernel.RowAfterStep | VSPLUGIN/main.cpp:276-278 | Storing one more column updates exactly one cell of the plane row, the one that column maps to, with that column's sample. |
| Kernel.AppendRow | VSPLUGIN/main.cpp:209 | Appending a row of w samples keeps the image rectangular. |
| Kernel.PlaneValueInRow | VSPLUGIN/main.cpp:276-290 | A cell in the plane row that the new luma row maps to takes its value from the new row's stores. |
| Kernel.PlaneValueOffRow | VSPLUGIN/main.cpp:276-290 | A cell outside the plane row that the new luma row maps to keeps its value. |
| Kernel.PlaneAfterStep | VSPLUGIN/main.cpp:276-290 | Processing one more luma row changes the destination plane exactly as that row's stores do, starting at the row pointer of plane row y (chroma: y/2). |
| Kernel.PlaneAfterAt | VSPLUGIN/main.cpp:277-278 | After all rows, cell (i, j) of the written region holds its last writer's sample: (i, j) for luma, (min(2i+1, w-1), min(2j+1, h-1)) for chroma. |
| Kernel.PlaneAfterElsewhere | VSPLUGIN/main.cpp:276-290 | Every byte outside the written region keeps its prior value. This covers stride padding, luma columns ≥ w, chroma columns ≥ (w+1)/2, and rows beyond the last. |
| Kernel.FrameResultAt | VSPLUGIN/main.cpp:209-290 | After the whole frame, destination cell (i, j) of plane c holds channel c of the samples computed for its last writer. Those samples are a function of the source samples that writer reads. |
| Kernel.StripChromaFromOddRows | VSPLUGIN/main.cpp:285-290 | In a 1-wide, 4-high frame, chroma row 0 holds what luma row 1 computed and chroma row 1 holds what luma row 3 computed. |
| Kernel.RowOffsetsStep | VSPLUGIN/main.cpp:276 | One more column adds its own offset at the end of the row's store log. |
| Kernel.RowOffsetsExtend | VSPLUGIN/main.cpp:276 | A log of the first n offsets of a row, extended by offset base + n, is the log of the first n + 1. |
| Kernel.RowOffsetsOnce | VSPLUGIN/main.cpp:276 | A row's luma stores hit each offset of its range exactly once and no other offset. |
| Kernel.RegionSplit | VSPLUGIN/main.cpp:282-283 | The region of the first `rows` rows is the region of one row fewer plus the last row's range, and the two are disjoint. |
| Kernel.RasterOffsetsExactlyOnce | VSPLUGIN/main.cpp:276 | Over the whole frame, every luma offset y*stride + x with x < w and y < h is stored exactly once, and no other offset is stored. |
| Kernel.ApplyEffect | VSPLUGIN/main.cpp:217-248 | The in-place `switch` on `bgr` leaves it holding `Effect(mode, ·)` of the triple before the switch. In mode 0 this uses the `avg` of that pre-effect triple. |
| Kernel.ComputePixel | VSPLUGIN/main.cpp:211-278 | Reconstructing into `bgr`, taking `avg` and applying the effect yields the re-projected samples `PixelOut` for the three inputs. |
| Kernel.StorePixel | VSPLUGIN/main.cpp:211-278 | One inner-loop step returns `PixelAt` for (x, y). It changes exactly three destination bytes: the luma at row pointer + x (and returns that offset), and the Cr and Cb at their row pointers + x/2. |
| Kernel.ProcessRow | VSPLUGIN/main.cpp:210-279 | The inner loop computes `PixelAt` for every column of row y in order. It leaves each destination plane as `RowAfter` of its prior contents (last writer per cell) and logs the luma offsets row pointer + 0..w-1, each the offset its store reported. |
| Format.CreateAccepts | VSPLUGIN/main.cpp:422 | The format test as written: it accepts exactly the constant-format clips with 8-bit integer samples. The number of planes and the subsampling are not tested. |
| Format.KernelAccepts | VSPLUGIN/main.cpp:422 | The corrected test: `CreateAccepts`, and in addition three planes with chroma subsampled by two both ways. `Format.KernelAcceptsFits` proves it enough for every access to be in bounds. |
| Kernel.PlaneIndex | VSPLUGIN/main.cpp:211-213 | The plane column (or row) the kernel uses for luma column (or row) i: i itself for luma. For chroma it is the r with 2r <= i < 2r + 2, so each chroma sample covers two luma positions. |
| Format.CreateAcceptsQuarterWidthChroma | VSPLUGIN/main.cpp:422-426 | The format test as written accepts an 8x2 YUV 4:1:1 clip with 2x2 chroma planes. The kernel's chroma access for luma (4, 0) stays inside the 4-byte buffer, but its column 2 is past the plane width of 2: offset 2 is chroma sample (0, 1), which belongs to luma row 1. The layout the kernel requires does not hold. |
| Format.CreateAcceptsQuarterChroma | VSPLUGIN/main.cpp:422-426 | The format test as written accepts an 8x8 YUV 4:1:0 clip. Its host layout has 2x2 chroma planes, yet the kernel's chroma access for luma (7, 7) is at offset 9, and the layout the kernel requires does not hold. |
| Format.CreateAcceptsSinglePlane | VSPLUGIN/main.cpp:422-426 | The format test as written accepts a single-plane 8-bit grey clip, which has no planes 1 and 2. The kernel still asks the host for them (VSPLUGIN/main.cpp:185-186, 189-190). |
| Format.KernelAcceptsFits | VSPLUGIN/main.cpp:184-213 | For every clip the corrected test accepts (also three planes, chroma subsampled by two both ways) and every host buffer layout, the layout `InvertFrame` requires holds. The chroma region it writes is then exactly the chroma plane. |
| Kernel.InvertFrame | VSPLUGIN/main.cpp:184-294 | The processing block computes `PixelAt` for every luma position. Each destination plane ends as `PlaneAfter` of its prior contents. The source planes are not modified. The luma stores hit every region offset exactly once. |

## Left out

- Plugin glue is not modelled: `invertInit` (VSPLUGIN/main.cpp:22-25), `invertFree` (VSPLUGIN/main.cpp:404-408), argument parsing in `invertCreate` (VSPLUGIN/main.cpp:411-468), and `VapourSynthPluginInit` (VSPLUGIN/main.cpp:496-499). All of them are calls into the host API. Only the format test of `invertCreate` (VSPLUGIN/main.cpp:422) is modelled, in `Format`.
- The frame request, the destination allocation and the source release in `invertGetFrame` (VSPLUGIN/main.cpp:37-55, 389-395) are not modelled. They are host calls and reference counting. The read and write pointers, strides, width and height they provide become parameters of `Kernel.InvertFrame`.
- The commented-out code in VSPLUGIN/main.cpp (lines 61-180, 249-275 and 297-387) is not modelled, because it is dead.
- The `enabled` option is not modelled. `invertCreate` reads a property named `enable` (VSPLUGIN/main.cpp:435), but the filter is registered with an argument named `enabled` (VSPLUGIN/main.cpp:498). The read therefore always reports the property unset, and `d.enabled` is always set to 1 (VSPLUGIN/main.cpp:436-437). The kernel never reads it either way, so it always processes the frame.
- `double` arithmetic is modelled as exact rational arithmetic on the same decimal constants, followed by the same truncation. IEEE-754 rounding of the constants and the products can differ in the last place. So a result that lies within one rounding error of an integer may truncate differently in the source.
- Color.GreyHasNeutralChroma: holds in exact arithmetic only. In IEEE double the coefficient products at VSPLUGIN/main.cpp:277-278 need not cancel. For grey level 281, Cb comes out as 127.99999999999999 and is stored as 127. For grey levels 292, 304 and 312, Cr comes out just below 128 and is stored as 127.
- Color.DesaturateWritesNeutralChroma: holds in exact arithmetic only. Input (luma 209, Cb 255, Cr 255) reconstructs to (383, 31, 429), whose `avg` is 281. In IEEE double, mode 0 then stores Cb 127. Inputs (220, 255, 255), (232, 255, 255) and (240, 255, 255) give grey levels 292, 304 and 312, and mode 0 stores Cr 127 for each.
- CArith.NarrowToByte: the source stores an out-of-range `double` directly into a `uint8_t`, which C++ leaves undefined. The model fixes one behaviour, truncate then wrap modulo 256, and keeps it in this one function.
- CArith.ModeOf: a NaN selector, or one whose truncation is outside `int64_t`, is undefined in C++. The model excludes it with a precondition on the range of `key`.
- Kernel.InvertFrame requires the plane layout it works on: each chroma plane holds at least ceil(w/2) x ceil(h/2) samples with a stride of at least ceil(w/2), and the luma plane w x h with a stride of at least w. The source never checks the chroma part. `invertCreate` accepts clips that do not meet it (see "## Findings"). On a 4:1:0 clip, the `x/2` and `y/2` accesses at VSPLUGIN/main.cpp:211-213 and 277-278 run past the end of the chroma buffers. On a 4:1:1 clip of at least two rows, they stay inside the buffers but read and overwrite samples at the wrong positions, past the plane's width. On a single-plane grey clip, the kernel asks the host for planes 1 and 2, which do not exist (VSPLUGIN/main.cpp:185-186, 189-190). What the host does then is not modelled. The host guarantees the rest: strides are positive, as VSPLUGIN/main.cpp:69 notes, the three destination planes are distinct buffers, and none of them is a source plane.
- Format.KernelAcceptsFits: relies on the host laying out a constant-format frame with dimensions that are multiples of the subsampling, chroma planes of the frame size shifted right by the subsampling, and rows at least a plane width apart. That is host behaviour, stated in `Format.HostLayout`.
- The host runs frames in parallel (`fmParallel`, VSPLUGIN/main.cpp:467). Each call works on its own frames, so the model treats one call in isolation.
- Kernel.InvertFrame: strides are `int` in the source, and a negative stride (a bottom-up plane) is excluded. The model's strides are natural numbers.
- The luma-16 grey input is not reproduced as luma 16. The reconstruction and re-projection coefficients are not inverses, so it comes out as 29 (`Color.MidGreyScenario`). The model follows the code here too.

## Findings

| source | as written | input that shows it | evidently intended | confidence | as-written member | corrected member |
|---|---|---|---|---|---|---|
| VSPLUGIN/main.cpp:422 | The format test accepts every constant-format 8-bit integer clip, whatever its subsampling. The kernel assumes chroma subsampled by exactly two in both directions. | An 8x8 YUV 4:1:0 clip has 2x2 chroma planes of 4 bytes. Luma position (7, 7) reads and writes chroma offset 9, past the buffer. | Accept only three-plane clips with chroma subsampled by two both ways, on which every access is in bounds. | medium; not executed | Format.CreateAcceptsQuarterChroma | Format.KernelAcceptsFits |
| VSPLUGIN/main.cpp:422 | The format test accepts a single-plane clip. The kernel asks the host for read and write pointers to planes 1 and 2 (VSPLUGIN/main.cpp:185-186, 189-190). | An 8-bit grey clip of any size has no planes 1 and 2. | Accept only three-plane clips. | medium; not executed | Format.CreateAcceptsSinglePlane | Format.KernelAcceptsFits |
| VSPLUGIN/main.cpp:422 | The format test accepts a 4:1:1 clip. The kernel maps luma column x to chroma column x/2, past the chroma plane's width of w/4. | An 8x2 YUV 4:1:1 clip has 2x2 chroma planes. Luma position (4, 0) reads and overwrites chroma offset 2. That is chroma sample (0, 1), which belongs to luma row 1. | Accept only three-plane clips with chroma subsampled by two both ways. | medium; not executed | Format.CreateAcceptsQuarterWidthChroma | Format.KernelAcceptsFits |
