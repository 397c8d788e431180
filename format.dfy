/** The clip formats `invertCreate` accepts, set against the plane layout
    the frame kernel assumes: three 8-bit planes, the chroma planes
    subsampled by two in both directions. */
module Format {
  import opened Kernel

  datatype Option<T> = None | Some(value: T)

  datatype SampleType = Integer | Float

  /** The parts of a clip format that the plugin tests or the kernel relies on. */
  datatype VideoFormat = VideoFormat(sampleType: SampleType, bitsPerSample: nat, numPlanes: nat,
                                     subSamplingW: nat, subSamplingH: nat)

  /** A clip's format (absent when it may change from frame to frame) and
      its frame size (0 when it may change). */
  datatype VideoInfo = VideoInfo(format: Option<VideoFormat>, width: nat, height: nat)

  /** The host's test for a clip of one fixed format and size. */
  predicate IsConstantFormat(vi: VideoInfo) {
    vi.format.Some? && 0 < vi.width && 0 < vi.height
  }

  /** The format test of `invertCreate`: a constant format with 8-bit integer
      samples. The number of planes and the subsampling are not tested. */
  predicate CreateAccepts(vi: VideoInfo) {
    IsConstantFormat(vi) && vi.format.value.sampleType == Integer && vi.format.value.bitsPerSample == 8
  }

  /** `n >> k`: halve `k` times, rounding down. */
  function Shr(n: nat, k: nat): nat {
    if k == 0 then n else Shr(n / 2, k - 1)
  }

  /** `n` is a multiple of `1 << k`. */
  predicate MultipleOfPow2(n: nat, k: nat) {
    k == 0 || (n % 2 == 0 && MultipleOfPow2(n / 2, k - 1))
  }

  /** Width of plane `p` as the host lays out a frame: the frame width for
      plane 0, the width shifted right by the horizontal subsampling for the
      others. */
  function PlaneWidth(fmt: VideoFormat, w: nat, p: nat): nat {
    if p == 0 then w else Shr(w, fmt.subSamplingW)
  }

  function PlaneHeight(fmt: VideoFormat, h: nat, p: nat): nat {
    if p == 0 then h else Shr(h, fmt.subSamplingH)
  }

  /** The buffers the host hands the kernel for a frame of `vi`: the frame
      size is a multiple of the subsampling, and there is one buffer per plane
      whose rows lie at least a plane width apart and which holds all the
      plane's rows. */
  predicate HostLayout(vi: VideoInfo, lens: seq<nat>, strides: seq<nat>)
    requires IsConstantFormat(vi)
  {
    var fmt := vi.format.value;
    MultipleOfPow2(vi.width, fmt.subSamplingW) && MultipleOfPow2(vi.height, fmt.subSamplingH) &&
    |lens| == fmt.numPlanes && |strides| == fmt.numPlanes &&
    forall p :: 0 <= p < fmt.numPlanes ==>
      0 < strides[p] && PlaneWidth(fmt, vi.width, p) <= strides[p] &&
      PlaneHeight(fmt, vi.height, p) * strides[p] <= lens[p]
  }

  /** As written, the test lets through a 4:1:0 clip (chroma subsampled by
      four both ways). On an 8x8 frame its chroma planes are 2x2, four bytes,
      but luma position (7, 7) reads and writes chroma sample (3, 3), offset
      9: past the end of both chroma planes. */
  lemma CreateAcceptsQuarterChroma()
    ensures var vi := VideoInfo(Some(VideoFormat(Integer, 8, 3, 2, 2)), 8, 8);
      CreateAccepts(vi) && HostLayout(vi, [64, 4, 4], [8, 2, 2]) &&
      Offset(2, PlaneIndex(Cb, 7), PlaneIndex(Cb, 7)) == 9 &&
      !PlanesFit(8, 8, 64, 4, 4, Strides(8, 2, 2))
  {
    var vi := VideoInfo(Some(VideoFormat(Integer, 8, 3, 2, 2)), 8, 8);
    assert Shr(8, 2) == 2;
    assert HostLayout(vi, [64, 4, 4], [8, 2, 2]) by {
      var fmt := vi.format.value;
      forall p | 0 <= p < 3
        ensures PlaneWidth(fmt, 8, p) <= [8, 2, 2][p] && PlaneHeight(fmt, 8, p) * [8, 2, 2][p] <= [64, 4, 4][p]
      {
      }
    }
  }

  /** As written, the test lets through a 4:1:1 clip (chroma subsampled by
      four horizontally only). On an 8x2 frame its chroma planes are 2x2, four
      bytes. The kernel's chroma accesses stay inside them, but at the wrong
      place: luma position (4, 0) reads and writes chroma column 2, past the
      plane's width of 2, at offset 2. That is chroma sample (0, 1), which
      belongs to luma row 1, not to luma sample (4, 0). */
  lemma CreateAcceptsQuarterWidthChroma()
    ensures var vi := VideoInfo(Some(VideoFormat(Integer, 8, 3, 2, 0)), 8, 2);
      CreateAccepts(vi) && HostLayout(vi, [16, 4, 4], [8, 2, 2]) &&
      PlaneWidth(vi.format.value, 8, 1) == 2 <= PlaneIndex(Cb, 4)
    ensures Offset(2, PlaneIndex(Cb, 4), PlaneIndex(Cb, 0)) == Offset(2, 0, 1) == 2 < 4
    ensures !PlanesFit(8, 2, 16, 4, 4, Strides(8, 2, 2))
  {
    QuarterWidthLayout();
    assert PlaneIndex(Cb, 4) == 2 && PlaneIndex(Cb, 0) == 0;
    QuarterWidthMisfit();
  }

  /** An 8x2 frame whose chroma planes are 2x2 misses the kernel's layout:
      its chroma regions are four columns wide. */
  lemma QuarterWidthMisfit()
    ensures !PlanesFit(8, 2, 16, 4, 4, Strides(8, 2, 2))
  {
    assert Extent(Cb, 8) == 4;
  }

  /** The host layout of an 8x2 YUV 4:1:1 frame: 2x2 chroma planes. */
  lemma QuarterWidthLayout()
    ensures var vi := VideoInfo(Some(VideoFormat(Integer, 8, 3, 2, 0)), 8, 2);
      HostLayout(vi, [16, 4, 4], [8, 2, 2]) && PlaneWidth(vi.format.value, 8, 1) == 2
  {
    var vi := VideoInfo(Some(VideoFormat(Integer, 8, 3, 2, 0)), 8, 2);
    var fmt := vi.format.value;
    assert Shr(8, 2) == 2;
    forall p | 0 <= p < 3
      ensures PlaneWidth(fmt, 8, p) <= [8, 2, 2][p] && PlaneHeight(fmt, 2, p) * [8, 2, 2][p] <= [16, 4, 4][p]
    {
    }
  }

  /** As written, the test also lets through a single-plane grey clip, for
      which the kernel asks the host for planes 1 and 2, which do not exist. */
  lemma CreateAcceptsSinglePlane()
    ensures var vi := VideoInfo(Some(VideoFormat(Integer, 8, 1, 0, 0)), 8, 8);
      CreateAccepts(vi) && HostLayout(vi, [64], [8]) && vi.format.value.numPlanes < 3
  {
    var vi := VideoInfo(Some(VideoFormat(Integer, 8, 1, 0, 0)), 8, 8);
    assert HostLayout(vi, [64], [8]) by {
      forall p | 0 <= p < 1
        ensures PlaneWidth(vi.format.value, 8, p) <= [8][p] && PlaneHeight(vi.format.value, 8, p) * [8][p] <= [64][p]
      {
      }
    }
  }

  /** The test the kernel needs: also three planes, the chroma planes
      subsampled by exactly two in both directions. */
  predicate KernelAccepts(vi: VideoInfo) {
    CreateAccepts(vi) && vi.format.value.numPlanes == 3 &&
    vi.format.value.subSamplingW == 1 && vi.format.value.subSamplingH == 1
  }

  /** A plane of `rows` x `cols` fits a buffer that holds `ph` rows of at
      least `pw >= cols` samples, `stride` apart, when `rows <= ph`. */
  lemma FitsHostPlane(len: nat, stride: nat, cols: nat, rows: nat, pw: nat, ph: nat)
    requires 0 < stride && cols <= pw <= stride && rows <= ph && ph * stride <= len
    ensures PlaneFits(len, stride, cols, rows)
  {
    if 0 < rows {
      MulLe(rows, ph, stride);
      assert Offset(stride, cols, rows - 1) <= rows * stride;
    }
  }

  /** For every clip the corrected test accepts and every buffer layout the
      host hands over, the kernel's planes fit their buffers, so all of its
      reads and stores are in bounds. Its chroma region is moreover exactly
      the chroma plane, so every chroma sample of the new frame is written. */
  lemma KernelAcceptsFits(vi: VideoInfo, lens: seq<nat>, strides: seq<nat>)
    requires KernelAccepts(vi) && HostLayout(vi, lens, strides)
    ensures PlanesFit(vi.width, vi.height, lens[0], lens[1], lens[2], Strides(strides[0], strides[1], strides[2]))
    ensures forall p :: 1 <= p < 3 ==>
      Extent(Cb, vi.width) == PlaneWidth(vi.format.value, vi.width, p) &&
      Extent(Cb, vi.height) == PlaneHeight(vi.format.value, vi.height, p)
  {
    var fmt := vi.format.value;
    var w, h := vi.width, vi.height;
    assert Shr(w, 1) == w / 2 && Shr(h, 1) == h / 2;
    assert Extent(Cb, w) == w / 2 == Extent(Cr, w) && Extent(Cb, h) == h / 2 == Extent(Cr, h) by {
      assert w % 2 == 0 && h % 2 == 0;
    }
    forall p | 0 <= p < 3
      ensures Extent(if p == 0 then Luma else Cb, w) == PlaneWidth(fmt, w, p)
      ensures Extent(if p == 0 then Luma else Cb, h) == PlaneHeight(fmt, h, p)
    {
    }
    assert 0 < strides[0] && PlaneWidth(fmt, w, 0) <= strides[0] && PlaneHeight(fmt, h, 0) * strides[0] <= lens[0];
    assert 0 < strides[1] && PlaneWidth(fmt, w, 1) <= strides[1] && PlaneHeight(fmt, h, 1) * strides[1] <= lens[1];
    assert 0 < strides[2] && PlaneWidth(fmt, w, 2) <= strides[2] && PlaneHeight(fmt, h, 2) * strides[2] <= lens[2];
    FitsHostPlane(lens[0], strides[0], Extent(Luma, w), Extent(Luma, h), PlaneWidth(fmt, w, 0), PlaneHeight(fmt, h, 0));
    FitsHostPlane(lens[1], strides[1], Extent(Cb, w), Extent(Cb, h), PlaneWidth(fmt, w, 1), PlaneHeight(fmt, h, 1));
    FitsHostPlane(lens[2], strides[2], Extent(Cr, w), Extent(Cr, h), PlaneWidth(fmt, w, 2), PlaneHeight(fmt, h, 2));
  }
}
