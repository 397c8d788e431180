/** The per-sample colour arithmetic of the frame kernel: reconstruction of
    an RGB-like integer triple from one luma sample and its two chroma
    samples, the selectable effect applied to that triple, and re-projection
    of the triple into the three output samples.

    The source computes the coefficient products in `double`; here they are
    exact `real` products of the same decimal constants, followed by the same
    truncation toward zero. */
module Color {
  import opened CArith

  /** The local `int bgr[3]` of the kernel. Despite the name, channel 0 is
      the red component, channel 1 green and channel 2 blue. */
  datatype Rgb = Rgb(r: int, g: int, b: int)

  /** The three samples stored for one luma position: the luma sample of
      plane 0 and the chroma samples of plane 1 (Cb) and plane 2 (Cr). */
  datatype Sample = Sample(luma: byte, cb: byte, cr: byte)

  /** Reconstruction of the triple from the luma sample and the chroma
      samples of its 2x2 block. Every channel stays within a small band
      around the sample range, and neutral chroma gives a grey triple. */
  function Reconstruct(y: byte, cb: byte, cr: byte): (t: Rgb)
    ensures -175 <= t.r <= 429
    ensures -177 <= t.g <= 434
    ensures -221 <= t.b <= 475
    ensures cb == 128 && cr == 128 ==> t == Rgb(y as int, y as int, y as int)
  {
    Rgb(Trunc(y as real + 1.370705 * ((cr as int - 128) as real)),
        Trunc(y as real - 0.698001 * ((cb as int - 128) as real) - 0.703125 * ((cr as int - 128) as real)),
        Trunc(y as real + 1.732446 * ((cb as int - 128) as real)))
  }

  /** `avg`: the channel sum divided by three with C's truncating division. */
  function Avg(t: Rgb): (a: int)
    ensures 0 <= t.r + t.g + t.b ==> 3 * a <= t.r + t.g + t.b < 3 * a + 3
    ensures t.r + t.g + t.b < 0 ==> 3 * a - 3 < t.r + t.g + t.b <= 3 * a
  {
    CDiv(t.r + t.g + t.b, 3)
  }

  /** The effect selected by the integer mode, applied to the triple the way
      the source's `switch` rewrites `bgr[0]`, `bgr[1]`, `bgr[2]` one after
      the other: in modes 1 and 2 a later channel reads the channels already
      rewritten before it. That ordering is reproduced as written. */
  function Effect(mode: int64, t: Rgb): Rgb {
    match mode
    case 0 => Desaturate(t)
    case 1 => Sepia(t)
    case 2 => Comic(t)
    case 3 => Invert(t)
    case 4 => RedOnly(t)
    case _ => t
  }

  /** Mode 0: every channel becomes the truncated mean. */
  function Desaturate(t: Rgb): Rgb {
    var a := Avg(t);
    Rgb(a, a, a)
  }

  /** Mode 1: the sepia coefficients, green and blue reading the already
      rewritten red; blue reads the old blue twice and never green. */
  function Sepia(t: Rgb): Rgb {
    var r := Trunc(0.393 * (t.r as real) + 0.769 * (t.g as real) + 0.189 * (t.b as real));
    var g := Trunc(0.349 * (r as real) + 0.686 * (t.g as real) + 0.168 * (t.b as real));
    var b := Trunc(0.272 * (r as real) + 0.534 * (t.b as real) + 0.131 * (t.b as real));
    Rgb(r, g, b)
  }

  /** Mode 2: the comic-strip products, each later channel reading the
      channels already rewritten. */
  function Comic(t: Rgb): Rgb {
    var r := CDiv(Abs(t.g - t.b + t.g + t.r) * t.r, 256);
    var g := CDiv(Abs(t.b - t.g + t.b + r) * r, 256);
    var b := CDiv(Abs(t.b - g + t.b + r) * g, 256);
    Rgb(r, g, b)
  }

  /** Mode 3: each channel reflected about 128 (as 256 - c). */
  function Invert(t: Rgb): Rgb {
    Rgb(256 - t.r, 256 - t.g, 256 - t.b)
  }

  /** Mode 4: green and blue cleared. */
  function RedOnly(t: Rgb): Rgb {
    Rgb(t.r, 0, 0)
  }

  /** Re-projection of the triple into output samples (BT.601-style
      coefficients), each narrowed into a byte with no clamping. */
  function Reproject(t: Rgb): Sample {
    Sample(NarrowToByte(0.257 * (t.r as real) + 0.504 * (t.g as real) + 0.098 * (t.b as real) + 16.0),
           NarrowToByte(-(0.148 * (t.r as real)) - 0.291 * (t.g as real) + 0.439 * (t.b as real) + 128.0),
           NarrowToByte(0.439 * (t.r as real) - 0.368 * (t.g as real) - 0.071 * (t.b as real) + 128.0))
  }

  /** Everything the kernel computes for one luma position from the three
      samples it reads there. */
  function PixelOut(mode: int64, y: byte, cb: byte, cr: byte): Sample {
    Reproject(Effect(mode, Reconstruct(y, cb, cr)))
  }

  /** Reference definition: the sepia tone as the matrix product of the
      original channels (each row reads the unmodified triple and the last
      row reads green), which mode 1 does not compute. */
  function SepiaMatrix(t: Rgb): Rgb {
    Rgb(Trunc(0.393 * (t.r as real) + 0.769 * (t.g as real) + 0.189 * (t.b as real)),
        Trunc(0.349 * (t.r as real) + 0.686 * (t.g as real) + 0.168 * (t.b as real)),
        Trunc(0.272 * (t.r as real) + 0.534 * (t.g as real) + 0.131 * (t.b as real)))
  }

  /** Reference definition: the comic formulas with every channel read from
      the unmodified triple, which mode 2 does not compute. */
  function ComicSnapshot(t: Rgb): Rgb {
    Rgb(CDiv(Abs(t.g - t.b + t.g + t.r) * t.r, 256),
        CDiv(Abs(t.b - t.g + t.b + t.r) * t.r, 256),
        CDiv(Abs(t.b - t.g + t.b + t.r) * t.g, 256))
  }

  // ---------------------------------------------------------------------
  // Properties of the effects

  /** Mode 0 replaces all three channels by the C-truncated mean of the
      channels before the effect. */
  lemma DesaturateIsTruncatedMean(t: Rgb)
    ensures var e := Effect(0, t); var s := t.r + t.g + t.b;
      e.r == e.g == e.b &&
      (0 <= s ==> 3 * e.r <= s < 3 * e.r + 3) &&
      (s < 0 ==> 3 * e.r - 3 < s <= 3 * e.r)
  {
  }

  /** Desaturating a grey triple changes nothing, so mode 0 is idempotent. */
  lemma DesaturateIdempotent(t: Rgb)
    ensures Effect(0, Effect(0, t)) == Effect(0, t)
  {
  }

  /** Mode 1 rewrites the channels one after the other: green reads the
      already rewritten red, and blue reads the rewritten red and the old blue
      (twice) but never green. Only red agrees with the matrix product. */
  lemma SepiaReadsRewrittenChannels(t: Rgb)
    ensures var e := Effect(1, t);
      e.r == SepiaMatrix(t).r &&
      e.g == Trunc(0.349 * (e.r as real) + 0.686 * (t.g as real) + 0.168 * (t.b as real)) &&
      e.b == Trunc(0.272 * (e.r as real) + 0.665 * (t.b as real))
  {
  }

  /** Blue in mode 1 never reads the old green: two triples with the same
      rewritten red and the same blue get the same blue, whatever their green. */
  lemma SepiaBlueIgnoresGreen(t: Rgb, u: Rgb)
    requires Sepia(t).r == Sepia(u).r && t.b == u.b
    ensures Sepia(t).b == Sepia(u).b
  {
  }

  /** The sequential rewrite really differs from the matrix product: a
      concrete triple on which green and blue come out differently. */
  lemma SepiaDiffersFromMatrix()
    ensures Effect(1, Rgb(100, 200, 50)) == Rgb(202, 216, 88)
    ensures SepiaMatrix(Rgb(100, 200, 50)) == Rgb(202, 180, 140)
  {
  }

  /** Mode 2 rewrites the channels one after the other: green is
      `|b - g + b + r'| * r' / 256` and blue is `|b - g' + b + r'| * g' / 256`
      with the rewritten red `r'` and green `g'`. */
  lemma ComicReadsRewrittenChannels(t: Rgb)
    ensures var e := Effect(2, t);
      e.r == ComicSnapshot(t).r &&
      e.g == CDiv(Abs(2 * t.b - t.g + e.r) * e.r, 256) &&
      e.b == CDiv(Abs(2 * t.b - e.g + e.r) * e.g, 256)
  {
  }

  /** Green and blue in mode 2 read the old triple only through the old green
      and blue besides the rewritten channels: green is fixed by the rewritten
      red with the old green and blue, and blue by the rewritten red and green
      with the old blue, so blue never reads the old green or red directly. */
  lemma ComicReadsOnlyRewrittenRedGreen(t: Rgb, u: Rgb)
    ensures Comic(t).r == Comic(u).r && t.g == u.g && t.b == u.b ==> Comic(t).g == Comic(u).g
    ensures Comic(t).r == Comic(u).r && Comic(t).g == Comic(u).g && t.b == u.b ==> Comic(t).b == Comic(u).b
  {
  }

  /** The sequential comic rewrite differs from the snapshot formulas. */
  lemma ComicDiffersFromSnapshot()
    ensures Effect(2, Rgb(100, 50, 20)) == Rgb(70, 16, 5)
    ensures ComicSnapshot(Rgb(100, 50, 20)) == Rgb(70, 35, 17)
  {
    assert CDiv(180 * 100, 256) == 70;
    assert CDiv(60 * 70, 256) == 16;
    assert CDiv(94 * 16, 256) == 5;
  }

  /** Mode 3 maps every channel to `256 - c` on its own; it is an involution. */
  lemma InvertIsInvolution(t: Rgb)
    ensures var e := Effect(3, t); e.r + t.r == 256 && e.g + t.g == 256 && e.b + t.b == 256
    ensures Effect(3, Effect(3, t)) == t
  {
  }

  /** Mode 4 keeps red and clears green and blue; repeating it changes nothing. */
  lemma RedIsolateKeepsRed(t: Rgb)
    ensures Effect(4, t) == Rgb(t.r, 0, 0)
    ensures Effect(4, Effect(4, t)) == Effect(4, t)
    ensures Effect(4, Rgb(200, 100, 50)) == Rgb(200, 0, 0)
  {
  }

  /** Every mode outside 0..4 leaves the triple as it is, so the output is the
      re-projection of the unmodified reconstruction. */
  lemma OtherModesPassThrough(mode: int64, t: Rgb, y: byte, cb: byte, cr: byte)
    requires mode < 0 || 4 < mode
    ensures Effect(mode, t) == t
    ensures PixelOut(mode, y, cb, cr) == Reproject(Reconstruct(y, cb, cr))
  {
  }

  // ---------------------------------------------------------------------
  // Properties of the re-projection

  /** The chroma coefficients of each output row sum to zero, so a grey
      triple re-projects to neutral chroma 128 whatever its level, in exact
      arithmetic. */
  lemma GreyHasNeutralChroma(v: int)
    ensures Reproject(Rgb(v, v, v)).cb == 128 && Reproject(Rgb(v, v, v)).cr == 128
  {
    assert -(0.148 * (v as real)) - 0.291 * (v as real) + 0.439 * (v as real) + 128.0 == 128.0;
    assert 0.439 * (v as real) - 0.368 * (v as real) - 0.071 * (v as real) + 128.0 == 128.0;
  }

  /** In exact arithmetic, mode 0 therefore always writes neutral chroma. */
  lemma DesaturateWritesNeutralChroma(y: byte, cb: byte, cr: byte)
    ensures PixelOut(0, y, cb, cr).cb == 128 && PixelOut(0, y, cb, cr).cr == 128
  {
    var a := Avg(Reconstruct(y, cb, cr));
    GreyHasNeutralChroma(a);
  }

  /** Grey input at luma 16 with neutral chroma reconstructs to a grey triple
      of 16, but the re-projection maps level 16 to luma 29: the
      reconstruction and re-projection coefficients are not inverse, so even
      the pass-through modes do not reproduce the input luma. */
  lemma MidGreyScenario()
    ensures Reconstruct(16, 128, 128) == Rgb(16, 16, 16)
    ensures PixelOut(0, 16, 128, 128) == Sample(29, 128, 128)
    ensures PixelOut(5, 16, 128, 128) == Sample(29, 128, 128)
  {
    GreyHasNeutralChroma(16);
  }

  // ---------------------------------------------------------------------
  // The C `int` arithmetic never overflows

  lemma MulBound(a: int, b: int, ma: nat, mb: nat)
    requires Abs(a) <= ma && Abs(b) <= mb
    ensures Abs(a * b) <= ma * mb
  {
    assert Abs(a * b) == Abs(a) * Abs(b);
    assert Abs(a) * Abs(b) <= ma * Abs(b);
    assert ma * Abs(b) <= ma * mb;
  }

  /** The channel band that `Reconstruct` guarantees. */
  predicate InReconstructedBand(t: Rgb) {
    -175 <= t.r <= 429 && -177 <= t.g <= 434 && -221 <= t.b <= 475
  }

  /** Mode 2 on a reconstructed triple: its three products stay below 2^31. */
  lemma ComicProductsFitInt32(t: Rgb)
    requires InReconstructedBand(t)
    ensures var p0 := Abs(t.g - t.b + t.g + t.r) * t.r;
      var r := CDiv(p0, 256);
      var p1 := Abs(t.b - t.g + t.b + r) * r;
      var g := CDiv(p1, 256);
      var p2 := Abs(t.b - g + t.b + r) * g;
      Abs(p0) <= 651222 && Abs(r) <= 2543 && Abs(p1) <= 9332810 && Abs(g) <= 36456 &&
      Abs(p2) <= 1456380744 && Abs(CDiv(p2, 256)) <= 5688987
  {
    var p0 := Abs(t.g - t.b + t.g + t.r) * t.r;
    MulBound(Abs(t.g - t.b + t.g + t.r), t.r, 1518, 429);
    var r := CDiv(p0, 256);
    assert Abs(r) * 256 <= 651222;
    var p1 := Abs(t.b - t.g + t.b + r) * r;
    MulBound(Abs(t.b - t.g + t.b + r), r, 3670, 2543);
    var g := CDiv(p1, 256);
    assert Abs(g) * 256 <= 9332810;
    var p2 := Abs(t.b - g + t.b + r) * g;
    MulBound(Abs(t.b - g + t.b + r), g, 39949, 36456);
    assert Abs(CDiv(p2, 256)) * 256 <= 1456380744;
  }

  /** Mode 1 on a reconstructed triple stays within a few hundred. */
  lemma SepiaStaysSmall(t: Rgb)
    requires InReconstructedBand(t)
    ensures var e := Sepia(t); Abs(e.r) <= 1000 && Abs(e.g) <= 1000 && Abs(e.b) <= 1000
  {
    var e := Sepia(t);
    assert -300 <= e.r <= 600;
    assert -300 <= e.g <= 600;
    assert -300 <= e.b <= 600;
  }

  /** Every mode keeps a reconstructed triple within the 32-bit range. */
  lemma EffectFitsInt32(mode: int64, t: Rgb)
    requires InReconstructedBand(t)
    ensures var e := Effect(mode, t); FitsInt32(e.r) && FitsInt32(e.g) && FitsInt32(e.b)
  {
    match mode
    case 0 =>
      var e := Desaturate(t);
      assert FitsInt32(e.r) && FitsInt32(e.g) && FitsInt32(e.b) by {
        assert Abs(Avg(t)) * 3 <= 1338;
      }
    case 1 =>
      var e := Sepia(t);
      assert FitsInt32(e.r) && FitsInt32(e.g) && FitsInt32(e.b) by {
        SepiaStaysSmall(t);
      }
    case 2 =>
      var e := Comic(t);
      assert FitsInt32(e.r) && FitsInt32(e.g) && FitsInt32(e.b) by {
        ComicProductsFitInt32(t);
        assert Abs(e.r) <= 2543 && Abs(e.g) <= 36456 && Abs(e.b) <= 5688987;
      }
    case _ =>
  }

  /** For every input sample triple and every mode, each value the kernel
      keeps in a C `int` (the reconstructed channels, the channel sum behind
      `avg`, the three products of mode 2 before their division, and the
      channels after the effect) lies in the 32-bit range, so unbounded
      integers compute exactly what the source's `int` arithmetic computes. */
  lemma PixelArithmeticFitsInt32(mode: int64, y: byte, cb: byte, cr: byte)
    ensures var t := Reconstruct(y, cb, cr);
      FitsInt32(t.r) && FitsInt32(t.g) && FitsInt32(t.b) && FitsInt32(t.r + t.g + t.b)
    ensures var t := Reconstruct(y, cb, cr);
      var p0 := Abs(t.g - t.b + t.g + t.r) * t.r;
      var r := CDiv(p0, 256);
      var p1 := Abs(t.b - t.g + t.b + r) * r;
      var g := CDiv(p1, 256);
      var p2 := Abs(t.b - g + t.b + r) * g;
      FitsInt32(p0) && FitsInt32(p1) && FitsInt32(p2)
    ensures var e := Effect(mode, Reconstruct(y, cb, cr));
      FitsInt32(e.r) && FitsInt32(e.g) && FitsInt32(e.b)
  {
    var t := Reconstruct(y, cb, cr);
    ComicProductsFitInt32(t);
    EffectFitsInt32(mode, t);
  }
}
