// Image comparison with the PSNR metric: the squared error and the sample
// count accumulated over the compared components, the compatibility checks
// that make a comparison fail, and the alpha rules. The final
// `20 log10(max) - 10 log10(se / n)` step is floating point and is left out:
// a score is the three integers it is computed from, or +infinity.

module ImageCompare {
  import opened Common
  import opened VideoFormats
  import opened Images
  import opened ImageAccess
  import ImageHash

  /** `MvtImageQualityMetric`. */
  const METRIC_PSNR: int := 1
  const METRIC_Y_PSNR: int := 2

  /** `MVT_IMAGE_QUALITY_METRIC_FLAG_Y_PSNR`. */
  const FLAG_Y_PSNR: U32 := 1

  /** The squared error is a `uint64_t`. */
  const U64_MOD: nat := 0x1_0000_0000_0000_0000

  const INT32_MAX: int := 0x7fff_ffff

  // ---------------------------------------------------------------------
  // calc_se

  /** `(int32_t)v` on a `uint32_t`. */
  function Int32Of(v: U32): int
  {
    if v < 0x8000_0000 then v else v - U32_MOD
  }

  /**
   * calc_se as written: the difference and its square are `int32_t`; `None`
   * is a signed overflow, which C leaves undefined.
   */
  function CalcSeAsWritten(val: U32, ref: U32): Option<U32>
  {
    var diff := Int32Of(val) - Int32Of(ref);
    if diff < -INT32_MAX - 1 || diff > INT32_MAX || diff * diff > INT32_MAX then None
    else Some(diff * diff)
  }

  /** The square of a difference is at most `bound * bound` exactly when the difference is within `bound`. */
  lemma {:induction false} SquareBound(d: int, bound: int)
    requires bound >= 0
    ensures -bound <= d <= bound ==> d * d <= bound * bound
    ensures d < -bound || d > bound ==> d * d >= (bound + 1) * (bound + 1)
  {
    var a := if d < 0 then -d else d;
    assert d * d == a * a;
    if a <= bound {
      MulAtMost(a, bound);
    } else {
      MulAtMost(bound + 1, a);
    }
  }

  lemma {:induction false} MulAtMost(a: nat, b: nat)
    requires a <= b
    ensures a * a <= b * b
  {
    assert a * a <= a * b <= b * b;
  }

  /**
   * On samples of up to 16 bits the int32 square is defined exactly when the
   * samples differ by at most 46340; there it is the true square.
   */
  lemma {:induction false} CalcSeDefinedRange(val: U32, ref: U32)
    requires val < 0x1_0000 && ref < 0x1_0000
    ensures CalcSeAsWritten(val, ref).Some? <==> -46340 <= val - ref <= 46340
    ensures CalcSeAsWritten(val, ref).Some? ==> CalcSeAsWritten(val, ref).value == CalcSe(val, ref)
  {
    var d := val - ref;
    SquareBound(d, 46340);
    assert 46340 * 46340 <= INT32_MAX < 46341 * 46341;
  }

  /** Two 16-bit samples, white against black, for which calc_se overflows. */
  lemma {:induction false} CalcSeOverflows()
    ensures CalcSeAsWritten(65535, 0).None?
    ensures CalcSe(65535, 0) == 65535 * 65535 < U32_MOD
  {
    CalcSeDefinedRange(65535, 0);
  }

  /** calc_se with the square computed without overflow; it still fits the `uint32_t` result. */
  function CalcSe(val: nat, ref: nat): (r: nat)
    ensures r == 0 <==> val == ref
    ensures val < 0x1_0000 && ref < 0x1_0000 ==> r < U32_MOD
  {
    var d := val - ref;
    SquareBound(d, 0xffff);
    SquareBound(d, 0);
    d * d
  }

  lemma {:induction false} CalcSeSymmetric(val: nat, ref: nat)
    ensures CalcSe(val, ref) == CalcSe(ref, val)
  {
    assert (val - ref) * (val - ref) == (ref - val) * (ref - val);
  }

  /** `(a mod M + b) mod M`, the effect of a wrapping `+=`. */
  lemma {:induction false} AddMod(a: nat, b: nat, m: nat)
    requires m > 0
    ensures (a % m + b) % m == (a + b) % m
  {
    var q, q2 := a / m, (a % m + b) / m;
    assert a == q * m + a % m;
    assert a % m + b == q2 * m + (a % m + b) % m;
    assert a + b == (q + q2) * m + (a % m + b) % m;
    ModUnique(a + b, m, q + q2, (a % m + b) % m);
  }

  /** One wrapping `se += c` keeps `se` the running sum modulo 2^64. */
  lemma {:induction false} Accumulate(se: nat, se0: nat, sum: nat, c: nat)
    requires se == (se0 + sum) % U64_MOD
    ensures (se + c) % U64_MOD == (se0 + (sum + c)) % U64_MOD
  {
    AddMod(se0 + sum, c, U64_MOD);
  }

  // ---------------------------------------------------------------------
  // Squared errors of pictures

  /** The samples of one component: the value at column `x` of row `y`. */
  type Picture = (int, int) -> nat

  /** calc_se over the first `w` samples of row `y`. */
  function RowSe(p: Picture, q: Picture, y: int, w: nat): nat
  {
    if w == 0 then 0 else RowSe(p, q, y, w - 1) + CalcSe(p(w - 1, y), q(w - 1, y))
  }

  /** calc_se over the first `h` rows, each `w` samples wide. */
  function GridSe(p: Picture, q: Picture, w: nat, h: nat): nat
  {
    if h == 0 then 0 else GridSe(p, q, w, h - 1) + RowSe(p, q, h - 1, w)
  }

  /** calc_se of the first `w` samples of row `y` against the constant `c`. */
  function RowConstSe(p: Picture, y: int, w: nat, c: nat): nat
  {
    if w == 0 then 0 else RowConstSe(p, y, w - 1, c) + CalcSe(p(w - 1, y), c)
  }

  function GridConstSe(p: Picture, w: nat, h: nat, c: nat): nat
  {
    if h == 0 then 0 else GridConstSe(p, w, h - 1, c) + RowConstSe(p, h - 1, w, c)
  }

  /** The two pictures agree on the `w` by `h` top-left area. */
  predicate SameArea(p: Picture, q: Picture, w: nat, h: nat)
  {
    forall y, x :: 0 <= y < h && 0 <= x < w ==> p(x, y) == q(x, y)
  }

  /** Every sample of the `w` by `h` top-left area equals `c`. */
  predicate AllEqual(p: Picture, w: nat, h: nat, c: nat)
  {
    forall y, x :: 0 <= y < h && 0 <= x < w ==> p(x, y) == c
  }

  lemma {:induction false} RowSeSymmetric(p: Picture, q: Picture, y: int, w: nat)
    ensures RowSe(p, q, y, w) == RowSe(q, p, y, w)
  {
    if w > 0 {
      RowSeSymmetric(p, q, y, w - 1);
      CalcSeSymmetric(p(w - 1, y), q(w - 1, y));
    }
  }

  /** The error does not depend on which picture comes first. */
  lemma {:induction false} GridSeSymmetric(p: Picture, q: Picture, w: nat, h: nat)
    ensures GridSe(p, q, w, h) == GridSe(q, p, w, h)
  {
    if h > 0 {
      GridSeSymmetric(p, q, w, h - 1);
      RowSeSymmetric(p, q, h - 1, w);
    }
  }

  lemma {:induction false} RowSeZero(p: Picture, q: Picture, y: int, w: nat)
    ensures RowSe(p, q, y, w) == 0 <==> forall x :: 0 <= x < w ==> p(x, y) == q(x, y)
  {
    if w > 0 {
      RowSeZero(p, q, y, w - 1);
    }
  }

  /** The error is zero exactly when the pictures agree on the whole area. */
  lemma {:induction false} GridSeZero(p: Picture, q: Picture, w: nat, h: nat)
    ensures GridSe(p, q, w, h) == 0 <==> SameArea(p, q, w, h)
  {
    if h > 0 {
      GridSeZero(p, q, w, h - 1);
      RowSeZero(p, q, h - 1, w);
      if GridSe(p, q, w, h) == 0 {
        forall y, x | 0 <= y < h && 0 <= x < w ensures p(x, y) == q(x, y) {
          if y < h - 1 {
            assert SameArea(p, q, w, h - 1);
          }
        }
      }
    }
  }

  lemma {:induction false} RowConstSeZero(p: Picture, y: int, w: nat, c: nat)
    ensures RowConstSe(p, y, w, c) == 0 <==> forall x :: 0 <= x < w ==> p(x, y) == c
  {
    if w > 0 {
      RowConstSeZero(p, y, w - 1, c);
    }
  }

  /** The error against `c` is zero exactly when the whole area equals `c`. */
  lemma {:induction false} GridConstSeZero(p: Picture, w: nat, h: nat, c: nat)
    ensures GridConstSe(p, w, h, c) == 0 <==> AllEqual(p, w, h, c)
  {
    if h > 0 {
      GridConstSeZero(p, w, h - 1, c);
      RowConstSeZero(p, h - 1, w, c);
      if GridConstSe(p, w, h, c) == 0 {
        forall y, x | 0 <= y < h && 0 <= x < w ensures p(x, y) == c {
          if y < h - 1 {
            assert AllEqual(p, w, h - 1, c);
          }
        }
      }
    }
  }

  // ---------------------------------------------------------------------
  // The samples a comparison reads

  /** Every sample of a `w` by `h` component lies inside its block. */
  predicate Sweepable(s: ImageState, cip: Component, w: nat, h: nat)
  {
    WellShaped(s) && cip.plane < 4 &&
    forall y, x :: 0 <= y < h && 0 <= x < w ==> Addressable(s, cip, x, y)
  }

  lemma {:induction false} SweepableWithin(s: ImageState, cip: Component, w: nat, h: nat, w2: nat, h2: nat)
    requires Sweepable(s, cip, w, h) && w2 <= w && h2 <= h
    ensures Sweepable(s, cip, w2, h2)
  {
  }

  /**
   * `m` holds one byte sequence per plane of `s`, as long as the block the
   * plane points into: it stands for the contents of the planes.
   */
  predicate Fits(s: ImageState, m: seq<seq<Byte>>)
  {
    WellShaped(s) && |m| == 4 &&
    forall p :: 0 <= p < 4 && s.pixels[p].At? ==> |m[p]| == s.pixels[p].block.Length
  }

  /** The block plane `p` points into, if any. */
  function PlaneBlock(s: ImageState, p: nat): set<array<Byte>>
    requires WellShaped(s) && p < 4
  {
    if s.pixels[p].At? then {s.pixels[p].block} else {}
  }

  /** All blocks the planes of an image point into. */
  function Blocks(s: ImageState): set<array<Byte>>
    requires WellShaped(s)
  {
    PlaneBlock(s, 0) + PlaneBlock(s, 1) + PlaneBlock(s, 2) + PlaneBlock(s, 3)
  }

  /** The bytes of plane `p`; nothing for a NULL plane. */
  function PlaneContents(s: ImageState, p: nat): seq<Byte>
    requires WellShaped(s) && p < 4
    reads PlaneBlock(s, p)
  {
    if s.pixels[p].At? then s.pixels[p].block[..] else []
  }

  /** The bytes of the four planes of an image. */
  function Contents(s: ImageState): (m: seq<seq<Byte>>)
    requires WellShaped(s)
    reads Blocks(s)
    ensures Fits(s, m)
    ensures forall p :: 0 <= p < 4 ==> m[p] == PlaneContents(s, p)
  {
    [PlaneContents(s, 0), PlaneContents(s, 1), PlaneContents(s, 2), PlaneContents(s, 3)]
  }

  /** get_component on the plane bytes `m`. */
  function Sample(s: ImageState, m: seq<seq<Byte>>, cip: Component, x: int, y: int): nat
    requires Fits(s, m) && cip.plane < 4 && Addressable(s, cip, x, y)
  {
    Load(m[cip.plane], ComponentPtr(s, cip, x, y).pos, cip.bitDepth)
  }

  /** A component of an image as a picture: its samples, and 0 outside its block. */
  function PictureOf(s: ImageState, m: seq<seq<Byte>>, cip: Component): Picture
  {
    (x: int, y: int) =>
      if Fits(s, m) && cip.plane < 4 && Addressable(s, cip, x, y) then Sample(s, m, cip, x, y) else 0
  }

  // ---------------------------------------------------------------------
  // What mvt_image_compare_psnr decides

  /** `video_format_is_yuv` on the descriptor of a registered format. */
  predicate YuvInfo(info: FormatInfo)
  {
    info.vaFormat.depth == 0
  }

  /**
   * How many components are compared: none (a failure) when the chroma
   * shifts differ or Y-PSNR is asked of a non-YUV image; one for Y-PSNR;
   * otherwise the smaller component count.
   */
  function Compared(info: FormatInfo, rinfo: FormatInfo, flags: U32): Option<nat>
  {
    if info.chromaWShift != rinfo.chromaWShift || info.chromaHShift != rinfo.chromaHShift then None
    else if flags % 2 == 1 then (if YuvInfo(info) then Some(1) else None)
    else Some(Min(info.numComponents, rinfo.numComponents))
  }

  /**
   * The bit-depth loop over components `i` to `n - 1` of one image, with
   * `d` the depth seen so far (0 before any): the first nonzero depth, which
   * every later component must repeat.
   */
  function DepthScan(cs: seq<Component>, i: nat, n: nat, d: nat): Option<nat>
    requires i <= n <= |cs|
    decreases n - i
  {
    if i == n then Some(d)
    else if d == 0 then DepthScan(cs, i + 1, n, cs[i].bitDepth)
    else if d != cs[i].bitDepth then None
    else DepthScan(cs, i + 1, n, d)
  }

  /** The depth check of both images: each is uniform, and the two agree. */
  predicate DepthsAgree(info: FormatInfo, rinfo: FormatInfo, n: nat)
    requires Shaped(info) && Shaped(rinfo) && n <= 4
  {
    DepthScan(info.components, 0, n, 0).Some? &&
    DepthScan(rinfo.components, 0, n, 0) == DepthScan(info.components, 0, n, 0)
  }

  /** `(1U << bit_depth) - 1`. */
  function MaxIntensity(d: nat): (r: U32)
    ensures d < 32 ==> r == Pow2(d) - 1
  {
    if d < 32 then
      Pow2Monotone(d, 31);
      Pow2Below32();
      Wrap32(Shl32(1, d) - 1)
    else Wrap32(Shl32(1, d) - 1)
  }

  lemma {:induction false} Pow2Below32()
    ensures Pow2(31) < U32_MOD
  {
    Pow2Sixteen16();
    Pow2Add(16, 15);
    Pow2Monotone(15, 16);
  }

  /** Which image's alpha component is scored. */
  datatype AlphaSource = NoAlpha | AlphaOfImage | AlphaOfRef | AlphaMismatch

  /**
   * Alpha is looked at only when the first image has an alpha component and
   * more than one component was compared: a 4-against-3 pair scores the
   * alpha of the one that has it, equal counts that were all compared score
   * nothing more, anything else fails.
   */
  function AlphaChoice(info: FormatInfo, rinfo: FormatInfo, n: nat): AlphaSource
  {
    if !(info.numComponents == 4 && n > 1) then NoAlpha
    else if info.numComponents == 3 && rinfo.numComponents == 4 then AlphaOfRef
    else if info.numComponents == 4 && rinfo.numComponents == 3 then AlphaOfImage
    else if info.numComponents == rinfo.numComponents && info.numComponents == n then NoAlpha
    else AlphaMismatch
  }

  /** The squared error of component `n`, over the size of component `n` of the first image. */
  function ComponentSe(s: ImageState, sm: seq<seq<Byte>>, r: ImageState, rm: seq<seq<Byte>>,
      info: FormatInfo, rinfo: FormatInfo, n: nat): nat
    requires Shaped(info) && Shaped(rinfo) && n < 4
  {
    var w, h := ImageHash.ComponentWidth(info, n, s.width), ImageHash.ComponentHeight(info, n, s.height);
    GridSe(PictureOf(s, sm, info.components[n]), PictureOf(r, rm, rinfo.components[n]), w, h)
  }

  /** The squared error of components 0 to `k - 1`. */
  function MainSe(s: ImageState, sm: seq<seq<Byte>>, r: ImageState, rm: seq<seq<Byte>>,
      info: FormatInfo, rinfo: FormatInfo, k: nat): nat
    requires Shaped(info) && Shaped(rinfo) && k <= 4
  {
    if k == 0 then 0
    else MainSe(s, sm, r, rm, info, rinfo, k - 1) + ComponentSe(s, sm, r, rm, info, rinfo, k - 1)
  }

  /** The number of samples of a `w` by `h` component. */
  function Area(w: nat, h: nat): nat
  {
    w * h
  }

  /** `num_samples` after components 0 to `k - 1`, on `uint32_t`. */
  function MainSamples(info: FormatInfo, width: U32, height: U32, k: nat): U32
  {
    if k == 0 then 0
    else
      var n := k - 1;
      Wrap32(MainSamples(info, width, height, n) +
        Wrap32(Area(ImageHash.ComponentWidth(info, n, width), ImageHash.ComponentHeight(info, n, height))))
  }

  /** The squared error of an alpha component against full opacity, over the image size. */
  function AlphaSe(a: ImageState, m: seq<seq<Byte>>, cip: Component, maxIntensity: U32): nat
  {
    GridConstSe(PictureOf(a, m, cip), a.width, a.height, maxIntensity)
  }

  /** What calc_psnr is given, or +infinity for a zero error. */
  datatype Psnr = Infinity | Finite(se: nat, numSamples: U32, maxIntensity: U32)

  function CalcPsnr(se: nat, numSamples: U32, maxIntensity: U32): (r: Psnr)
    ensures r == Infinity <==> se == 0
  {
    if se > 0 then Finite(se, numSamples, maxIntensity) else Infinity
  }

  /**
   * The outcome of `mvt_image_compare_psnr` on the images `s` and `r`,
   * whose planes hold `sm` and `rm`: `None` when it fails.
   */
  function Score(s: ImageState, sm: seq<seq<Byte>>, r: ImageState, rm: seq<seq<Byte>>,
      info: FormatInfo, rinfo: FormatInfo, flags: U32): Option<Psnr>
    requires Shaped(info) && Shaped(rinfo)
  {
    var k := Compared(info, rinfo, flags);
    if k.None? || !DepthsAgree(info, rinfo, k.value) then None
    else
      var n := k.value;
      var a := AlphaChoice(info, rinfo, n);
      if a == AlphaMismatch then None
      else if a == AlphaOfRef then
        // The first image has four components here, so this branch of the
        // source is never taken (AlphaRules).
        assert false; None
      else
        var maxI := MaxIntensity(DepthScan(info.components, 0, n, 0).value);
        var se := MainSe(s, sm, r, rm, info, rinfo, n);
        var ns := MainSamples(info, s.width, s.height, n);
        if a == NoAlpha then Some(CalcPsnr(se % U64_MOD, ns, maxI))
        else
          Some(CalcPsnr((se + AlphaSe(s, sm, info.components[3], maxI)) % U64_MOD,
            Wrap32(ns + Wrap32(Area(s.width, s.height))), maxI))
  }

  // ---------------------------------------------------------------------
  // Properties of the decision

  /**
   * The depth loop accepts exactly the uniform depths: starting from a
   * nonzero depth, every component must repeat it.
   */
  lemma {:induction false} DepthScanFixed(cs: seq<Component>, i: nat, n: nat, d: nat)
    requires i <= n <= |cs| && d > 0
    ensures DepthScan(cs, i, n, d).Some? <==> forall j :: i <= j < n ==> cs[j].bitDepth == d
    ensures DepthScan(cs, i, n, d).Some? ==> DepthScan(cs, i, n, d).value == d
    decreases n - i
  {
    if i < n {
      DepthScanFixed(cs, i + 1, n, d);
    }
  }

  /** With a nonzero first depth the loop yields that depth exactly when all compared components share it. */
  lemma {:induction false} DepthsUniform(cs: seq<Component>, n: nat)
    requires 0 < n <= |cs| && cs[0].bitDepth > 0
    ensures DepthScan(cs, 0, n, 0).Some? <==> forall j :: 0 <= j < n ==> cs[j].bitDepth == cs[0].bitDepth
    ensures DepthScan(cs, 0, n, 0).Some? ==> DepthScan(cs, 0, n, 0).value == cs[0].bitDepth
  {
    DepthScanFixed(cs, 1, n, cs[0].bitDepth);
  }

  /**
   * The alpha rules: the reference image's alpha is never scored (the
   * first image needs four components to get there), the first image's
   * alpha is scored for a 4-against-3 pair, and a pair of images with equal
   * component counts is never a mismatch.
   */
  lemma {:induction false} AlphaRules(info: FormatInfo, rinfo: FormatInfo, n: nat)
    requires n == Min(info.numComponents, rinfo.numComponents) || n == 1
    ensures AlphaChoice(info, rinfo, n) != AlphaOfRef
    ensures AlphaChoice(info, rinfo, n) == AlphaOfImage <==>
      info.numComponents == 4 && rinfo.numComponents == 3 && n > 1
    ensures info.numComponents == rinfo.numComponents ==> AlphaChoice(info, rinfo, n) == NoAlpha
    ensures n <= 1 ==> AlphaChoice(info, rinfo, n) == NoAlpha
  {
  }

  /** The error of components 0 to `k - 1` does not depend on which image comes first. */
  lemma {:induction false} MainSeSymmetric(s: ImageState, sm: seq<seq<Byte>>, r: ImageState, rm: seq<seq<Byte>>,
      info: FormatInfo, k: nat)
    requires Shaped(info) && k <= 4 && s.width == r.width && s.height == r.height
    ensures MainSe(s, sm, r, rm, info, info, k) == MainSe(r, rm, s, sm, info, info, k)
  {
    if k > 0 {
      var n := k - 1;
      MainSeSymmetric(s, sm, r, rm, info, n);
      var w, h := ImageHash.ComponentWidth(info, n, s.width), ImageHash.ComponentHeight(info, n, s.height);
      GridSeSymmetric(PictureOf(s, sm, info.components[n]), PictureOf(r, rm, info.components[n]), w, h);
    }
  }

  /** Component `n` of both images has the same samples over the size of component `n` of the first. */
  predicate SameSamples(s: ImageState, sm: seq<seq<Byte>>, r: ImageState, rm: seq<seq<Byte>>,
      info: FormatInfo, rinfo: FormatInfo, n: nat)
    requires Shaped(info) && Shaped(rinfo) && n < 4
  {
    var w, h := ImageHash.ComponentWidth(info, n, s.width), ImageHash.ComponentHeight(info, n, s.height);
    SameArea(PictureOf(s, sm, info.components[n]), PictureOf(r, rm, rinfo.components[n]), w, h)
  }

  /** The error of components 0 to `k - 1` is zero exactly when each of them has identical samples. */
  lemma {:induction false} MainSeZero(s: ImageState, sm: seq<seq<Byte>>, r: ImageState, rm: seq<seq<Byte>>,
      info: FormatInfo, rinfo: FormatInfo, k: nat)
    requires Shaped(info) && Shaped(rinfo) && k <= 4
    ensures MainSe(s, sm, r, rm, info, rinfo, k) == 0 <==>
      forall n :: 0 <= n < k ==> SameSamples(s, sm, r, rm, info, rinfo, n)
  {
    if k > 0 {
      var n := k - 1;
      MainSeZero(s, sm, r, rm, info, rinfo, n);
      var w, h := ImageHash.ComponentWidth(info, n, s.width), ImageHash.ComponentHeight(info, n, s.height);
      GridSeZero(PictureOf(s, sm, info.components[n]), PictureOf(r, rm, rinfo.components[n]), w, h);
      assert SameSamples(s, sm, r, rm, info, rinfo, n) <==> ComponentSe(s, sm, r, rm, info, rinfo, n) == 0;
      if MainSe(s, sm, r, rm, info, rinfo, k) == 0 {
        forall m | 0 <= m < k ensures SameSamples(s, sm, r, rm, info, rinfo, m) {
          if m < n {
            assert SameSamples(s, sm, r, rm, info, rinfo, m);
          }
        }
      }
      if forall m :: 0 <= m < k ==> SameSamples(s, sm, r, rm, info, rinfo, m) {
        assert SameSamples(s, sm, r, rm, info, rinfo, n);
      }
    }
  }

  /** Comparing an image with itself, whenever it succeeds, scores +infinity. */
  lemma {:induction false} SelfComparison(s: ImageState, sm: seq<seq<Byte>>, info: FormatInfo, flags: U32)
    requires Shaped(info)
    ensures Score(s, sm, s, sm, info, info, flags).Some? ==> Score(s, sm, s, sm, info, info, flags) == Some(Infinity)
  {
    var k := Compared(info, info, flags);
    if k.Some? && DepthsAgree(info, info, k.value) {
      AlphaRules(info, info, k.value);
      MainSeZero(s, sm, s, sm, info, info, k.value);
    }
  }

  /**
   * Swapping two images of the same format and size gives the same score:
   * the error is symmetric and the alpha rules do not apply.
   */
  lemma {:induction false} ScoreSymmetric(s: ImageState, sm: seq<seq<Byte>>, r: ImageState, rm: seq<seq<Byte>>,
      info: FormatInfo, flags: U32)
    requires Shaped(info) && s.width == r.width && s.height == r.height
    ensures Score(s, sm, r, rm, info, info, flags) == Score(r, rm, s, sm, info, info, flags)
  {
    var k := Compared(info, info, flags);
    if k.Some? && DepthsAgree(info, info, k.value) {
      AlphaRules(info, info, k.value);
      MainSeSymmetric(s, sm, r, rm, info, k.value);
    }
  }

  /** The maximum intensity a successful comparison of components 0 to `n - 1` uses. */
  function ScoreIntensity(info: FormatInfo, n: nat): U32
    requires Shaped(info) && n <= 4
  {
    if DepthScan(info.components, 0, n, 0).Some? then MaxIntensity(DepthScan(info.components, 0, n, 0).value)
    else 0
  }

  /** The error a successful comparison accumulates, before wrap-around. */
  function TotalSe(s: ImageState, sm: seq<seq<Byte>>, r: ImageState, rm: seq<seq<Byte>>,
      info: FormatInfo, rinfo: FormatInfo, n: nat): nat
    requires Shaped(info) && Shaped(rinfo) && n <= 4
  {
    MainSe(s, sm, r, rm, info, rinfo, n) +
      (if AlphaChoice(info, rinfo, n) == AlphaOfImage
       then AlphaSe(s, sm, info.components[3], ScoreIntensity(info, n)) else 0)
  }

  /** A comparison that passes its checks scores +infinity exactly when the wrapped error is zero. */
  lemma {:induction false} ScoreTotal(s: ImageState, sm: seq<seq<Byte>>, r: ImageState,
      rm: seq<seq<Byte>>, info: FormatInfo, rinfo: FormatInfo, flags: U32, n: nat)
    requires Shaped(info) && Shaped(rinfo)
    requires Compared(info, rinfo, flags) == Some(n) && DepthsAgree(info, rinfo, n)
    requires AlphaChoice(info, rinfo, n) != AlphaMismatch
    ensures n <= 4
    ensures Score(s, sm, r, rm, info, rinfo, flags).Some?
    ensures Score(s, sm, r, rm, info, rinfo, flags).value == Infinity <==>
      TotalSe(s, sm, r, rm, info, rinfo, n) % U64_MOD == 0
  {
    AlphaRules(info, rinfo, n);
    assert MaxIntensity(DepthScan(info.components, 0, n, 0).value) == ScoreIntensity(info, n);
  }

  /**
   * As long as the error fits the 64-bit accumulator, the score is
   * +infinity exactly when every compared component has identical samples
   * in both images and, where an alpha component is scored, it is fully
   * opaque.
   */
  lemma {:induction false} InfinityIffIdentical(s: ImageState, sm: seq<seq<Byte>>, r: ImageState,
      rm: seq<seq<Byte>>, info: FormatInfo, rinfo: FormatInfo, flags: U32, n: nat)
    requires Shaped(info) && Shaped(rinfo)
    requires Compared(info, rinfo, flags) == Some(n) && DepthsAgree(info, rinfo, n)
    requires AlphaChoice(info, rinfo, n) != AlphaMismatch
    requires TotalSe(s, sm, r, rm, info, rinfo, n) < U64_MOD
    ensures Score(s, sm, r, rm, info, rinfo, flags) == Some(Infinity) <==>
      (forall c :: 0 <= c < n ==> SameSamples(s, sm, r, rm, info, rinfo, c)) &&
      (AlphaChoice(info, rinfo, n) == AlphaOfImage ==>
        AllEqual(PictureOf(s, sm, info.components[3]), s.width, s.height, ScoreIntensity(info, n)))
  {
    ScoreTotal(s, sm, r, rm, info, rinfo, flags, n);
    MainSeZero(s, sm, r, rm, info, rinfo, n);
    GridConstSeZero(PictureOf(s, sm, info.components[3]), s.width, s.height, ScoreIntensity(info, n));
    ModUnique(TotalSe(s, sm, r, rm, info, rinfo, n), U64_MOD, 0, TotalSe(s, sm, r, rm, info, rinfo, n));
  }

  /** The samples of components 0 to `k - 1`, counted without wrap-around. */
  function ExactSamples(info: FormatInfo, width: U32, height: U32, k: nat): nat
  {
    if k == 0 then 0
    else
      var n := k - 1;
      ExactSamples(info, width, height, n) +
        Area(ImageHash.ComponentWidth(info, n, width), ImageHash.ComponentHeight(info, n, height))
  }

  /** `num_samples` is the sum of the component areas as long as that sum fits 32 bits. */
  lemma {:induction false} SamplesCounted(info: FormatInfo, width: U32, height: U32, k: nat)
    requires ExactSamples(info, width, height, k) < U32_MOD
    ensures MainSamples(info, width, height, k) == ExactSamples(info, width, height, k)
  {
    if k > 0 {
      SamplesCounted(info, width, height, k - 1);
    }
  }

  // ---------------------------------------------------------------------
  // The comparison loops

  /** The bit-depth loop over both images, then the check that their depths agree. */
  method CheckDepths(info: FormatInfo, rinfo: FormatInfo, num: nat) returns (ok: bool, depth: nat)
    requires Shaped(info) && Shaped(rinfo) && num <= 4
    ensures ok <==> DepthsAgree(info, rinfo, num)
    ensures ok ==> Some(depth) == DepthScan(info.components, 0, num, 0)
  {
    var bitDepth, refBitDepth := 0, 0;
    var n := 0;
    while n < num
      invariant n <= num
      invariant DepthScan(info.components, 0, num, 0) == DepthScan(info.components, n, num, bitDepth)
      invariant DepthScan(rinfo.components, 0, num, 0) == DepthScan(rinfo.components, n, num, refBitDepth)
    {
      var cip, refCip := info.components[n], rinfo.components[n];
      if bitDepth == 0 {
        bitDepth := cip.bitDepth;
      } else if bitDepth != cip.bitDepth {
        return false, 0;
      }
      if refBitDepth == 0 {
        refBitDepth := refCip.bitDepth;
      } else if refBitDepth != refCip.bitDepth {
        return false, 0;
      }
      n := n + 1;
    }
    if bitDepth != refBitDepth {
      return false, 0;
    }
    return true, bitDepth;
  }

  /**
   * In the image `s` whose planes hold `m`, sample (`x`, `y`) of component
   * `cip` lies in its block and holds the value of `p` there.
   */
  predicate ReadsAs(s: ImageState, m: seq<seq<Byte>>, cip: Component, p: Picture, x: int, y: int)
  {
    WellShaped(s) && cip.plane < 4 && |m| == 4 && Addressable(s, cip, x, y) &&
    |m[cip.plane]| == ComponentPtr(s, cip, x, y).block.Length &&
    Load(m[cip.plane], ComponentPtr(s, cip, x, y).pos, cip.bitDepth) == p(x, y)
  }

  /** The first `w` samples of row `y` of component `cip` are those of `p`. */
  predicate RowShows(s: ImageState, m: seq<seq<Byte>>, cip: Component, p: Picture, w: nat, y: int)
  {
    forall x :: 0 <= x < w ==> ReadsAs(s, m, cip, p, x, y)
  }

  /** The `w` by `h` top-left area of component `cip` is that of `p`. */
  predicate Shows(s: ImageState, m: seq<seq<Byte>>, cip: Component, p: Picture, w: nat, h: nat)
  {
    forall y :: 0 <= y < h ==> RowShows(s, m, cip, p, w, y)
  }

  /** A sweepable component shows its own picture. */
  lemma {:induction false} ShowsPicture(s: ImageState, m: seq<seq<Byte>>, cip: Component, w: nat, h: nat)
    requires Fits(s, m) && Sweepable(s, cip, w, h)
    ensures Shows(s, m, cip, PictureOf(s, m, cip), w, h)
  {
    forall y | 0 <= y < h ensures RowShows(s, m, cip, PictureOf(s, m, cip), w, y) {
      forall x | 0 <= x < w ensures ReadsAs(s, m, cip, PictureOf(s, m, cip), x, y) {
        assert Addressable(s, cip, x, y);
      }
    }
  }

  lemma {:induction false} RowOf(s: ImageState, m: seq<seq<Byte>>, cip: Component, p: Picture, w: nat, h: nat, y: int)
    requires Shows(s, m, cip, p, w, h) && 0 <= y < h
    ensures RowShows(s, m, cip, p, w, y)
  {
  }

  lemma {:induction false} ShownAt(s: ImageState, m: seq<seq<Byte>>, cip: Component, p: Picture, w: nat, y: int, x: int)
    requires RowShows(s, m, cip, p, w, y) && 0 <= x < w
    ensures ReadsAs(s, m, cip, p, x, y)
  {
  }

  /** `m` holds the current bytes of the plane of component `cip` of the image `s`. */
  predicate Current(s: ImageState, m: seq<seq<Byte>>, cip: Component)
    reads if WellShaped(s) && cip.plane < 4 then PlaneBlock(s, cip.plane) else {}
  {
    WellShaped(s) && cip.plane < 4 && |m| == 4 && m[cip.plane] == PlaneContents(s, cip.plane)
  }

  /** get_component on a sample of a shown row of `image`, whose state is `s`. */
  method ReadComponent(image: Image, cip: Component, x: nat, y: U32,
      ghost s: ImageState, ghost m: seq<seq<Byte>>, ghost p: Picture, ghost w: nat)
      returns (v: nat)
    requires s == image.State() && Current(s, m, cip)
    requires RowShows(s, m, cip, p, w, y) && x < w
    ensures v == p(x, y)
  {
    ShownAt(s, m, cip, p, w, y, x);
    v := GetComponent(image.State(), cip, x, y);
  }

  /** One pass of the inner loop: `se += calc_se(...)` on sample (`i`, `y`) of both images. */
  method SampleStep(image: Image, ref: Image, cip: Component, rcip: Component, i: nat, y: U32, w: U32,
      se: nat, ghost se0: nat,
      ghost s: ImageState, ghost m: seq<seq<Byte>>, ghost r: ImageState, ghost rm: seq<seq<Byte>>,
      ghost p: Picture, ghost q: Picture)
      returns (se1: nat)
    requires s == image.State() && Current(s, m, cip) && r == ref.State() && Current(r, rm, rcip)
    requires RowShows(s, m, cip, p, w, y) && RowShows(r, rm, rcip, q, w, y) && i < w
    requires se == (se0 + RowSe(p, q, y, i)) % U64_MOD
    ensures se1 == (se0 + RowSe(p, q, y, i + 1)) % U64_MOD
  {
    var a := ReadComponent(image, cip, i, y, s, m, p, w);
    var b := ReadComponent(ref, rcip, i, y, r, rm, q, w);
    Accumulate(se, se0, RowSe(p, q, y, i), CalcSe(a, b));
    se1 := (se + CalcSe(a, b)) % U64_MOD;
  }

  /** The inner loop over row `y`: one calc_se per sample, added to the 64-bit `se`. */
  method SweepRow(image: Image, ref: Image, cip: Component, rcip: Component, y: U32, w: U32, se0: nat,
      ghost s: ImageState, ghost m: seq<seq<Byte>>, ghost r: ImageState, ghost rm: seq<seq<Byte>>,
      ghost p: Picture, ghost q: Picture)
      returns (se: nat)
    requires s == image.State() && Current(s, m, cip) && r == ref.State() && Current(r, rm, rcip)
    requires RowShows(s, m, cip, p, w, y) && RowShows(r, rm, rcip, q, w, y)
    requires se0 < U64_MOD
    ensures se == (se0 + RowSe(p, q, y, w)) % U64_MOD
  {
    se := se0;
    var i: nat := 0;
    while i < w
      invariant i <= w
      invariant se == (se0 + RowSe(p, q, y, i)) % U64_MOD
    {
      se := SampleStep(image, ref, cip, rcip, i, y, w, se, se0, s, m, r, rm, p, q);
      i := i + 1;
    }
  }

  /** The two loops over a `w` by `h` component. */
  method SweepComponent(image: Image, ref: Image, cip: Component, rcip: Component, w: U32, h: U32, se0: nat,
      ghost s: ImageState, ghost m: seq<seq<Byte>>, ghost r: ImageState, ghost rm: seq<seq<Byte>>,
      ghost p: Picture, ghost q: Picture)
      returns (se: nat)
    requires s == image.State() && Current(s, m, cip) && r == ref.State() && Current(r, rm, rcip)
    requires Shows(s, m, cip, p, w, h) && Shows(r, rm, rcip, q, w, h)
    requires se0 < U64_MOD
    ensures se == (se0 + GridSe(p, q, w, h)) % U64_MOD
  {
    se := se0;
    var j: U32 := 0;
    while j < h
      invariant j <= h
      invariant se == (se0 + GridSe(p, q, w, j)) % U64_MOD
    {
      RowOf(s, m, cip, p, w, h, j);
      RowOf(r, rm, rcip, q, w, h, j);
      var se1 := SweepRow(image, ref, cip, rcip, j, w, se, s, m, r, rm, p, q);
      Accumulate(se, se0, GridSe(p, q, w, j), RowSe(p, q, j, w));
      se := se1;
      j := j + 1;
    }
  }

  /** One pass of the inner alpha loop: `se += calc_se(..., max_intensity)` on sample (`i`, `y`). */
  method AlphaStep(image: Image, cip: Component, i: U32, y: U32, w: U32, maxIntensity: U32,
      se: nat, ghost se0: nat, ghost s: ImageState, ghost m: seq<seq<Byte>>, ghost p: Picture)
      returns (se1: nat)
    requires s == image.State() && Current(s, m, cip)
    requires RowShows(s, m, cip, p, w, y) && i < w
    requires se == (se0 + RowConstSe(p, y, i, maxIntensity)) % U64_MOD
    ensures se1 == (se0 + RowConstSe(p, y, i + 1, maxIntensity)) % U64_MOD
  {
    var a := ReadComponent(image, cip, i, y, s, m, p, w);
    Accumulate(se, se0, RowConstSe(p, y, i, maxIntensity), CalcSe(a, maxIntensity));
    se1 := (se + CalcSe(a, maxIntensity)) % U64_MOD;
  }

  /** The inner alpha loop over row `y`: calc_se of each sample against `max_intensity`. */
  method SweepAlphaRow(image: Image, cip: Component, y: U32, w: U32, maxIntensity: U32, se0: nat,
      ghost s: ImageState, ghost m: seq<seq<Byte>>, ghost p: Picture)
      returns (se: nat)
    requires s == image.State() && Current(s, m, cip)
    requires RowShows(s, m, cip, p, w, y)
    requires se0 < U64_MOD
    ensures se == (se0 + RowConstSe(p, y, w, maxIntensity)) % U64_MOD
  {
    se := se0;
    var i: U32 := 0;
    while i < w
      invariant i <= w
      invariant se == (se0 + RowConstSe(p, y, i, maxIntensity)) % U64_MOD
    {
      se := AlphaStep(image, cip, i, y, w, maxIntensity, se, se0, s, m, p);
      i := i + 1;
    }
  }

  /** The two alpha loops, over the full size of the image. */
  method SweepAlpha(image: Image, cip: Component, maxIntensity: U32, se0: nat,
      ghost s: ImageState, ghost m: seq<seq<Byte>>, ghost p: Picture)
      returns (se: nat)
    requires s == image.State() && Current(s, m, cip)
    requires Shows(s, m, cip, p, s.width, s.height)
    requires se0 < U64_MOD
    ensures se == (se0 + GridConstSe(p, s.width, s.height, maxIntensity)) % U64_MOD
  {
    var w, h := image.width, image.height;
    se := se0;
    var j: U32 := 0;
    while j < h
      invariant j <= h
      invariant se == (se0 + GridConstSe(p, w, j, maxIntensity)) % U64_MOD
    {
      RowOf(s, m, cip, p, w, h, j);
      var se1 := SweepAlphaRow(image, cip, j, w, maxIntensity, se, s, m, p);
      Accumulate(se, se0, GridConstSe(p, w, j, maxIntensity), RowConstSe(p, j, w, maxIntensity));
      se := se1;
      j := j + 1;
    }
  }

  // ---------------------------------------------------------------------
  // mvt_image_compare_psnr

  /** Component `n` of both images can be read over the size of component `n` of the first. */
  predicate PairReadable(s: ImageState, r: ImageState, info: FormatInfo, rinfo: FormatInfo, n: nat)
    requires Shaped(info) && Shaped(rinfo) && n < 4
  {
    var w, h := ImageHash.ComponentWidth(info, n, s.width), ImageHash.ComponentHeight(info, n, s.height);
    Sweepable(s, info.components[n], w, h) && Sweepable(r, rinfo.components[n], w, h)
  }

  /**
   * What the comparison demands of its images: well-formed descriptors and
   * planes, and, once the checks pass, every sample it reads inside the
   * block of its plane.
   */
  predicate Comparable(s: ImageState, r: ImageState, info: FormatInfo, rinfo: FormatInfo, flags: U32)
  {
    Shaped(info) && Shaped(rinfo) && WellShaped(s) && WellShaped(r) &&
    var k := Compared(info, rinfo, flags);
    (k.Some? && DepthsAgree(info, rinfo, k.value) ==>
      (forall n :: 0 <= n < k.value ==> PairReadable(s, r, info, rinfo, n)) &&
      (AlphaChoice(info, rinfo, k.value) == AlphaOfImage ==>
        Sweepable(s, info.components[3], s.width, s.height)))
  }

  /** One pass of the component loop keeps `se` the wrapped error of the components done. */
  lemma {:induction false} MainStep(s: ImageState, sm: seq<seq<Byte>>, r: ImageState, rm: seq<seq<Byte>>,
      info: FormatInfo, rinfo: FormatInfo, n: nat, se: nat, se1: nat)
    requires Shaped(info) && Shaped(rinfo) && n < 4
    requires se == MainSe(s, sm, r, rm, info, rinfo, n) % U64_MOD
    requires se1 == (se + ComponentSe(s, sm, r, rm, info, rinfo, n)) % U64_MOD
    ensures se1 == MainSe(s, sm, r, rm, info, rinfo, n + 1) % U64_MOD
  {
    Accumulate(se, 0, MainSe(s, sm, r, rm, info, rinfo, n), ComponentSe(s, sm, r, rm, info, rinfo, n));
  }

  /** The squared error of component `n`, swept over its size. */
  method CompareComponent(image: Image, ref: Image, info: FormatInfo, rinfo: FormatInfo, n: nat, se: nat,
      ghost s: ImageState, ghost sm: seq<seq<Byte>>, ghost r: ImageState, ghost rm: seq<seq<Byte>>)
      returns (se1: nat, w: U32, h: U32)
    requires Shaped(info) && Shaped(rinfo) && n < 4
    requires s == image.State() && r == ref.State() && WellShaped(s) && WellShaped(r)
    requires sm == Contents(s) && rm == Contents(r)
    requires PairReadable(s, r, info, rinfo, n)
    requires se < U64_MOD
    ensures se1 == (se + ComponentSe(s, sm, r, rm, info, rinfo, n)) % U64_MOD
    ensures w == ImageHash.ComponentWidth(info, n, s.width) && h == ImageHash.ComponentHeight(info, n, s.height)
  {
    var cip, rcip := info.components[n], rinfo.components[n];
    w, h := ImageHash.ComponentWidth(info, n, image.width), ImageHash.ComponentHeight(info, n, image.height);
    ShowsPicture(s, sm, cip, w, h);
    ShowsPicture(r, rm, rcip, w, h);
    se1 := SweepComponent(image, ref, cip, rcip, w, h, se, s, sm, r, rm, PictureOf(s, sm, cip), PictureOf(r, rm, rcip));
  }

  /** One pass of the component loop adds the area of component `n` to `num_samples`. */
  lemma {:induction false} SamplesStep(info: FormatInfo, width: U32, height: U32, n: nat, ns: U32, w: U32, h: U32)
    requires ns == MainSamples(info, width, height, n)
    requires w == ImageHash.ComponentWidth(info, n, width) && h == ImageHash.ComponentHeight(info, n, height)
    ensures Wrap32(ns + Wrap32(Area(w, h))) == MainSamples(info, width, height, n + 1)
  {
  }

  /** The component loop: `se` and `num_samples` over components 0 to `num - 1`. */
  method SweepMain(image: Image, ref: Image, info: FormatInfo, rinfo: FormatInfo, num: nat,
      ghost s: ImageState, ghost sm: seq<seq<Byte>>, ghost r: ImageState, ghost rm: seq<seq<Byte>>)
      returns (se: nat, numSamples: U32)
    requires Shaped(info) && Shaped(rinfo) && num <= 4
    requires s == image.State() && r == ref.State() && WellShaped(s) && WellShaped(r)
    requires sm == Contents(s) && rm == Contents(r)
    requires forall n :: 0 <= n < num ==> PairReadable(s, r, info, rinfo, n)
    ensures se == MainSe(s, sm, r, rm, info, rinfo, num) % U64_MOD
    ensures numSamples == MainSamples(info, s.width, s.height, num)
  {
    se, numSamples := 0, 0;
    var n := 0;
    while n < num
      invariant n <= num
      invariant se == MainSe(s, sm, r, rm, info, rinfo, n) % U64_MOD
      invariant numSamples == MainSamples(info, s.width, s.height, n)
    {
      assert PairReadable(s, r, info, rinfo, n);
      var se1, w, h := CompareComponent(image, ref, info, rinfo, n, se, s, sm, r, rm);
      MainStep(s, sm, r, rm, info, rinfo, n, se, se1);
      se := se1;
      SamplesStep(info, s.width, s.height, n, numSamples, w, h);
      numSamples := Wrap32(numSamples + Wrap32(Area(w, h)));
      n := n + 1;
    }
  }

  /** A comparison fails when a check fails: the depths, or the alpha component counts. */
  lemma {:induction false} ScoreRejected(s: ImageState, sm: seq<seq<Byte>>, r: ImageState,
      rm: seq<seq<Byte>>, info: FormatInfo, rinfo: FormatInfo, flags: U32, n: nat)
    requires Shaped(info) && Shaped(rinfo) && n <= 4 && Compared(info, rinfo, flags) == Some(n)
    requires !DepthsAgree(info, rinfo, n) || AlphaChoice(info, rinfo, n) == AlphaMismatch
    ensures Score(s, sm, r, rm, info, rinfo, flags).None?
  {
  }

  /** The score of a comparison whose checks pass and that scores no alpha. */
  lemma {:induction false} ScoreWithoutAlpha(s: ImageState, sm: seq<seq<Byte>>, r: ImageState,
      rm: seq<seq<Byte>>, info: FormatInfo, rinfo: FormatInfo, flags: U32, n: nat, maxI: U32)
    requires Shaped(info) && Shaped(rinfo) && n <= 4
    requires Compared(info, rinfo, flags) == Some(n) && DepthsAgree(info, rinfo, n)
    requires AlphaChoice(info, rinfo, n) == NoAlpha && maxI == ScoreIntensity(info, n)
    ensures Score(s, sm, r, rm, info, rinfo, flags) ==
      Some(CalcPsnr(MainSe(s, sm, r, rm, info, rinfo, n) % U64_MOD, MainSamples(info, s.width, s.height, n), maxI))
  {
  }

  /** The score of a comparison whose checks pass and that scores the alpha of the first image. */
  lemma {:induction false} ScoreWithAlpha(s: ImageState, sm: seq<seq<Byte>>, r: ImageState,
      rm: seq<seq<Byte>>, info: FormatInfo, rinfo: FormatInfo, flags: U32, n: nat, maxI: U32)
    requires Shaped(info) && Shaped(rinfo) && n <= 4
    requires Compared(info, rinfo, flags) == Some(n) && DepthsAgree(info, rinfo, n)
    requires AlphaChoice(info, rinfo, n) == AlphaOfImage && maxI == ScoreIntensity(info, n)
    ensures Score(s, sm, r, rm, info, rinfo, flags) ==
      Some(CalcPsnr((MainSe(s, sm, r, rm, info, rinfo, n) + AlphaSe(s, sm, info.components[3], maxI)) % U64_MOD,
        Wrap32(MainSamples(info, s.width, s.height, n) + Wrap32(Area(s.width, s.height))), maxI))
  {
  }

  /** The score from the wrapped sums the loops leave: the main error with the alpha error, the samples with the area. */
  lemma {:induction false} AlphaScored(s: ImageState, sm: seq<seq<Byte>>, r: ImageState,
      rm: seq<seq<Byte>>, info: FormatInfo, rinfo: FormatInfo, flags: U32, n: nat, maxI: U32, se: nat, samples: U32)
    requires Shaped(info) && Shaped(rinfo) && n <= 4
    requires Compared(info, rinfo, flags) == Some(n) && DepthsAgree(info, rinfo, n)
    requires AlphaChoice(info, rinfo, n) == AlphaOfImage && maxI == ScoreIntensity(info, n)
    requires se == (MainSe(s, sm, r, rm, info, rinfo, n) % U64_MOD + AlphaSe(s, sm, info.components[3], maxI)) % U64_MOD
    requires samples == Wrap32(MainSamples(info, s.width, s.height, n) + Wrap32(Area(s.width, s.height)))
    ensures Score(s, sm, r, rm, info, rinfo, flags) == Some(CalcPsnr(se, samples, maxI))
  {
    AddMod(MainSe(s, sm, r, rm, info, rinfo, n), AlphaSe(s, sm, info.components[3], maxI), U64_MOD);
    ScoreWithAlpha(s, sm, r, rm, info, rinfo, flags, n, maxI);
  }

  /**
   * `mvt_image_compare_psnr` once the descriptors `info` and `rinfo` of the
   * two formats are looked up: `None` when it returns false, otherwise the
   * score it stores.
   */
  method ComparePsnrWith(image: Image, ref: Image, info: FormatInfo, rinfo: FormatInfo, flags: U32)
      returns (score: Option<Psnr>)
    requires Comparable(image.State(), ref.State(), info, rinfo, flags)
    ensures score == Score(image.State(), Contents(image.State()), ref.State(), Contents(ref.State()),
      info, rinfo, flags)
  {
    score := ComparePsnrOn(image, ref, info, rinfo, flags,
      image.State(), Contents(image.State()), ref.State(), Contents(ref.State()));
  }

  /** The body of `mvt_image_compare_psnr` on images whose states are `s` and `r`. */
  method ComparePsnrOn(image: Image, ref: Image, info: FormatInfo, rinfo: FormatInfo, flags: U32,
      ghost s: ImageState, ghost sm: seq<seq<Byte>>, ghost r: ImageState, ghost rm: seq<seq<Byte>>)
      returns (score: Option<Psnr>)
    requires s == image.State() && r == ref.State() && Comparable(s, r, info, rinfo, flags)
    requires sm == Contents(s) && rm == Contents(r)
    ensures score == Score(s, sm, r, rm, info, rinfo, flags)
  {
    if info.chromaWShift != rinfo.chromaWShift || info.chromaHShift != rinfo.chromaHShift {
      return None;
    }
    var numComponents := Min(info.numComponents, rinfo.numComponents);
    if flags % 2 == 1 {
      if !YuvInfo(info) {
        return None;
      }
      numComponents := 1;
    }
    assert Compared(info, rinfo, flags) == Some(numComponents);
    var ok, bitDepth := CheckDepths(info, rinfo, numComponents);
    if !ok {
      ScoreRejected(s, sm, r, rm, info, rinfo, flags, numComponents);
      return None;
    }
    var maxIntensity := MaxIntensity(bitDepth);
    assert maxIntensity == ScoreIntensity(info, numComponents);
    score := ScoreChecked(image, ref, info, rinfo, flags, numComponents, maxIntensity, s, sm, r, rm);
  }

  /** The alpha loops of the first image, added to the error and the sample count of the main components. */
  method ScoreImageAlpha(image: Image, info: FormatInfo, rinfo: FormatInfo, flags: U32,
      numComponents: nat, maxIntensity: U32, se: nat, numSamples: U32,
      ghost s: ImageState, ghost sm: seq<seq<Byte>>, ghost r: ImageState, ghost rm: seq<seq<Byte>>)
      returns (score: Option<Psnr>)
    requires Shaped(info) && Shaped(rinfo) && numComponents <= 4
    requires Compared(info, rinfo, flags) == Some(numComponents) && DepthsAgree(info, rinfo, numComponents)
    requires AlphaChoice(info, rinfo, numComponents) == AlphaOfImage
    requires maxIntensity == ScoreIntensity(info, numComponents)
    requires s == image.State() && WellShaped(s) && sm == Contents(s)
    requires Sweepable(s, info.components[3], s.width, s.height)
    requires se == MainSe(s, sm, r, rm, info, rinfo, numComponents) % U64_MOD
    requires numSamples == MainSamples(info, s.width, s.height, numComponents)
    ensures score == Score(s, sm, r, rm, info, rinfo, flags)
  {
    var cip := info.components[3];
    ShowsPicture(s, sm, cip, s.width, s.height);
    var se1 := SweepAlpha(image, cip, maxIntensity, se, s, sm, PictureOf(s, sm, cip));
    assert image.width == s.width && image.height == s.height;
    assert AlphaSe(s, sm, cip, maxIntensity) == GridConstSe(PictureOf(s, sm, cip), s.width, s.height, maxIntensity);
    var numSamples1 := Wrap32(numSamples + Wrap32(Area(image.width, image.height)));
    AlphaScored(s, sm, r, rm, info, rinfo, flags, numComponents, maxIntensity, se1, numSamples1);
    score := Some(CalcPsnr(se1, numSamples1, maxIntensity));
  }

  /** The comparison loops and the alpha rules, once the component count and depths are checked. */
  method ScoreChecked(image: Image, ref: Image, info: FormatInfo, rinfo: FormatInfo, flags: U32,
      numComponents: nat, maxIntensity: U32,
      ghost s: ImageState, ghost sm: seq<seq<Byte>>, ghost r: ImageState, ghost rm: seq<seq<Byte>>)
      returns (score: Option<Psnr>)
    requires Shaped(info) && Shaped(rinfo) && numComponents <= 4
    requires Compared(info, rinfo, flags) == Some(numComponents) && DepthsAgree(info, rinfo, numComponents)
    requires maxIntensity == ScoreIntensity(info, numComponents)
    requires s == image.State() && r == ref.State() && WellShaped(s) && WellShaped(r)
    requires sm == Contents(s) && rm == Contents(r)
    requires forall n :: 0 <= n < numComponents ==> PairReadable(s, r, info, rinfo, n)
    requires AlphaChoice(info, rinfo, numComponents) == AlphaOfImage ==>
      Sweepable(s, info.components[3], s.width, s.height)
    ensures score == Score(s, sm, r, rm, info, rinfo, flags)
  {
    var se, numSamples := SweepMain(image, ref, info, rinfo, numComponents, s, sm, r, rm);
    if info.numComponents == 4 && numComponents > 1 {
      if info.numComponents == 3 && rinfo.numComponents == 4 {
        // The alpha of the second image: unreachable, the first has four components.
        assert false;
      } else if info.numComponents == 4 && rinfo.numComponents == 3 {
        score := ScoreImageAlpha(image, info, rinfo, flags, numComponents, maxIntensity, se, numSamples, s, sm, r, rm);
        return;
      } else if !(info.numComponents == rinfo.numComponents && info.numComponents == numComponents) {
        ScoreRejected(s, sm, r, rm, info, rinfo, flags, numComponents);
        return None;
      }
    }
    ScoreWithoutAlpha(s, sm, r, rm, info, rinfo, flags, numComponents, maxIntensity);
    return Some(CalcPsnr(se, numSamples, maxIntensity));
  }

  /**
   * `mvt_image_compare_psnr`: the descriptors of both formats are looked up
   * first, and an unregistered format is not allowed.
   */
  method ComparePsnr(image: Image, ref: Image, flags: U32) returns (score: Option<Psnr>)
    requires GetInfo(image.format).Some? && GetInfo(ref.format).Some?
    requires Comparable(image.State(), ref.State(), GetInfo(image.format).value, GetInfo(ref.format).value, flags)
    ensures score == Score(image.State(), Contents(image.State()), ref.State(), Contents(ref.State()),
      GetInfo(image.format).value, GetInfo(ref.format).value, flags)
  {
    var vip, refVip := GetInfo(image.format), GetInfo(ref.format);
    score := ComparePsnrWith(image, ref, vip.value, refVip.value, flags);
  }

  /** The flags a metric passes on to the comparison, `None` for an unsupported metric. */
  function MetricFlags(metric: int): (r: Option<U32>)
    ensures r.Some? <==> metric == METRIC_PSNR || metric == METRIC_Y_PSNR
    ensures r.Some? ==> (r.value % 2 == 1 <==> metric == METRIC_Y_PSNR)
  {
    if metric == METRIC_Y_PSNR then Some(FLAG_Y_PSNR)
    else if metric == METRIC_PSNR then Some(0)
    else None
  }

  /**
   * The checks of `mvt_image_compare` before it dispatches a metric: both
   * images present, of the same size, of formats of the same chroma type, and
   * a place to store the value.
   */
  predicate Dispatched(image: Image?, ref: Image?, hasValue: bool)
    reads image, ref
  {
    image != null && ref != null && image.width == ref.width && image.height == ref.height &&
    GetInfo(image.format).Some? && GetInfo(ref.format).Some? &&
    GetInfo(image.format).value.chromaType == GetInfo(ref.format).value.chromaType && hasValue
  }

  /**
   * `mvt_image_compare`: `None` when it returns false, otherwise the value
   * stored through `value_ptr` (whose presence is `hasValue`). It needs the
   * formats of two images of the same size to be registered.
   */
  method Compare(image: Image?, ref: Image?, metric: int, hasValue: bool) returns (value: Option<Psnr>)
    requires image != null && ref != null && image.width == ref.width && image.height == ref.height ==>
      GetInfo(image.format).Some? && GetInfo(ref.format).Some?
    requires Dispatched(image, ref, hasValue) && MetricFlags(metric).Some? ==>
      Comparable(image.State(), ref.State(), GetInfo(image.format).value, GetInfo(ref.format).value,
        MetricFlags(metric).value)
    ensures value.Some? ==> Dispatched(image, ref, hasValue) && MetricFlags(metric).Some?
    ensures Dispatched(image, ref, hasValue) && MetricFlags(metric).Some? ==>
      value == Score(image.State(), Contents(image.State()), ref.State(), Contents(ref.State()),
        GetInfo(image.format).value, GetInfo(ref.format).value, MetricFlags(metric).value)
  {
    if image == null || ref == null {
      return None;
    }
    if image.width != ref.width || image.height != ref.height {
      return None;
    }
    var vip, refVip := GetInfo(image.format), GetInfo(ref.format);
    if vip.value.chromaType != refVip.value.chromaType {
      return None;
    }
    if !hasValue {
      return None;
    }
    var flags: U32 := 0;
    if metric == METRIC_Y_PSNR {
      flags := FLAG_Y_PSNR;
    } else if metric != METRIC_PSNR {
      // An unsupported metric trips an assertion in debug builds.
      return None;
    }
    value := ComparePsnr(image, ref, flags);
  }

  /**
   * Two RGB images that both carry alpha are never compared: the alpha
   * component of their descriptors has no bit depth, so the depth check of
   * the four components fails.
   */
  lemma {:induction false} RgbAlphaPairsRejected(s: ImageState, sm: seq<seq<Byte>>, r: ImageState,
      rm: seq<seq<Byte>>, format: int, rformat: int, flags: U32)
    requires IsRgb(format) && HasAlpha(format) && IsRgb(rformat) && HasAlpha(rformat) && flags % 2 == 0
    ensures Shaped(GetInfo(format).value) && Shaped(GetInfo(rformat).value)
    ensures Score(s, sm, r, rm, GetInfo(format).value, GetInfo(rformat).value, flags).None?
  {
    var info, rinfo := GetInfo(format).value, GetInfo(rformat).value;
    RegisteredPlanes(format);
    RegisteredPlanes(rformat);
    RgbColourDepths(format);
    RgbAlphaDepthZero(format);
    ShiftsByFamily(format);
    ShiftsByFamily(rformat);
    RgbYuvPartition(format);
    RgbYuvPartition(rformat);
    assert Compared(info, rinfo, flags) == Some(4);
    assert DepthScan(info.components, 3, 4, 8) == None;
    DepthScanFixed(info.components, 0, 3, 8);
  }
}
