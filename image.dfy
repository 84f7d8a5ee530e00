// The image object: the plane layout of an allocated frame, zero-copy views
// of a region or of one field, wrapping of VA images, ownership of the pixel
// block through the private data, and clearing.

module Images {
  import opened Common
  import opened VideoFormats

  // Picture structure flags of VA-API and the image copy flag.
  const VA_TOP_FIELD: U32 := 1
  const VA_BOTTOM_FIELD: U32 := 2
  const FLAG_FROM_USWC: U32 := 0x8000_0000

  /** A byte pointer: NULL, or a position inside an allocated block. */
  datatype Ptr = Null | At(block: array<Byte>, pos: int)

  /** Pointer arithmetic `p + n`; arithmetic on NULL is kept NULL. */
  function Offset(p: Ptr, n: int): Ptr
  {
    if p.Null? then Null else At(p.block, p.pos + n)
  }

  /** The private part of an image: the pixel block it owns and the copy cache. */
  class Priv {
    var dataBase: array?<Byte>
    var copyCache: array?<Byte>
    var copyCacheSize: U32

    /** calloc of the private structure. */
    constructor ()
      ensures dataBase == null && copyCache == null && copyCacheSize == 0
    {
      dataBase := null;
      copyCache := null;
      copyCacheSize := 0;
    }
  }

  /** The value of an image structure, field by field. */
  datatype ImageState = ImageState(
    format: int,
    width: U32,
    height: U32,
    data: Ptr,
    dataSize: U32,
    numPlanes: U32,
    pixels: seq<Ptr>,
    offsets: seq<U32>,
    pitches: seq<U32>,
    priv: Priv?)

  /** The plane arrays hold four entries, of which `numPlanes` are in use. */
  predicate WellShaped(s: ImageState)
  {
    |s.pixels| == MAX_PLANES && |s.offsets| == MAX_PLANES && |s.pitches| == MAX_PLANES &&
    s.numPlanes <= MAX_PLANES
  }

  const NullPixels: seq<Ptr> := [Null, Null, Null, Null]
  const Zeros: seq<U32> := [0, 0, 0, 0]

  /** An image structure cleared to zero bytes. */
  const ZeroState := ImageState(UNKNOWN, 0, 0, Null, 0, 0, NullPixels, Zeros, Zeros, null)

  // ---------------------------------------------------------------------
  // round_up

  predicate IsPow2(a: nat)
    decreases a
  {
    a == 1 || (a > 1 && a % 2 == 0 && IsPow2(a / 2))
  }

  lemma {:induction false} Pow2Sixteen()
    ensures IsPow2(16)
  {
    assert IsPow2(1) && IsPow2(2) && IsPow2(4) && IsPow2(8);
  }

  /**
   * round_up: `(v + a - 1) & ~(a - 1)` on uint32_t. For a power of two `a`,
   * clearing the low bits of `x` is `x - x % a`.
   */
  function RoundUp(v: U32, a: U32): U32
    requires IsPow2(a)
  {
    var x := Wrap32(v as int + a - 1);
    DivMulBelow(x, a);
    x / a * a
  }

  lemma {:induction false} DivMulBelow(x: nat, a: nat)
    requires a >= 1
    ensures 0 <= x / a * a <= x && x - x / a * a < a
  {
    DivBelow(x, a);
    MulAtLeast(x / a, a);
    assert x == x / a * a + x % a;
  }

  /** Without overflow, round_up gives a multiple of `a` in `[v, v + a)`. */
  lemma {:induction false} RoundUpBounds(v: U32, a: U32)
    requires IsPow2(a) && v + a - 1 < U32_MOD
    ensures RoundUp(v, a) == (v + a - 1) / a * a
    ensures RoundUp(v, a) % a == 0 && v <= RoundUp(v, a) < v + a
  {
    assert a >= 1;
    var x: nat := v + a - 1;
    assert Wrap32(x) == x;
    DivBelow(x, a);
    var q: nat := x / a;
    DivMulBelow(x, a);
    MulMod(q, a);
  }

  /** ... and it is the least such multiple. */
  lemma {:induction false} RoundUpLeast(v: U32, a: U32, d: nat)
    requires IsPow2(a) && v + a - 1 < U32_MOD
    requires d % a == 0 && v <= d
    ensures RoundUp(v, a) <= d
  {
    RoundUpBounds(v, a);
    DivExact(d, a);
    MultipleAbove((v + a - 1) / a, d / a, a);
  }

  /** Of two multiples of `a` less than `a` apart, the one above is the same one. */
  lemma {:induction false} MultipleAbove(j: nat, k: nat, a: nat)
    requires a >= 1 && k * a > j * a - a
    ensures j * a <= k * a
  {
    if k < j {
      MulMonotone(k + 1, j, a);
      MulSucc(k, a);
    }
  }

  lemma {:induction false} DivExact(d: nat, a: nat)
    requires a >= 1 && d % a == 0
    ensures d == d / a * a
  {
    assert d == d / a * a + d % a;
  }

  lemma {:induction false} MulSucc(k: nat, a: nat)
    ensures (k + 1) * a == k * a + a
  {
  }

  lemma {:induction false} MulMod(q: nat, a: nat)
    requires a >= 1
    ensures q * a % a == 0
  {
    var n := q * a;
    var k := q - n / a;
    assert n == n / a * a + n % a;
    assert n % a == k * a;
    if k >= 1 {
      MulMonotone(1, k, a);
    }
  }

  lemma {:induction false} MulMonotone(i: nat, j: nat, a: nat)
    requires i <= j
    ensures i * a <= j * a
  {
  }

  /** With overflow the sum wraps below `a` and round_up gives 0. */
  lemma {:induction false} RoundUpWraps(v: U32)
    requires v > U32_MOD - 16
    ensures IsPow2(16) && RoundUp(v, 16) == 0
  {
    Pow2Sixteen();
  }

  // ---------------------------------------------------------------------
  // mvt_image_init layout

  /** Row pitch a component asks of its plane: `(pixel_stride * awidth) >> shift` on uint32_t. */
  function PlanePitch(info: FormatInfo, c: nat, awidth: U32): U32
    requires Shaped(info) && c < 4
  {
    Shr32(Wrap32(info.components[c].pixelStride * awidth), WShift(info, c))
  }

  /** Row count a component asks of its plane: `aheight >> shift`. */
  function PlaneHeight(info: FormatInfo, c: nat, aheight: U32): U32
  {
    Shr32(aheight, HShift(info, c))
  }

  /** The image pitches and the local heights during the component loop of init. */
  datatype PlaneScan = PlaneScan(ok: bool, pitches: seq<U32>, heights: seq<U32>)

  /** State after the first `k` components have been examined. */
  function ScanPlanes(info: FormatInfo, awidth: U32, aheight: U32, k: nat): (r: PlaneScan)
    requires Shaped(info) && k <= info.numComponents
    ensures |r.pitches| == 4 && |r.heights| == 4
  {
    if k == 0 then PlaneScan(true, Zeros, Zeros)
    else
      var prev := ScanPlanes(info, awidth, aheight, k - 1);
      var plane := info.components[k - 1].plane;
      var pitch := PlanePitch(info, k - 1, awidth);
      var h := PlaneHeight(info, k - 1, aheight);
      if !prev.ok then prev
      else if prev.pitches[plane] != 0 && prev.pitches[plane] != pitch then prev.(ok := false)
      else if prev.heights[plane] != 0 && prev.heights[plane] != h then
        PlaneScan(false, prev.pitches[plane := pitch], prev.heights)
      else PlaneScan(true, prev.pitches[plane := pitch], prev.heights[plane := h])
  }

  lemma {:induction false} ScanPlanesFailureSticks(info: FormatInfo, awidth: U32, aheight: U32, k: nat, n: nat)
    requires Shaped(info) && k <= n <= info.numComponents
    requires !ScanPlanes(info, awidth, aheight, k).ok
    ensures ScanPlanes(info, awidth, aheight, n) == ScanPlanes(info, awidth, aheight, k)
    decreases n - k
  {
    if k < n {
      ScanPlanesFailureSticks(info, awidth, aheight, k, n - 1);
    }
  }

  /** Offset of plane `i`: the uint32_t running sum of the sizes of the planes before it. */
  function PlaneOffsetSum(pitches: seq<U32>, heights: seq<U32>, i: nat): U32
    requires i <= 4 && |pitches| == 4 && |heights| == 4
  {
    if i == 0 then 0
    else Wrap32(PlaneOffsetSum(pitches, heights, i - 1) + PlaneBytes(pitches, heights, i - 1))
  }

  predicate PitchesNonZero(pitches: seq<U32>, n: nat)
    requires n <= |pitches|
  {
    forall p :: 0 <= p < n ==> pitches[p] != 0
  }

  /** Offsets of the planes in use; zero for the others. */
  function LayoutOffsets(numPlanes: nat, pitches: seq<U32>, heights: seq<U32>): (r: seq<U32>)
    requires |pitches| == 4 && |heights| == 4
    ensures |r| == 4
  {
    seq(4, p requires 0 <= p < 4 => if p < numPlanes then PlaneOffsetSum(pitches, heights, p) else 0)
  }

  /**
   * Offsets the plane loop of init has written when it stops: each plane in
   * use gets its offset before its own pitch is checked, so the planes up to
   * and including the first one without a pitch are written; zero for the rest.
   */
  function WrittenOffsets(numPlanes: nat, pitches: seq<U32>, heights: seq<U32>): (r: seq<U32>)
    requires |pitches| == 4 && |heights| == 4
    ensures |r| == 4
  {
    seq(4, p requires 0 <= p < 4 =>
      if p < numPlanes && PitchesNonZero(pitches, p) then PlaneOffsetSum(pitches, heights, p) else 0)
  }

  /** The outcome of the layout computation of init. */
  datatype Layout = Layout(ok: bool, pitches: seq<U32>, heights: seq<U32>, offsets: seq<U32>, dataSize: U32)

  function AlignedWidth(width: U32): U32
  {
    Pow2Sixteen();
    RoundUp(width, 16)
  }

  function InitLayout(info: FormatInfo, width: U32, height: U32): (l: Layout)
    requires Shaped(info) && 1 <= info.numPlanes
    ensures |l.pitches| == 4 && |l.heights| == 4 && |l.offsets| == 4
  {
    var s := ScanPlanes(info, AlignedWidth(width), AlignedWidth(height), info.numComponents);
    Layout(
      s.ok && s.heights[0] != 0 && PitchesNonZero(s.pitches, info.numPlanes),
      s.pitches,
      s.heights,
      LayoutOffsets(info.numPlanes, s.pitches, s.heights),
      PlaneOffsetSum(s.pitches, s.heights, info.numPlanes))
  }

  /**
   * The offsets init leaves, whether it succeeds or not: none are written
   * when the component loop fails or plane 0 gets no rows.
   */
  function InitOffsets(info: FormatInfo, width: U32, height: U32): (r: seq<U32>)
    requires Shaped(info) && 1 <= info.numPlanes
    ensures |r| == 4 && r[0] == 0
  {
    var s := ScanPlanes(info, AlignedWidth(width), AlignedWidth(height), info.numComponents);
    if s.ok && s.heights[0] != 0 then WrittenOffsets(info.numPlanes, s.pitches, s.heights) else Zeros
  }

  /** A successful init leaves the offsets of the layout; a failed one only some of them, the rest zero. */
  lemma {:induction false} InitOffsetsOfLayout(info: FormatInfo, width: U32, height: U32)
    requires Shaped(info) && 1 <= info.numPlanes
    ensures var l := InitLayout(info, width, height);
      (l.ok ==> InitOffsets(info, width, height) == l.offsets) &&
      forall p :: 0 <= p < 4 ==> InitOffsets(info, width, height)[p] in {0, l.offsets[p]}
  {
    var l := InitLayout(info, width, height);
    var r := InitOffsets(info, width, height);
    if l.ok {
      forall p | 0 <= p < 4
        ensures r[p] == l.offsets[p]
      {
        if p < info.numPlanes {
          assert PitchesNonZero(l.pitches, p);
        }
      }
    }
  }

  /** The component loop of mvt_image_init: pitches checked and recorded per plane, with the heights. */
  method ScanInitComponents(info: FormatInfo, awidth: U32, aheight: U32)
      returns (ok: bool, pitches: seq<U32>, heights: seq<U32>)
    requires Shaped(info)
    ensures ScanPlanes(info, awidth, aheight, info.numComponents) == PlaneScan(ok, pitches, heights)
  {
    pitches, heights := Zeros, Zeros;
    var i := 0;
    while i < info.numComponents
      invariant 0 <= i <= info.numComponents
      invariant ScanPlanes(info, awidth, aheight, i) == PlaneScan(true, pitches, heights)
    {
      var plane := info.components[i].plane;
      var pitch := PlanePitch(info, i, awidth);
      if pitches[plane] != 0 && pitches[plane] != pitch {
        ScanPlanesFailureSticks(info, awidth, aheight, i + 1, info.numComponents);
        return false, pitches, heights;
      }
      pitches := pitches[plane := pitch];
      var ph := PlaneHeight(info, i, aheight);
      if heights[plane] != 0 && heights[plane] != ph {
        ScanPlanesFailureSticks(info, awidth, aheight, i + 1, info.numComponents);
        return false, pitches, heights;
      }
      heights := heights[plane := ph];
      i := i + 1;
    }
    return true, pitches, heights;
  }

  /**
   * The plane loop of mvt_image_init: each offset follows the previous plane;
   * it fails at the first plane after plane 0 whose pitch is zero.
   */
  method PlaceOffsets(numPlanes: nat, pitches: seq<U32>, heights: seq<U32>) returns (ok: bool, offsets: seq<U32>)
    requires 1 <= numPlanes <= 4 && |pitches| == 4 && |heights| == 4 && pitches[0] != 0
    ensures |offsets| == 4
    ensures ok <==> PitchesNonZero(pitches, numPlanes)
    ensures ok ==> offsets == LayoutOffsets(numPlanes, pitches, heights)
    ensures offsets == WrittenOffsets(numPlanes, pitches, heights)
  {
    offsets := Zeros;
    var i := 1;
    while i < numPlanes
      invariant 1 <= i <= numPlanes && |offsets| == 4
      invariant PitchesNonZero(pitches, i)
      invariant forall p :: 0 <= p < 4 ==> offsets[p] == if p < i then PlaneOffsetSum(pitches, heights, p) else 0
    {
      offsets := offsets[i := Wrap32(offsets[i - 1] + PlaneBytes(pitches, heights, i - 1))];
      if pitches[i] == 0 {
        assert offsets == WrittenOffsets(numPlanes, pitches, heights);
        return false, offsets;
      }
      i := i + 1;
    }
    assert offsets == LayoutOffsets(numPlanes, pitches, heights);
    assert offsets == WrittenOffsets(numPlanes, pitches, heights);
    return true, offsets;
  }

  lemma {:induction false} RegisteredPlanes(format: int)
    requires GetInfo(format).Some?
    ensures Shaped(GetInfo(format).value)
    ensures 1 <= GetInfo(format).value.numPlanes <= 4 && 1 <= GetInfo(format).value.numComponents
  {
    RegisteredCoherent(format);
  }

  /**
   * The computation of mvt_image_init after the structure is cleared: the
   * pitches and offsets as far as they get written, and the data size.
   */
  method LayOut(info: FormatInfo, w: U32, h: U32) returns (ok: bool, pitches: seq<U32>, offsets: seq<U32>, dataSize: U32)
    requires Shaped(info) && 1 <= info.numPlanes <= 4
    ensures |pitches| == 4 && |offsets| == 4
    ensures var l := InitLayout(info, w, h);
      ok == l.ok && pitches == l.pitches && (ok ==> offsets == l.offsets && dataSize == l.dataSize)
    ensures offsets == InitOffsets(info, w, h)
  {
    var awidth := AlignedWidth(w);
    var aheight := AlignedWidth(h);
    var scanned, heights;
    scanned, pitches, heights := ScanInitComponents(info, awidth, aheight);
    offsets := Zeros;
    dataSize := 0;
    if !scanned || heights[0] == 0 || pitches[0] == 0 {
      assert offsets == InitOffsets(info, w, h);
      return false, pitches, offsets, dataSize;
    }
    ok, offsets := PlaceOffsets(info.numPlanes, pitches, heights);
    if !ok {
      return;
    }
    var last := info.numPlanes - 1;
    assert offsets[last] == PlaneOffsetSum(pitches, heights, last);
    dataSize := Wrap32(offsets[last] + PlaneBytes(pitches, heights, last));
  }

  // ---------------------------------------------------------------------
  // The layout of registered formats

  /** Largest side for which no uint32_t computation of the layout wraps. */
  const MAX_SIDE: nat := 8192

  /** With the width a multiple of 16, a component's pitch is its bytes per 16 columns times width / 16. */
  lemma {:induction false} PlanePitchBlocks(info: FormatInfo, c: nat, awidth: U32)
    requires Coherent(info) && c < info.numComponents
    requires awidth % 16 == 0 && awidth <= MAX_SIDE
    ensures info.components[c].pixelStride * awidth <= 4 * MAX_SIDE
    ensures PlanePitch(info, c, awidth) == info.components[c].pixelStride * awidth / Pow2(WShift(info, c))
    ensures PlanePitch(info, c, awidth) == awidth / 16 * BlockPitch(info, c)
    ensures BlockPitch(info, c) >= 8
  {
    var st := info.components[c].pixelStride;
    var m := awidth / 16;
    assert awidth == 16 * m;
    MulMonotone(st, 4, awidth);
    if WShift(info, c) == 0 {
      assert Pow2(0) == 1;
      assert st * awidth == m * (16 * st);
    } else {
      assert WShift(info, c) == 1 && Pow2(1) == 2;
      assert st * awidth == 2 * (m * (8 * st));
      assert 16 * st == 2 * (8 * st);
    }
  }

  /** For a coherent descriptor and aligned sizes the component loop of init succeeds. */
  lemma {:induction false} ScanPlanesCoherent(info: FormatInfo, awidth: U32, aheight: U32, k: nat)
    requires Coherent(info) && k <= info.numComponents
    requires awidth % 16 == 0 && awidth <= MAX_SIDE
    ensures var s := ScanPlanes(info, awidth, aheight, k);
      s.ok &&
      forall p :: 0 <= p < 4 ==>
        var f := FirstOnPlane(info, p, 0);
        s.pitches[p] == (if f < k then PlanePitch(info, f, awidth) else 0) &&
        s.heights[p] == (if f < k then PlaneHeight(info, f, aheight) else 0)
  {
    if k > 0 {
      ScanPlanesCoherent(info, awidth, aheight, k - 1);
      var c := k - 1;
      var pl := info.components[c].plane;
      forall p | 0 <= p < 4 && p != pl
        ensures FirstOnPlane(info, p, 0) != c
      {
        FirstOnPlaneNot(info, p, 0, c);
      }
      FirstOnPlaneMin(info, pl, 0, c);
      var f := FirstOnPlane(info, pl, 0);
      if f < c {
        PlanePitchBlocks(info, f, awidth);
        PlanePitchBlocks(info, c, awidth);
      }
    }
  }

  /** Bytes of plane `q`: its height times its pitch. */
  function PlaneBytes(pitches: seq<U32>, heights: seq<U32>, q: nat): nat
    requires q < 4 && |pitches| == 4 && |heights| == 4
  {
    (heights[q] as int) * pitches[q]
  }

  /** Total size of the first `n` planes, without wrap-around. */
  function PlanesSize(pitches: seq<U32>, heights: seq<U32>, n: nat): nat
    requires n <= 4 && |pitches| == 4 && |heights| == 4
  {
    if n == 0 then 0 else PlanesSize(pitches, heights, n - 1) + PlaneBytes(pitches, heights, n - 1)
  }

  lemma {:induction false} PlaneOffsetSumExact(pitches: seq<U32>, heights: seq<U32>, n: nat)
    requires n <= 4 && |pitches| == 4 && |heights| == 4
    requires forall q :: 0 <= q < n ==> PlaneBytes(pitches, heights, q) <= 0x1000_0000
    ensures PlaneOffsetSum(pitches, heights, n) == PlanesSize(pitches, heights, n) <= n * 0x1000_0000
  {
    if n > 0 {
      PlaneOffsetSumExact(pitches, heights, n - 1);
    }
  }

  /**
   * Each plane in use takes its pitch and height from its first component,
   * with the width and height rounded up to 16 and shifted for chroma, and
   * neither is zero; the planes not in use have no pitch.
   */
  predicate PlaneShapes(info: FormatInfo, width: U32, height: U32, pitches: seq<U32>, heights: seq<U32>)
    requires Shaped(info) && |pitches| == 4 && |heights| == 4
  {
    var awidth, aheight := AlignedWidth(width), AlignedWidth(height);
    (forall p :: 0 <= p < info.numPlanes ==>
      var f := FirstOnPlane(info, p, 0);
      f < info.numComponents &&
      pitches[p] == info.components[f].pixelStride * awidth / Pow2(WShift(info, f)) &&
      heights[p] == aheight / Pow2(HShift(info, f)) &&
      pitches[p] != 0 && heights[p] != 0) &&
    (forall p :: info.numPlanes <= p < 4 ==> pitches[p] == 0)
  }

  /**
   * The planes follow one another from offset 0 without wrap-around, the
   * unused ones sit at offset 0, and the data size ends the last plane.
   */
  predicate Contiguous(np: nat, pitches: seq<U32>, heights: seq<U32>, offsets: seq<U32>, dataSize: U32)
    requires 1 <= np <= 4 && |pitches| == 4 && |heights| == 4 && |offsets| == 4
  {
    offsets[0] == 0 &&
    (forall p :: 0 < p < np ==> offsets[p] == offsets[p - 1] + PlaneBytes(pitches, heights, p - 1)) &&
    (forall p :: np <= p < 4 ==> offsets[p] == 0) &&
    dataSize == offsets[np - 1] + PlaneBytes(pitches, heights, np - 1)
  }

  /** What init computes for a format whose descriptor is coherent: success, plane shapes, contiguous planes. */
  predicate RegularLayout(info: FormatInfo, width: U32, height: U32, l: Layout)
    requires Shaped(info) && 1 <= info.numPlanes <= 4
    requires |l.pitches| == 4 && |l.heights| == 4 && |l.offsets| == 4
  {
    l.ok && PlaneShapes(info, width, height, l.pitches, l.heights) &&
    Contiguous(info.numPlanes, l.pitches, l.heights, l.offsets, l.dataSize)
  }

  /** The layout of every registered format, for sides up to MAX_SIDE. */
  lemma {:induction false} InitLayoutOfRegistered(format: int, width: U32, height: U32)
    requires GetInfo(format).Some? && 0 < width <= MAX_SIDE && 0 < height <= MAX_SIDE
    ensures Shaped(GetInfo(format).value) && 1 <= GetInfo(format).value.numPlanes <= 4
    ensures RegularLayout(GetInfo(format).value, width, height, InitLayout(GetInfo(format).value, width, height))
  {
    RegisteredCoherent(format);
    InitLayoutOfCoherent(GetInfo(format).value, width, height);
  }

  lemma {:induction false} InitLayoutOfCoherent(info: FormatInfo, width: U32, height: U32)
    requires Coherent(info) && info.numPlanes <= 4 && 0 < width <= MAX_SIDE && 0 < height <= MAX_SIDE
    ensures RegularLayout(info, width, height, InitLayout(info, width, height))
  {
    var awidth, aheight := AlignedWidth(width), AlignedWidth(height);
    var s := ScanPlanes(info, awidth, aheight, info.numComponents);
    ScanShapes(info, width, height);
    LayoutContiguous(info.numPlanes, s.pitches, s.heights);
  }

  /** The component loop succeeds on a coherent descriptor, with the plane shapes above and bounded planes. */
  lemma {:induction false} ScanShapes(info: FormatInfo, width: U32, height: U32)
    requires Coherent(info) && info.numPlanes <= 4 && 0 < width <= MAX_SIDE && 0 < height <= MAX_SIDE
    ensures var s := ScanPlanes(info, AlignedWidth(width), AlignedWidth(height), info.numComponents);
      s.ok && PlaneShapes(info, width, height, s.pitches, s.heights) &&
      forall q :: 0 <= q < 4 ==> PlaneBytes(s.pitches, s.heights, q) <= 0x1000_0000
  {
    var awidth, aheight := AlignedWidth(width), AlignedWidth(height);
    AlignedBounds(width);
    AlignedBounds(height);
    var s := ScanPlanes(info, awidth, aheight, info.numComponents);
    ScanPlanesCoherent(info, awidth, aheight, info.numComponents);
    forall p | 0 <= p < 4
      ensures PlaneBytes(s.pitches, s.heights, p) <= 0x1000_0000
      ensures p < info.numPlanes ==>
        var f := FirstOnPlane(info, p, 0);
        f < info.numComponents && s.pitches[p] != 0 && s.heights[p] != 0 &&
        s.pitches[p] == info.components[f].pixelStride * awidth / Pow2(WShift(info, f)) &&
        s.heights[p] == aheight / Pow2(HShift(info, f))
      ensures info.numPlanes <= p ==> s.pitches[p] == 0
    {
      PlaneGeometry(info, p, awidth, aheight);
      MulMonotone(s.heights[p], MAX_SIDE, s.pitches[p]);
      MulMonotone(s.pitches[p], 4 * MAX_SIDE, MAX_SIDE);
    }
  }

  /** With no plane over 2^28 bytes, the offsets init computes are contiguous and exact. */
  lemma {:induction false} LayoutContiguous(np: nat, pitches: seq<U32>, heights: seq<U32>)
    requires 1 <= np <= 4 && |pitches| == 4 && |heights| == 4
    requires forall q :: 0 <= q < 4 ==> PlaneBytes(pitches, heights, q) <= 0x1000_0000
    ensures Contiguous(np, pitches, heights, LayoutOffsets(np, pitches, heights), PlaneOffsetSum(pitches, heights, np))
  {
    var offs := LayoutOffsets(np, pitches, heights);
    forall p | 0 < p < np
      ensures offs[p] == offs[p - 1] + PlaneBytes(pitches, heights, p - 1)
    {
      OffsetStep(pitches, heights, p);
    }
    OffsetStep(pitches, heights, np);
    assert offs[np - 1] == PlaneOffsetSum(pitches, heights, np - 1);
  }

  /** Without wrap-around each offset is the previous one plus the previous plane's size. */
  lemma {:induction false} OffsetStep(pitches: seq<U32>, heights: seq<U32>, p: nat)
    requires 1 <= p <= 4 && |pitches| == 4 && |heights| == 4
    requires forall q :: 0 <= q < 4 ==> PlaneBytes(pitches, heights, q) <= 0x1000_0000
    ensures PlaneOffsetSum(pitches, heights, p) ==
      PlaneOffsetSum(pitches, heights, p - 1) + PlaneBytes(pitches, heights, p - 1)
  {
    PlaneOffsetSumExact(pitches, heights, p);
    PlaneOffsetSumExact(pitches, heights, p - 1);
  }

  /** A side up to MAX_SIDE rounds up to a multiple of 16 between 16 and MAX_SIDE. */
  lemma {:induction false} AlignedBounds(v: U32)
    requires 0 < v <= MAX_SIDE
    ensures AlignedWidth(v) % 16 == 0 && 16 <= AlignedWidth(v) <= MAX_SIDE && v <= AlignedWidth(v)
  {
    Pow2Sixteen();
    RoundUpBounds(v, 16);
    RoundUpLeast(v, 16, MAX_SIDE);
  }

  /** The pitch and height one component asks for, for aligned sides up to MAX_SIDE. */
  lemma {:induction false} ComponentGeometry(info: FormatInfo, c: nat, awidth: U32, aheight: U32)
    requires Coherent(info) && c < info.numComponents
    requires awidth % 16 == 0 && 16 <= awidth <= MAX_SIDE && 16 <= aheight <= MAX_SIDE
    ensures PlanePitch(info, c, awidth) == info.components[c].pixelStride * awidth / Pow2(WShift(info, c))
    ensures 8 <= PlanePitch(info, c, awidth) <= 4 * MAX_SIDE
    ensures PlaneHeight(info, c, aheight) == aheight / Pow2(HShift(info, c))
    ensures 8 <= PlaneHeight(info, c, aheight) <= MAX_SIDE
  {
    ComponentPitchBounds(info, c, awidth);
    ComponentHeightBounds(info, c, aheight);
  }

  lemma {:induction false} ComponentPitchBounds(info: FormatInfo, c: nat, awidth: U32)
    requires Coherent(info) && c < info.numComponents
    requires awidth % 16 == 0 && 16 <= awidth <= MAX_SIDE
    ensures 8 <= PlanePitch(info, c, awidth) <= 4 * MAX_SIDE
  {
    PlanePitchBlocks(info, c, awidth);
    MulMonotone(1, awidth / 16, BlockPitch(info, c));
  }

  lemma {:induction false} ComponentHeightBounds(info: FormatInfo, c: nat, aheight: U32)
    requires Coherent(info) && c < info.numComponents && 16 <= aheight <= MAX_SIDE
    ensures PlaneHeight(info, c, aheight) == aheight / Pow2(HShift(info, c))
    ensures 8 <= PlaneHeight(info, c, aheight) <= MAX_SIDE
  {
    if HShift(info, c) == 1 {
      assert Pow2(1) == 2;
    } else {
      assert Pow2(0) == 1;
    }
  }

  /** The pitch and height of one plane of a coherent descriptor, from its first component. */
  lemma {:induction false} PlaneGeometry(info: FormatInfo, p: nat, awidth: U32, aheight: U32)
    requires Coherent(info) && p < 4
    requires awidth % 16 == 0 && 16 <= awidth <= MAX_SIDE && 16 <= aheight <= MAX_SIDE
    ensures var s := ScanPlanes(info, awidth, aheight, info.numComponents);
      var f := FirstOnPlane(info, p, 0);
      s.pitches[p] <= 4 * MAX_SIDE && s.heights[p] <= MAX_SIDE &&
      (p < info.numPlanes ==>
        f < info.numComponents && s.pitches[p] != 0 && s.heights[p] != 0 &&
        s.pitches[p] == info.components[f].pixelStride * awidth / Pow2(WShift(info, f)) &&
        s.heights[p] == aheight / Pow2(HShift(info, f)))
  {
    ScanPlanesCoherent(info, awidth, aheight, info.numComponents);
    var f := FirstOnPlane(info, p, 0);
    if p < info.numPlanes {
      UsedPlaneFirst(info, p);
    }
    if f < info.numComponents {
      ComponentGeometry(info, f, awidth, aheight);
    }
  }

  /** The widest aligned Y800 frame, 4294967280 x 4294967280, lays out although its data size wraps. */
  lemma {:induction false} InitLayoutY800Widest()
    ensures Shaped(Y800_INFO) && InitLayout(Y800_INFO, 0xFFFF_FFF0, 0xFFFF_FFF0).ok
  {
    CoherentY800();
    Pow2Sixteen();
    RoundUpBounds(0xFFFF_FFF0, 16);
    SmallShifts();
    assert AlignedWidth(0xFFFF_FFF0) == 0xFFFF_FFF0;
    assert PlanePitch(Y800_INFO, 0, 0xFFFF_FFF0) == 0xFFFF_FFF0;
    assert PlaneHeight(Y800_INFO, 0, 0xFFFF_FFF0) == 0xFFFF_FFF0;
    assert ScanPlanes(Y800_INFO, 0xFFFF_FFF0, 0xFFFF_FFF0, 0) == PlaneScan(true, Zeros, Zeros);
    var s := ScanPlanes(Y800_INFO, 0xFFFF_FFF0, 0xFFFF_FFF0, 1);
    assert s.pitches[0] == 0xFFFF_FFF0 && s.heights[0] == 0xFFFF_FFF0;
  }

  /** A 16x16 I420 frame: a 16-byte luma plane of 16 rows, then two 8x8 chroma planes, 384 bytes in all. */
  lemma {:induction false} InitLayoutI420()
    ensures InitLayout(I420_INFO, 16, 16) == Layout(true, [16, 8, 8, 0], [16, 8, 8, 0], [0, 256, 320, 0], 384)
  {
    CoherentI420();
    AlignedBounds(16);
    RoundUpLeast(16, 16, 16);
    assert Pow2(1) == 2;
    var s := ScanPlanes(I420_INFO, 16, 16, 3);
    ScanPlanesCoherent(I420_INFO, 16, 16, 3);
    assert FirstOnPlane(I420_INFO, 0, 0) == 0;
    assert FirstOnPlane(I420_INFO, 1, 0) == 1;
    assert FirstOnPlane(I420_INFO, 2, 0) == 2;
    assert FirstOnPlane(I420_INFO, 3, 0) == 3;
    assert s.pitches == [16, 8, 8, 0];
    assert s.heights == [16, 8, 8, 0];
    assert PlaneBytes(s.pitches, s.heights, 0) == 256;
    assert PlaneBytes(s.pitches, s.heights, 1) == 64;
    assert PlaneBytes(s.pitches, s.heights, 2) == 64;
    assert PlaneOffsetSum(s.pitches, s.heights, 1) == 256;
    assert PlaneOffsetSum(s.pitches, s.heights, 2) == 320;
    assert PlaneOffsetSum(s.pitches, s.heights, 3) == 384;
  }

  /** A 17x9 NV12 frame is padded to 32x16: the interleaved chroma plane has the luma pitch and half its rows. */
  lemma {:induction false} InitLayoutNV12Padded()
    ensures InitLayout(NV12_INFO, 17, 9) == Layout(true, [32, 32, 0, 0], [16, 8, 0, 0], [0, 512, 0, 0], 768)
  {
    CoherentNV12();
    Pow2Sixteen();
    RoundUpBounds(17, 16);
    RoundUpBounds(9, 16);
    assert AlignedWidth(17) == 32 && AlignedWidth(9) == 16;
    assert Pow2(1) == 2;
    var s := ScanPlanes(NV12_INFO, 32, 16, 3);
    ScanPlanesCoherent(NV12_INFO, 32, 16, 3);
    assert FirstOnPlane(NV12_INFO, 0, 0) == 0;
    assert FirstOnPlane(NV12_INFO, 1, 0) == 1;
    assert FirstOnPlane(NV12_INFO, 2, 0) == 3;
    assert FirstOnPlane(NV12_INFO, 3, 0) == 3;
    assert s.pitches == [32, 32, 0, 0];
    assert s.heights == [16, 8, 0, 0];
  }

  /** The structure init leaves on success. */
  function LaidOut(format: int, width: U32, height: U32, info: FormatInfo, l: Layout): ImageState
    requires |l.pitches| == 4 && |l.offsets| == 4 && info.numPlanes <= 4
  {
    ImageState(format, width, height, Null, l.dataSize, info.numPlanes, NullPixels, l.offsets, l.pitches, null)
  }

  /** init_pixels: plane pointers at `data + offsets[i]` for the planes in use. */
  function WithPixels(s: ImageState): ImageState
    requires WellShaped(s)
  {
    s.(pixels := seq(4, i requires 0 <= i < 4 =>
      if i < s.numPlanes then Offset(s.data, s.offsets[i]) else s.pixels[i]))
  }

  /** mvt_image_clear: data, size, format and the planes in use are reset; priv is released. */
  function ClearedState(s: ImageState): ImageState
    requires WellShaped(s)
  {
    ImageState(UNKNOWN, 0, 0, Null, 0, 0,
      seq(4, i requires 0 <= i < 4 => if i < s.numPlanes then Null else s.pixels[i]),
      seq(4, i requires 0 <= i < 4 => if i < s.numPlanes then 0 else s.offsets[i]),
      seq(4, i requires 0 <= i < 4 => if i < s.numPlanes then 0 else s.pitches[i]),
      null)
  }

  // ---------------------------------------------------------------------
  // Views: a region, a field, a VA image

  /** A VARectangle: a signed 16-bit origin and an unsigned 16-bit size. */
  datatype Rect = Rect(x: I16, y: I16, width: U16, height: U16)

  /** What a view outcome holds: whether init succeeded, and the structure left behind. */
  datatype View = View(ok: bool, image: ImageState)

  /** mvt_image_copy_struct followed by `data = NULL`: the view shares the planes but owns nothing. */
  function ViewBase(s: ImageState): ImageState
  {
    s.(data := Null, priv := null)
  }

  /** The rectangle a subimage takes: the given one, or the whole image with its size truncated to 16 bits. */
  function RectOf(s: ImageState, rect: Option<Rect>): Rect
  {
    if rect.Some? then rect.value else Rect(0, 0, s.width % 0x1_0000, s.height % 0x1_0000)
  }

  /**
   * For multi-component YUV formats, the origin must fall on a chroma sample:
   * `x & ((1 << w_shift) - 1)` and the same for y are zero. The low bits of a
   * two's-complement value are its Euclidean remainder.
   */
  predicate ChromaAligned(format: int, info: FormatInfo, rc: Rect)
  {
    !(info.numComponents > 1 && IsYuv(format)) ||
    (rc.x % Pow2(info.chromaWShift) == 0 && rc.y % Pow2(info.chromaHShift) == 0)
  }

  /**
   * The byte offset, on uint32_t, of the rectangle origin in plane `i`: on
   * plane 0 `y * pitch + x * pixel_pitch`; on a later plane each product is
   * shifted down by its chroma shift.
   */
  function SubimageOffset(info: FormatInfo, s: ImageState, pp: seq<int>, rc: Rect, i: nat): U32
    requires WellShaped(s) && |pp| == 4 && i < 4
  {
    if i == 0 then Wrap32((rc.y as int) * s.pitches[0] + (rc.x as int) * pp[0])
    else Wrap32(Shr32(Wrap32((rc.y as int) * s.pitches[i]), info.chromaHShift) +
      Shr32(Wrap32((rc.x as int) * pp[i]), info.chromaWShift))
  }

  /** Planes below `np` advanced by `ofs`, in both the pixel pointer and the offset. */
  function ShiftPlanes(s: ImageState, np: nat, ofs: seq<U32>): ImageState
    requires WellShaped(s) && |ofs| == 4
  {
    s.(pixels := seq(4, i requires 0 <= i < 4 => if i < np then Offset(s.pixels[i], ofs[i]) else s.pixels[i]),
      offsets := seq(4, i requires 0 <= i < 4 => if i < np then Wrap32(s.offsets[i] as int + ofs[i]) else s.offsets[i]))
  }

  /** Plane `i < np` of a shifted image: pointer and offset advanced by `ofs[i]`. */
  lemma {:induction false} ShiftPlanesAt(s: ImageState, np: nat, ofs: seq<U32>, i: nat)
    requires WellShaped(s) && |ofs| == 4 && i < np && i < 4
    ensures ShiftPlanes(s, np, ofs).offsets[i] == Wrap32(s.offsets[i] as int + ofs[i])
    ensures ShiftPlanes(s, np, ofs).pixels[i] == Offset(s.pixels[i], ofs[i])
  {
  }

  /** The pixel pitches init_from_subimage obtains, from a zeroed array. */
  function SubimagePixelPitches(info: FormatInfo): PitchScan
    requires Shaped(info)
  {
    ScanPixelPitches(info, info.numComponents, [0, 0, 0, 0])
  }

  /**
   * mvt_image_init_from_subimage on a source of a registered format. The
   * destination is overwritten with the source's structure, the rectangle's
   * size and no data before the checks, so a rejected rectangle leaves that
   * behind.
   */
  function SubimageView(s: ImageState, rect: Option<Rect>): View
    requires WellShaped(s) && GetInfo(s.format).Some?
  {
    var info := GetInfo(s.format).value;
    RegisteredPlanes(s.format);
    var rc := RectOf(s, rect);
    var base := ViewBase(s).(width := rc.width, height := rc.height);
    var scan := SubimagePixelPitches(info);
    if !ChromaAligned(s.format, info, rc) || !scan.ok then View(false, base)
    else View(true, ShiftPlanes(base, info.numPlanes,
      seq(4, i requires 0 <= i < 4 => SubimageOffset(info, s, scan.out, rc, i))))
  }

  /**
   * mvt_image_init_from_field on a source of a registered format: for the
   * bottom field (`field & 3 == 2`) the planes start one row down; for either
   * single field the pitches double; the height is halved in every case.
   */
  function FieldView(s: ImageState, field: U32): ImageState
    requires WellShaped(s) && GetInfo(s.format).Some?
  {
    RegisteredPlanes(s.format);
    var np := GetInfo(s.format).value.numPlanes;
    var sel := field % 4;
    ViewBase(s).(
      pixels := seq(4, i requires 0 <= i < 4 =>
        if i < np && sel == VA_BOTTOM_FIELD then Offset(s.pixels[i], s.pitches[i]) else s.pixels[i]),
      pitches := seq(4, i requires 0 <= i < 4 =>
        if i < np && (sel == VA_TOP_FIELD || sel == VA_BOTTOM_FIELD) then Shl32(s.pitches[i], 1) else s.pitches[i]),
      height := s.height / 2)
  }

  /** The fields of a VAImage that init_from_va_image reads; it has room for three planes. */
  datatype VaImage = VaImage(
    format: VaImageFormat, width: U16, height: U16, dataSize: U32, numPlanes: U32,
    pitches: seq<U32>, offsets: seq<U32>)

  predicate VaShaped(va: VaImage)
  {
    |va.pitches| == 3 && |va.offsets| == 3 && va.numPlanes <= 3
  }

  /** mvt_image_init_from_va_image once the format is known: the VA layout, no pixels yet, nothing owned. */
  function VaImageState(va: VaImage, format: int): ImageState
    requires VaShaped(va)
  {
    ImageState(format, va.width, va.height, Null, va.dataSize, va.numPlanes, NullPixels,
      seq(4, i requires 0 <= i < 4 => if i < va.numPlanes then va.offsets[i] else 0),
      seq(4, i requires 0 <= i < 4 => if i < va.numPlanes then va.pitches[i] else 0),
      null)
  }

  // ---------------------------------------------------------------------
  // Properties of the views

  /** The address of sample (u, v) of a plane: `pixels + v * pitch + u * pixel_pitch`. */
  function SampleAt(base: Ptr, pitch: int, pixelPitch: int, u: int, v: int): Ptr
  {
    Offset(base, v * pitch + u * pixelPitch)
  }

  /** The chroma shifts that apply to plane `i` in init_from_subimage: none on plane 0. */
  function PlaneWShift(info: FormatInfo, i: nat): nat { if i == 0 then 0 else info.chromaWShift }
  function PlaneHShift(info: FormatInfo, i: nat): nat { if i == 0 then 0 else info.chromaHShift }

  /** Registered formats with several planes are multi-component YUV formats. */
  lemma {:induction false} MultiPlaneIsYuv(format: int)
    requires GetInfo(format).Some? && GetInfo(format).value.numPlanes > 1
    ensures GetInfo(format).value.numComponents > 1 && IsYuv(format)
  {
  }

  /** For a registered format the subimage is refused exactly when its origin is off the chroma grid. */
  lemma {:induction false} SubimageAccepted(s: ImageState, rect: Option<Rect>)
    requires WellShaped(s) && GetInfo(s.format).Some?
    ensures SubimageView(s, rect).ok <==> ChromaAligned(s.format, GetInfo(s.format).value, RectOf(s, rect))
  {
    PixelPitchesOfRegistered(s.format, [0, 0, 0, 0]);
  }

  /** The whole-image rectangle, given or implied, is the image itself without ownership. */
  lemma {:induction false} SubimageWhole(s: ImageState, rect: Option<Rect>)
    requires WellShaped(s) && GetInfo(s.format).Some?
    requires rect == None || rect == Some(Rect(0, 0, s.width % 0x1_0000, s.height % 0x1_0000))
    ensures SubimageView(s, rect) == View(true, ViewBase(s).(width := s.width % 0x1_0000, height := s.height % 0x1_0000))
  {
    var info := GetInfo(s.format).value;
    RegisteredPlanes(s.format);
    PixelPitchesOfRegistered(s.format, [0, 0, 0, 0]);
    var base := ViewBase(s).(width := s.width % 0x1_0000, height := s.height % 0x1_0000);
    var rc := RectOf(s, rect);
    var pp := SubimagePixelPitches(info).out;
    forall i | 0 <= i < 4
      ensures SubimageOffset(info, s, pp, rc, i) == 0
    {
      OriginOffsetZero(info, s, pp, rc, i);
    }
    var ofs := seq(4, i requires 0 <= i < 4 => SubimageOffset(info, s, pp, rc, i));
    ShiftPlanesZero(base, info.numPlanes, ofs);
  }

  /** Shifting by zero offsets changes nothing. */
  lemma {:induction false} ShiftPlanesZero(s: ImageState, np: nat, ofs: seq<U32>)
    requires WellShaped(s) && |ofs| == 4 && forall i :: 0 <= i < 4 ==> ofs[i] == 0
    ensures ShiftPlanes(s, np, ofs) == s
  {
    assert ShiftPlanes(s, np, ofs).pixels == s.pixels;
    assert ShiftPlanes(s, np, ofs).offsets == s.offsets;
  }

  /** A rectangle at the origin starts every plane at offset 0. */
  lemma {:induction false} OriginOffsetZero(info: FormatInfo, s: ImageState, pp: seq<int>, rc: Rect, i: nat)
    requires WellShaped(s) && |pp| == 4 && i < 4 && rc.x == 0 && rc.y == 0
    ensures SubimageOffset(info, s, pp, rc, i) == 0
  {
    var zh := Shr32(0, info.chromaHShift);
    var zw := Shr32(0, info.chromaWShift);
    assert zh == 0 && zw == 0;
  }

  /**
   * Aliasing: when nothing wraps, plane `i` of an accepted subimage starts at
   * the parent's sample (x >> w_shift, y >> h_shift), in both its offset and
   * its pointer, so every sample of the view is the parent's sample displaced
   * by that origin.
   */
  lemma {:induction false} SubimageOrigin(s: ImageState, rect: Option<Rect>, info: FormatInfo, i: nat)
    requires WellShaped(s) && GetInfo(s.format) == Some(info) && Shaped(info) && info.numPlanes <= 4
    requires SubimageView(s, rect).ok && i < info.numPlanes
    requires RectOf(s, rect).x >= 0 && RectOf(s, rect).y >= 0
    requires s.offsets[i] + RectOf(s, rect).y * s.pitches[i] +
      RectOf(s, rect).x * SubimagePixelPitches(info).out[i] < U32_MOD
    ensures var rc := RectOf(s, rect);
      var pp := SubimagePixelPitches(info).out[i];
      var xs, ys := rc.x / Pow2(PlaneWShift(info, i)), rc.y / Pow2(PlaneHShift(info, i));
      var view := SubimageView(s, rect).image;
      view.offsets[i] == s.offsets[i] + ys * s.pitches[i] + xs * pp &&
      view.pixels[i] == Offset(s.pixels[i], ys * s.pitches[i] + xs * pp) &&
      forall u, v :: (SampleAt(view.pixels[i], s.pitches[i], pp, u, v) ==
        SampleAt(s.pixels[i], s.pitches[i], pp, xs + u, ys + v))
  {
    var rc := RectOf(s, rect);
    var pps := SubimagePixelPitches(info).out;
    var view := SubimageView(s, rect).image;
    SubimagePlane(s, rect, info, i);
    SubimageAligned(s, rect, info, i);
    PlaneOrigin(info, s, pps, rc, i, view.offsets[i], view.pixels[i]);
  }

  /** The arithmetic of SubimageOrigin, on the plane's new offset and pointer. */
  lemma {:induction false} PlaneOrigin(info: FormatInfo, s: ImageState, pp: seq<int>, rc: Rect, i: nat, vo: U32, vp: Ptr)
    requires WellShaped(s) && |pp| == 4 && i < 4 && pp[i] >= 0 && rc.x >= 0 && rc.y >= 0
    requires rc.x % Pow2(PlaneWShift(info, i)) == 0 && rc.y % Pow2(PlaneHShift(info, i)) == 0
    requires s.offsets[i] + rc.y * s.pitches[i] + rc.x * pp[i] < U32_MOD
    requires vo == Wrap32(s.offsets[i] as int + SubimageOffset(info, s, pp, rc, i))
    requires vp == Offset(s.pixels[i], SubimageOffset(info, s, pp, rc, i))
    ensures var xs, ys := rc.x / Pow2(PlaneWShift(info, i)), rc.y / Pow2(PlaneHShift(info, i));
      vo == s.offsets[i] + ys * s.pitches[i] + xs * pp[i] &&
      vp == Offset(s.pixels[i], ys * s.pitches[i] + xs * pp[i]) &&
      forall u, v :: (SampleAt(vp, s.pitches[i], pp[i], u, v) ==
        SampleAt(s.pixels[i], s.pitches[i], pp[i], xs + u, ys + v))
  {
    var xs, ys := rc.x / Pow2(PlaneWShift(info, i)), rc.y / Pow2(PlaneHShift(info, i));
    var o := SubimageOffset(info, s, pp, rc, i);
    SubimageOffsetExact(info, s, pp, rc, i);
    assert o == ys * s.pitches[i] + xs * pp[i];
    SampleShift(s.pixels[i], o, s.pitches[i], pp[i], xs, ys);
  }

  /** Plane `i` of an accepted subimage: the parent's plane advanced by the origin offset. */
  lemma {:induction false} SubimagePlane(s: ImageState, rect: Option<Rect>, info: FormatInfo, i: nat)
    requires WellShaped(s) && GetInfo(s.format) == Some(info) && Shaped(info) && info.numPlanes <= 4
    requires SubimageView(s, rect).ok && i < info.numPlanes
    ensures SubimagePixelPitches(info).out[i] >= 0
    ensures var o := SubimageOffset(info, s, SubimagePixelPitches(info).out, RectOf(s, rect), i);
      var view := SubimageView(s, rect).image;
      view.offsets[i] == Wrap32(s.offsets[i] as int + o) && view.pixels[i] == Offset(s.pixels[i], o)
  {
    var rc := RectOf(s, rect);
    var scan := SubimagePixelPitches(info);
    var base := ViewBase(s).(width := rc.width, height := rc.height);
    var ofs := seq(4, j requires 0 <= j < 4 => SubimageOffset(info, s, scan.out, rc, j));
    var sp := ShiftPlanes(base, info.numPlanes, ofs);
    assert SubimageView(s, rect).image == sp;
    assert 0 <= scan.out[i] by {
      assert [0, 0, 0, 0][i] >= 0;
    }
    assert base.offsets == s.offsets && base.pixels == s.pixels;
    ShiftPlanesAt(base, info.numPlanes, ofs, i);
    assert ofs[i] == SubimageOffset(info, s, scan.out, rc, i);
  }

  /** The origin of an accepted subimage lies on the grid of every plane in use. */
  lemma {:induction false} SubimageAligned(s: ImageState, rect: Option<Rect>, info: FormatInfo, i: nat)
    requires WellShaped(s) && GetInfo(s.format) == Some(info) && Shaped(info) && info.numPlanes <= 4
    requires SubimageView(s, rect).ok && i < info.numPlanes
    ensures RectOf(s, rect).x % Pow2(PlaneWShift(info, i)) == 0 && RectOf(s, rect).y % Pow2(PlaneHShift(info, i)) == 0
  {
    if i > 0 {
      MultiPlaneIsYuv(s.format);
    } else {
      assert Pow2(0) == 1;
    }
  }

  /** With the origin on the chroma grid and no wrap-around, the plane offset is the shifted origin's byte position. */
  lemma {:induction false} SubimageOffsetExact(info: FormatInfo, s: ImageState, pp: seq<int>, rc: Rect, i: nat)
    requires WellShaped(s) && |pp| == 4 && i < 4 && pp[i] >= 0 && rc.x >= 0 && rc.y >= 0
    requires rc.x % Pow2(PlaneWShift(info, i)) == 0 && rc.y % Pow2(PlaneHShift(info, i)) == 0
    requires s.offsets[i] + rc.y * s.pitches[i] + rc.x * pp[i] < U32_MOD
    ensures var xs, ys := rc.x / Pow2(PlaneWShift(info, i)), rc.y / Pow2(PlaneHShift(info, i));
      SubimageOffset(info, s, pp, rc, i) == ys * s.pitches[i] + xs * pp[i] &&
      s.offsets[i] + ys * s.pitches[i] + xs * pp[i] < U32_MOD
  {
    var p := s.pitches[i];
    var x, y := rc.x as nat, rc.y as nat;
    MulMonotone(0, y, p);
    MulMonotone(0, x, pp[i]);
    if i == 0 {
      assert Pow2(0) == 1;
    } else {
      ShiftedSum(y, p, info.chromaHShift, x, pp[i], info.chromaWShift);
    }
  }

  /** `(y * p >> hs) + (x * q >> ws)` on uint32_t, for origins on the grid and no wrap-around. */
  lemma {:induction false} ShiftedSum(y: nat, p: nat, hs: nat, x: nat, q: nat, ws: nat)
    requires y % Pow2(hs) == 0 && x % Pow2(ws) == 0
    requires 0 <= y * p && 0 <= x * q && y * p + x * q < U32_MOD
    ensures Wrap32(Shr32(Wrap32(y * p), hs) + Shr32(Wrap32(x * q), ws)) == (y / Pow2(hs)) * p + (x / Pow2(ws)) * q
    ensures (y / Pow2(hs)) * p + (x / Pow2(ws)) * q <= y * p + x * q
  {
    ShrProduct(y, p, hs);
    ShrProduct(x, q, ws);
  }

  /** `y * p >> hs` on uint32_t, for `y` on the grid and no wrap-around. */
  lemma {:induction false} ShrProduct(y: nat, p: nat, hs: nat)
    requires y % Pow2(hs) == 0 && y * p < U32_MOD
    ensures Shr32(Wrap32(y * p), hs) == (y / Pow2(hs)) * p <= y * p
  {
    var d := Pow2(hs);
    var yp := y * p;
    assert Wrap32(yp) == yp;
    ScaledProduct(y, d, p);
    MulMonotone(y / d, y, p);
  }

  /** Displacing a plane pointer by the position of sample (xs, ys) displaces every sample by it. */
  lemma {:induction false} SampleShift(base: Ptr, o: int, pitch: int, pixelPitch: int, xs: int, ys: int)
    requires o == ys * pitch + xs * pixelPitch
    ensures forall u, v :: (SampleAt(Offset(base, o), pitch, pixelPitch, u, v) ==
      SampleAt(base, pitch, pixelPitch, xs + u, ys + v))
  {
    forall u, v
      ensures SampleAt(Offset(base, o), pitch, pixelPitch, u, v) == SampleAt(base, pitch, pixelPitch, xs + u, ys + v)
    {
      assert (ys + v) * pitch + (xs + u) * pixelPitch == o + (v * pitch + u * pixelPitch);
    }
  }

  /** A multiple of `d` times `p`, divided by `d`, is the quotient times `p`. */
  lemma {:induction false} ScaledProduct(a: nat, d: nat, p: nat)
    requires d >= 1 && a % d == 0
    ensures a / d <= a && a * p / d == (a / d) * p
  {
    DivExact(a, d);
    var q := a / d;
    assert a * p == (q * p) * d;
    MulDivCancel(q * p, d);
    DivBelow(a, d);
  }

  lemma {:induction false} MulDivCancel(m: nat, d: nat)
    requires d >= 1
    ensures m * d / d == m
  {
    var r, t := m * d / d, m * d % d;
    assert m * d == r * d + t && 0 <= t < d;
    assert (m - r) * d == t;
  }

  /**
   * A single field of a frame: row `v` of the view is row `2v` of the frame
   * for the top field and row `2v + 1` for the bottom field, as long as the
   * doubled pitch fits in 32 bits; the height is halved.
   */
  lemma {:induction false} FieldRows(s: ImageState, field: U32, i: nat, pixelPitch: int)
    requires WellShaped(s) && GetInfo(s.format).Some? && i < GetInfo(s.format).value.numPlanes
    requires field % 4 == VA_TOP_FIELD || field % 4 == VA_BOTTOM_FIELD
    requires 2 * s.pitches[i] < U32_MOD
    ensures var view := FieldView(s, field);
      var b := if field % 4 == VA_BOTTOM_FIELD then 1 else 0;
      view.height == s.height / 2 && view.pitches[i] == 2 * s.pitches[i] &&
      forall u, v :: SampleAt(view.pixels[i], view.pitches[i], pixelPitch, u, v) ==
        SampleAt(s.pixels[i], s.pitches[i], pixelPitch, u, 2 * v + b)
  {
    RegisteredPlanes(s.format);
    var view := FieldView(s, field);
    var p := s.pitches[i];
    assert Pow2(1) == 2;
    assert view.pitches[i] == 2 * p;
    var b := if field % 4 == VA_BOTTOM_FIELD then 1 else 0;
    assert view.pixels[i] == Offset(s.pixels[i], b * p);
    forall u, v
      ensures SampleAt(view.pixels[i], 2 * p, pixelPitch, u, v) == SampleAt(s.pixels[i], p, pixelPitch, u, 2 * v + b)
    {
      assert (2 * v + b) * p + u * pixelPitch == b * p + (v * (2 * p) + u * pixelPitch);
    }
  }

  /** Without a single field selected (neither or both bits), the view keeps the frame's planes and halves the height. */
  lemma {:induction false} FieldFrame(s: ImageState, field: U32)
    requires WellShaped(s) && GetInfo(s.format).Some?
    requires field % 4 == 0 || field % 4 == 3
    ensures FieldView(s, field) == ViewBase(s).(height := s.height / 2)
  {
    RegisteredPlanes(s.format);
    assert FieldView(s, field).pixels == s.pixels;
    assert FieldView(s, field).pitches == s.pitches;
  }

  /**
   * A VA image of a registered format is wrapped with that format, and once
   * its mapped buffer is attached, init_pixels points each plane in use at
   * the buffer plus the VA offset of that plane.
   */
  lemma {:induction false} VaImageWrap(va: VaImage, format: int, buffer: Ptr)
    requires VaShaped(va) && GetInfo(format).Some? && va.format == ToVaFormat(format).value
    ensures FromVaFormatSpec(va.format) == format
    ensures var s := VaImageState(va, format).(data := buffer);
      WellShaped(s) &&
      forall i :: 0 <= i < va.numPlanes ==> WithPixels(s).pixels[i] == Offset(buffer, va.offsets[i])
  {
    FromVaFormatOfFormat(format);
  }

  // ---------------------------------------------------------------------
  // The image object

  class Image {
    var format: int
    var width: U32
    var height: U32
    /** The allocated pixel block, or NULL for a view or a wrapped buffer. */
    var data: Ptr
    var dataSize: U32
    var numPlanes: U32
    var pixels: seq<Ptr>
    var offsets: seq<U32>
    var pitches: seq<U32>
    var priv: Priv?

    function State(): ImageState
      reads this
    {
      ImageState(format, width, height, data, dataSize, numPlanes, pixels, offsets, pitches, priv)
    }

    predicate Valid()
      reads this
    {
      WellShaped(State())
    }

    /** An image structure before init: all fields zero. */
    constructor ()
      ensures State() == ZeroState
    {
      format, width, height, data, dataSize, numPlanes := UNKNOWN, 0, 0, Null, 0, 0;
      pixels, offsets, pitches, priv := NullPixels, Zeros, Zeros, null;
    }

    /** Structure assignment `*image = s`. */
    method Assign(s: ImageState)
      modifies this
      ensures State() == s
    {
      format, width, height, data, dataSize, numPlanes := s.format, s.width, s.height, s.data, s.dataSize, s.numPlanes;
      pixels, offsets, pitches, priv := s.pixels, s.offsets, s.pitches, s.priv;
    }

    /**
     * mvt_image_init: lays out the planes of a `width` x `height` frame of
     * `fmt`, with both sizes rounded up to 16. Nothing is touched on a zero
     * size or an unknown format; past that point the structure is cleared
     * first, so a failure leaves format UNKNOWN, a zero size, no plane
     * pointers, and the pitches and offsets the loops wrote before stopping.
     */
    method Init(fmt: int, w: U32, h: U32) returns (ok: bool)
      requires Valid()
      modifies this
      ensures Valid()
      ensures w == 0 || h == 0 || GetInfo(fmt).None? ==> !ok && State() == old(State())
      ensures w != 0 && h != 0 && GetInfo(fmt).Some? ==>
        var info := GetInfo(fmt).value;
        Shaped(info) && 1 <= info.numPlanes <= 4 &&
        var l := InitLayout(info, w, h);
        ok == l.ok &&
        (ok ==> State() == LaidOut(fmt, w, h, info, l)) &&
        (!ok ==> State() == ImageState(UNKNOWN, 0, 0, Null, 0, info.numPlanes, NullPixels,
          InitOffsets(info, w, h), l.pitches, null))
    {
      if w == 0 || h == 0 {
        return false;
      }
      var vip := GetInfo(fmt);
      if vip.None? {
        return false;
      }
      var info := vip.value;
      RegisteredPlanes(fmt);
      Assign(ZeroState);
      numPlanes := info.numPlanes;

      var laid, ps, offs, size := LayOut(info, w, h);
      pitches := ps;
      offsets := offs;
      if !laid {
        return false;
      }
      data := Null;
      dataSize := size;
      format := fmt;
      width := w;
      height := h;
      return true;
    }

    /** mvt_image_init_pixels: fails without data; otherwise points the planes in use into it. */
    method InitPixels() returns (ok: bool)
      requires Valid()
      modifies this
      ensures ok <==> old(data) != Null
      ensures State() == if ok then WithPixels(old(State())) else old(State())
    {
      if data == Null {
        return false;
      }
      var i := 0;
      while i < numPlanes
        invariant 0 <= i <= numPlanes && Valid()
        invariant State() == old(State()).(pixels := pixels)
        invariant forall p :: 0 <= p < 4 ==>
          pixels[p] == if p < i then Offset(data, offsets[p]) else old(pixels[p])
      {
        pixels := pixels[i := Offset(data, offsets[i])];
        i := i + 1;
      }
      return true;
    }

    /** mvt_image_priv_ensure: allocates the private data on first use. */
    method PrivEnsure() returns (p: Priv)
      modifies this
      ensures old(priv) != null ==> p == old(priv)
      ensures old(priv) == null ==> fresh(p) && p.dataBase == null && p.copyCache == null && p.copyCacheSize == 0
      ensures State() == old(State()).(priv := p)
    {
      if priv == null {
        priv := new Priv();
      }
      p := priv;
    }

    /** mvt_image_priv_clear: releases the owned buffers and the private data. */
    method PrivClear()
      modifies this, priv
      ensures old(priv) != null ==> (old(priv).dataBase == null && old(priv).copyCache == null &&
        old(priv).copyCacheSize == old(priv.copyCacheSize))
      ensures State() == old(State()).(priv := null)
    {
      if priv == null {
        return;
      }
      priv.copyCache := null;
      priv.dataBase := null;
      priv := null;
    }

    /** mvt_image_clear. A view has no private data, so clearing it releases nothing of its parent. */
    method Clear()
      requires Valid()
      modifies this, priv
      ensures Valid()
      ensures State() == ClearedState(old(State()))
      ensures old(priv) != null ==> (old(priv).dataBase == null && old(priv).copyCache == null &&
        old(priv).copyCacheSize == old(priv.copyCacheSize))
    {
      data := Null;
      dataSize := 0;
      format := UNKNOWN;
      width := 0;
      height := 0;
      var px, ofs, pts := pixels, offsets, pitches;
      var i := 0;
      while i < numPlanes
        invariant 0 <= i <= numPlanes && |px| == 4 && |ofs| == 4 && |pts| == 4
        invariant forall p :: 0 <= p < 4 ==>
          px[p] == (if p < i then Null else old(pixels[p])) &&
          ofs[p] == (if p < i then 0 else old(offsets[p])) &&
          pts[p] == (if p < i then 0 else old(pitches[p]))
      {
        px := px[i := Null];
        ofs := ofs[i := 0];
        pts := pts[i := 0];
        i := i + 1;
      }
      pixels, offsets, pitches := px, ofs, pts;
      assert pixels == ClearedState(old(State())).pixels;
      assert offsets == ClearedState(old(State())).offsets;
      assert pitches == ClearedState(old(State())).pitches;
      numPlanes := 0;
      PrivClear();
    }
  }

  /**
   * mvt_image_new: an image of `format` and size whose pixel block is owned
   * by its private data. It fails, returning null, on a layout that fails.
   * A zero size or an unregistered format is excluded: init then returns
   * before clearing the fresh structure, which the error path goes on to
   * clear and free as it stands.
   */
  method New(format: int, width: U32, height: U32) returns (image: Image?)
    requires width != 0 && height != 0 && GetInfo(format).Some?
    ensures
      var info := GetInfo(format).value;
      Shaped(info) && 1 <= info.numPlanes <= 4 &&
      var l := InitLayout(info, width, height);
      (image == null <==> !l.ok) &&
      (image != null ==>
        fresh(image) && image.priv != null && fresh(image.priv) &&
        image.priv.dataBase != null && fresh(image.priv.dataBase) &&
        image.priv.dataBase.Length == l.dataSize && image.priv.copyCache == null &&
        image.State() == WithPixels(LaidOut(format, width, height, info, l).(
          data := At(image.priv.dataBase, 0), priv := image.priv)))
  {
    image := new Image();
    var ok := image.Init(format, width, height);
    if !ok {
      image.Clear();
      return null;
    }
    var p := image.PrivEnsure();
    var block := new Byte[image.dataSize];
    p.dataBase := block;
    image.data := At(block, 0);
    ok := image.InitPixels();
  }

  /** mvt_image_free: clears the image, releasing what it owns; NULL is ignored. */
  method Free(image: Image?)
    requires image != null ==> image.Valid()
    modifies if image != null then {image} else {}
    modifies if image != null && image.priv != null then {image.priv} else {}
    ensures image != null ==> image.State() == ClearedState(old(image.State()))
  {
    if image != null {
      image.Clear();
    }
  }

  /** mvt_image_freep: frees the image and returns the NULL that replaces the caller's pointer. */
  method Freep(image: Image?) returns (r: Image?)
    requires image != null ==> image.Valid()
    modifies if image != null then {image} else {}
    modifies if image != null && image.priv != null then {image.priv} else {}
    ensures r == null
    ensures image != null ==> image.State() == ClearedState(old(image.State()))
  {
    Free(image);
    r := null;
  }

  /**
   * mvt_image_init_from_subimage. Null images and an unregistered source
   * format are refused with nothing written. The source's structure is read
   * once at the start, which is what the code reads even when both
   * arguments are the same image.
   */
  method InitFromSubimage(dst: Image?, src: Image?, rect: Option<Rect>) returns (ok: bool)
    requires src != null ==> src.Valid()
    modifies dst
    ensures dst == null || src == null || GetInfo(old(src.format)).None? ==>
      !ok && (dst != null ==> dst.State() == old(dst.State()))
    ensures dst != null && src != null && GetInfo(old(src.format)).Some? ==>
      WellShaped(old(src.State())) && View(ok, dst.State()) == SubimageView(old(src.State()), rect)
  {
    if dst == null || src == null {
      return false;
    }
    var vip := GetInfo(src.format);
    if vip.None? {
      return false;
    }
    var info := vip.value;
    RegisteredPlanes(src.format);
    var s := src.State();
    var rc := if rect.Some? then rect.value else Rect(0, 0, s.width % 0x1_0000, s.height % 0x1_0000);
    dst.Assign(ViewBase(s).(width := rc.width, height := rc.height));
    if info.numComponents > 1 && IsYuv(s.format) {
      var mx := Pow2(info.chromaWShift);
      var my := Pow2(info.chromaHShift);
      if rc.x % mx != 0 || rc.y % my != 0 {
        return false;
      }
    }
    var pixelPitches := new int[4](_ => 0);
    assert pixelPitches[..] == [0, 0, 0, 0];
    ok := GetPixelPitches(s.format, pixelPitches);
    if !ok {
      return false;
    }
    var pp := pixelPitches[..];
    var pixels, offsets := ShiftedPlanes(info, s, pp, rc);
    dst.pixels := pixels;
    dst.offsets := offsets;
  }

  /** The plane loop of init_from_subimage, on the copied pointers and offsets. */
  method ShiftedPlanes(info: FormatInfo, s: ImageState, pp: seq<int>, rc: Rect) returns (pixels: seq<Ptr>, offsets: seq<U32>)
    requires WellShaped(s) && |pp| == 4 && 1 <= info.numPlanes <= 4
    ensures var t := ShiftPlanes(s, info.numPlanes, seq(4, i requires 0 <= i < 4 => SubimageOffset(info, s, pp, rc, i)));
      pixels == t.pixels && offsets == t.offsets
  {
    ghost var ofsAll := seq(4, i requires 0 <= i < 4 => SubimageOffset(info, s, pp, rc, i));
    var ofs := SubimageOffset(info, s, pp, rc, 0);
    pixels := s.pixels[0 := Offset(s.pixels[0], ofs)];
    offsets := s.offsets[0 := Wrap32(s.offsets[0] as int + ofs)];
    var i := 1;
    while i < info.numPlanes
      invariant 1 <= i <= info.numPlanes
      invariant ShiftPlanes(s, i, ofsAll).pixels == pixels && ShiftPlanes(s, i, ofsAll).offsets == offsets
    {
      ofs := SubimageOffset(info, s, pp, rc, i);
      pixels := pixels[i := Offset(pixels[i], ofs)];
      offsets := offsets[i := Wrap32(offsets[i] as int + ofs)];
      i := i + 1;
    }
  }

  /**
   * mvt_image_init_from_field. Null images and an unregistered source format
   * are refused with nothing written; `field` is any picture-structure mask.
   */
  method InitFromField(dst: Image?, src: Image?, field: U32) returns (ok: bool)
    requires src != null ==> src.Valid()
    modifies dst
    ensures ok <==> dst != null && src != null && GetInfo(old(src.format)).Some?
    ensures !ok && dst != null ==> dst.State() == old(dst.State())
    ensures ok ==> WellShaped(old(src.State())) && dst.State() == FieldView(old(src.State()), field)
  {
    if dst == null || src == null {
      return false;
    }
    var vip := GetInfo(src.format);
    if vip.None? {
      return false;
    }
    var np := vip.value.numPlanes;
    RegisteredPlanes(src.format);
    var s := src.State();
    dst.Assign(s.(priv := null));
    var pixels, pitches := s.pixels, s.pitches;
    var sel := field % 4;
    if sel == VA_BOTTOM_FIELD {
      var i := 0;
      while i < np
        invariant 0 <= i <= np && |pixels| == 4
        invariant forall p :: 0 <= p < 4 ==> pixels[p] == if p < i then Offset(s.pixels[p], s.pitches[p]) else s.pixels[p]
      {
        pixels := pixels[i := Offset(pixels[i], s.pitches[i])];
        i := i + 1;
      }
    }
    if sel == VA_BOTTOM_FIELD || sel == VA_TOP_FIELD {
      var i := 0;
      while i < np
        invariant 0 <= i <= np && |pitches| == 4
        invariant forall p :: 0 <= p < 4 ==> pitches[p] == if p < i then Shl32(s.pitches[p], 1) else s.pitches[p]
      {
        pitches := pitches[i := Shl32(pitches[i], 1)];
        i := i + 1;
      }
    }
    dst.pixels := pixels;
    dst.pitches := pitches;
    dst.height := s.height / 2;
    dst.data := Null;
    return true;
  }

  /**
   * mvt_image_init_from_va_image: wraps the layout of a VA image whose format
   * is registered; an unknown format is refused with nothing written.
   */
  method InitFromVaImage(image: Image?, va: Option<VaImage>) returns (ok: bool)
    requires image != null ==> image.Valid()
    requires va.Some? ==> VaShaped(va.value)
    modifies image
    ensures ok <==> image != null && va.Some? && FromVaFormatSpec(va.value.format) != UNKNOWN
    ensures !ok && image != null ==> image.State() == old(image.State())
    ensures ok ==> image.State() == VaImageState(va.value, FromVaFormatSpec(va.value.format))
  {
    if image == null || va.None? {
      return false;
    }
    var v := va.value;
    var format := FromVaFormat(v.format);
    if format == UNKNOWN {
      return false;
    }
    image.format := format;
    image.width := v.width;
    image.height := v.height;
    image.data := Null;
    image.dataSize := v.dataSize;
    image.numPlanes := v.numPlanes;
    image.pixels := NullPixels;
    image.priv := null;
    var offsets, pitches := CopyVaPlanes(v, image.offsets, image.pitches);
    image.offsets := offsets;
    image.pitches := pitches;
    return true;
  }

  /** The two plane loops of init_from_va_image: the planes in use copied, the rest zeroed. */
  method CopyVaPlanes(v: VaImage, offsets0: seq<U32>, pitches0: seq<U32>) returns (offsets: seq<U32>, pitches: seq<U32>)
    requires VaShaped(v) && |offsets0| == 4 && |pitches0| == 4
    ensures offsets == VaImageState(v, UNKNOWN).offsets && pitches == VaImageState(v, UNKNOWN).pitches
  {
    offsets, pitches := offsets0, pitches0;
    var i := 0;
    while i < v.numPlanes
      invariant 0 <= i <= v.numPlanes && |offsets| == 4 && |pitches| == 4
      invariant forall p :: 0 <= p < i ==> offsets[p] == v.offsets[p] && pitches[p] == v.pitches[p]
    {
      offsets := offsets[i := v.offsets[i]];
      pitches := pitches[i := v.pitches[i]];
      i := i + 1;
    }
    while i < MAX_PLANES
      invariant v.numPlanes <= i <= MAX_PLANES && |offsets| == 4 && |pitches| == 4
      invariant forall p :: 0 <= p < v.numPlanes ==> offsets[p] == v.offsets[p] && pitches[p] == v.pitches[p]
      invariant forall p :: v.numPlanes <= p < i ==> offsets[p] == 0 && pitches[p] == 0
    {
      offsets := offsets[i := 0];
      pitches := pitches[i := 0];
      i := i + 1;
    }
  }
}
