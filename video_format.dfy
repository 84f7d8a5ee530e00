// The video format registry: one immutable descriptor per format, lookups
// by identifier, name and VA fourcc, and the per-plane pixel pitches.
// A little-endian host is assumed throughout.

module VideoFormats {
  import opened Common

  // VideoFormat identifiers
  const UNKNOWN: int := 0
  const ENCODED: int := 1
  const NV12: int := 2
  const I420: int := 3
  const YV12: int := 4
  const Y800: int := 5
  const AYUV: int := 6
  const YUY2: int := 7
  const UYVY: int := 8
  const XRGB: int := 9
  const XBGR: int := 10
  const RGBX: int := 11
  const BGRX: int := 12
  const ARGB: int := 13
  const ABGR: int := 14
  const RGBA: int := 15
  const BGRA: int := 16
  const I420P10: int := 17
  const I420P12: int := 18
  const I420P16: int := 19
  const I422P10: int := 20
  const I422P12: int := 21
  const I422P16: int := 22
  const I444P10: int := 23
  const I444P12: int := 24
  const I444P16: int := 25
  const COUNT: int := 26
  /** Native 32-bit RGB formats on a little-endian host. */
  const RGB32: int := BGRX
  const ARGB32: int := BGRA

  const MAX_PLANES: nat := 4
  const MAX_COMPONENTS: nat := 4

  // VA chroma types
  const RT_YUV420: nat := 0x1
  const RT_YUV422: nat := 0x2
  const RT_YUV444: nat := 0x4
  const RT_YUV411: nat := 0x8
  const RT_YUV400: nat := 0x10
  const RT_RGB16: nat := 0x10000
  const RT_RGB32: nat := 0x20000

  // VA byte orders
  const LSB_FIRST: nat := 1
  const MSB_FIRST: nat := 2

  /** One colour component: its plane, byte offset and size within a pixel, bit depth. */
  datatype Component = Component(plane: nat, pixelOffset: nat, pixelStride: nat, bitDepth: nat)

  /** The VA image format description carried by each descriptor. */
  datatype VaImageFormat = VaImageFormat(
    fourcc: nat, byteOrder: nat, bitsPerPixel: nat, depth: nat,
    redMask: nat, greenMask: nat, blueMask: nat, alphaMask: nat)

  /**
   * A format descriptor. Components are listed Y, U, V (then alpha) for YUV
   * formats and R, G, B (then alpha) for RGB formats; unused slots are zero.
   */
  datatype FormatInfo = FormatInfo(
    name: Option<string>,
    format: int,
    chromaType: nat,
    chromaWShift: nat,
    chromaHShift: nat,
    vaFormat: VaImageFormat,
    numPlanes: nat,
    numComponents: nat,
    components: seq<Component>)

  const NoComponent := Component(0, 0, 0, 0)
  /** An all-zero entry: the unnamed slots and the trailing terminator. */
  const NoInfo := FormatInfo(None, 0, 0, 0, 0, VaImageFormat(0, 0, 0, 0, 0, 0, 0, 0), 0, 0,
    [NoComponent, NoComponent, NoComponent, NoComponent])

  // The descriptors. Chroma shifts (w, h): 4:2:0 (1, 1), 4:2:2 (1, 0), otherwise (0, 0).
  // RGB alpha components carry no bit depth.
  const NV12_INFO := FormatInfo(Some("NV12"), NV12, RT_YUV420, 1, 1,
    VaImageFormat(0x3231564e /* VA_FOURCC('N','V','1','2') */, LSB_FIRST, 12, 0, 0, 0, 0, 0), 2, 3,
    [Component(0, 0, 1, 8), Component(1, 0, 2, 8), Component(1, 1, 2, 8), NoComponent])
  const I420_INFO := FormatInfo(Some("I420"), I420, RT_YUV420, 1, 1,
    VaImageFormat(0x30323449 /* VA_FOURCC('I','4','2','0') */, LSB_FIRST, 12, 0, 0, 0, 0, 0), 3, 3,
    [Component(0, 0, 1, 8), Component(1, 0, 1, 8), Component(2, 0, 1, 8), NoComponent])
  const YV12_INFO := FormatInfo(Some("YV12"), YV12, RT_YUV420, 1, 1,
    VaImageFormat(0x32315659 /* VA_FOURCC('Y','V','1','2') */, LSB_FIRST, 12, 0, 0, 0, 0, 0), 3, 3,
    [Component(0, 0, 1, 8), Component(2, 0, 1, 8), Component(1, 0, 1, 8), NoComponent])
  const Y800_INFO := FormatInfo(Some("Y800"), Y800, RT_YUV400, 0, 0,
    VaImageFormat(0x30303859 /* VA_FOURCC('Y','8','0','0') */, LSB_FIRST, 8, 0, 0, 0, 0, 0), 1, 1,
    [Component(0, 0, 1, 8), NoComponent, NoComponent, NoComponent])
  const AYUV_INFO := FormatInfo(Some("AYUV"), AYUV, RT_YUV444, 0, 0,
    VaImageFormat(0x56555941 /* VA_FOURCC('A','Y','U','V') */, LSB_FIRST, 32, 0, 0, 0, 0, 0), 1, 4,
    [Component(0, 1, 4, 8), Component(0, 2, 4, 8), Component(0, 3, 4, 8), Component(0, 0, 4, 8)])
  const YUY2_INFO := FormatInfo(Some("YUY2"), YUY2, RT_YUV422, 1, 0,
    VaImageFormat(0x32595559 /* VA_FOURCC('Y','U','Y','2') */, LSB_FIRST, 16, 0, 0, 0, 0, 0), 1, 3,
    [Component(0, 0, 2, 8), Component(0, 1, 4, 8), Component(0, 3, 4, 8), NoComponent])
  const UYVY_INFO := FormatInfo(Some("UYVY"), UYVY, RT_YUV422, 1, 0,
    VaImageFormat(0x59565955 /* VA_FOURCC('U','Y','V','Y') */, LSB_FIRST, 16, 0, 0, 0, 0, 0), 1, 3,
    [Component(0, 1, 2, 8), Component(0, 0, 4, 8), Component(0, 2, 4, 8), NoComponent])
  const XRGB_INFO := FormatInfo(Some("xRGB"), XRGB, RT_RGB32, 0, 0,
    VaImageFormat(0x58524742 /* VA_FOURCC('B','G','R','X') */, LSB_FIRST, 32, 24, 0x00ff0000, 0x0000ff00, 0x000000ff, 0x00000000), 1, 3,
    [Component(0, 1, 4, 8), Component(0, 2, 4, 8), Component(0, 3, 4, 8), NoComponent])
  const XBGR_INFO := FormatInfo(Some("xBGR"), XBGR, RT_RGB32, 0, 0,
    VaImageFormat(0x58424752 /* VA_FOURCC('R','G','B','X') */, LSB_FIRST, 32, 24, 0x000000ff, 0x0000ff00, 0x00ff0000, 0x00000000), 1, 3,
    [Component(0, 3, 4, 8), Component(0, 2, 4, 8), Component(0, 1, 4, 8), NoComponent])
  const RGBX_INFO := FormatInfo(Some("RGBx"), RGBX, RT_RGB32, 0, 0,
    VaImageFormat(0x52474258 /* VA_FOURCC('X','B','G','R') */, LSB_FIRST, 32, 24, 0xff000000, 0x00ff0000, 0x0000ff00, 0x00000000), 1, 3,
    [Component(0, 0, 4, 8), Component(0, 1, 4, 8), Component(0, 2, 4, 8), NoComponent])
  const BGRX_INFO := FormatInfo(Some("BGRx"), BGRX, RT_RGB32, 0, 0,
    VaImageFormat(0x42475258 /* VA_FOURCC('X','R','G','B') */, LSB_FIRST, 32, 24, 0x0000ff00, 0x00ff0000, 0xff000000, 0x00000000), 1, 3,
    [Component(0, 2, 4, 8), Component(0, 1, 4, 8), Component(0, 0, 4, 8), NoComponent])
  const ARGB_INFO := FormatInfo(Some("ARGB"), ARGB, RT_RGB32, 0, 0,
    VaImageFormat(0x41524742 /* VA_FOURCC('B','G','R','A') */, LSB_FIRST, 32, 32, 0x00ff0000, 0x0000ff00, 0x000000ff, 0xff000000), 1, 4,
    [Component(0, 1, 4, 8), Component(0, 2, 4, 8), Component(0, 3, 4, 8), Component(0, 0, 4, 0)])
  const ABGR_INFO := FormatInfo(Some("ABGR"), ABGR, RT_RGB32, 0, 0,
    VaImageFormat(0x41424752 /* VA_FOURCC('R','G','B','A') */, LSB_FIRST, 32, 32, 0x000000ff, 0x0000ff00, 0x00ff0000, 0xff000000), 1, 4,
    [Component(0, 3, 4, 8), Component(0, 2, 4, 8), Component(0, 1, 4, 8), Component(0, 0, 4, 0)])
  const RGBA_INFO := FormatInfo(Some("RGBA"), RGBA, RT_RGB32, 0, 0,
    VaImageFormat(0x52474241 /* VA_FOURCC('A','B','G','R') */, LSB_FIRST, 32, 32, 0xff000000, 0x00ff0000, 0x0000ff00, 0x000000ff), 1, 4,
    [Component(0, 0, 4, 8), Component(0, 1, 4, 8), Component(0, 2, 4, 8), Component(0, 3, 4, 0)])
  const BGRA_INFO := FormatInfo(Some("BGRA"), BGRA, RT_RGB32, 0, 0,
    VaImageFormat(0x42475241 /* VA_FOURCC('A','R','G','B') */, LSB_FIRST, 32, 32, 0x0000ff00, 0x00ff0000, 0xff000000, 0x000000ff), 1, 4,
    [Component(0, 2, 4, 8), Component(0, 1, 4, 8), Component(0, 0, 4, 8), Component(0, 3, 4, 0)])
  const I420P10_INFO := FormatInfo(Some("I420p10"), I420P10, RT_YUV420, 1, 1,
    VaImageFormat(0x30313050 /* VA_FOURCC('P','0','1','0') */, LSB_FIRST, 15, 0, 0, 0, 0, 0), 3, 3,
    [Component(0, 0, 2, 10), Component(1, 0, 2, 10), Component(2, 0, 2, 10), NoComponent])
  const I420P12_INFO := FormatInfo(Some("I420p12"), I420P12, RT_YUV420, 1, 1,
    VaImageFormat(0x32313050 /* VA_FOURCC('P','0','1','2') */, LSB_FIRST, 18, 0, 0, 0, 0, 0), 3, 3,
    [Component(0, 0, 2, 12), Component(1, 0, 2, 12), Component(2, 0, 2, 12), NoComponent])
  const I420P16_INFO := FormatInfo(Some("I420p16"), I420P16, RT_YUV420, 1, 1,
    VaImageFormat(0x36313050 /* VA_FOURCC('P','0','1','6') */, LSB_FIRST, 24, 0, 0, 0, 0, 0), 3, 3,
    [Component(0, 0, 2, 16), Component(1, 0, 2, 16), Component(2, 0, 2, 16), NoComponent])
  const I422P10_INFO := FormatInfo(Some("I422p10"), I422P10, RT_YUV422, 1, 0,
    VaImageFormat(0x30313250 /* VA_FOURCC('P','2','1','0') */, LSB_FIRST, 20, 0, 0, 0, 0, 0), 3, 3,
    [Component(0, 0, 2, 10), Component(1, 0, 2, 10), Component(2, 0, 2, 10), NoComponent])
  const I422P12_INFO := FormatInfo(Some("I422p12"), I422P12, RT_YUV422, 1, 0,
    VaImageFormat(0x32313250 /* VA_FOURCC('P','2','1','2') */, LSB_FIRST, 24, 0, 0, 0, 0, 0), 3, 3,
    [Component(0, 0, 2, 12), Component(1, 0, 2, 12), Component(2, 0, 2, 12), NoComponent])
  const I422P16_INFO := FormatInfo(Some("I422p16"), I422P16, RT_YUV422, 1, 0,
    VaImageFormat(0x36313250 /* VA_FOURCC('P','2','1','6') */, LSB_FIRST, 32, 0, 0, 0, 0, 0), 3, 3,
    [Component(0, 0, 2, 16), Component(1, 0, 2, 16), Component(2, 0, 2, 16), NoComponent])
  const I444P10_INFO := FormatInfo(Some("I444p10"), I444P10, RT_YUV444, 0, 0,
    VaImageFormat(0x30313450 /* VA_FOURCC('P','4','1','0') */, LSB_FIRST, 30, 0, 0, 0, 0, 0), 3, 3,
    [Component(0, 0, 2, 10), Component(1, 0, 2, 10), Component(2, 0, 2, 10), NoComponent])
  const I444P12_INFO := FormatInfo(Some("I444p12"), I444P12, RT_YUV444, 0, 0,
    VaImageFormat(0x32313450 /* VA_FOURCC('P','4','1','2') */, LSB_FIRST, 36, 0, 0, 0, 0, 0), 3, 3,
    [Component(0, 0, 2, 12), Component(1, 0, 2, 12), Component(2, 0, 2, 12), NoComponent])
  const I444P16_INFO := FormatInfo(Some("I444p16"), I444P16, RT_YUV444, 0, 0,
    VaImageFormat(0x36313450 /* VA_FOURCC('P','4','1','6') */, LSB_FIRST, 48, 0, 0, 0, 0, 0), 3, 3,
    [Component(0, 0, 2, 16), Component(1, 0, 2, 16), Component(2, 0, 2, 16), NoComponent])

  const Table: seq<FormatInfo> := [
    NoInfo, NoInfo,
    NV12_INFO,
    I420_INFO,
    YV12_INFO,
    Y800_INFO,
    AYUV_INFO,
    YUY2_INFO,
    UYVY_INFO,
    XRGB_INFO,
    XBGR_INFO,
    RGBX_INFO,
    BGRX_INFO,
    ARGB_INFO,
    ABGR_INFO,
    RGBA_INFO,
    BGRA_INFO,
    I420P10_INFO,
    I420P12_INFO,
    I420P16_INFO,
    I422P10_INFO,
    I422P12_INFO,
    I422P16_INFO,
    I444P10_INFO,
    I444P12_INFO,
    I444P16_INFO,
    NoInfo
  ]
  predicate IsValid(info: FormatInfo) { info.name.Some? }

  /** Every valid entry sits at the index of its own format identifier. */
  predicate Indexed(t: seq<FormatInfo>)
  {
    forall i :: 0 <= i < |t| && IsValid(t[i]) ==> t[i].format == i && i != UNKNOWN
  }

  lemma {:induction false} TableIndexed()
    ensures Indexed(Table) && |Table| == COUNT + 1
  {
  }

  /** get_info: the descriptor of a registered format, if any. */
  function GetInfo(format: int): (r: Option<FormatInfo>)
    ensures r.Some? <==> NV12 <= format < COUNT
    ensures r.Some? ==> r.value == Table[format] && IsValid(r.value) && r.value.format == format
  {
    if format < 0 || format >= COUNT then None
    else if IsValid(Table[format]) then Some(Table[format])
    else None
  }

  predicate IsRgb(format: int)
  {
    GetInfo(format).Some? && GetInfo(format).value.vaFormat.depth != 0
  }

  predicate IsYuv(format: int)
  {
    GetInfo(format).Some? && GetInfo(format).value.vaFormat.depth == 0
  }

  predicate IsGrayscale(format: int)
  {
    GetInfo(format).Some? && GetInfo(format).value.chromaType == RT_YUV400
  }

  predicate IsSubsampled(format: int)
  {
    GetInfo(format).Some? && (GetInfo(format).value.chromaWShift > 0 || GetInfo(format).value.chromaHShift > 0)
  }

  predicate HasAlpha(format: int)
  {
    GetInfo(format).Some? && GetInfo(format).value.numComponents == 4
  }

  function GetName(format: int): (r: Option<string>)
    ensures r.Some? <==> GetInfo(format).Some?
  {
    if GetInfo(format).Some? then GetInfo(format).value.name else None
  }

  function GetChromaType(format: int): (r: nat)
    ensures r == 0 <==> GetInfo(format).None?
  {
    if GetInfo(format).Some? then GetInfo(format).value.chromaType else 0
  }

  function ToVaFormat(format: int): (r: Option<VaImageFormat>)
    ensures r.Some? <==> GetInfo(format).Some?
  {
    if GetInfo(format).Some? then Some(GetInfo(format).value.vaFormat) else None
  }

  /** va_format_is_same: equal fourcc, and for RGB also equal byte order and masks. */
  predicate VaFormatIsSame(f1: VaImageFormat, f2: VaImageFormat)
  {
    f1.fourcc == f2.fourcc &&
    (f1.depth != 0 ==>
      f1.byteOrder == f2.byteOrder && f1.redMask == f2.redMask && f1.greenMask == f2.greenMask &&
      f1.blueMask == f2.blueMask && f1.alphaMask == f2.alphaMask)
  }

  /**
   * The format of the first valid entry of `t` at index `i` or later that
   * satisfies `matches`, or UNKNOWN.
   */
  function FirstMatch(t: seq<FormatInfo>, matches: FormatInfo -> bool, i: nat): (r: int)
    requires Indexed(t) && i <= |t|
    decreases |t| - i
    ensures r == UNKNOWN || (i <= r < |t| && IsValid(t[r]) && matches(t[r]))
    ensures r == UNKNOWN <==> forall j :: i <= j < |t| && IsValid(t[j]) ==> !matches(t[j])
    ensures r != UNKNOWN ==> forall j :: i <= j < r && IsValid(t[j]) ==> !matches(t[j])
  {
    if i == |t| then UNKNOWN
    else if IsValid(t[i]) && matches(t[i]) then t[i].format
    else FirstMatch(t, matches, i + 1)
  }

  /** A scan whose first match is at `r` returns the format at `r`. */
  lemma {:induction false} FirstMatchIs(t: seq<FormatInfo>, matches: FormatInfo -> bool, i: nat, r: nat)
    requires Indexed(t) && i <= r < |t| && IsValid(t[r]) && matches(t[r])
    requires forall j :: i <= j < r && IsValid(t[j]) ==> !matches(t[j])
    ensures FirstMatch(t, matches, i) == r
    decreases r - i
  {
    if i < r {
      FirstMatchIs(t, matches, i + 1, r);
    }
  }

  /** The matching rules of the three reverse lookups. */
  function NameIs(name: Option<string>): FormatInfo -> bool
  {
    (e: FormatInfo) => e.name == name
  }

  function FourccIs(fourcc: nat): FormatInfo -> bool
  {
    (e: FormatInfo) => e.vaFormat.fourcc == fourcc
  }

  function VaFormatIs(va: VaImageFormat): FormatInfo -> bool
  {
    (e: FormatInfo) => VaFormatIsSame(e.vaFormat, va)
  }

  /** video_format_from_name / _from_va_fourcc / _from_va_format, as functions. */
  function FromNameSpec(name: Option<string>): int
  {
    TableIndexed();
    if name.None? then UNKNOWN else FirstMatch(Table, NameIs(name), 0)
  }

  function FromVaFourccSpec(fourcc: nat): int
  {
    TableIndexed();
    if fourcc == 0 then UNKNOWN else FirstMatch(Table, FourccIs(fourcc), 0)
  }

  function FromVaFormatSpec(va: VaImageFormat): int
  {
    TableIndexed();
    FirstMatch(Table, VaFormatIs(va), 0)
  }

  /** The scan shared by the three reverse lookups: walks the whole table, terminator included. */
  method Find(t: seq<FormatInfo>, matches: FormatInfo -> bool) returns (format: int)
    requires Indexed(t)
    ensures format == FirstMatch(t, matches, 0)
  {
    var i := 0;
    while i < |t|
      invariant 0 <= i <= |t|
      invariant FirstMatch(t, matches, 0) == FirstMatch(t, matches, i)
    {
      if IsValid(t[i]) && matches(t[i]) {
        return t[i].format;
      }
      i := i + 1;
    }
    return UNKNOWN;
  }

  method FromName(name: Option<string>) returns (format: int)
    ensures format == FromNameSpec(name)
  {
    if name.None? {
      return UNKNOWN;
    }
    TableIndexed();
    format := Find(Table, NameIs(name));
  }

  method FromVaFourcc(fourcc: U32) returns (format: int)
    ensures format == FromVaFourccSpec(fourcc)
  {
    if fourcc == 0 {
      return UNKNOWN;
    }
    TableIndexed();
    format := Find(Table, FourccIs(fourcc));
  }

  method FromVaFormat(va: VaImageFormat) returns (format: int)
    ensures format == FromVaFormatSpec(va)
  {
    TableIndexed();
    format := Find(Table, VaFormatIs(va));
  }

  lemma {:induction false} NamesDistinct(j: nat, k: nat)
    requires j < k < |Table| && IsValid(Table[j]) && IsValid(Table[k])
    ensures Table[j].name != Table[k].name
  {
  }

  lemma {:induction false} FourccsDistinct(j: nat, k: nat)
    requires j < k < |Table| && IsValid(Table[j]) && IsValid(Table[k])
    ensures Table[j].vaFormat.fourcc != Table[k].vaFormat.fourcc
  {
  }

  lemma {:induction false} FourccNonZero(k: nat)
    requires k < |Table| && IsValid(Table[k])
    ensures Table[k].vaFormat.fourcc != 0
  {
  }

  /** Looking a format up by its own name finds it; no name finds UNKNOWN. */
  lemma {:induction false} FromNameOfName(format: int)
    ensures GetInfo(format).Some? ==> FromNameSpec(GetName(format)) == format
    ensures FromNameSpec(None) == UNKNOWN
  {
    if GetInfo(format).Some? {
      TableIndexed();
      forall j | 0 <= j < format && IsValid(Table[j])
        ensures !NameIs(GetName(format))(Table[j])
      {
        NamesDistinct(j, format);
      }
      FirstMatchIs(Table, NameIs(GetName(format)), 0, format);
    }
  }

  /** The VA fourcc of a registered format maps back to it. */
  lemma {:induction false} FromVaFourccOfFormat(format: int)
    requires GetInfo(format).Some?
    ensures FromVaFourccSpec(ToVaFormat(format).value.fourcc) == format
  {
    TableIndexed();
    var fourcc := ToVaFormat(format).value.fourcc;
    FourccNonZero(format);
    forall j | 0 <= j < format && IsValid(Table[j])
      ensures !FourccIs(fourcc)(Table[j])
    {
      FourccsDistinct(j, format);
    }
    FirstMatchIs(Table, FourccIs(fourcc), 0, format);
  }

  /** The VA image format of a registered format maps back to it. */
  lemma {:induction false} FromVaFormatOfFormat(format: int)
    requires GetInfo(format).Some?
    ensures FromVaFormatSpec(ToVaFormat(format).value) == format
  {
    TableIndexed();
    var va := ToVaFormat(format).value;
    forall j | 0 <= j < format && IsValid(Table[j])
      ensures !VaFormatIs(va)(Table[j])
    {
      FourccsDistinct(j, format);
    }
    FirstMatchIs(Table, VaFormatIs(va), 0, format);
  }

  /** RGB and YUV partition the registered formats: RGB exactly for a non-zero VA depth. */
  lemma {:induction false} RgbYuvPartition(format: int)
    ensures !(IsRgb(format) && IsYuv(format))
    ensures GetInfo(format).Some? <==> IsRgb(format) || IsYuv(format)
    ensures IsRgb(format) <==> XRGB <= format <= BGRA
    ensures IsRgb(format) <==> GetChromaType(format) == RT_RGB32
  {
  }

  /** has_alpha, is_subsampled and is_grayscale on the registered formats. */
  lemma {:induction false} FormatPredicates(format: int)
    ensures HasAlpha(format) <==> format in {AYUV, ARGB, ABGR, RGBA, BGRA}
    ensures IsSubsampled(format) <==> GetChromaType(format) in {RT_YUV420, RT_YUV422}
    ensures IsGrayscale(format) <==> format == Y800
  {
  }

  /** Chroma shifts are fixed per chroma family. */
  lemma {:induction false} ShiftsByFamily(format: int)
    requires GetInfo(format).Some?
    ensures var info := GetInfo(format).value;
      (info.chromaType == RT_YUV420 ==> info.chromaWShift == 1 && info.chromaHShift == 1) &&
      (info.chromaType == RT_YUV422 ==> info.chromaWShift == 1 && info.chromaHShift == 0) &&
      (info.chromaType in {RT_YUV444, RT_YUV400, RT_RGB32} ==> info.chromaWShift == 0 && info.chromaHShift == 0) &&
      info.chromaType in {RT_YUV420, RT_YUV422, RT_YUV444, RT_YUV400, RT_RGB32}
  {
  }

  /** The alpha component of the RGB formats carries no bit depth. */
  lemma {:induction false} RgbAlphaDepthZero(format: int)
    requires IsRgb(format) && HasAlpha(format)
    ensures GetInfo(format).value.components[3].bitDepth == 0
  {
  }

  /** The colour components of the RGB formats have 8 bits each, and there are three of them or four. */
  lemma {:induction false} RgbColourDepths(format: int)
    requires IsRgb(format)
    ensures forall c :: 0 <= c < 3 ==> GetInfo(format).value.components[c].bitDepth == 8
    ensures GetInfo(format).value.numComponents == (if HasAlpha(format) then 4 else 3)
  {
  }

  // ---------------------------------------------------------------------
  // Descriptor structure

  /** Four component slots, at most four planes and components. */
  predicate Shaped(info: FormatInfo)
  {
    |info.components| == 4 && info.numComponents <= 4 && info.numPlanes <= 4 &&
    forall c :: 0 <= c < 4 ==> info.components[c].plane < 4
  }

  /** Chroma shifts applied to component `c`: none for the first component. */
  function WShift(info: FormatInfo, c: nat): nat { if c > 0 then info.chromaWShift else 0 }
  function HShift(info: FormatInfo, c: nat): nat { if c > 0 then info.chromaHShift else 0 }

  /** Pixel pitch a component contributes to its plane in get_pixel_pitches. */
  function ComponentPixelPitch(info: FormatInfo, c: nat): nat
    requires Shaped(info) && c < 4
  {
    Shr(info.components[c].pixelStride, WShift(info, c))
  }

  /** Bytes a component occupies per 16 pixels of a row: its plane pitch per 16 columns of luma. */
  function BlockPitch(info: FormatInfo, c: nat): nat
    requires Shaped(info) && c < 4
  {
    Shr(16 * info.components[c].pixelStride, WShift(info, c))
  }

  /** Index of the first component stored in plane `p` at or after `c`, or `numComponents`. */
  function FirstOnPlane(info: FormatInfo, p: nat, c: nat): (r: nat)
    requires Shaped(info) && c <= info.numComponents
    decreases info.numComponents - c
    ensures c <= r <= info.numComponents
    ensures r < info.numComponents ==> info.components[r].plane == p
    ensures forall d :: c <= d < r ==> info.components[d].plane != p
  {
    if c == info.numComponents then c
    else if info.components[c].plane == p then c
    else FirstOnPlane(info, p, c + 1)
  }

  /** Some component is stored in plane `p`. */
  predicate PlaneUsed(info: FormatInfo, p: nat)
    requires Shaped(info)
  {
    (0 < info.numComponents && info.components[0].plane == p) ||
    (1 < info.numComponents && info.components[1].plane == p) ||
    (2 < info.numComponents && info.components[2].plane == p) ||
    (3 < info.numComponents && info.components[3].plane == p)
  }

  /**
   * The structure every registered descriptor has: component 0 is on plane 0,
   * the planes in use are exactly 0 .. numPlanes-1, shifts are at most 1, strides
   * 1 to 4 bytes, and components sharing a plane agree on a non-zero pixel pitch,
   * on their bytes per row and on their vertical subsampling, their strides
   * being in the ratio of their horizontal subsampling.
   */
  predicate Coherent(info: FormatInfo)
  {
    Shaped(info) && 1 <= info.numComponents && 1 <= info.numPlanes &&
    info.components[0].plane == 0 && info.chromaWShift <= 1 && info.chromaHShift <= 1 &&
    (forall c :: 0 <= c < info.numComponents ==>
      info.components[c].plane < info.numPlanes && 1 <= info.components[c].pixelStride <= 4) &&
    (forall p :: 0 <= p < info.numPlanes ==> PlaneUsed(info, p)) &&
    (forall d, c :: 0 <= d < c < info.numComponents && info.components[d].plane == info.components[c].plane ==>
      ComponentPixelPitch(info, d) != 0 && ComponentPixelPitch(info, c) == ComponentPixelPitch(info, d) &&
      BlockPitch(info, c) == BlockPitch(info, d) && HShift(info, c) == HShift(info, d) &&
      info.components[c].pixelStride * Pow2(WShift(info, d)) == info.components[d].pixelStride * Pow2(WShift(info, c)))
  }

  lemma {:induction false} CoherentNV12() ensures Coherent(NV12_INFO) { SmallShifts(); }
  lemma {:induction false} CoherentI420() ensures Coherent(I420_INFO) { SmallShifts(); }
  lemma {:induction false} CoherentYV12() ensures Coherent(YV12_INFO) { SmallShifts(); }
  lemma {:induction false} CoherentY800() ensures Coherent(Y800_INFO) { SmallShifts(); }
  lemma {:induction false} CoherentAYUV() ensures Coherent(AYUV_INFO) { SmallShifts(); }
  lemma {:induction false} CoherentYUY2() ensures Coherent(YUY2_INFO) { SmallShifts(); }
  lemma {:induction false} CoherentUYVY() ensures Coherent(UYVY_INFO) { SmallShifts(); }
  lemma {:induction false} CoherentXRGB() ensures Coherent(XRGB_INFO) { SmallShifts(); }
  lemma {:induction false} CoherentXBGR() ensures Coherent(XBGR_INFO) { SmallShifts(); }
  lemma {:induction false} CoherentRGBX() ensures Coherent(RGBX_INFO) { SmallShifts(); }
  lemma {:induction false} CoherentBGRX() ensures Coherent(BGRX_INFO) { SmallShifts(); }
  lemma {:induction false} CoherentARGB() ensures Coherent(ARGB_INFO) { SmallShifts(); }
  lemma {:induction false} CoherentABGR() ensures Coherent(ABGR_INFO) { SmallShifts(); }
  lemma {:induction false} CoherentRGBA() ensures Coherent(RGBA_INFO) { SmallShifts(); }
  lemma {:induction false} CoherentBGRA() ensures Coherent(BGRA_INFO) { SmallShifts(); }
  lemma {:induction false} CoherentI420P10() ensures Coherent(I420P10_INFO) { SmallShifts(); }
  lemma {:induction false} CoherentI420P12() ensures Coherent(I420P12_INFO) { SmallShifts(); }
  lemma {:induction false} CoherentI420P16() ensures Coherent(I420P16_INFO) { SmallShifts(); }
  lemma {:induction false} CoherentI422P10() ensures Coherent(I422P10_INFO) { SmallShifts(); }
  lemma {:induction false} CoherentI422P12() ensures Coherent(I422P12_INFO) { SmallShifts(); }
  lemma {:induction false} CoherentI422P16() ensures Coherent(I422P16_INFO) { SmallShifts(); }
  lemma {:induction false} CoherentI444P10() ensures Coherent(I444P10_INFO) { SmallShifts(); }
  lemma {:induction false} CoherentI444P12() ensures Coherent(I444P12_INFO) { SmallShifts(); }
  lemma {:induction false} CoherentI444P16() ensures Coherent(I444P16_INFO) { SmallShifts(); }
  lemma {:induction false} RegisteredCoherent(format: int)
    requires GetInfo(format).Some?
    ensures Coherent(GetInfo(format).value)
  {
    if format < XRGB { CoherentYuv(format); }
    else if format < I420P10 { CoherentRgb(format); }
    else { CoherentDeep(format); }
  }

  lemma {:induction false} CoherentYuv(format: int)
    requires GetInfo(format).Some? && format < XRGB
    ensures Coherent(GetInfo(format).value)
  {
    if format == NV12 { CoherentNV12(); assert Table[NV12] == NV12_INFO; }
    else if format == I420 { CoherentI420(); assert Table[I420] == I420_INFO; }
    else if format == YV12 { CoherentYV12(); assert Table[YV12] == YV12_INFO; }
    else if format == Y800 { CoherentY800(); assert Table[Y800] == Y800_INFO; }
    else if format == AYUV { CoherentAYUV(); assert Table[AYUV] == AYUV_INFO; }
    else if format == YUY2 { CoherentYUY2(); assert Table[YUY2] == YUY2_INFO; }
    else { CoherentUYVY(); assert Table[UYVY] == UYVY_INFO; }
  }

  lemma {:induction false} CoherentRgb(format: int)
    requires GetInfo(format).Some? && XRGB <= format < I420P10
    ensures Coherent(GetInfo(format).value)
  {
    if format == XRGB { CoherentXRGB(); assert Table[XRGB] == XRGB_INFO; }
    else if format == XBGR { CoherentXBGR(); assert Table[XBGR] == XBGR_INFO; }
    else if format == RGBX { CoherentRGBX(); assert Table[RGBX] == RGBX_INFO; }
    else if format == BGRX { CoherentBGRX(); assert Table[BGRX] == BGRX_INFO; }
    else if format == ARGB { CoherentARGB(); assert Table[ARGB] == ARGB_INFO; }
    else if format == ABGR { CoherentABGR(); assert Table[ABGR] == ABGR_INFO; }
    else if format == RGBA { CoherentRGBA(); assert Table[RGBA] == RGBA_INFO; }
    else { CoherentBGRA(); assert Table[BGRA] == BGRA_INFO; }
  }

  lemma {:induction false} CoherentDeep(format: int)
    requires GetInfo(format).Some? && format >= I420P10
    ensures Coherent(GetInfo(format).value)
  {
    if format == I420P10 { CoherentI420P10(); assert Table[I420P10] == I420P10_INFO; }
    else if format == I420P12 { CoherentI420P12(); assert Table[I420P12] == I420P12_INFO; }
    else if format == I420P16 { CoherentI420P16(); assert Table[I420P16] == I420P16_INFO; }
    else if format == I422P10 { CoherentI422P10(); assert Table[I422P10] == I422P10_INFO; }
    else if format == I422P12 { CoherentI422P12(); assert Table[I422P12] == I422P12_INFO; }
    else if format == I422P16 { CoherentI422P16(); assert Table[I422P16] == I422P16_INFO; }
    else if format == I444P10 { CoherentI444P10(); assert Table[I444P10] == I444P10_INFO; }
    else if format == I444P12 { CoherentI444P12(); assert Table[I444P12] == I444P12_INFO; }
    else { CoherentI444P16(); assert Table[I444P16] == I444P16_INFO; }
  }

  // ---------------------------------------------------------------------
  // video_format_get_pixel_pitches

  /** Local `pitches[]` and the caller's `pixel_pitches[]` during get_pixel_pitches. */
  datatype PitchScan = PitchScan(ok: bool, pitches: seq<nat>, out: seq<int>)

  /** State after the first `k` components have been examined. */
  function ScanPixelPitches(info: FormatInfo, k: nat, out0: seq<int>): (r: PitchScan)
    requires Shaped(info) && k <= info.numComponents && |out0| == 4
    ensures |r.pitches| == 4 && |r.out| == 4
    ensures forall p :: 0 <= p < 4 && out0[p] >= 0 ==> r.out[p] >= 0
  {
    if k == 0 then PitchScan(true, [0, 0, 0, 0], out0)
    else
      var prev := ScanPixelPitches(info, k - 1, out0);
      var cip := info.components[k - 1];
      var pitch := ComponentPixelPitch(info, k - 1);
      if !prev.ok then prev
      else if prev.pitches[cip.plane] == 0 then
        PitchScan(true, prev.pitches[cip.plane := pitch], prev.out[cip.plane := cip.pixelStride])
      else if prev.pitches[cip.plane] != pitch then prev.(ok := false)
      else prev
  }

  /** Once a conflict has been found, later components change nothing. */
  lemma {:induction false} ScanFailureSticks(info: FormatInfo, k: nat, n: nat, out0: seq<int>)
    requires Shaped(info) && k <= n <= info.numComponents && |out0| == 4
    requires !ScanPixelPitches(info, k, out0).ok
    ensures ScanPixelPitches(info, n, out0) == ScanPixelPitches(info, k, out0)
    decreases n - k
  {
    if k < n {
      ScanFailureSticks(info, k, n - 1, out0);
    }
  }

  /** video_format_get_pixel_pitches: fills `pixelPitches` for the planes in use. */
  method GetPixelPitches(format: int, pixelPitches: array<int>) returns (ok: bool)
    requires pixelPitches.Length == 4
    modifies pixelPitches
    ensures GetInfo(format).None? ==> !ok && pixelPitches[..] == old(pixelPitches[..])
    ensures GetInfo(format).Some? ==>
      Shaped(GetInfo(format).value) &&
      var s := ScanPixelPitches(GetInfo(format).value, GetInfo(format).value.numComponents, old(pixelPitches[..]));
      ok == s.ok && pixelPitches[..] == s.out
  {
    var vip := GetInfo(format);
    if vip.None? {
      return false;
    }
    RegisteredCoherent(format);
    ok := ScanComponents(vip.value, pixelPitches);
  }

  /** The component loop of get_pixel_pitches. */
  method ScanComponents(info: FormatInfo, pixelPitches: array<int>) returns (ok: bool)
    requires Shaped(info) && pixelPitches.Length == 4
    modifies pixelPitches
    ensures var s := ScanPixelPitches(info, info.numComponents, old(pixelPitches[..]));
      ok == s.ok && pixelPitches[..] == s.out
  {
    var pitches := [0, 0, 0, 0];
    ghost var out0 := pixelPitches[..];
    var i := 0;
    while i < info.numComponents
      invariant 0 <= i <= info.numComponents
      invariant ScanPixelPitches(info, i, out0) == PitchScan(true, pitches, pixelPitches[..])
    {
      var cip := info.components[i];
      var pitch := ComponentPixelPitch(info, i);
      if pitches[cip.plane] == 0 {
        pitches := pitches[cip.plane := pitch];
        pixelPitches[cip.plane] := cip.pixelStride;
      } else if pitches[cip.plane] != pitch {
        ScanFailureSticks(info, i + 1, info.numComponents, out0);
        return false;
      }
      i := i + 1;
    }
    return true;
  }

  /** After `k` components, each plane holds its first component's values once that one has been seen. */
  lemma {:induction false} ScanPixelPitchesCoherent(info: FormatInfo, k: nat, out0: seq<int>)
    requires Coherent(info) && k <= info.numComponents && |out0| == 4
    ensures var s := ScanPixelPitches(info, k, out0);
      s.ok &&
      forall p :: 0 <= p < 4 ==>
        var f := FirstOnPlane(info, p, 0);
        s.pitches[p] == (if f < k then ComponentPixelPitch(info, f) else 0) &&
        s.out[p] == (if f < k then info.components[f].pixelStride else out0[p])
  {
    if k > 0 {
      ScanPixelPitchesCoherent(info, k - 1, out0);
      var c := k - 1;
      var pl := info.components[c].plane;
      forall p | 0 <= p < 4 && p != pl
        ensures FirstOnPlane(info, p, 0) != c
      {
        FirstOnPlaneNot(info, p, 0, c);
      }
      FirstOnPlaneMin(info, pl, 0, c);
    }
  }

  lemma {:induction false} FirstOnPlaneNot(info: FormatInfo, p: nat, c: nat, d: nat)
    requires Shaped(info) && c <= d < info.numComponents && info.components[d].plane != p
    ensures FirstOnPlane(info, p, c) != d
    decreases d - c
  {
    if c < d && info.components[c].plane != p {
      FirstOnPlaneNot(info, p, c + 1, d);
    }
  }

  lemma {:induction false} FirstOnPlaneMin(info: FormatInfo, p: nat, c: nat, d: nat)
    requires Shaped(info) && c <= d < info.numComponents && info.components[d].plane == p
    ensures FirstOnPlane(info, p, c) <= d
    decreases d - c
  {
    if c < d && info.components[c].plane != p {
      FirstOnPlaneMin(info, p, c + 1, d);
    }
  }

  /**
   * For every coherent descriptor the pitch scan succeeds, and each plane in use
   * receives the pixel stride of its first component; other entries keep their values.
   */
  lemma {:induction false} PixelPitchesOfCoherent(info: FormatInfo, out0: seq<int>)
    requires Coherent(info) && |out0| == 4
    ensures var s := ScanPixelPitches(info, info.numComponents, out0);
      s.ok &&
      (forall p :: 0 <= p < info.numPlanes ==>
        FirstOnPlane(info, p, 0) < info.numComponents &&
        s.out[p] == info.components[FirstOnPlane(info, p, 0)].pixelStride) &&
      (forall p :: info.numPlanes <= p < 4 ==> s.out[p] == out0[p])
  {
    ScanPixelPitchesCoherent(info, info.numComponents, out0);
    forall p | 0 <= p < 4
      ensures p < info.numPlanes <==> FirstOnPlane(info, p, 0) < info.numComponents
    {
      if p < info.numPlanes {
        UsedPlaneFirst(info, p);
      }
    }
  }

  /** A plane that holds a component has a first component. */
  lemma {:induction false} UsedPlaneFirst(info: FormatInfo, p: nat)
    requires Shaped(info) && PlaneUsed(info, p)
    ensures FirstOnPlane(info, p, 0) < info.numComponents
  {
    var c: nat := if 0 < info.numComponents && info.components[0].plane == p then 0
      else if 1 < info.numComponents && info.components[1].plane == p then 1
      else if 2 < info.numComponents && info.components[2].plane == p then 2
      else 3;
    FirstOnPlaneMin(info, p, 0, c);
  }

  /** The same for every registered format. */
  lemma {:induction false} PixelPitchesOfRegistered(format: int, out0: seq<int>)
    requires GetInfo(format).Some? && |out0| == 4
    ensures var info := GetInfo(format).value;
      Shaped(info) &&
      var s := ScanPixelPitches(info, info.numComponents, out0);
      s.ok &&
      (forall p :: 0 <= p < info.numPlanes ==>
        FirstOnPlane(info, p, 0) < info.numComponents &&
        s.out[p] == info.components[FirstOnPlane(info, p, 0)].pixelStride) &&
      (forall p :: info.numPlanes <= p < 4 ==> s.out[p] == out0[p])
  {
    RegisteredCoherent(format);
    PixelPitchesOfCoherent(GetInfo(format).value, out0);
  }

  /** A component whose plane already has its pixel pitch changes nothing. */
  lemma {:induction false} ScanAgrees(info: FormatInfo, k: nat, out0: seq<int>)
    requires Shaped(info) && 0 < k <= info.numComponents && |out0| == 4
    requires var prev := ScanPixelPitches(info, k - 1, out0);
      prev.ok && prev.pitches[info.components[k - 1].plane] == ComponentPixelPitch(info, k - 1) != 0
    ensures ScanPixelPitches(info, k, out0) == ScanPixelPitches(info, k - 1, out0)
  {
  }

  /** NV12 interleaves chroma at 2 bytes per pixel; the unused planes keep their entries. */
  lemma {:induction false} PixelPitchesNV12(out0: seq<int>)
    requires |out0| == 4
    ensures var out := ScanPixelPitches(NV12_INFO, 3, out0).out;
      out[0] == 1 && out[1] == 2 && out[2] == out0[2] && out[3] == out0[3]
  {
    CoherentNV12();
    PixelPitchesOfCoherent(NV12_INFO, out0);
    assert FirstOnPlane(NV12_INFO, 1, 0) == 1;
  }

  /** Every YUY2 component adds 2 bytes per pixel to plane 0: luma on its own, chroma at 4 bytes per 2 pixels. */
  lemma {:induction false} YUY2Components()
    ensures forall c :: 0 <= c < 3 ==> YUY2_INFO.components[c].plane == 0 && ComponentPixelPitch(YUY2_INFO, c) == 2
    ensures YUY2_INFO.components[0].pixelStride == 2
  {
    assert Pow2(0) == 1 && Pow2(1) == 2;
  }

  /** YUY2 packs all components in one plane at 2 bytes per pixel; the unused planes keep their entries. */
  lemma {:induction false} PixelPitchesYUY2(out0: seq<int>)
    requires |out0| == 4
    ensures var out := ScanPixelPitches(YUY2_INFO, 3, out0).out;
      out[0] == 2 && out[1] == out0[1] && out[2] == out0[2] && out[3] == out0[3]
  {
    YUY2Components();
    YUY2Luma(out0);
    ScanAgrees(YUY2_INFO, 2, out0);
    ScanAgrees(YUY2_INFO, 3, out0);
  }

  lemma {:induction false} YUY2Luma(out0: seq<int>)
    requires |out0| == 4
    ensures var s1 := ScanPixelPitches(YUY2_INFO, 1, out0);
      s1.ok && s1.pitches[0] == 2 && s1.out == out0[0 := 2]
  {
    YUY2Components();
    var s0 := ScanPixelPitches(YUY2_INFO, 0, out0);
    assert s0.ok && s0.pitches[0] == 0 && s0.out == out0;
  }
}
