// Translation of FFmpeg pixel formats into the registry's video formats.

module FfmpegUtils {
  import opened Common
  import opened VideoFormats

  /** The FFmpeg pixel formats (`enum AVPixelFormat`) the programs translate or produce;
    * `OtherPixFmt` stands for every other member of that enumeration. */
  datatype PixelFormat =
    | PixFmtNone
    | Gray8 | Gray16
    | Yuv420p | Yuv422p | Yuv444p
    | Yuv420p10le | Yuv422p10le | Yuv444p10le
    | Yuv420p12le | Yuv422p12le | Yuv444p12le
    | Yuv420p16le | Yuv422p16le | Yuv444p16le
    | Nv12 | Yuyv422 | Uyvy422
    | OtherPixFmt(id: nat)

  datatype Chroma = Chroma400 | Chroma420 | Chroma422 | Chroma444

  /** The layout FFmpeg's descriptor gives a pixel format: chroma sampling, bits per
    * sample and number of planes. */
  datatype Layout = Layout(chroma: Chroma, depth: nat, planes: nat)

  function LayoutOf(p: PixelFormat): Option<Layout>
  {
    match p
    case Gray8 => Some(Layout(Chroma400, 8, 1))
    case Gray16 => Some(Layout(Chroma400, 16, 1))
    case Yuv420p => Some(Layout(Chroma420, 8, 3))
    case Yuv422p => Some(Layout(Chroma422, 8, 3))
    case Yuv444p => Some(Layout(Chroma444, 8, 3))
    case Yuv420p10le => Some(Layout(Chroma420, 10, 3))
    case Yuv422p10le => Some(Layout(Chroma422, 10, 3))
    case Yuv444p10le => Some(Layout(Chroma444, 10, 3))
    case Yuv420p12le => Some(Layout(Chroma420, 12, 3))
    case Yuv422p12le => Some(Layout(Chroma422, 12, 3))
    case Yuv444p12le => Some(Layout(Chroma444, 12, 3))
    case Yuv420p16le => Some(Layout(Chroma420, 16, 3))
    case Yuv422p16le => Some(Layout(Chroma422, 16, 3))
    case Yuv444p16le => Some(Layout(Chroma444, 16, 3))
    case Nv12 => Some(Layout(Chroma420, 8, 2))
    case Yuyv422 => Some(Layout(Chroma422, 8, 1))
    case Uyvy422 => Some(Layout(Chroma422, 8, 1))
    case _ => None
  }

  /** The registry's chroma type for a chroma sampling. */
  function ChromaType(c: Chroma): nat
  {
    match c
    case Chroma400 => RT_YUV400
    case Chroma420 => RT_YUV420
    case Chroma422 => RT_YUV422
    case Chroma444 => RT_YUV444
  }

  /** The five FFmpeg formats that have a counterpart in the registry. */
  predicate Translatable(p: PixelFormat)
  {
    p == Gray8 || p == Yuv420p || p == Nv12 || p == Yuyv422 || p == Uyvy422
  }

  /** The video format the switch of ffmpeg_to_mvt_video_format selects, UNKNOWN by default. */
  function VideoFormatOf(p: PixelFormat): (r: int)
    ensures r == UNKNOWN <==> !Translatable(p)
    ensures r != UNKNOWN ==> IsYuv(r)
  {
    match p
    case Gray8 => Y800
    case Yuv420p => I420
    case Nv12 => NV12
    case Yuyv422 => YUY2
    case Uyvy422 => UYVY
    case _ => UNKNOWN
  }

  /** A registry entry lays pixels out as `l` does: same chroma sampling, same number of
    * planes, every component `l.depth` bits wide. */
  predicate LayoutAgrees(info: FormatInfo, l: Layout)
  {
    info.chromaType == ChromaType(l.chroma) && info.numPlanes == l.planes &&
    info.numComponents <= |info.components| &&
    forall c :: 0 <= c < info.numComponents ==> info.components[c].bitDepth == l.depth
  }

  /** The translated format lays its pixels out as the FFmpeg format does, and carries
    * the registry name of the same layout. */
  lemma {:induction false} VideoFormatKeepsLayout(p: PixelFormat)
    requires Translatable(p)
    ensures LayoutOf(p).Some? && GetInfo(VideoFormatOf(p)).Some?
    ensures LayoutAgrees(GetInfo(VideoFormatOf(p)).value, LayoutOf(p).value)
    ensures GetName(VideoFormatOf(p)) == Some(match p
      case Gray8 => "Y800" case Yuv420p => "I420" case Nv12 => "NV12"
      case Yuyv422 => "YUY2" case _ => "UYVY")
  {
    match p
    case Gray8 => assert Table[Y800] == Y800_INFO;
    case Yuv420p => assert Table[I420] == I420_INFO;
    case Nv12 => assert Table[NV12] == NV12_INFO;
    case Yuyv422 => assert Table[YUY2] == YUY2_INFO;
    case Uyvy422 => assert Table[UYVY] == UYVY_INFO;
  }

  /** ffmpeg_to_mvt_video_format: succeeds exactly for the five translatable formats and
    * writes the format through a non-NULL pointer (`want`) only on success. */
  method ToVideoFormat(p: PixelFormat, want: bool) returns (ok: bool, format: Option<int>)
    ensures ok <==> Translatable(p)
    ensures format == if ok && want then Some(VideoFormatOf(p)) else None
  {
    var f: int;
    match p {
      case Gray8 => f := Y800;
      case Yuv420p => f := I420;
      case Nv12 => f := NV12;
      case Yuyv422 => f := YUY2;
      case Uyvy422 => f := UYVY;
      case _ => f := UNKNOWN;
    }
    if f == UNKNOWN {
      return false, None;
    }
    ok := true;
    format := if want then Some(f) else None;
  }
}
