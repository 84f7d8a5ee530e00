// The YUV4MPEG2 writer: a file object that commits one header line, built
// from an image info descriptor with default frame rate and aspect ratio,
// then appends frames, each a FRAME line followed by the visible samples of
// every component, laid out by the format of the header.

module ImageFiles {
  import opened Common
  import opened VideoFormats
  import opened Images
  import opened ImageHash
  import Printf

  /** `MvtImageFileMode`. */
  const MODE_READ: int := 1
  const MODE_WRITE: int := 2

  const DEFAULT_FPS_N: U32 := 60
  const DEFAULT_FPS_D: U32 := 1
  const DEFAULT_PAR_N: U32 := 1
  const DEFAULT_PAR_D: U32 := 1

  const Y4M_HEADER_TAG: string := "YUV4MPEG2"

  /** `MvtImageInfo`. */
  datatype Info = Info(format: int, width: U32, height: U32, fpsN: U32, fpsD: U32, parN: U32, parD: U32)

  /** `mvt_image_info_init`: the format and size given, 60 frames per second and square pixels. */
  function InfoInit(format: int, width: U32, height: U32): Info
  {
    Info(format, width, height, DEFAULT_FPS_N, DEFAULT_FPS_D, DEFAULT_PAR_N, DEFAULT_PAR_D)
  }

  /** `mvt_image_info_init_defaults`. */
  function InfoDefaults(): Info
  {
    InfoInit(UNKNOWN, 0, 0)
  }

  /** The copy `mvt_image_file_write_headers` keeps: a rate or an aspect with a zero term gets its default. */
  function WithDefaults(info: Info): Info
  {
    var i := if info.fpsN == 0 || info.fpsD == 0 then info.(fpsN := DEFAULT_FPS_N, fpsD := DEFAULT_FPS_D) else info;
    if info.parN == 0 || info.parD == 0 then i.(parN := DEFAULT_PAR_N, parD := DEFAULT_PAR_D) else i
  }

  /**
   * The filled copy keeps the format, the size and every rate or aspect
   * whose terms are both non-zero, has no zero term left, and filling
   * again changes nothing; a descriptor from `mvt_image_info_init` is
   * already filled.
   */
  lemma {:induction false} DefaultsFilled(info: Info, format: int, width: U32, height: U32)
    ensures var r := WithDefaults(info);
      r.format == info.format && r.width == info.width && r.height == info.height &&
      r.fpsN != 0 && r.fpsD != 0 && r.parN != 0 && r.parD != 0 &&
      (info.fpsN != 0 && info.fpsD != 0 ==> r.fpsN == info.fpsN && r.fpsD == info.fpsD) &&
      (info.fpsN == 0 || info.fpsD == 0 ==> r.fpsN == 60 && r.fpsD == 1) &&
      (info.parN != 0 && info.parD != 0 ==> r.parN == info.parN && r.parD == info.parD) &&
      (info.parN == 0 || info.parD == 0 ==> r.parN == 1 && r.parD == 1) &&
      WithDefaults(r) == r
    ensures WithDefaults(InfoInit(format, width, height)) == InfoInit(format, width, height)
  {
  }

  // ---------------------------------------------------------------------
  // Header fields

  /**
   * `y4m_get_picture_structure`: the switch on `fields & (VA_TOP_FIELD |
   * VA_BOTTOM_FIELD)`, the two low bits of `fields`.
   */
  function PictureStructure(fields: U32): char
  {
    var f := fields % 4;
    if f == VA_TOP_FIELD then 't'
    else if f == VA_BOTTOM_FIELD then 'b'
    else if f == VA_TOP_FIELD + VA_BOTTOM_FIELD then 'm'
    else 'p'
  }

  /**
   * Top field alone is 't', bottom field alone 'b', both 'm', neither
   * (the progressive frame the header always asks for, with 0) 'p'.
   */
  lemma {:induction false} PictureStructureFlags(fields: U32)
    ensures var top, bottom := fields % 2 == 1, fields / 2 % 2 == 1;
      PictureStructure(fields) ==
        (if top && bottom then 'm' else if top then 't' else if bottom then 'b' else 'p')
    ensures PictureStructure(0) == 'p'
  {
    var q := fields / 4;
    assert fields == 4 * q + fields % 4;
    assert fields / 2 == 2 * q + (fields % 4) / 2;
  }

  /** `y4m_get_colorspace`: the tag by chroma type; NULL for the chroma types Y4M has no tag for. */
  function Colorspace(vip: FormatInfo): Option<string>
  {
    if vip.chromaType == RT_YUV400 then Some("mono")
    else if vip.chromaType == RT_YUV411 then Some("411")
    else if vip.chromaType == RT_YUV420 then Some("420jpeg")
    else if vip.chromaType == RT_YUV422 then Some("422")
    else if vip.chromaType == RT_YUV444 then Some(if HasAlpha(vip.format) then "444alpha" else "444")
    else None
  }

  /** The chroma type a Y4M colorspace tag names. */
  function TagChroma(tag: string): Option<nat>
  {
    match tag
    case "mono" => Some(RT_YUV400)
    case "411" => Some(RT_YUV411)
    case "420jpeg" => Some(RT_YUV420)
    case "422" => Some(RT_YUV422)
    case "444" => Some(RT_YUV444)
    case "444alpha" => Some(RT_YUV444)
    case _ => None
  }

  /** Exactly the YUV formats have a tag, and the tag is the one their chroma type calls for. */
  lemma {:induction false} ColorspaceOfFormat(format: int)
    requires GetInfo(format).Some?
    ensures var vip := GetInfo(format).value;
      (Colorspace(vip).Some? <==> IsYuv(format)) &&
      (Colorspace(vip).Some? ==>
        TagChroma(Colorspace(vip).value) == Some(vip.chromaType) &&
        (Colorspace(vip).value == "444alpha" <==> HasAlpha(format)))
  {
    RgbYuvPartition(format);
    var vip := GetInfo(format).value;
    if Colorspace(vip).Some? {
      ColorspaceTag(vip);
    }
  }

  /**
   * A tag names the chroma type it was chosen for and says "alpha" exactly
   * for a 4:4:4 format with an alpha component, so it tells nothing of the
   * bit depth; it is one header word.
   */
  lemma {:induction false} ColorspaceTag(vip: FormatInfo)
    requires Colorspace(vip).Some?
    ensures TagChroma(Colorspace(vip).value) == Some(vip.chromaType)
    ensures Colorspace(vip).value == "444alpha" <==> vip.chromaType == RT_YUV444 && HasAlpha(vip.format)
    ensures ' ' !in Colorspace(vip).value && '\n' !in Colorspace(vip).value
  {
  }

  /** The words of the header line: the tag, then each field as a one-letter key and its value. */
  function HeaderWords(info: Info, ps: char, cs: string): seq<string>
  {
    [Y4M_HEADER_TAG,
     "W" + Printf.Decimal(info.width), "H" + Printf.Decimal(info.height),
     "F" + Printf.Decimal(info.fpsN) + ":" + Printf.Decimal(info.fpsD),
     "A" + Printf.Decimal(info.parN) + ":" + Printf.Decimal(info.parD),
     "I" + [ps], "C" + cs]
  }

  /**
   * The header line `YUV4MPEG2 W%u H%u F%u:%u A%u:%u I%c C%s` and its
   * newline: the words separated by single spaces.
   */
  function Y4mHeader(info: Info, ps: char, cs: string): string
  {
    Printf.Join(HeaderWords(info, ps, cs), ' ') + "\n"
  }

  /**
   * The header is one line: its only newline ends it, and the rest splits at
   * single spaces into exactly the seven words, the size written as the
   * decimal digits of its value.
   */
  lemma {:induction false} HeaderLine(info: Info, ps: char, cs: string)
    requires ps != ' ' && ps != '\n' && ' ' !in cs && '\n' !in cs
    ensures var h := Y4mHeader(info, ps, cs);
      |h| >= 1 && h[|h| - 1] == '\n' && '\n' !in h[..|h| - 1] &&
      Printf.Split(h[..|h| - 1], ' ') == HeaderWords(info, ps, cs)
    ensures Printf.DigitsValue(HeaderWords(info, ps, cs)[1][1..]) == info.width
    ensures Printf.DigitsValue(HeaderWords(info, ps, cs)[2][1..]) == info.height
  {
    var d1, d2 := Printf.Decimal(info.width), Printf.Decimal(info.height);
    var d3, d4 := Printf.Decimal(info.fpsN), Printf.Decimal(info.fpsD);
    var d5, d6 := Printf.Decimal(info.parN), Printf.Decimal(info.parD);
    DigitsOnly(d1);
    DigitsOnly(d2);
    DigitsOnly(d3);
    DigitsOnly(d4);
    DigitsOnly(d5);
    DigitsOnly(d6);
    var words := HeaderWords(info, ps, cs);
    forall i | 0 <= i < |words| ensures ' ' !in words[i] && '\n' !in words[i] {
    }
    Printf.SplitJoin(words, ' ');
    Printf.JoinFree(words, ' ', '\n');
    var h := Y4mHeader(info, ps, cs);
    assert h[..|h| - 1] == Printf.Join(words, ' ');
    assert words[1][1..] == d1;
    assert words[2][1..] == d2;
    Printf.DecimalValue(info.width);
    Printf.DecimalValue(info.height);
  }

  lemma {:induction false} DigitsOnly(s: string)
    requires Printf.AllDigits(s)
    ensures ' ' !in s && '\n' !in s && ':' !in s
  {
    forall i | 0 <= i < |s| ensures s[i] != ' ' && s[i] != '\n' && s[i] != ':' {
      assert Printf.IsDigit(s[i]);
    }
  }

  // ---------------------------------------------------------------------
  // File state

  /** The one file class, Y4M. */
  datatype FileClass = Y4m

  /** The value of a file object; `output` is everything written to the file so far. */
  datatype FileState = FileState(output: seq<Byte>, mode: int, info: Info, infoReady: bool, klass: Option<FileClass>)

  /** A file is open for writing, and once its header is committed it has the Y4M class and a YUV format. */
  predicate ValidState(st: FileState)
  {
    st.mode == MODE_WRITE && (st.infoReady ==> st.klass == Some(Y4m) && IsYuv(st.info.format))
  }

  /** `y4m_write_header` on the file state: the header line appended, or failure without a colorspace tag. */
  function WriteHeaderOf(st: FileState): Option<FileState>
  {
    var vip := GetInfo(st.info.format);
    // The source dereferences the descriptor; it is only reached with a registered format.
    var cs := if vip.Some? then Colorspace(vip.value) else None;
    if cs.None? then None
    else Some(st.(output := st.output + Ascii(Y4mHeader(st.info, PictureStructure(0), cs.value))))
  }

  /** `mvt_image_file_write_headers` on a file and a descriptor that are both present. */
  function CommitHeaders(st: FileState, info: Info): (bool, FileState)
  {
    if st.infoReady then (true, st)
    else
      var st1 := st.(info := WithDefaults(info));
      var vip := GetInfo(info.format);
      if vip.None? || !IsYuv(vip.value.format) then (false, st1)
      else
        var st2 := st1.(klass := Some(Y4m));
        var hdr := WriteHeaderOf(st2);
        if hdr.None? then (false, st2) else (true, hdr.value.(infoReady := true))
  }

  /**
   * Committing succeeds exactly on a file already committed or for a YUV
   * format; the first success appends the header of the filled descriptor
   * and marks the file ready, a failure writes nothing.
   */
  lemma {:induction false} CommitOutcome(st: FileState, info: Info)
    requires ValidState(st)
    ensures var (ok, st1) := CommitHeaders(st, info);
      ValidState(st1) &&
      (ok <==> st.infoReady || IsYuv(info.format)) &&
      (st.infoReady ==> st1 == st) &&
      (ok && !st.infoReady ==>
        st1.infoReady && st1.info == WithDefaults(info) && st1.klass == Some(Y4m) &&
        st1.output == st.output + Ascii(Y4mHeader(WithDefaults(info), 'p',
          Colorspace(GetInfo(info.format).value).value))) &&
      (!ok ==> !st1.infoReady && st1.output == st.output && st1.info == WithDefaults(info))
  {
    var vip := GetInfo(info.format);
    if vip.Some? {
      ColorspaceOfFormat(info.format);
      PictureStructureFlags(0);
    }
  }

  /** Once a commit succeeds, every later commit succeeds and changes nothing, whatever its descriptor. */
  lemma {:induction false} CommitIdempotent(st: FileState, info: Info, info2: Info)
    requires CommitHeaders(st, info).0
    ensures CommitHeaders(st, info).1.infoReady
    ensures CommitHeaders(CommitHeaders(st, info).1, info2) == (true, CommitHeaders(st, info).1)
  {
  }

  // ---------------------------------------------------------------------
  // Frame payload

  /** The components `y4m_write_image` writes: Y; Cb and Cr past one component; alpha past three. */
  function WrittenComponents(vip: FormatInfo): (cs: seq<nat>)
    ensures forall i :: 0 <= i < |cs| ==> cs[i] < 4
  {
    [0] + (if vip.numComponents > 1 then [1, 2] else []) + (if vip.numComponents > 3 then [3] else [])
  }

  /** Component `c` is readable and `mem` has the length of the block it lies in. */
  predicate Fits(s: ImageState, vip: FormatInfo, mems: seq<seq<Byte>>, c: nat)
  {
    c < 4 && c < |mems| && Readable(s, vip, c) && |mems[c]| == Plane(s, vip, c).Length
  }

  /** `mems[c]` stands for the block of each written component `c`. */
  predicate PlanesFit(s: ImageState, vip: FormatInfo, mems: seq<seq<Byte>>)
  {
    |mems| == 4 && forall c :: c in WrittenComponents(vip) ==> Fits(s, vip, mems, c)
  }

  /** Every component `y4m_write_image` visits is readable. */
  predicate Writable(s: ImageState, vip: FormatInfo)
  {
    FrameReadable(s, vip) && (vip.numComponents > 3 ==> Readable(s, vip, 3))
  }

  /** The blocks the written components lie in. */
  function WrittenBlocks(s: ImageState, vip: FormatInfo): set<array<Byte>>
    requires Writable(s, vip)
  {
    FrameBlocks(s, vip) + (if vip.numComponents > 3 then {Plane(s, vip, 3)} else {})
  }

  /** The contents of those blocks, by component. */
  function FramePlanes(s: ImageState, vip: FormatInfo): (mems: seq<seq<Byte>>)
    requires Writable(s, vip)
    reads WrittenBlocks(s, vip)
    ensures PlanesFit(s, vip, mems)
  {
    [Plane(s, vip, 0)[..],
     if vip.numComponents > 1 then Plane(s, vip, 1)[..] else [],
     if vip.numComponents > 1 then Plane(s, vip, 2)[..] else [],
     if vip.numComponents > 3 then Plane(s, vip, 3)[..] else []]
  }

  /**
   * `fwrite(p, w, 1, file)` of a zero-width row reports no item written, so a
   * unit-stride component with rows but no columns fails on its first row.
   */
  predicate EmptyRowsFail(s: ImageState, vip: FormatInfo, c: nat)
    requires Shaped(vip) && c < 4
  {
    vip.components[c].pixelStride == 1 &&
    ComponentWidth(vip, c, s.width) == 0 && ComponentHeight(vip, c, s.height) > 0
  }

  /**
   * The components `cs` written in turn: whether all succeed, and the bytes
   * written, up to the first failing component when one fails.
   */
  function Emit(s: ImageState, vip: FormatInfo, mems: seq<seq<Byte>>, cs: seq<nat>): (r: (bool, seq<Byte>))
    requires forall c :: c in cs ==> Fits(s, vip, mems, c)
    decreases |cs|
  {
    if cs == [] then (true, [])
    else
      assert cs[0] in cs;
      assert Fits(s, vip, mems, cs[0]);
      assert Readable(s, vip, cs[0]);
      if EmptyRowsFail(s, vip, cs[0]) then (false, [])
      else
        assert forall c :: c in cs[1..] ==> c in cs;
        var rest := Emit(s, vip, mems, cs[1..]);
        (rest.0, ComponentInput(s, vip, cs[0], mems[cs[0]]) + rest.1)
  }

  /** `y4m_write_image` after the FRAME line. */
  function FrameOutcome(s: ImageState, vip: FormatInfo, mems: seq<seq<Byte>>): (bool, seq<Byte>)
    requires PlanesFit(s, vip, mems)
  {
    Emit(s, vip, mems, WrittenComponents(vip))
  }

  /** Writing components succeeds exactly when none of them has rows of zero width on the unit-stride path. */
  lemma {:induction false} EmitOk(s: ImageState, vip: FormatInfo, mems: seq<seq<Byte>>, cs: seq<nat>)
    requires forall c :: c in cs ==> Fits(s, vip, mems, c)
    ensures Emit(s, vip, mems, cs).0 <==> forall c :: c in cs ==> !EmptyRowsFail(s, vip, c)
    decreases |cs|
  {
    if cs != [] {
      assert cs[0] in cs;
      assert forall c :: c in cs[1..] ==> c in cs;
      assert forall c :: c in cs ==> c == cs[0] || c in cs[1..];
      EmitOk(s, vip, mems, cs[1..]);
    }
  }

  /** The bytes of a frame written in full: Y, then Cb and Cr, then alpha, as the format has them. */
  function FrameBytes(s: ImageState, vip: FormatInfo, mems: seq<seq<Byte>>): seq<Byte>
    requires PlanesFit(s, vip, mems)
  {
    assert 0 in WrittenComponents(vip);
    assert vip.numComponents > 1 ==> 1 in WrittenComponents(vip) && 2 in WrittenComponents(vip);
    assert vip.numComponents > 3 ==> 3 in WrittenComponents(vip);
    ComponentInput(s, vip, 0, mems[0]) +
    (if vip.numComponents > 1 then ComponentInput(s, vip, 1, mems[1]) + ComponentInput(s, vip, 2, mems[2]) else []) +
    (if vip.numComponents > 3 then ComponentInput(s, vip, 3, mems[3]) else [])
  }

  /** A successful write of components is the first one's bytes and a successful write of the rest. */
  lemma {:induction false} EmitStep(s: ImageState, vip: FormatInfo, mems: seq<seq<Byte>>, cs: seq<nat>)
    requires cs != [] && forall c :: c in cs ==> Fits(s, vip, mems, c)
    requires Emit(s, vip, mems, cs).0
    ensures forall c :: c in cs[1..] ==> Fits(s, vip, mems, c)
    ensures Fits(s, vip, mems, cs[0]) && Emit(s, vip, mems, cs[1..]).0
    ensures Emit(s, vip, mems, cs).1 == ComponentInput(s, vip, cs[0], mems[cs[0]]) + Emit(s, vip, mems, cs[1..]).1
  {
    assert cs[0] in cs;
    assert forall c :: c in cs[1..] ==> c in cs;
  }

  /** A frame written without failure holds every written component in full, in order. */
  lemma {:induction false} FrameWhole(s: ImageState, vip: FormatInfo, mems: seq<seq<Byte>>)
    requires PlanesFit(s, vip, mems) && FrameOutcome(s, vip, mems).0
    ensures FrameOutcome(s, vip, mems).1 == FrameBytes(s, vip, mems)
  {
    var cs := WrittenComponents(vip);
    EmitStep(s, vip, mems, cs);
    var y := ComponentInput(s, vip, 0, mems[0]);
    if vip.numComponents > 1 {
      ghost var tail: seq<nat> := if vip.numComponents > 3 then [3] else [];
      assert cs[1..] == [1, 2] + tail;
      EmitStep(s, vip, mems, [1, 2] + tail);
      assert ([1, 2] + tail)[1..] == [2] + tail;
      EmitStep(s, vip, mems, [2] + tail);
      assert ([2] + tail)[1..] == tail;
      var u := ComponentInput(s, vip, 1, mems[1]);
      var v := ComponentInput(s, vip, 2, mems[2]);
      var t := Emit(s, vip, mems, tail).1;
      assert Emit(s, vip, mems, cs).1 == y + (u + (v + t));
      if vip.numComponents > 3 {
        EmitStep(s, vip, mems, [3]);
        assert [3][1..] == [];
        assert t == ComponentInput(s, vip, 3, mems[3]) + [];
      }
      Regroup(y, u, v, t);
    } else {
      assert cs[1..] == [];
    }
  }

  lemma Regroup<T>(a: seq<T>, b: seq<T>, c: seq<T>, d: seq<T>)
    ensures a + (b + (c + d)) == a + (b + c) + d
  {
  }

  /**
   * The frame payload is exactly the bytes `mvt_image_hash` feeds, the
   * visible samples of Y, Cb and Cr, followed by the visible samples of
   * alpha when the format has a fourth component.
   */
  lemma {:induction false} PayloadIsHashInput(s: ImageState, vip: FormatInfo)
    requires Writable(s, vip)
    requires FrameOutcome(s, vip, FramePlanes(s, vip)).0
    ensures FrameOutcome(s, vip, FramePlanes(s, vip)).1 ==
      FrameInput(s, vip) +
      (if vip.numComponents > 3 then ComponentInput(s, vip, 3, Plane(s, vip, 3)[..]) else [])
  {
    FrameWhole(s, vip, FramePlanes(s, vip));
  }

  /**
   * The payload size of a frame whose size does not wrap: w x h luma
   * samples, and ceil(w / 2^ws) x ceil(h / 2^hs) samples for each of Cb and
   * Cr and, where there is one, the alpha component.
   */
  lemma {:induction false} PayloadSize(s: ImageState, vip: FormatInfo, mems: seq<seq<Byte>>)
    requires PlanesFit(s, vip, mems) && FrameOutcome(s, vip, mems).0
    requires s.width + Pow2(vip.chromaWShift) <= U32_MOD && s.height + Pow2(vip.chromaHShift) <= U32_MOD
    ensures var cw, ch := CeilShr(s.width, vip.chromaWShift), CeilShr(s.height, vip.chromaHShift);
      |FrameOutcome(s, vip, mems).1| ==
      s.width * s.height + (if vip.numComponents > 1 then 2 * (cw * ch) else 0) +
      (if vip.numComponents > 3 then cw * ch else 0)
  {
    FrameWhole(s, vip, mems);
    var cw, ch := CeilShr(s.width, vip.chromaWShift), CeilShr(s.height, vip.chromaHShift);
    assert 0 in WrittenComponents(vip);
    ComponentLength(s, vip, mems, 0);
    var n1: nat := 0;
    if vip.numComponents > 1 {
      assert 1 in WrittenComponents(vip) && 2 in WrittenComponents(vip);
      ComponentLength(s, vip, mems, 1);
      ComponentLength(s, vip, mems, 2);
      ChromaCeiling(vip, 1, s.width, s.height);
      ChromaCeiling(vip, 2, s.width, s.height);
      n1 := 2 * (cw * ch);
    }
    var n3: nat := 0;
    if vip.numComponents > 3 {
      assert 3 in WrittenComponents(vip);
      ComponentLength(s, vip, mems, 3);
      ChromaCeiling(vip, 3, s.width, s.height);
      n3 := cw * ch;
    }
    assert |FrameBytes(s, vip, mems)| == s.width * s.height + n1 + n3;
  }

  /** A component contributes one byte per visible sample. */
  lemma {:induction false} ComponentLength(s: ImageState, vip: FormatInfo, mems: seq<seq<Byte>>, c: nat)
    requires Fits(s, vip, mems, c)
    ensures |ComponentInput(s, vip, c, mems[c])| ==
      ComponentWidth(vip, c, s.width) * ComponentHeight(vip, c, s.height)
  {
  }

  // ---------------------------------------------------------------------
  // Writing images

  /** The format frames are laid out by: the header's once committed, the image's before. */
  function FrameFormat(st: FileState, format: int): int
  {
    if st.infoReady then st.info.format else format
  }

  /** Every component the frame is written with is readable, when the format is one the file can commit. */
  predicate FrameReady(st: FileState, s: ImageState)
  {
    IsYuv(FrameFormat(st, s.format)) ==> Writable(s, GetInfo(FrameFormat(st, s.format)).value)
  }

  /** The planes of the image under the frame format (none when nothing is written). */
  function ImagePlanes(st: FileState, s: ImageState): seq<seq<Byte>>
    requires FrameReady(st, s)
    reads if IsYuv(FrameFormat(st, s.format)) then WrittenBlocks(s, GetInfo(FrameFormat(st, s.format)).value) else {}
  {
    if IsYuv(FrameFormat(st, s.format)) then FramePlanes(s, GetInfo(FrameFormat(st, s.format)).value) else []
  }

  /**
   * `mvt_image_file_write_image` on a file and an image that are both
   * present: headers committed from the image's own descriptor if none were,
   * then the FRAME line and the components of the frame format.
   */
  function WriteImageOf(st: FileState, s: ImageState, mems: seq<seq<Byte>>): (r: (bool, FileState))
    requires ValidState(st)
    requires IsYuv(FrameFormat(st, s.format)) ==> PlanesFit(s, GetInfo(FrameFormat(st, s.format)).value, mems)
    ensures ValidState(r.1)
  {
    var c := Committed(st, s);
    if !c.0 then (false, c.1)
    else
      var frame := FrameOutcome(s, GetInfo(c.1.info.format).value, mems);
      (frame.0, c.1.(output := c.1.output + Ascii("FRAME\n") + frame.1))
  }

  /**
   * The first image written to a fresh file commits the header of its own
   * format and size at 60:1 and 1:1, then its frame; writing does not
   * depend on the image for anything but its samples once committed, and
   * fails, writing nothing, for an image that is not YUV.
   */
  lemma {:induction false} FirstImage(st: FileState, s: ImageState, mems: seq<seq<Byte>>)
    requires ValidState(st) && !st.infoReady
    requires IsYuv(s.format) ==> PlanesFit(s, GetInfo(s.format).value, mems)
    ensures var (ok, st1) := WriteImageOf(st, s, mems);
      (!IsYuv(s.format) ==> !ok && st1.output == st.output && !st1.infoReady) &&
      (IsYuv(s.format) ==>
        st1.infoReady && st1.info == InfoInit(s.format, s.width, s.height) &&
        ok == FrameOutcome(s, GetInfo(s.format).value, mems).0 &&
        st1.output == st.output +
          Ascii(Y4mHeader(InfoInit(s.format, s.width, s.height), 'p', Colorspace(GetInfo(s.format).value).value)) +
          Ascii("FRAME\n") + FrameOutcome(s, GetInfo(s.format).value, mems).1)
  {
    var info := InfoInit(s.format, s.width, s.height);
    DefaultsFilled(info, s.format, s.width, s.height);
    CommitOutcome(st.(info := info), info);
  }

  /**
   * After a frame is written the header stays committed: every later image
   * appends only its FRAME line and payload, laid out by the header's
   * format whatever the format of the later image.
   */
  lemma {:induction false} LaterImages(st: FileState, s: ImageState, mems: seq<seq<Byte>>,
      s2: ImageState, mems2: seq<seq<Byte>>)
    requires ValidState(st)
    requires IsYuv(FrameFormat(st, s.format)) ==> PlanesFit(s, GetInfo(FrameFormat(st, s.format)).value, mems)
    requires WriteImageOf(st, s, mems).0
    ensures var st1 := WriteImageOf(st, s, mems).1;
      st1.infoReady && FrameFormat(st1, s2.format) == st1.info.format &&
      (PlanesFit(s2, GetInfo(st1.info.format).value, mems2) ==>
        WriteImageOf(st1, s2, mems2) ==
          (FrameOutcome(s2, GetInfo(st1.info.format).value, mems2).0,
           st1.(output := st1.output + Ascii("FRAME\n") + FrameOutcome(s2, GetInfo(st1.info.format).value, mems2).1)))
  {
    var info := InfoInit(s.format, s.width, s.height);
    if !st.infoReady {
      CommitOutcome(st.(info := info), info);
    }
  }

  /** A frame of a YUV format whose size is non-zero and does not wrap is always written. */
  lemma {:induction false} NonEmptyFrameWritten(s: ImageState, format: int, mems: seq<seq<Byte>>)
    requires IsYuv(format) && PlanesFit(s, GetInfo(format).value, mems)
    requires 0 < s.width < U32_MOD - 1 && 0 < s.height < U32_MOD - 1
    ensures FrameOutcome(s, GetInfo(format).value, mems).0
  {
    var vip := GetInfo(format).value;
    ShiftsByFamily(format);
    SmallShifts();
    forall c | c in WrittenComponents(vip) ensures !EmptyRowsFail(s, vip, c) {
      if c > 0 {
        ChromaPositive(vip, c, s.width);
      }
    }
    EmitOk(s, vip, mems, WrittenComponents(vip));
  }

  lemma {:induction false} ChromaPositive(vip: FormatInfo, c: nat, width: U32)
    requires c > 0 && vip.chromaWShift <= 1 && 0 < width < U32_MOD - 1
    ensures ComponentWidth(vip, c, width) > 0
  {
    SmallShifts();
  }

  // ---------------------------------------------------------------------
  // The file object

  /** A `FILE` opened for writing: the bytes written to it so far. */
  class Stream {
    var written: seq<Byte>

    constructor ()
      ensures written == []
    {
      written := [];
    }
  }

  class ImageFile {
    /** The stream the file was opened on. */
    const file: Stream
    var mode: int
    var info: Info
    var infoReady: bool
    var klass: Option<FileClass>

    function State(): FileState
      reads this, file
    {
      FileState(file.written, mode, info, infoReady, klass)
    }

    predicate Valid()
      reads this, file
    {
      ValidState(State())
    }

    /** calloc of the structure, a successful fopen in write mode, and the default descriptor. */
    constructor ()
      ensures fresh(file) && State() == FileState([], MODE_WRITE, InfoDefaults(), false, None)
    {
      file := new Stream();
      mode := MODE_WRITE;
      info := InfoDefaults();
      infoReady := false;
      klass := None;
    }
  }

  /**
   * `mvt_image_file_open`: NULL for a NULL path, for any mode but write, or
   * when the file cannot be opened (`fopenOk` is the outcome of fopen);
   * otherwise an empty file with the default descriptor and no header.
   */
  method Open(path: Option<string>, mode: int, fopenOk: bool) returns (fp: ImageFile?)
    ensures fp != null <==> path.Some? && mode == MODE_WRITE && fopenOk
    ensures fp != null ==> fresh(fp) && fresh(fp.file) && fp.Valid() && fp.State() == FileState([], MODE_WRITE, InfoDefaults(), false, None)
  {
    if path.None? {
      return null;
    }
    if mode != MODE_WRITE {
      return null;
    }
    if !fopenOk {
      return null;
    }
    fp := new ImageFile();
  }

  /** `y4m_write_header`. */
  method WriteHeader(fp: ImageFile) returns (ok: bool)
    modifies fp, fp.file
    ensures ok <==> WriteHeaderOf(old(fp.State())).Some?
    ensures fp.State() == if ok then WriteHeaderOf(old(fp.State())).value else old(fp.State())
  {
    var vip := GetInfo(fp.info.format);
    if vip.None? {
      return false;
    }
    var cs := Colorspace(vip.value);
    if cs.None? {
      return false;
    }
    var ps := PictureStructure(0);
    fp.file.written := fp.file.written + Ascii(Y4mHeader(fp.info, ps, cs.value));
    return true;
  }

  /** `mvt_image_file_write_headers`; `None` is a NULL descriptor. */
  method WriteHeaders(fp: ImageFile?, info: Option<Info>) returns (ok: bool)
    requires fp != null ==> fp.Valid()
    modifies fp, if fp != null then {fp.file} else {}
    ensures fp != null ==> fp.Valid()
    ensures fp == null || info.None? ==> !ok
    ensures fp != null && info.None? ==> fp.State() == old(fp.State())
    ensures fp != null && info.Some? ==> (ok, fp.State()) == CommitHeaders(old(fp.State()), info.value)
  {
    if fp == null || info.None? {
      return false;
    }
    ghost var st := fp.State();
    CommitOutcome(st, info.value);
    if fp.infoReady {
      return true;
    }
    var i := info.value;
    fp.info := i;
    if i.fpsN == 0 || i.fpsD == 0 {
      fp.info := fp.info.(fpsN := DEFAULT_FPS_N, fpsD := DEFAULT_FPS_D);
    }
    if i.parN == 0 || i.parD == 0 {
      fp.info := fp.info.(parN := DEFAULT_PAR_N, parD := DEFAULT_PAR_D);
    }
    var vip := GetInfo(i.format);
    if vip.None? || !IsYuv(vip.value.format) {
      return false;
    }
    fp.klass := Some(Y4m);
    ok := WriteHeader(fp);
    if !ok {
      return false;
    }
    fp.infoReady := true;
  }

  /**
   * `mvt_image_file_write_image`: fails on a NULL file or image; commits the
   * headers from the image's own format and size if none were, then writes
   * the FRAME line and the frame laid out by the committed format.
   */
  method WriteImage(fp: ImageFile?, image: Image?) returns (ok: bool)
    requires fp != null ==> fp.Valid()
    requires image != null ==> image.Valid()
    requires fp != null && image != null ==> FrameReady(fp.State(), image.State())
    modifies fp, if fp != null then {fp.file} else {}
    ensures fp != null ==> fp.Valid()
    ensures fp == null || image == null ==> !ok
    ensures fp != null && image == null ==> fp.State() == old(fp.State())
    ensures fp != null && image != null ==>
      (ok, fp.State()) == WriteImageOf(old(fp.State()), image.State(), old(ImagePlanes(fp.State(), image.State())))
  {
    if fp == null || image == null {
      return false;
    }
    ghost var st := fp.State();
    ghost var s := image.State();
    ghost var mems := ImagePlanes(st, s);
    ghost var blocks := if IsYuv(FrameFormat(st, s.format))
      then WrittenBlocks(s, GetInfo(FrameFormat(st, s.format)).value) else {};
    ok := CommitImage(fp, image, blocks);
    if !ok {
      return false;
    }
    var vip := GetInfo(fp.info.format).value;
    ok := WriteFrame(fp.file, image, vip, s, mems);
  }

  /**
   * `mvt_image_file_write_headers` from a descriptor, ahead of writing
   * `image`: the image's planes are untouched, so they read the same as long
   * as the frame format does.
   */
  method CommitInfo(fp: ImageFile, info: Info, image: Image) returns (ok: bool)
    requires fp.Valid() && FrameReady(fp.State(), image.State())
    modifies fp, fp.file
    ensures fp.Valid()
    ensures (ok, fp.State()) == CommitHeaders(old(fp.State()), info)
    ensures image.State() == old(image.State())
    ensures FrameFormat(fp.State(), image.format) == FrameFormat(old(fp.State()), image.format) ==>
      FrameReady(fp.State(), image.State()) &&
      ImagePlanes(fp.State(), image.State()) == old(ImagePlanes(fp.State(), image.State()))
  {
    ghost var st, s := fp.State(), image.State();
    ghost var mems := ImagePlanes(st, s);
    ghost var blocks := if IsYuv(FrameFormat(st, s.format))
      then WrittenBlocks(s, GetInfo(FrameFormat(st, s.format)).value) else {};
    ok := WriteHeadersKeeping(fp, info, blocks);
    if FrameFormat(fp.State(), s.format) == FrameFormat(st, s.format) && IsYuv(FrameFormat(st, s.format)) {
      var vip := GetInfo(FrameFormat(st, s.format)).value;
      assert ImagePlanes(fp.State(), s) == FramePlanes(s, vip) == mems;
    }
  }

  /** `mvt_image_file_write_headers` from a descriptor: the file is all it changes. */
  method WriteHeadersKeeping(fp: ImageFile, info: Info, ghost blocks: set<array<Byte>>) returns (ok: bool)
    requires fp.Valid()
    modifies fp, fp.file
    ensures fp.Valid()
    ensures (ok, fp.State()) == CommitHeaders(old(fp.State()), info)
    ensures forall a :: a in blocks ==> a[..] == old(a[..])
  {
    ok := WriteHeaders(fp, Some(info));
  }

  /** The first half of `mvt_image_file_write_image`: headers from the image's descriptor unless committed. */
  method CommitImage(fp: ImageFile, image: Image, ghost blocks: set<array<Byte>>) returns (ok: bool)
    requires fp.Valid()
    modifies fp, fp.file
    ensures fp.Valid()
    ensures (ok, fp.State()) == Committed(old(fp.State()), image.State())
    ensures image.State() == old(image.State())
    ensures forall a :: a in blocks ==> a[..] == old(a[..])
  {
    if !fp.infoReady {
      ghost var st := fp.State();
      var info := InfoInit(image.format, image.width, image.height);
      fp.info := info;
      CommitOutcome(st.(info := info), info);
      ok := WriteHeaders(fp, Some(info));
    } else {
      ok := true;
    }
  }

  /** The state once `mvt_image_file_write_image` has made sure the headers are committed. */
  function Committed(st: FileState, s: ImageState): (r: (bool, FileState))
    requires ValidState(st)
    ensures ValidState(r.1)
    ensures r.0 ==> r.1.infoReady && r.1.info.format == FrameFormat(st, s.format) && IsYuv(r.1.info.format)
  {
    var info := InfoInit(s.format, s.width, s.height);
    if st.infoReady then (true, st)
    else (CommitOutcome(st.(info := info), info); CommitHeaders(st.(info := info), info))
  }

  /** The blocks of a writable frame, by component. */
  lemma {:induction false} PlanesOf(s: ImageState, vip: FormatInfo)
    requires Writable(s, vip)
    ensures PlanesFit(s, vip, FramePlanes(s, vip))
    ensures forall c :: c in WrittenComponents(vip) ==> FramePlanes(s, vip)[c] == Plane(s, vip, c)[..]
  {
  }

  /** `y4m_write_image`: the FRAME line, then Y, Cb and Cr, and alpha, stopping at the first failure. */
  method WriteFrame(f: Stream, image: Image, vip: FormatInfo, ghost s: ImageState, ghost mems: seq<seq<Byte>>)
    returns (ok: bool)
    requires s == image.State() && Writable(s, vip) && mems == FramePlanes(s, vip)
    modifies f
    ensures ok == FrameOutcome(s, vip, mems).0
    ensures f.written == old(f.written) + Ascii("FRAME\n") + FrameOutcome(s, vip, mems).1
  {
    ghost var all := WrittenComponents(vip);
    Pending(s, vip, mems, all, all, []);
    f.written := f.written + Ascii("FRAME\n");
    ghost var added;
    ok, added := WriteComponents(f, image, vip, s, mems, all);
    if ok {
      Finished(s, vip, mems, all, [] + added);
    }
    assert [] + added == added;
  }

  /** The calls of `y4m_write_image_component` in `y4m_write_image`: Y, then the others. */
  method WriteComponents(f: Stream, image: Image, vip: FormatInfo, ghost s: ImageState, ghost mems: seq<seq<Byte>>,
      ghost all: seq<nat>) returns (ok: bool, ghost added: seq<Byte>)
    requires all == WrittenComponents(vip) && Left(s, vip, mems, all, all, [])
    requires s == image.State() && Writable(s, vip) && mems == FramePlanes(s, vip)
    modifies f
    ensures f.written == old(f.written) + added
    ensures ok ==> Left(s, vip, mems, all, [], [] + added)
    ensures !ok ==> Emit(s, vip, mems, all) == (false, [] + added)
  {
    assert 0 in all;
    ok, added := WriteNext(f, image, vip, 0, s, mems, all, all, []);
    if !ok {
      return;
    }
    ghost var more;
    ok, more := WriteOthers(f, image, vip, s, mems, all, [] + added);
    AppendTo(old(f.written), added, more);
    AppendTo([], added, more);
    added := added + more;
  }

  /** Cb and Cr when there is more than one component, then alpha when there are four. */
  method WriteOthers(f: Stream, image: Image, vip: FormatInfo, ghost s: ImageState, ghost mems: seq<seq<Byte>>,
      ghost all: seq<nat>, ghost done: seq<Byte>) returns (ok: bool, ghost added: seq<Byte>)
    requires all == WrittenComponents(vip) && Left(s, vip, mems, all, all[1..], done)
    requires s == image.State() && Writable(s, vip) && mems == FramePlanes(s, vip)
    modifies f
    ensures f.written == old(f.written) + added
    ensures ok ==> Left(s, vip, mems, all, [], done + added)
    ensures !ok ==> Emit(s, vip, mems, all) == (false, done + added)
  {
    if vip.numComponents > 3 {
      assert all[1..] == [1, 2] + [3] && 1 in all && 2 in all;
      ok, added := WriteChromaAlpha(f, image, vip, s, mems, all, done);
    } else if vip.numComponents > 1 {
      assert all[1..] == [1, 2] + [] && 1 in all && 2 in all;
      ok, added := WriteChroma(f, image, vip, s, mems, all, [], done);
    } else {
      assert all[1..] == [] && done + [] == done;
      ok, added := true, [];
    }
  }

  /** Cb, Cr and alpha, each only when the one before succeeds. */
  method WriteChromaAlpha(f: Stream, image: Image, vip: FormatInfo, ghost s: ImageState, ghost mems: seq<seq<Byte>>,
      ghost all: seq<nat>, ghost done: seq<Byte>) returns (ok: bool, ghost added: seq<Byte>)
    requires Left(s, vip, mems, all, [1, 2] + [3], done) && 1 in all && 2 in all && vip.numComponents > 3
    requires s == image.State() && Writable(s, vip) && mems == FramePlanes(s, vip) && all == WrittenComponents(vip)
    modifies f
    ensures f.written == old(f.written) + added
    ensures ok ==> Left(s, vip, mems, all, [], done + added)
    ensures !ok ==> Emit(s, vip, mems, all) == (false, done + added)
  {
    ok, added := WriteChroma(f, image, vip, s, mems, all, [3], done);
    if !ok {
      return;
    }
    ghost var more;
    ok, more := WriteAlpha(f, image, vip, s, mems, all, done + added);
    AppendTo(old(f.written), added, more);
    AppendTo(done, added, more);
    added := added + more;
  }

  /** The alpha call of `y4m_write_image`, the last component of a four-component format. */
  method WriteAlpha(f: Stream, image: Image, vip: FormatInfo, ghost s: ImageState, ghost mems: seq<seq<Byte>>,
      ghost all: seq<nat>, ghost done: seq<Byte>) returns (ok: bool, ghost added: seq<Byte>)
    requires Left(s, vip, mems, all, [3], done) && vip.numComponents > 3
    requires s == image.State() && Writable(s, vip) && mems == FramePlanes(s, vip) && all == WrittenComponents(vip)
    modifies f
    ensures f.written == old(f.written) + added
    ensures ok ==> Left(s, vip, mems, all, [], done + added)
    ensures !ok ==> Emit(s, vip, mems, all) == (false, done + added)
  {
    assert 3 in all;
    ok, added := WriteNext(f, image, vip, 3, s, mems, all, [3], done);
    assert [3][1..] == [];
  }

  /** The Cb then the Cr call of `y4m_write_image`, the second only when the first succeeds. */
  method WriteChroma(f: Stream, image: Image, vip: FormatInfo, ghost s: ImageState, ghost mems: seq<seq<Byte>>,
      ghost all: seq<nat>, ghost tail: seq<nat>, ghost done: seq<Byte>) returns (ok: bool, ghost added: seq<Byte>)
    requires Left(s, vip, mems, all, [1, 2] + tail, done) && 1 in all && 2 in all
    requires s == image.State() && Writable(s, vip) && mems == FramePlanes(s, vip) && all == WrittenComponents(vip)
    modifies f
    ensures f.written == old(f.written) + added
    ensures ok ==> Left(s, vip, mems, all, tail, done + added)
    ensures !ok ==> Emit(s, vip, mems, all) == (false, done + added)
  {
    assert ([1, 2] + tail)[0] == 1;
    ok, added := WriteNext(f, image, vip, 1, s, mems, all, [1, 2] + tail, done);
    if !ok {
      return;
    }
    assert ([1, 2] + tail)[1..] == [2] + tail;
    ghost var more;
    ok, more := WriteNext(f, image, vip, 2, s, mems, all, [2] + tail, done + added);
    assert ([2] + tail)[1..] == tail;
    AppendTo(old(f.written), added, more);
    AppendTo(done, added, more);
    added := added + more;
  }

  /**
   * One `y4m_write_image_component` call of `y4m_write_image`: the next
   * component of `cs` is written, adding `added` to the file.
   */
  method WriteNext(f: Stream, image: Image, vip: FormatInfo, c: nat, ghost s: ImageState, ghost mems: seq<seq<Byte>>,
      ghost all: seq<nat>, ghost cs: seq<nat>, ghost done: seq<Byte>) returns (ok: bool, ghost added: seq<Byte>)
    requires cs != [] && c == cs[0] && Left(s, vip, mems, all, cs, done) && Fits(s, vip, mems, cs[0])
    requires s == image.State() && Writable(s, vip) && mems == FramePlanes(s, vip) && all == WrittenComponents(vip)
    requires c in all
    modifies f
    ensures f.written == old(f.written) + added
    ensures ok ==> Left(s, vip, mems, all, cs[1..], done + added)
    ensures !ok ==> Emit(s, vip, mems, all) == (false, done + added)
  {
    PlanesOf(s, vip);
    ok := WriteComponent(f, image, vip, c, s, mems[c]);
    Advance(s, vip, mems, all, cs, done);
    added := if ok then ComponentInput(s, vip, cs[0], mems[cs[0]]) else [];
    assert done + added == done || ok;
  }

  lemma AppendTo(base: seq<Byte>, done: seq<Byte>, added: seq<Byte>)
    ensures base + done + added == base + (done + added)
  {
  }

  /** Writing `all` has produced `done` and has the components `cs` left to write. */
  ghost predicate Left(s: ImageState, vip: FormatInfo, mems: seq<seq<Byte>>, all: seq<nat>, cs: seq<nat>, done: seq<Byte>)
  {
    (forall c :: c in all ==> Fits(s, vip, mems, c)) &&
    (forall c :: c in cs ==> Fits(s, vip, mems, c)) &&
    Emit(s, vip, mems, all) == (Emit(s, vip, mems, cs).0, done + Emit(s, vip, mems, cs).1)
  }

  lemma {:induction false} Pending(s: ImageState, vip: FormatInfo, mems: seq<seq<Byte>>, all: seq<nat>, cs: seq<nat>,
      done: seq<Byte>)
    requires all == cs && done == [] && forall c :: c in all ==> Fits(s, vip, mems, c)
    ensures Left(s, vip, mems, all, cs, done)
  {
    assert done + Emit(s, vip, mems, cs).1 == Emit(s, vip, mems, cs).1;
  }

  /** Writing the next component either fails the whole write with what was written so far, or moves on. */
  lemma {:induction false} Advance(s: ImageState, vip: FormatInfo, mems: seq<seq<Byte>>, all: seq<nat>, cs: seq<nat>,
      done: seq<Byte>)
    requires cs != [] && Left(s, vip, mems, all, cs, done)
    ensures Fits(s, vip, mems, cs[0])
    ensures EmptyRowsFail(s, vip, cs[0]) ==> Emit(s, vip, mems, all) == (false, done)
    ensures !EmptyRowsFail(s, vip, cs[0]) ==>
      Left(s, vip, mems, all, cs[1..], done + ComponentInput(s, vip, cs[0], mems[cs[0]]))
  {
    EmitHead(s, vip, mems, cs);
    if !EmptyRowsFail(s, vip, cs[0]) {
      var x := ComponentInput(s, vip, cs[0], mems[cs[0]]);
      var rest := Emit(s, vip, mems, cs[1..]).1;
      assert done + (x + rest) == done + x + rest;
    } else {
      assert done + [] == done;
    }
  }

  lemma {:induction false} Finished(s: ImageState, vip: FormatInfo, mems: seq<seq<Byte>>, all: seq<nat>, done: seq<Byte>)
    requires Left(s, vip, mems, all, [], done)
    ensures Emit(s, vip, mems, all) == (true, done)
  {
    assert done + [] == done;
  }

  /** Writing a non-empty list of components unfolds to its first component and the rest. */
  lemma {:induction false} EmitHead(s: ImageState, vip: FormatInfo, mems: seq<seq<Byte>>, cs: seq<nat>)
    requires cs != [] && forall c :: c in cs ==> Fits(s, vip, mems, c)
    ensures Fits(s, vip, mems, cs[0]) && forall c :: c in cs[1..] ==> Fits(s, vip, mems, c)
    ensures Emit(s, vip, mems, cs) ==
      if EmptyRowsFail(s, vip, cs[0]) then (false, [])
      else (Emit(s, vip, mems, cs[1..]).0,
            ComponentInput(s, vip, cs[0], mems[cs[0]]) + Emit(s, vip, mems, cs[1..]).1)
  {
    assert cs[0] in cs;
    assert forall c :: c in cs[1..] ==> c in cs;
  }

  /**
   * `y4m_write_image_component`: the visible samples of component `c`, row
   * by row, with one fwrite per row on the unit-stride path and one putc per
   * sample otherwise.
   */
  method WriteComponent(f: Stream, image: Image, vip: FormatInfo, c: nat, ghost s: ImageState, ghost mem: seq<Byte>)
    returns (ok: bool)
    requires s == image.State() && Readable(s, vip, c) && mem == Plane(s, vip, c)[..]
    modifies f
    ensures ok <==> !EmptyRowsFail(s, vip, c)
    ensures f.written == old(f.written) + if ok then ComponentInput(s, vip, c, mem) else []
  {
    var cip := vip.components[c];
    var w, h := ComponentWidth(vip, c, image.width), ComponentHeight(vip, c, image.height);
    var pitch := image.pitches[cip.plane];
    var p := ComponentStart(image.State(), vip, c);
    if cip.pixelStride == 1 {
      ok := WriteRows(f, p.block, p.pos, pitch, w, h, mem);
    } else {
      WriteSamples(f, p.block, p.pos, pitch, cip.pixelStride, w, h, mem);
      ok := true;
    }
  }

  /**
   * The unit-stride path: `fwrite` of each whole row; a zero-width row
   * writes no item, which fails the component before anything is written.
   */
  method WriteRows(f: Stream, blk: array<Byte>, pos: int, pitch: U32, w: U32, h: U32, ghost mem: seq<Byte>)
    returns (ok: bool)
    requires mem == blk[..] && Inside(|mem|, pos, pitch, 1, w, h)
    modifies f
    ensures ok <==> w > 0 || h == 0
    ensures f.written == old(f.written) + if ok then Samples(mem, pos, pitch, 1, w, h) else []
  {
    var y: U32 := 0;
    while y < h
      invariant y <= h && (y > 0 ==> w > 0)
      invariant Inside(|mem|, pos, pitch, 1, w, y)
      invariant f.written == old(f.written) + Samples(mem, pos, pitch, 1, w, y)
    {
      var r := pos + y * pitch;
      if w > 0 {
        UnitRowsStep(mem, pos, pitch, w, y, h);
      }
      var n := Fwrite(f, blk, r, w);
      if n != 1 {
        return false;
      }
      assert blk[r..r + w] == mem[r..r + w];
      Assoc(old(f.written), Samples(mem, pos, pitch, 1, w, y), mem[r..r + w]);
      y := y + 1;
    }
    return true;
  }

  /** One more row of single-byte samples is the next slice of the buffer. */
  lemma {:induction false} UnitRowsStep(mem: seq<Byte>, pos: int, pitch: nat, w: nat, y: nat, h: nat)
    requires Inside(|mem|, pos, pitch, 1, w, h) && y < h && w > 0
    ensures Inside(|mem|, pos, pitch, 1, w, y + 1)
    ensures 0 <= pos + y * pitch && pos + y * pitch + w <= |mem|
    ensures Samples(mem, pos, pitch, 1, w, y + 1) ==
      Samples(mem, pos, pitch, 1, w, y) + mem[pos + y * pitch..pos + y * pitch + w]
  {
    InsidePrefix(|mem|, pos, pitch, 1, w, y + 1, h);
    RowsInside(|mem|, pos, pitch, 1, w, y);
    UnitRowIsSlice(mem, pos + y * pitch, w);
  }

  /** `fwrite(p, w, 1, file)`: the number of items written, which is none for an item of zero bytes. */
  method Fwrite(f: Stream, blk: array<Byte>, r: int, w: nat) returns (n: nat)
    requires w == 0 || (0 <= r && r + w <= blk.Length)
    modifies f
    ensures n == if w > 0 then 1 else 0
    ensures f.written == old(f.written) + if w > 0 then blk[r..r + w] else []
  {
    if w == 0 {
      return 0;
    }
    f.written := f.written + blk[r..r + w];
    return 1;
  }

  /** The other path: `putc` of each sample, at `x * pixel_stride` in its row. */
  method WriteSamples(f: Stream, blk: array<Byte>, pos: int, pitch: U32, stride: nat, w: U32, h: U32,
      ghost mem: seq<Byte>)
    requires mem == blk[..] && Inside(|mem|, pos, pitch, stride, w, h)
    requires w == 0 || (w - 1) * stride < U32_MOD
    modifies f
    ensures f.written == old(f.written) + Samples(mem, pos, pitch, stride, w, h)
  {
    var y: U32 := 0;
    while y < h
      invariant y <= h
      invariant Inside(|mem|, pos, pitch, stride, w, y)
      invariant f.written == old(f.written) + Samples(mem, pos, pitch, stride, w, y)
    {
      ImageHash.SamplesStep(mem, pos, pitch, stride, w, y, h);
      WriteRow(f, blk, pos + y * pitch, stride, w, mem);
      ImageHash.Assoc(old(f.written), Samples(mem, pos, pitch, stride, w, y), Row(mem, pos + y * pitch, stride, w));
      y := y + 1;
    }
  }

  /** One row of samples, one `putc` each. */
  method WriteRow(f: Stream, blk: array<Byte>, r: int, stride: nat, w: U32, ghost mem: seq<Byte>)
    requires mem == blk[..] && (w == 0 || (0 <= r && r + (w - 1) * stride < |mem|))
    requires w == 0 || (w - 1) * stride < U32_MOD
    modifies f
    ensures f.written == old(f.written) + Row(mem, r, stride, w)
  {
    var x: U32 := 0;
    while x < w
      invariant x <= w
      invariant f.written == old(f.written) + Row(mem, r, stride, x)
    {
      ImageHash.MulAtLeast(w - 1, x, stride);
      var i := r + Wrap32(x * stride);
      assert i == r + x * stride;
      f.written := f.written + [blk[i]];
      x := x + 1;
    }
  }
}
