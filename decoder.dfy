// The decoder front end: its options and their defaults, the file names it
// derives, and the bookkeeping `mvt_decoder_handle_image` does per frame
// (running maxima of the size, the frame count, the report line and the
// raw output).

module Decoders {
  import opened Common
  import opened VideoFormats
  import opened Images
  import opened ImageFiles
  import Maps
  import Hashes
  import ImageHash
  import Reports
  import Strings

  // ---------------------------------------------------------------------
  // Hardware acceleration names

  const HWACCEL_NONE: int := 0
  const HWACCEL_VAAPI: int := 1

  /** `hwaccel_map`, whose `{ NULL, }` sentinel leaves the value at `MVT_HWACCEL_NONE`. */
  const HwaccelMap: Maps.Map :=
    Maps.Map([Maps.Entry("none", HWACCEL_NONE), Maps.Entry("vaapi", HWACCEL_VAAPI)], HWACCEL_NONE)

  /** `mvt_hwaccel_from_name`: an unknown name selects no acceleration. */
  method HwaccelFromName(name: string) returns (h: int)
    ensures h == (if name == "vaapi" then HWACCEL_VAAPI else HWACCEL_NONE)
  {
    h := Maps.Lookup(HwaccelMap, name);
    assert HwaccelMap.entries[0].name == "none" && HwaccelMap.entries[1].name == "vaapi";
  }

  /** `mvt_hwaccel_to_name`; `None` is NULL. */
  method HwaccelToName(h: int) returns (name: Option<string>)
    ensures name == (if h == HWACCEL_NONE then Some("none")
                     else if h == HWACCEL_VAAPI then Some("vaapi") else None)
  {
    name := Maps.LookupValue(HwaccelMap, h);
    assert HwaccelMap.entries[0].value == HWACCEL_NONE && HwaccelMap.entries[1].value == HWACCEL_VAAPI;
  }

  /** The table lists each name and each mode once, so the two lookups invert each other. */
  lemma {:induction false} HwaccelRoundTrip(name: string, h: int)
    ensures Maps.Distinct(HwaccelMap)
    ensures Maps.LookupValueOf(HwaccelMap, h).Some? ==>
      Maps.LookupOf(HwaccelMap, Maps.LookupValueOf(HwaccelMap, h).value) == h
    ensures Maps.FirstNamed(HwaccelMap.entries, name).Some? ==>
      Maps.LookupValueOf(HwaccelMap, Maps.LookupOf(HwaccelMap, name)) == Some(name)
  {
    assert Maps.RowFresh(HwaccelMap, 0) && Maps.RowFresh(HwaccelMap, 1);
    Maps.DistinctRows(HwaccelMap);
    Maps.LookupRoundTrip(HwaccelMap, name, h);
  }

  // ---------------------------------------------------------------------
  // Options

  /** `MvtDecoderOptions`; `None` is a NULL string. */
  datatype Options = Options(
    filename: Option<string>,
    configFilename: Option<string>,
    reportFilename: Option<string>,
    outputFilename: Option<string>,
    hashType: int,
    hwaccel: int,
    benchmark: bool)

  /** `mvt_decoder_options_init`: every field zero, then the default hash and acceleration. */
  function OptionsInit(): Options
  {
    Options(None, None, None, None, Hashes.HASH_TYPE_ADLER32, HWACCEL_NONE, false)
  }

  /**
   * The defaults are the modes named "adler32" and "none"; no file name is
   * set and benchmark mode is off.
   */
  lemma {:induction false} DefaultOptions()
    ensures var o := OptionsInit();
      Maps.LookupValueOf(Hashes.HashTypes, o.hashType) == Some("adler32") &&
      Maps.LookupValueOf(HwaccelMap, o.hwaccel) == Some("none") &&
      o.filename.None? && o.configFilename.None? && o.reportFilename.None? &&
      o.outputFilename.None? && !o.benchmark
  {
    Maps.FirstValuedAt(Hashes.HashTypes.entries, Hashes.HASH_TYPE_ADLER32, 0);
    Maps.FirstValuedAt(HwaccelMap.entries, HWACCEL_NONE, 0);
  }

  // ---------------------------------------------------------------------
  // File names

  /** `strrchr(s, c)`: the offset of the last `c`, if any. */
  function LastIndexOf(s: string, c: char): (r: Option<nat>)
    ensures r.Some? ==> r.value < |s| && s[r.value] == c && c !in s[r.value + 1..]
    ensures r.None? ==> c !in s
    decreases |s|
  {
    if s == [] then None
    else if s[|s| - 1] == c then Some(|s| - 1)
    else
      var r := LastIndexOf(s[..|s| - 1], c);
      assert s == s[..|s| - 1] + [s[|s| - 1]];
      if r.Some? then (assert s[r.value + 1..] == s[..|s| - 1][r.value + 1..] + [s[|s| - 1]]; r) else r
  }

  /**
   * `get_basename`: what follows the last '/', or the whole name. The result
   * is the longest suffix without a '/': it ends the name, holds no '/', and
   * a '/' comes right before it whenever it is shorter than the name.
   */
  function GetBasename(filename: string): (r: string)
    ensures |r| <= |filename| && filename[|filename| - |r|..] == r
    ensures '/' !in r
    ensures |r| < |filename| ==> filename[|filename| - |r| - 1] == '/'
  {
    var s := LastIndexOf(filename, '/');
    if s.Some? then filename[s.value + 1..] else filename
  }

  /** A name without a '/' is its own basename, and so is any basename. */
  lemma {:induction false} BasenameIdempotent(filename: string)
    ensures '/' !in filename ==> GetBasename(filename) == filename
    ensures GetBasename(GetBasename(filename)) == GetBasename(filename)
  {
    NoSlash(filename);
    NoSlash(GetBasename(filename));
  }

  lemma {:induction false} NoSlash(filename: string)
    ensures '/' !in filename ==> LastIndexOf(filename, '/').None? && GetBasename(filename) == filename
  {
  }

  /** A tail without `c` does not move the last `c`. */
  lemma {:induction false} LastIndexOfTail(p: string, t: string, c: char)
    requires c !in t
    ensures LastIndexOf(p + t, c) == LastIndexOf(p, c)
    decreases |t|
  {
    if t == [] {
      assert p + t == p;
    } else {
      var t0 := t[..|t| - 1];
      assert (p + t)[..|p + t| - 1] == p + t0;
      LastIndexOfTail(p, t0, c);
    }
  }

  /** The basename of `dir/name` is `name` when `name` holds no '/'. */
  lemma {:induction false} BasenameOfPath(dir: string, name: string)
    requires '/' !in name
    ensures GetBasename(dir + "/" + name) == name
  {
    LastIndexOfTail(dir + "/", name, '/');
  }

  /** `is_dev_null`: the name is present and `strcmp` finds it equal to "/dev/null". */
  function IsDevNull(filename: Option<string>): (r: bool)
    ensures r <==> filename == Some("/dev/null")
  {
    filename.Some? && Strings.StrCmp(filename.value, "/dev/null") == 0
  }

  /** The `strcpy`/`strcat` of the basename and ".raw". */
  function DefaultOutputName(filename: string): (r: string)
    ensures |r| >= 4 && r[|r| - 4..] == ".raw" && r[..|r| - 4] == GetBasename(filename)
    ensures '/' !in r
  {
    var base := GetBasename(filename);
    assert (base + ".raw")[..|base|] == base;
    base + ".raw"
  }

  /**
   * The end of option parsing: `--gen-output` without a path, on an input
   * file, names the output after the input's basename; an explicit path, or
   * no request, leaves the output name as it is.
   */
  function WithOutputName(options: Options, genOutput: bool): (r: Options)
    ensures r.(outputFilename := options.outputFilename) == options
    ensures options.outputFilename.Some? || !genOutput || options.filename.None? ==> r == options
    ensures options.outputFilename.None? && genOutput && options.filename.Some? ==>
      r.outputFilename.Some? && r.outputFilename.value == DefaultOutputName(options.filename.value)
  {
    if genOutput && options.outputFilename.None? && options.filename.Some? then
      options.(outputFilename := Some(DefaultOutputName(options.filename.value)))
    else options
  }

  /** An input `dir/name.ext` is written to `name.ext.raw` in the working directory. */
  lemma {:induction false} OutputNameOfPath(dir: string, name: string)
    requires '/' !in name
    ensures DefaultOutputName(dir + "/" + name) == name + ".raw"
  {
    BasenameOfPath(dir, name);
    var r := DefaultOutputName(dir + "/" + name);
    assert r == r[..|r| - 4] + r[|r| - 4..];
  }

  // ---------------------------------------------------------------------
  // The raw output of the decoded frames

  /**
   * The descriptor of the first frame's output: when the format or the size
   * differs from the one kept, it is re-initialised for the image with the
   * old frame rate and pixel aspect ratio copied back.
   */
  function NextInfo(info: Info, format: int, width: U32, height: U32): Info
  {
    if info.format != format || info.width != width || info.height != height then
      var init := InfoInit(format, width, height);
      init.(fpsN := info.fpsN, fpsD := info.fpsD, parN := info.parN, parD := info.parD)
    else info
  }

  /** Either way the descriptor is the old one with the image's format and size: rates and aspect are kept. */
  lemma {:induction false} NextInfoOf(info: Info, format: int, width: U32, height: U32)
    ensures NextInfo(info, format, width, height) == info.(format := format, width := width, height := height)
  {
  }

  /**
   * The output step of one frame: while no frame has been counted the
   * headers are committed from `info` first, then the frame is written; a
   * failed commit writes no frame.
   */
  function OutputOf(st: FileState, s: ImageState, info: Info, first: bool, mems: seq<seq<Byte>>): (r: (bool, FileState))
    requires ValidState(st)
    requires first ==> info.format == s.format
    requires IsYuv(FrameFormat(st, s.format)) ==> PlanesFit(s, GetInfo(FrameFormat(st, s.format)).value, mems)
    ensures ValidState(r.1)
  {
    if !first then WriteImageOf(st, s, mems)
    else
      var c := CommitHeaders(st, info);
      CommitOutcome(st, info);
      if !c.0 then c else WriteImageOf(c.1, s, mems)
  }

  /** Once the file's header is committed, a frame adds no header, whether or not it is counted as the first. */
  lemma {:induction false} CommittedOutput(st: FileState, s: ImageState, info: Info, first: bool, mems: seq<seq<Byte>>)
    requires ValidState(st) && st.infoReady
    requires first ==> info.format == s.format
    requires IsYuv(FrameFormat(st, s.format)) ==> PlanesFit(s, GetInfo(FrameFormat(st, s.format)).value, mems)
    ensures OutputOf(st, s, info, first, mems) == WriteImageOf(st, s, mems)
  {
    CommitOutcome(st, info);
  }

  /**
   * The first YUV frame on a fresh file commits the header of the filled
   * descriptor, then appends its FRAME line and payload; any other format
   * fails and adds nothing.
   */
  lemma {:induction false} FirstOutput(st: FileState, s: ImageState, info: Info, mems: seq<seq<Byte>>)
    requires ValidState(st) && !st.infoReady && info.format == s.format
    requires IsYuv(s.format) ==> PlanesFit(s, GetInfo(s.format).value, mems)
    ensures var (ok, st1) := OutputOf(st, s, info, true, mems);
      (!IsYuv(s.format) ==> !ok && st1.output == st.output) &&
      (IsYuv(s.format) ==>
        st1.infoReady && st1.info == WithDefaults(info) &&
        ok == FrameOutcome(s, GetInfo(s.format).value, mems).0 &&
        st1.output == st.output +
          Ascii(Y4mHeader(WithDefaults(info), 'p', Colorspace(GetInfo(s.format).value).value)) +
          Ascii("FRAME\n") + FrameOutcome(s, GetInfo(s.format).value, mems).1)
  {
    CommitOutcome(st, info);
  }

  // ---------------------------------------------------------------------
  // The two steps of a frame

  /** A successful commit on a file without a header takes the descriptor's format. */
  lemma {:induction false} CommitFormat(st: FileState, info: Info)
    requires ValidState(st)
    ensures var (ok, st1) := CommitHeaders(st, info);
      ValidState(st1) && (ok && !st.infoReady ==> st1.infoReady && st1.info.format == info.format) &&
      (st.infoReady ==> st1 == st)
  {
    CommitOutcome(st, info);
  }

  /**
   * The hash and report step of `mvt_decoder_handle_image`: hash the image
   * and write its line; the report's own result is not looked at. Arrays of
   * bytes are left alone.
   */
  method HashAndReport(hash: Hashes.Hash, report: Reports.Report, image: Image, ghost blocks: set<array<Byte>>)
      returns (ok: bool)
    requires hash.Valid() && report.Valid() && image.Valid()
    requires IsYuv(image.format) ==> ImageHash.FrameReadable(image.State(), GetInfo(image.format).value)
    modifies hash, report
    ensures hash.Valid() && report.Valid()
    ensures ok <==> IsYuv(image.format)
    ensures !ok ==> unchanged(hash, report)
    ensures ok ==>
      hash.fed == old(ImageHash.FrameInput(image.State(), GetInfo(image.format).value)) &&
      report.text == old(report.text) +
        Reports.Entry(old(report.imageIndex), image.width, image.height, hash.value[..hash.klass.valueLength]) &&
      report.imageIndex == Wrap32(old(report.imageIndex) as int + 1)
    ensures forall a :: a in blocks ==> a[..] == old(a[..])
    ensures ReportDone(hash, report, image)
  {
    ok := ImageHash.Hash(image, hash);
    if !ok {
      return false;
    }
    var _ := Reports.WriteImageHash(report, image, hash);
  }

  /**
   * The output step of `mvt_decoder_handle_image`: headers from `info` on
   * the first counted frame, then the image.
   */
  method OutputImage(fp: ImageFile, image: Image, info: Info, first: bool, ghost st: FileState, ghost mems: seq<seq<Byte>>)
      returns (ok: bool)
    requires fp.Valid() && image.Valid() && FrameReady(fp.State(), image.State())
    requires first ==> info.format == image.format
    requires st == fp.State() && mems == ImagePlanes(st, image.State())
    modifies fp, fp.file
    ensures fp.Valid()
    ensures (ok, fp.State()) == OutputOf(st, image.State(), info, first, mems)
  {
    ghost var s := image.State();
    if first {
      ok := CommitInfo(fp, info, image);
      CommitFormat(st, info);
      if !ok {
        return false;
      }
      ghost var st1 := fp.State();
      ok := WriteImage(fp, image);
      assert (ok, fp.State()) == WriteImageOf(st1, s, mems);
    } else {
      ok := WriteImage(fp, image);
    }
  }

  /**
   * The hash and report part of a frame outside benchmark mode, between the
   * state before it and the state after: when both exist, an image that is
   * not YUV leaves them alone and a YUV one is hashed and given its line.
   */
  twostate predicate ReportDone(hash: Hashes.Hash?, report: Reports.Report?, image: Image)
    requires unchanged(image)
    requires old(hash != null && report != null && IsYuv(image.format) ==>
      ImageHash.FrameReadable(image.State(), GetInfo(image.format).value))
    reads hash, report, image
  {
    (hash != null ==> hash.Valid()) && (report != null ==> report.Valid()) &&
    (hash != null && report != null && !IsYuv(image.format) ==> unchanged(hash, report)) &&
    (hash != null && report != null && IsYuv(image.format) ==>
      hash.fed == old(ImageHash.FrameInput(image.State(), GetInfo(image.format).value)) &&
      report.text == old(report.text) +
        Reports.Entry(old(report.imageIndex), image.width, image.height, hash.value[..hash.klass.valueLength]) &&
      report.imageIndex == Wrap32(old(report.imageIndex) as int + 1))
  }

  /**
   * The output part: a failed hash ends the frame with `ok` false and the
   * file untouched; otherwise, with a file, the output step on the
   * descriptor `info1`, which is `info` refreshed for the image when no
   * frame has been counted yet (`first`); without one, success.
   */
  twostate predicate OutputDone(hash: Hashes.Hash?, report: Reports.Report?, fp: ImageFile?, image: Image, info: Info,
      first: bool, ok: bool, info1: Info)
    requires unchanged(image)
    requires old(fp != null ==> fp.Valid() && FrameReady(fp.State(), image.State()))
    reads fp, if fp != null then {fp.file} else {}, image
  {
    (fp != null ==> fp.Valid()) &&
    (hash != null && report != null && !IsYuv(image.format) ==>
      !ok && info1 == info && (fp != null ==> unchanged(fp, fp.file))) &&
    (hash == null || report == null || IsYuv(image.format) ==>
      (fp == null ==> ok && info1 == info) &&
      (fp != null ==>
        info1 == (if first then NextInfo(info, image.format, image.width, image.height) else info) &&
        (ok, fp.State()) == OutputOf(old(fp.State()), image.State(), info1, first, old(ImagePlanes(fp.State(), image.State())))))
  }

  /** The work `mvt_decoder_handle_image` does for a frame outside benchmark mode; `ok` is the outcome. */
  twostate predicate FrameDone(hash: Hashes.Hash?, report: Reports.Report?, fp: ImageFile?, image: Image, info: Info,
      first: bool, ok: bool, info1: Info)
    requires unchanged(image)
    requires old(fp != null ==> fp.Valid() && FrameReady(fp.State(), image.State()))
    requires old(hash != null && report != null && IsYuv(image.format) ==>
      ImageHash.FrameReadable(image.State(), GetInfo(image.format).value))
    reads hash, report, fp, if fp != null then {fp.file} else {}, image
  {
    ReportDone(hash, report, image) && OutputDone(hash, report, fp, image, info, first, ok, info1)
  }

  /** The work of a frame outside benchmark mode, as `FrameDone` states it. */
  method ProcessImage(hash: Hashes.Hash?, report: Reports.Report?, fp: ImageFile?, image: Image, info: Info, first: bool)
      returns (ok: bool, info1: Info)
    requires hash != null ==> hash.Valid()
    requires report != null ==> report.Valid()
    requires fp != null ==> fp.Valid()
    requires image.Valid()
    requires hash != null && report != null && IsYuv(image.format) ==>
      ImageHash.FrameReadable(image.State(), GetInfo(image.format).value)
    requires fp != null ==> FrameReady(fp.State(), image.State())
    modifies hash, report, fp, if fp != null then {fp.file} else {}
    ensures FrameDone(hash, report, fp, image, info, first, ok, info1)
  {
    if hash != null && report != null && fp != null {
      ok, info1 := ReportAndOutput(hash, report, fp, image, info, first);
    } else if hash != null && report != null {
      ok := HashAndReport(hash, report, image, {});
      info1 := info;
    } else {
      ok, info1 := OutputOnly(hash, report, fp, image, info, first);
    }
  }

  /** A frame with a hash, a report and an output file: the report comes first, and its failure ends the frame. */
  method ReportAndOutput(hash: Hashes.Hash, report: Reports.Report, fp: ImageFile, image: Image, info: Info, first: bool)
      returns (ok: bool, info1: Info)
    requires hash.Valid() && report.Valid() && fp.Valid() && image.Valid()
    requires IsYuv(image.format) ==> ImageHash.FrameReadable(image.State(), GetInfo(image.format).value)
    requires FrameReady(fp.State(), image.State())
    modifies hash, report, fp, fp.file
    ensures ReportDone(hash, report, image)
    ensures OutputDone(hash, report, fp, image, info, first, ok, info1)
  {
    ghost var st, s := fp.State(), image.State();
    ghost var mems := ImagePlanes(st, s);
    ghost var blocks := if IsYuv(FrameFormat(st, s.format))
      then WrittenBlocks(s, GetInfo(FrameFormat(st, s.format)).value) else {};
    info1 := info;
    ok := HashAndReport(hash, report, image, blocks);
    label Reported:
    if ok {
      if IsYuv(FrameFormat(st, s.format)) {
        assert ImagePlanes(fp.State(), s) == FramePlanes(s, GetInfo(FrameFormat(st, s.format)).value) == mems;
      }
      ok, info1 := OutputNext(fp, image, info, first, mems);
      assert unchanged@Reported(hash, report);
    }
  }

  /** A frame without a hash or without a report: only the output step is left. */
  method OutputOnly(hash: Hashes.Hash?, report: Reports.Report?, fp: ImageFile?, image: Image, info: Info, first: bool)
      returns (ok: bool, info1: Info)
    requires hash == null || report == null
    requires hash != null ==> hash.Valid()
    requires report != null ==> report.Valid()
    requires fp != null ==> fp.Valid()
    requires image.Valid()
    requires fp != null ==> FrameReady(fp.State(), image.State())
    modifies fp, if fp != null then {fp.file} else {}
    ensures FrameDone(hash, report, fp, image, info, first, ok, info1)
  {
    ok, info1 := true, info;
    if fp != null {
      ok, info1 := OutputNext(fp, image, info, first, ImagePlanes(fp.State(), image.State()));
    }
  }

  /** Writes the frame to the output file, taking the stream's properties from the first frame. */
  method OutputNext(fp: ImageFile, image: Image, info: Info, first: bool, ghost mems: seq<seq<Byte>>)
      returns (ok: bool, info1: Info)
    requires fp.Valid() && image.Valid() && FrameReady(fp.State(), image.State())
    requires mems == ImagePlanes(fp.State(), image.State())
    modifies fp, fp.file
    ensures fp.Valid()
    ensures info1 == (if first then NextInfo(info, image.format, image.width, image.height) else info)
    ensures (ok, fp.State()) == OutputOf(old(fp.State()), image.State(), info1, first, mems)
  {
    info1 := info;
    if first {
      info1 := NextInfo(info, image.format, image.width, image.height);
    }
    ok := OutputImage(fp, image, info1, first, fp.State(), mems);
  }

  // ---------------------------------------------------------------------
  // The decoder object

  /**
   * What `mvt_decoder_init` opens once the options are final: nothing
   * without an input file; a report, then a hash, unless the report goes to
   * "/dev/null"; an output file when one is named that is not "/dev/null".
   * The first failure ends it, and what was opened before stays.
   */
  method OpenAll(options: Options, reportOpened: bool, outputOpened: bool, md5: seq<Byte> -> Hashes.Md5Digest)
      returns (ok: bool, hash: Hashes.Hash?, report: Reports.Report?, fp: ImageFile?)
    ensures hash != null ==> hash.Valid() && fresh(hash)
    ensures report != null ==> report.Valid() && fresh(report)
    ensures fp != null ==> fp.Valid() && fresh(fp) && fresh(fp.file)
    ensures ok <==> (options.filename.Some? &&
      (!IsDevNull(options.reportFilename) ==>
        reportOpened && Hashes.CheckClass(Hashes.ClassFor(options.hashType))) &&
      (options.outputFilename.Some? && !IsDevNull(options.outputFilename) ==> outputOpened))
    ensures ok ==> ((report != null <==> !IsDevNull(options.reportFilename)) &&
      (hash != null <==> report != null) &&
      (fp != null <==> options.outputFilename.Some? && !IsDevNull(options.outputFilename)))
    ensures ok && hash != null ==> hash.klass == Hashes.ClassFor(options.hashType).value && hash.fed == []
    ensures ok && report != null ==> report.text == [] && report.imageIndex == 0
    ensures ok && fp != null ==> fp.State() == FileState([], MODE_WRITE, InfoDefaults(), false, None)
  {
    ok, hash, report, fp := false, null, null, null;
    if options.filename.None? {
      return;
    }
    if !IsDevNull(options.reportFilename) {
      report := Reports.New(reportOpened);
      if report == null {
        return;
      }
      hash := Hashes.New(options.hashType, md5);
      if hash == null {
        return;
      }
    }
    if options.outputFilename.Some? && !IsDevNull(options.outputFilename) {
      fp := Open(options.outputFilename, MODE_WRITE, outputOpened);
      if fp == null {
        return;
      }
    }
    ok := true;
  }


  class Decoder {
    var options: Options
    var hash: Hashes.Hash?
    var report: Reports.Report?
    var outputFile: ImageFile?
    var profile: int
    var maxWidth: U32
    var maxHeight: U32
    /** Frames handled so far, counted in 32 bits. */
    var numFrames: U32
    /** The descriptor the output headers are written from. */
    var outputInfo: Info

    ghost predicate Valid()
      reads this, hash, report, outputFile, if outputFile != null then {outputFile.file} else {}
    {
      (hash != null ==> hash.Valid()) &&
      (report != null ==> report.Valid()) &&
      (outputFile != null ==> outputFile.Valid())
    }

    /** `mvt_decoder_new` once `calloc` succeeds: no profile yet, default options and output descriptor. */
    constructor ()
      ensures Valid()
      ensures options == OptionsInit() && hash == null && report == null && outputFile == null
      ensures profile == -1 && maxWidth == 0 && maxHeight == 0 && numFrames == 0
      ensures outputInfo == InfoDefaults()
    {
      options := OptionsInit();
      hash := null;
      report := null;
      outputFile := null;
      profile := -1;
      maxWidth := 0;
      maxHeight := 0;
      numFrames := 0;
      outputInfo := InfoDefaults();
    }

    /**
     * `mvt_decoder_init` on the options as parsed: the default output name,
     * then an input file is required; a report and a hash unless the report
     * goes to "/dev/null", and an output file when one is named that is not
     * "/dev/null". `reportOpened` and `outputOpened` are the outcomes of
     * fopen; `md5` is libavutil's MD5.
     */
    method Init(parsed: Options, genOutput: bool, reportOpened: bool, outputOpened: bool,
        md5: seq<Byte> -> Hashes.Md5Digest) returns (ok: bool)
      requires hash == null && report == null && outputFile == null
      modifies this
      ensures Valid()
      ensures options == WithOutputName(parsed, genOutput)
      ensures ok <==> (options.filename.Some? &&
        (!IsDevNull(options.reportFilename) ==>
          reportOpened && Hashes.CheckClass(Hashes.ClassFor(options.hashType))) &&
        (options.outputFilename.Some? && !IsDevNull(options.outputFilename) ==> outputOpened))
      ensures ok ==> ((report != null <==> !IsDevNull(options.reportFilename)) &&
        (hash != null <==> report != null) &&
        (outputFile != null <==> options.outputFilename.Some? && !IsDevNull(options.outputFilename)))
      ensures ok && hash != null ==> fresh(hash) && hash.klass == Hashes.ClassFor(options.hashType).value && hash.fed == []
      ensures ok && report != null ==> fresh(report) && report.text == [] && report.imageIndex == 0
      ensures ok && outputFile != null ==> (fresh(outputFile) && fresh(outputFile.file) &&
        outputFile.State() == FileState([], MODE_WRITE, InfoDefaults(), false, None))
      ensures numFrames == old(numFrames) && outputInfo == old(outputInfo)
      ensures maxWidth == old(maxWidth) && maxHeight == old(maxHeight) && profile == old(profile)
    {
      var opts := WithOutputName(parsed, genOutput);
      var h, r, f;
      ok, h, r, f := OpenAll(opts, reportOpened, outputOpened, md5);
      options, hash, report, outputFile := opts, h, r, f;
    }

    /** The fields `mvt_decoder_handle_image` stores: the maxima, the output descriptor, and one more frame when `counted`. */
    method Record(width: U32, height: U32, info: Info, counted: bool)
      modifies this`maxWidth, this`maxHeight, this`outputInfo, this`numFrames
      ensures maxWidth == width && maxHeight == height && outputInfo == info
      ensures numFrames == if counted then Wrap32(old(numFrames) as int + 1) else old(numFrames)
      ensures hash == old(hash) && report == old(report) && outputFile == old(outputFile)
    {
      maxWidth, maxHeight, outputInfo := width, height, info;
      if counted {
        numFrames := Wrap32(numFrames as int + 1);
      }
    }

    /**
     * `mvt_decoder_handle_image`: the running maxima of the width and the
     * height always follow the image; in benchmark mode nothing else happens
     * but the count. Otherwise the image is hashed and reported when both a
     * hash and a report exist, then written when an output file exists; a
     * failed hash or write returns false without counting the frame; every
     * other outcome counts it. `flags` is not used.
     */
    method HandleImage(image: Image, flags: U32) returns (ok: bool)
      requires Valid() && image.Valid()
      requires hash != null && report != null && IsYuv(image.format) ==>
        ImageHash.FrameReadable(image.State(), GetInfo(image.format).value)
      requires outputFile != null ==> FrameReady(outputFile.State(), image.State())
      modifies this, hash, report, outputFile, if outputFile != null then {outputFile.file} else {}
      ensures Valid()
      ensures options == old(options) && hash == old(hash) && report == old(report) && outputFile == old(outputFile)
      ensures profile == old(profile)
      ensures maxWidth == Max(old(maxWidth), image.width) && maxHeight == Max(old(maxHeight), image.height)
      ensures numFrames == if ok then Wrap32(old(numFrames) as int + 1) else old(numFrames)
      ensures options.benchmark ==> (ok && outputInfo == old(outputInfo) &&
        (hash != null ==> unchanged(hash)) && (report != null ==> unchanged(report)) &&
        (outputFile != null ==> unchanged(outputFile, outputFile.file)))
      ensures !options.benchmark ==>
        FrameDone(hash, report, outputFile, image, old(outputInfo), old(numFrames) == 0, ok, outputInfo)
    {
      // The maxima are taken first in the source; nothing the frame's work
      // reads depends on them, so they are stored once that work is done.
      var width, height := Max(maxWidth, image.width), Max(maxHeight, image.height);
      var info;
      ok, info := Work(image);
      Record(width, height, info, ok);
    }

    /** The frame's work in `mvt_decoder_handle_image`: nothing in benchmark mode, otherwise `ProcessImage`. */
    method Work(image: Image) returns (ok: bool, info: Info)
      requires Valid() && image.Valid()
      requires hash != null && report != null && IsYuv(image.format) ==>
        ImageHash.FrameReadable(image.State(), GetInfo(image.format).value)
      requires outputFile != null ==> FrameReady(outputFile.State(), image.State())
      modifies hash, report, outputFile, if outputFile != null then {outputFile.file} else {}
      ensures Valid()
      ensures options.benchmark ==> (ok && info == outputInfo &&
        (hash != null ==> unchanged(hash)) && (report != null ==> unchanged(report)) &&
        (outputFile != null ==> unchanged(outputFile, outputFile.file)))
      ensures !options.benchmark ==> FrameDone(hash, report, outputFile, image, outputInfo, numFrames == 0, ok, info)
    {
      ok, info := true, outputInfo;
      if !options.benchmark {
        ok, info := ProcessImage(hash, report, outputFile, image, outputInfo, numFrames == 0);
      }
    }
  }
}
