// The report of mvt_report.c: the per-frame text file a decoder writes,
// `#` comments, a column header before the first frame, and one line per
// frame with its index, its size and its hash value in hex.

module Reports {
  import opened Common
  import opened Printf
  import Images
  import VideoFormats
  import Hashes

  /** Indices from here on are too wide for the seven-column field. */
  const INDEX_WARN_LIMIT: nat := 10000000
  /** Dimensions from here on are too wide for the ten-column field. */
  const SIZE_WARN_LIMIT: nat := 10000
  /** The size of the `size_string` buffer `%ux%u` is printed into. */
  const SIZE_STRING_LENGTH: nat := 20

  /** A message emitted through `mvt_warning`. */
  datatype Warning = IndexTooLarge(index: U32) | SizeTooLarge(width: U32, height: U32)

  // ---------------------------------------------------------------------
  // Comments

  /** `fprintf(file, "# %s\n", segment)`. */
  function CommentLine(segment: string): string
  {
    "# " + segment + "\n"
  }

  function CommentLines(segments: seq<string>): string
    decreases |segments|
  {
    if segments == [] then "" else CommentLine(segments[0]) + CommentLines(segments[1..])
  }

  /** What `mvt_report_write_comment` writes for the formatted text: one comment line per newline-separated segment. */
  function Comment(text: string): string
  {
    CommentLines(Split(text, '\n'))
  }

  /** The segments behind their comment marks. */
  function Marked(segments: seq<string>): (r: seq<string>)
    ensures |r| == |segments|
    ensures forall i :: 0 <= i < |r| ==> r[i] == "# " + segments[i]
  {
    seq(|segments|, i requires 0 <= i < |segments| => "# " + segments[i])
  }

  /**
   * A comment is one line per segment of the text, the last one possibly
   * empty, each the segment behind "# ": splitting it at its newlines gives
   * the marked segments and the empty rest after the final newline, and
   * the segments join back to the text.
   */
  lemma {:induction false} CommentLinesOf(text: string)
    ensures Split(Comment(text), '\n') == Marked(Split(text, '\n')) + [""]
    ensures Join(Split(text, '\n'), '\n') == text
  {
    JoinSplit(text, '\n');
    LinesSplit(Split(text, '\n'));
  }

  lemma {:induction false} LinesSplit(segments: seq<string>)
    requires forall i :: 0 <= i < |segments| ==> '\n' !in segments[i]
    ensures Split(CommentLines(segments), '\n') == Marked(segments) + [""]
    decreases |segments|
  {
    if segments == [] {
      assert Marked(segments) + [""] == [""];
    } else {
      var seg := segments[0];
      var rest := CommentLines(segments[1..]);
      LinesSplit(segments[1..]);
      assert '\n' !in "# " + seg by {
        assert '\n' !in seg;
      }
      assert CommentLines(segments) == ("# " + seg) + ("\n" + rest);
      SplitPiece("# " + seg, "\n" + rest, '\n');
      assert ("\n" + rest)[1..] == rest;
      assert Marked(segments) + [""] == ["# " + seg] + (Marked(segments[1..]) + [""]);
    }
  }

  /**
   * The comment of a text that starts with a segment ending at `j`: its
   * line, then the comment of what follows the newline; without a newline,
   * the one line.
   */
  lemma {:induction false} CommentStep(s: string, j: nat)
    requires j <= |s| && '\n' !in s[..j] && (j < |s| ==> s[j] == '\n')
    ensures j < |s| ==> Comment(s) == CommentLine(s[..j]) + Comment(s[j + 1..])
    ensures j == |s| ==> Comment(s) == CommentLine(s)
  {
    if j < |s| {
      assert s == s[..j] + s[j..];
      SplitPiece(s[..j], s[j..], '\n');
      assert s[j..][1..] == s[j + 1..];
    } else {
      assert s[..j] == s;
      SplitPiece(s, [], '\n');
      assert [s][1..] == [];
      assert CommentLines([s]) == CommentLine(s) + CommentLines([]);
      assert CommentLine(s) + "" == CommentLine(s);
    }
  }

  /** `strchr(s + i, c)`: the offset of the next `c` at or after `i`, or the end. */
  function NextChar(s: string, i: nat, c: char): (j: nat)
    requires i <= |s|
    ensures i <= j <= |s| && c !in s[i..j] && (j < |s| ==> s[j] == c)
    decreases |s| - i
  {
    if i == |s| || s[i] == c then i
    else
      var j := NextChar(s, i + 1, c);
      assert s[i..j] == [s[i]] + s[i + 1..j];
      j
  }

  // ---------------------------------------------------------------------
  // Frame lines

  /** The column header, `"%5s %10s %-20s"` of "frame", "size" and "hash". */
  function Header(): string
  {
    PadLeft("frame", 5) + " " + PadLeft("size", 10) + " " + PadRight("hash", 20)
  }

  /** The header is one comment line of 37 characters. */
  lemma {:induction false} HeaderComment()
    ensures |Header()| == 37 && Header()[..5] == "frame"
    ensures Comment(Header()) == CommentLine(Header())
  {
    var h := Header();
    assert PadLeft("frame", 5) == "frame";
    PadFree("frame", 5, '\n');
    PadFree("size", 10, '\n');
    PadFree("hash", 20, '\n');
    SplitPiece(h, [], '\n');
    assert [h][1..] == [];
  }

  /** `"%ux%u"` of the image size. */
  function SizeString(width: U32, height: U32): string
  {
    Decimal(width) + "x" + Decimal(height)
  }

  /**
   * The hash line `"%7d %10s 0x%-18s\n"`: the index read as a signed 32-bit
   * `int`, the size right-justified in ten columns, and the hash bytes in
   * lower-case hex left-justified in eighteen.
   */
  function HashLine(index: U32, width: U32, height: U32, value: seq<Byte>): string
  {
    IndexField(index) + " " + PadLeft(SizeString(width, height), 10) +
    " 0x" + PadRight(HexString(value), 18) + "\n"
  }

  /** The offset of the hex digits in a hash line. */
  function HexOffset(index: U32, width: U32, height: U32): nat
  {
    |IndexField(index)| + 1 + |PadLeft(SizeString(width, height), 10)| + 3
  }

  /** The index field: `%7d` of the index read as a signed `int`. */
  function IndexField(index: U32): string
  {
    PadLeft(SignedDecimal(AsInt32(index)), 7)
  }

  /**
   * A hash line starts with its index field: an index below 10000000 is its
   * seven columns, right-justified, and reads back; one from 2^31 on prints
   * as minus the distance to 2^32.
   */
  lemma {:induction false} HashLineIndex(index: U32, width: U32, height: U32, value: seq<Byte>)
    ensures var line, f := HashLine(index, width, height, value), IndexField(index);
      |f| <= |line| && line[..|f|] == f
    ensures index < INDEX_WARN_LIMIT ==>
      IndexField(index) == PadLeft(Decimal(index), 7) && |IndexField(index)| == 7 &&
      DigitsValue(Decimal(index)) == index
    ensures index >= 0x8000_0000 ==> IndexField(index) == PadLeft("-" + Decimal(U32_MOD - index), 7)
  {
    LineStart(IndexField(index), PadLeft(SizeString(width, height), 10), PadRight(HexString(value), 18));
    if index < INDEX_WARN_LIMIT {
      SmallIndexField(index);
    }
  }

  /** Any line of the hash-line shape starts with its first field. */
  lemma {:induction false} LineStart(a: string, b: string, c: string)
    ensures var line := a + " " + b + " 0x" + c + "\n"; |a| <= |line| && line[..|a|] == a
  {
    var line := a + " " + b + " 0x" + c + "\n";
    assert line == a + (" " + b + " 0x" + c + "\n");
  }

  /** Below 10000000 the index field is the index's digits in seven columns. */
  lemma {:induction false} SmallIndexField(index: U32)
    requires index < INDEX_WARN_LIMIT
    ensures IndexField(index) == PadLeft(Decimal(index), 7) && |IndexField(index)| == 7
    ensures DigitsValue(Decimal(index)) == index
  {
    DecimalWidth(index, 7);
    DecimalValue(index);
  }

  /**
   * A hash line holds two lower-case hex digits per byte of the value, in
   * order behind "0x", that read back to the byte, and ends with its newline.
   */
  lemma {:induction false} HashLineHex(index: U32, width: U32, height: U32, value: seq<Byte>)
    ensures var line, k := HashLine(index, width, height, value), HexOffset(index, width, height);
      k + 2 * |value| < |line| && line[k - 2] == '0' && line[k - 1] == 'x' &&
      HexAt(line, k, value) &&
      line[|line| - 1] == '\n'
  {
    var a, b := IndexField(index), PadLeft(SizeString(width, height), 10);
    assert HashLine(index, width, height, value) == a + " " + b + " 0x" + PadRight(HexString(value), 18) + "\n";
    assert HexOffset(index, width, height) == |a| + 1 + |b| + 3;
    HexFields(a, b, value);
  }

  /** The hash line's shape over any index and size fields: "0x", the digits, the newline. */
  lemma {:induction false} HexFields(a: string, b: string, value: seq<Byte>)
    ensures var line, k := a + " " + b + " 0x" + PadRight(HexString(value), 18) + "\n", |a| + 1 + |b| + 3;
      k + 2 * |value| < |line| && line[k - 2] == '0' && line[k - 1] == 'x' &&
      HexAt(line, k, value) &&
      line[|line| - 1] == '\n'
  {
    HexFieldMarks(a + " " + b, PadRight(HexString(value), 18));
    HexFieldDigits(a + " " + b + " 0x", value);
  }

  lemma {:induction false} HexFieldMarks(p: string, c: string)
    ensures var line := p + " 0x" + c + "\n";
      line[|p| + 1] == '0' && line[|p| + 2] == 'x' && line[|line| - 1] == '\n'
  {
    Around(p, " 0x", c + "\n");
    assert p + " 0x" + c + "\n" == p + " 0x" + (c + "\n");
  }

  lemma {:induction false} HexFieldDigits(p: string, value: seq<Byte>)
    ensures var line := p + PadRight(HexString(value), 18) + "\n";
      |p| + 2 * |value| < |line| && HexAt(line, |p|, value)
  {
    var hex := HexString(value);
    var c := PadRight(hex, 18);
    PadRightShape(hex, 18);
    InMiddle(p, c, "\n", |hex|);
    HexDigitsAt(p + c + "\n", |p|, value);
  }

  /** The characters of `m` placed between `p` and `t` are found from offset `|p|`. */
  lemma {:induction false} Around(p: string, m: string, t: string)
    ensures forall j :: 0 <= j < |m| ==> (p + m + t)[|p| + j] == m[j]
    ensures |t| > 0 ==> (p + m + t)[|p + m + t| - 1] == t[|t| - 1]
  {
  }

  /** From offset `k`, `line` holds two lower-case hex digits per byte of `value` that read back to the byte. */
  predicate HexAt(line: string, k: nat, value: seq<Byte>)
    requires k + 2 * |value| <= |line|
  {
    forall i :: 0 <= i < |value| ==>
      IsHexDigit(line[k + 2 * i]) && IsHexDigit(line[k + 2 * i + 1]) &&
      16 * HexDigitValue(line[k + 2 * i]) + HexDigitValue(line[k + 2 * i + 1]) == value[i]
  }

  /** A slice `c[..n]` placed between `p` and `t` is found at offset `|p|`. */
  lemma {:induction false} InMiddle(p: string, c: string, t: string, n: nat)
    requires n <= |c|
    ensures (p + c + t)[|p|..|p| + n] == c[..n]
  {
  }

  /** Hex text found at `k` holds two digits per byte that read back to the byte. */
  lemma {:induction false} HexDigitsAt(line: string, k: nat, value: seq<Byte>)
    requires k + 2 * |value| <= |line| && line[k..k + 2 * |value|] == HexString(value)
    ensures HexAt(line, k, value)
  {
    var hex := HexString(value);
    HexStringPairs(value);
    forall i | 0 <= i < |value|
      ensures IsHexDigit(line[k + 2 * i]) && IsHexDigit(line[k + 2 * i + 1])
      ensures 16 * HexDigitValue(line[k + 2 * i]) + HexDigitValue(line[k + 2 * i + 1]) == value[i]
    {
      var h := Hex2(value[i]);
      assert hex[2 * i..2 * i + 2] == h;
      assert line[k + 2 * i] == hex[2 * i] == h[0];
      assert line[k + 2 * i + 1] == hex[2 * i + 1] == h[1];
      Hex2Value(value[i]);
    }
  }

  /** The as-written buffer: `size_string[20]` holds `%ux%u` only while the text and its NUL fit. */
  predicate SizeStringFitsAsWritten(width: U32, height: U32)
  {
    |SizeString(width, height)| + 1 <= SIZE_STRING_LENGTH
  }

  /**
   * The widest frame init accepts, a Y800 image of 4294967280 x 4294967280,
   * overflows the twenty-byte buffer: twenty-one characters and the NUL.
   */
  lemma {:induction false} SizeStringOverflows()
    ensures Images.InitLayout(VideoFormats.Y800_INFO, 0xFFFF_FFF0, 0xFFFF_FFF0).ok
    ensures |SizeString(0xFFFF_FFF0, 0xFFFF_FFF0)| == 21
    ensures !SizeStringFitsAsWritten(0xFFFF_FFF0, 0xFFFF_FFF0)
  {
    Images.InitLayoutY800Widest();
    assert Pow10(9) == 1000000000 && Pow10(10) == 10000000000;
    DecimalLength(0xFFFF_FFF0, 10);
  }

  /** `%u` of a number of `k` digits takes `k` characters. */
  lemma {:induction false} DecimalLength(n: nat, k: nat)
    requires k >= 1 && Pow10(k - 1) <= n < Pow10(k)
    ensures |Decimal(n)| == k
    decreases k
  {
    if k > 1 {
      assert Pow10(k - 1) == 10 * Pow10(k - 2);
      DecimalLength(n / 10, k - 1);
    }
  }

  /** Any `%ux%u` of two `uint32_t` values, with its NUL, fits twenty-two bytes. */
  lemma {:induction false} SizeStringFits(width: U32, height: U32)
    ensures |SizeString(width, height)| + 1 <= 22
  {
    DecimalWidth(width, 10);
    DecimalWidth(height, 10);
  }

  /** What one successful `mvt_report_write_image_hash` appends: the header before the first frame, then the frame's line. */
  function Entry(index: U32, width: U32, height: U32, value: seq<Byte>): string
  {
    (if index == 0 then CommentLine(Header()) else "") + HashLine(index, width, height, value)
  }

  /** The header part and the line part of a frame's output make up its entry. */
  lemma EntryAppend(t0: string, t1: string, t2: string, index: U32, width: U32, height: U32, value: seq<Byte>)
    requires t1 == t0 + (if index == 0 then CommentLine(Header()) else "")
    requires t2 == t1 + HashLine(index, width, height, value)
    ensures t2 == t0 + Entry(index, width, height, value)
  {
    Associative(t0, if index == 0 then CommentLine(Header()) else "", HashLine(index, width, height, value));
  }

  lemma Associative(a: string, b: string, c: string)
    ensures (a + b) + c == a + (b + c)
  {
  }

  /** The warnings a frame adds, each only while its flag is clear. */
  function NewWarnings(index: U32, width: U32, height: U32, warnedIndex: bool, warnedSize: bool): seq<Warning>
  {
    (if index >= INDEX_WARN_LIMIT && !warnedIndex then [IndexTooLarge(index)] else []) +
    (if (width >= SIZE_WARN_LIMIT || height >= SIZE_WARN_LIMIT) && !warnedSize then [SizeTooLarge(width, height)] else [])
  }

  function IndexWarnings(ws: seq<Warning>): nat
    decreases |ws|
  {
    if ws == [] then 0 else (if ws[0].IndexTooLarge? then 1 else 0) + IndexWarnings(ws[1..])
  }

  function SizeWarnings(ws: seq<Warning>): nat
    decreases |ws|
  {
    if ws == [] then 0 else (if ws[0].SizeTooLarge? then 1 else 0) + SizeWarnings(ws[1..])
  }

  lemma {:induction false} WarningsConcat(a: seq<Warning>, b: seq<Warning>)
    ensures IndexWarnings(a + b) == IndexWarnings(a) + IndexWarnings(b)
    ensures SizeWarnings(a + b) == SizeWarnings(a) + SizeWarnings(b)
    decreases |a|
  {
    if a != [] {
      assert (a + b)[1..] == a[1..] + b;
      WarningsConcat(a[1..], b);
    } else {
      assert a + b == b;
    }
  }

  /**
   * The warnings of a frame keep the count of each kind at one at most, and
   * at one exactly when its flag is set once the frame is done.
   */
  lemma {:induction false} WarnedOnce(ws: seq<Warning>, index: U32, width: U32, height: U32, warnedIndex: bool, warnedSize: bool)
    requires IndexWarnings(ws) == (if warnedIndex then 1 else 0)
    requires SizeWarnings(ws) == (if warnedSize then 1 else 0)
    ensures var ws1 := ws + NewWarnings(index, width, height, warnedIndex, warnedSize);
      IndexWarnings(ws1) == (if warnedIndex || index >= INDEX_WARN_LIMIT then 1 else 0) &&
      SizeWarnings(ws1) == (if warnedSize || width >= SIZE_WARN_LIMIT || height >= SIZE_WARN_LIMIT then 1 else 0)
  {
    var a: seq<Warning> := if index >= INDEX_WARN_LIMIT && !warnedIndex then [IndexTooLarge(index)] else [];
    var b: seq<Warning> := if (width >= SIZE_WARN_LIMIT || height >= SIZE_WARN_LIMIT) && !warnedSize then [SizeTooLarge(width, height)] else [];
    WarningsConcat(a, b);
    WarningsConcat(ws, a + b);
    assert IndexWarnings(b) == 0 && SizeWarnings(a) == 0;
  }

  // ---------------------------------------------------------------------
  // The report object

  class Report {
    /** Everything written to the report file. */
    var text: string
    var imageIndex: U32
    var warnedIndex: bool
    var warnedSize: bool
    /** The warnings emitted for this report, in order. */
    var warnings: seq<Warning>

    /** Each warning is emitted at most once, exactly when its flag is set. */
    predicate Valid()
      reads this
    {
      IndexWarnings(warnings) == (if warnedIndex then 1 else 0) &&
      SizeWarnings(warnings) == (if warnedSize then 1 else 0)
    }

    /** The zeroed structure of `calloc`, on an open file. */
    constructor ()
      ensures Valid()
      ensures text == [] && imageIndex == 0 && !warnedIndex && !warnedSize && warnings == []
    {
      text := [];
      imageIndex := 0;
      warnedIndex := false;
      warnedSize := false;
      warnings := [];
    }
  }

  /** `mvt_report_new`: NULL when the file cannot be opened (`fopenOk` is the outcome of fopen or stdout). */
  method New(fopenOk: bool) returns (report: Report?)
    ensures report != null <==> fopenOk
    ensures report != null ==> (fresh(report) && report.Valid() &&
      report.text == [] && report.imageIndex == 0 && report.warnings == [])
  {
    if !fopenOk {
      return null;
    }
    report := new Report();
  }

  /**
   * `mvt_report_write_comment` on the formatted text: false for a NULL
   * report; otherwise each segment up to a newline, and the last one, is
   * written as a comment line.
   */
  method WriteComment(report: Report?, text: string) returns (ok: bool)
    modifies report
    ensures ok <==> report != null
    ensures report != null ==> report.text == old(report.text) + Comment(text)
    ensures report != null ==> (report.imageIndex == old(report.imageIndex) &&
      report.warnedIndex == old(report.warnedIndex) && report.warnedSize == old(report.warnedSize) &&
      report.warnings == old(report.warnings))
  {
    if report == null {
      return false;
    }
    var out := 0;
    var sep := NextChar(text, out, '\n');
    while sep < |text|
      invariant 0 <= out <= sep <= |text| && sep == NextChar(text, out, '\n')
      invariant old(report.text) + Comment(text) == report.text + Comment(text[out..])
      invariant report.imageIndex == old(report.imageIndex) && report.warnings == old(report.warnings)
      invariant report.warnedIndex == old(report.warnedIndex) && report.warnedSize == old(report.warnedSize)
      decreases |text| - out
    {
      SegmentStep(text, out, sep);
      Associative(report.text, CommentLine(text[out..sep]), Comment(text[sep + 1..]));
      report.text := report.text + CommentLine(text[out..sep]);
      out := sep + 1;
      sep := NextChar(text, out, '\n');
    }
    SegmentStep(text, out, sep);
    report.text := report.text + CommentLine(text[out..]);
    ok := true;
  }

  /** The comment of the text left from `out`, split at its next newline `sep`. */
  lemma {:induction false} SegmentStep(text: string, out: nat, sep: nat)
    requires out <= sep <= |text| && sep == NextChar(text, out, '\n')
    ensures sep < |text| ==> Comment(text[out..]) == CommentLine(text[out..sep]) + Comment(text[sep + 1..])
    ensures sep == |text| ==> Comment(text[out..]) == CommentLine(text[out..])
  {
    var s := text[out..];
    assert s[..sep - out] == text[out..sep];
    CommentStep(s, sep - out);
    if sep < |text| {
      assert s[sep - out + 1..] == text[sep + 1..];
    }
  }

  /** `mvt_report_write_headers`: the column header comment, only while no frame has been written. */
  method WriteHeaders(report: Report?) returns (ok: bool)
    modifies report
    ensures ok <==> report != null
    ensures report != null ==>
      report.text == old(report.text) + (if old(report.imageIndex) == 0 then CommentLine(Header()) else "")
    ensures report != null ==> (report.imageIndex == old(report.imageIndex) &&
      report.warnedIndex == old(report.warnedIndex) && report.warnedSize == old(report.warnedSize) &&
      report.warnings == old(report.warnings))
  {
    if report == null {
      return false;
    }
    if report.imageIndex > 0 {
      return true;
    }
    HeaderComment();
    ok := WriteComment(report, Header());
  }

  /** The two warnings of `mvt_report_write_image_hash`, each given only while its flag is clear. */
  method Warn(report: Report, width: U32, height: U32)
    requires report.Valid()
    modifies report
    ensures report.Valid()
    ensures report.text == old(report.text) && report.imageIndex == old(report.imageIndex)
    ensures report.warnings == old(report.warnings) +
      NewWarnings(report.imageIndex, width, height, old(report.warnedIndex), old(report.warnedSize))
    ensures report.warnedIndex == (old(report.warnedIndex) || report.imageIndex >= INDEX_WARN_LIMIT)
    ensures report.warnedSize == (old(report.warnedSize) || width >= SIZE_WARN_LIMIT || height >= SIZE_WARN_LIMIT)
  {
    ghost var ws := report.warnings;
    WarnedOnce(ws, report.imageIndex, width, height, report.warnedIndex, report.warnedSize);
    var index := report.imageIndex;
    var first: seq<Warning> := [];
    if index >= INDEX_WARN_LIMIT && !report.warnedIndex {
      first := [IndexTooLarge(index)];
      report.warnings := report.warnings + first;
      report.warnedIndex := true;
    }
    if (width >= SIZE_WARN_LIMIT || height >= SIZE_WARN_LIMIT) && !report.warnedSize {
      assert ws + first + [SizeTooLarge(width, height)] == ws + (first + [SizeTooLarge(width, height)]);
      report.warnings := report.warnings + [SizeTooLarge(width, height)];
      report.warnedSize := true;
    } else {
      assert ws + first == ws + (first + []);
    }
  }

  /** The frame's line: `"%ux%u"` of the size, the hex of the value, and the `fprintf` of the three fields. */
  method WriteLine(report: Report, width: U32, height: U32, value: seq<Byte>)
    modifies report
    ensures report.text == old(report.text) + HashLine(report.imageIndex, width, height, value)
    ensures report.imageIndex == old(report.imageIndex) && report.warnings == old(report.warnings)
    ensures report.warnedIndex == old(report.warnedIndex) && report.warnedSize == old(report.warnedSize)
  {
    var size := SizeString(width, height);
    var hex := HexValue(value);
    report.text := report.text + (IndexField(report.imageIndex) + " " + PadLeft(size, 10) +
      " 0x" + PadRight(hex, 18) + "\n");
  }

  /** The `%02x` loop: two hex digits per byte of the value, in order. */
  method HexValue(value: seq<Byte>) returns (s: string)
    ensures s == HexString(value)
  {
    s := "";
    var i := 0;
    while i < |value|
      invariant i <= |value| && s == HexString(value[..i])
    {
      assert value[..i + 1][..i] == value[..i];
      s := s + Hex2(value[i]);
      i := i + 1;
    }
    assert value[..i] == value;
  }

  /**
   * `mvt_report_write_image_hash`: false, writing nothing, when the report,
   * the image or the hash is NULL; otherwise the header before the first
   * frame, the warnings not yet given, the frame's line with the hash
   * value's bytes, and the index advanced by one in 32 bits.
   */
  method WriteImageHash(report: Report?, image: Images.Image?, hash: Hashes.Hash?) returns (ok: bool)
    requires report != null ==> report.Valid()
    requires hash != null ==> hash.Valid()
    modifies report
    ensures ok <==> report != null && image != null && hash != null
    ensures report != null ==> report.Valid()
    ensures report != null && !ok ==>
      report.text == old(report.text) && report.imageIndex == old(report.imageIndex) &&
      report.warnings == old(report.warnings)
    ensures ok ==>
      report.text == old(report.text) +
        Entry(old(report.imageIndex), image.width, image.height, hash.value[..hash.klass.valueLength]) &&
      report.imageIndex == Wrap32(old(report.imageIndex) + 1) &&
      report.warnings == old(report.warnings) +
        NewWarnings(old(report.imageIndex), image.width, image.height, old(report.warnedIndex), old(report.warnedSize)) &&
      report.warnedIndex == (old(report.warnedIndex) || old(report.imageIndex) >= INDEX_WARN_LIMIT) &&
      report.warnedSize == (old(report.warnedSize) || image.width >= SIZE_WARN_LIMIT || image.height >= SIZE_WARN_LIMIT)
  {
    if report == null || image == null || hash == null {
      return false;
    }
    ghost var t0 := report.text;
    ok := WriteHeaders(report);
    ghost var t1 := report.text;
    var index := report.imageIndex;
    Warn(report, image.width, image.height);
    var value, len := Hashes.GetValue(hash, true, true);
    // The length is within HASH_VALUE_MAX_LENGTH, so the fatal error is never raised.
    assert len.value <= Hashes.HASH_VALUE_MAX_LENGTH;
    var bytes := value.value[..len.value];
    WriteLine(report, image.width, image.height, bytes);
    EntryAppend(t0, t1, report.text, index, image.width, image.height, bytes);
    report.imageIndex := Wrap32(index as int + 1);
  }
}
