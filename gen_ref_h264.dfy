// The H.264 reference generator's bitstream side: it turns FFmpeg's packets
// (and the codec's extradata) into an ITU-T H.264 Annex B byte stream on the
// pipe the JM reference decoder reads, queues the pictures JM hands back, and
// names their FFmpeg pixel format.

module GenRefH264 {
  import opened Common
  import opened FfmpegUtils

  // ---------------------------------------------------------------------
  // ts_add_msec

  const NSEC_PER_MSEC: nat := 1_000_000
  const NSEC_PER_SEC: nat := 1_000_000_000
  const U64_MOD: nat := 0x1_0000_0000_0000_0000

  predicate IsInt64(x: int) { -0x8000_0000_0000_0000 <= x < 0x8000_0000_0000_0000 }

  /** A value converted to a 64-bit two's complement integer. */
  function ToInt64(x: int): (r: int)
    ensures IsInt64(r) && (r - x) % U64_MOD == 0
    ensures IsInt64(x) ==> r == x
  {
    var m := x % U64_MOD;
    if m < 0x8000_0000_0000_0000 then m else m - U64_MOD
  }

  /** A `struct timespec` as a value. */
  datatype Time = Time(sec: int, nsec: int)

  function TotalNsec(t: Time): int { t.sec * NSEC_PER_SEC + t.nsec }

  /** The signed 64-bit sum `tv_nsec + msec * 1000000` does not overflow. */
  predicate AddDefined(t: Time, msec: int)
  {
    IsInt64(t.sec) && IsInt64(t.nsec) && IsInt64(msec * NSEC_PER_MSEC) && IsInt64(t.nsec + msec * NSEC_PER_MSEC)
  }

  /**
   * The timespec ts_add_msec leaves: the nanosecond sum is taken as an
   * unsigned 64-bit value, its whole seconds are added to `tv_sec` (in
   * unsigned arithmetic, stored back as a signed `time_t`) and its
   * remainder becomes `tv_nsec`.
   */
  function AddMsec(t: Time, msec: int): (r: Time)
    requires AddDefined(t, msec)
    ensures 0 <= r.nsec < NSEC_PER_SEC && IsInt64(r.sec)
  {
    var n := (t.nsec + msec * NSEC_PER_MSEC) % U64_MOD;
    Time(ToInt64(t.sec + n / NSEC_PER_SEC), n % NSEC_PER_SEC)
  }

  /** A non-negative delay on a normalised timespec adds exactly `msec` milliseconds. */
  lemma {:induction false} AddMsecExact(t: Time, msec: int)
    requires AddDefined(t, msec) && 0 <= t.nsec < NSEC_PER_SEC && msec >= 0
    requires IsInt64(t.sec + (t.nsec + msec * NSEC_PER_MSEC) / NSEC_PER_SEC)
    ensures TotalNsec(AddMsec(t, msec)) == TotalNsec(t) + msec * NSEC_PER_MSEC
    ensures AddMsec(t, msec).sec >= t.sec
  {
    var n := t.nsec + msec * NSEC_PER_MSEC;
    assert n % U64_MOD == n;
  }

  /** A delay that makes the sum negative wraps it: the deadline lands 2^64 ns (about 584
    * years) late instead. Neither call site passes a negative delay: the timed wait on a
    * thread context falls back to the untimed wait for a negative timeout before adding it,
    * and the packet decoder adds a constant 100. */
  lemma {:induction false} AddMsecNegativeWraps(t: Time, msec: int)
    requires AddDefined(t, msec) && t.nsec + msec * NSEC_PER_MSEC < 0
    requires IsInt64(t.sec + (t.nsec + msec * NSEC_PER_MSEC + U64_MOD) / NSEC_PER_SEC)
    ensures TotalNsec(AddMsec(t, msec)) == TotalNsec(t) + msec * NSEC_PER_MSEC + U64_MOD
  {
    var n := t.nsec + msec * NSEC_PER_MSEC;
    assert n % U64_MOD == n + U64_MOD;
  }

  class Timespec {
    var sec: int
    var nsec: int

    constructor (sec: int, nsec: int)
      ensures this.sec == sec && this.nsec == nsec
    {
      this.sec := sec;
      this.nsec := nsec;
    }

    function Value(): Time
      reads this
    {
      Time(sec, nsec)
    }
  }

  /** ts_add_msec: moves the timespec `msec` milliseconds ahead. */
  method TsAddMsec(ts: Timespec, msec: int)
    requires AddDefined(ts.Value(), msec)
    modifies ts
    ensures ts.Value() == AddMsec(old(ts.Value()), msec)
  {
    var n := (ts.nsec + msec * NSEC_PER_MSEC) % U64_MOD;
    ts.sec := ToInt64(ts.sec + n / NSEC_PER_SEC);
    ts.nsec := n % NSEC_PER_SEC;
  }

  // ---------------------------------------------------------------------
  // Annex B output

  /** FFmpeg's AVERROR_INVALIDDATA, the negated tag "INDA". */
  const AVERROR_INVALIDDATA: int := -0x4144_4E49

  /** The Annex B start code prefix (section B.1.1 of ITU-T H.264, with its leading zero byte). */
  const StartCodePrefix: seq<Byte> := [0x00, 0x00, 0x00, 0x01]

  /** nal_unit_type and nal_ref_idc of a NAL unit header byte (section 7.3.1 of ITU-T H.264). */
  function NalUnitType(header: Byte): nat { header % 32 }
  function NalRefIdc(header: Byte): nat { header / 32 % 4 }

  const NAL_END_OF_STREAM: nat := 11
  const NAL_FILLER_DATA: nat := 12

  /** A NAL unit as bs_write_nal_unit emits it: start-code prefixed only for avcC input. */
  function NalUnit(avcC: bool, nal: seq<Byte>): (r: seq<Byte>)
    ensures avcC ==> |r| == 4 + |nal| && r[..4] == StartCodePrefix && r[4..] == nal
    ensures !avcC ==> r == nal
  {
    (if avcC then StartCodePrefix else []) + nal
  }

  /** The filler_data() NAL unit: prefix, header 0x0c, `length` bytes 0xff (none for a
    * negative length), then the rbsp trailing bits 0x80. */
  function FillerData(length: int): (r: seq<Byte>)
    ensures |r| == 6 + Max(length, 0)
    ensures r[..4] == StartCodePrefix && r[4] == 0x0c && r[|r| - 1] == 0x80
    ensures forall i :: 5 <= i < |r| - 1 ==> r[i] == 0xff
  {
    StartCodePrefix + [0x0c] + seq(Max(length, 0), _ => 0xff) + [0x80]
  }

  /** The end_of_stream() NAL unit: the prefix and a header byte alone. */
  const EndOfStream: seq<Byte> := StartCodePrefix + [0x0b]

  /** The header bytes written are those of filler data and end of stream, with nal_ref_idc 0. */
  lemma {:induction false} HeaderTypes(length: int)
    ensures NalUnitType(FillerData(length)[4]) == NAL_FILLER_DATA && NalRefIdc(FillerData(length)[4]) == 0
    ensures NalUnitType(EndOfStream[4]) == NAL_END_OF_STREAM && NalRefIdc(EndOfStream[4]) == 0
    ensures |EndOfStream| == 5 && EndOfStream[..4] == StartCodePrefix
  {
  }

  /** The Annex B stream of a sequence of NAL units: each one start-code prefixed, in order. */
  function AnnexB(units: seq<seq<Byte>>): seq<Byte>
    decreases |units|
  {
    if units == [] then [] else NalUnit(true, units[0]) + AnnexB(units[1..])
  }

  lemma {:induction false} AnnexBConcat(a: seq<seq<Byte>>, b: seq<seq<Byte>>)
    ensures AnnexB(a + b) == AnnexB(a) + AnnexB(b)
    decreases |a|
  {
    if a == [] {
      assert a + b == b;
    } else {
      assert (a + b)[1..] == a[1..] + b;
      AnnexBConcat(a[1..], b);
    }
  }

  // ---------------------------------------------------------------------
  // Big-endian lengths

  /** The values an `n`-byte length can hold, for the sizes 0 to 4 an avcC stream uses. */
  function LengthLimit(n: nat): nat
    requires n <= 4
  {
    if n == 0 then 1 else if n == 1 then 0x100 else if n == 2 then 0x1_0000
    else if n == 3 then 0x100_0000 else 0x1_0000_0000
  }

  /** The first `n` bytes of `s` read most significant first, shifting the value read so
    * far left by eight bits per byte. */
  function Be(s: seq<Byte>, n: nat): (r: nat)
    requires n <= 4 && n <= |s|
    ensures r < LengthLimit(n)
  {
    if n == 0 then 0 else Be(s, n - 1) * 0x100 + s[n - 1]
  }

  /** `v` written in `n` bytes, most significant first. */
  function BeBytes(v: nat, n: nat): (r: seq<Byte>)
    requires 1 <= n <= 4 && v < LengthLimit(n)
    ensures |r| == n
  {
    if n == 1 then [v]
    else if n == 2 then [v / 0x100, v % 0x100]
    else if n == 3 then [v / 0x100 / 0x100, v / 0x100 % 0x100, v % 0x100]
    else [v / 0x100 / 0x100 / 0x100, v / 0x100 / 0x100 % 0x100, v / 0x100 % 0x100, v % 0x100]
  }

  /** Reading back a big-endian length gives the value written, whatever follows it. */
  lemma {:induction false} BeOfBeBytes(v: nat, n: nat, tail: seq<Byte>)
    requires 1 <= n <= 4 && v < LengthLimit(n)
    ensures Be(BeBytes(v, n) + tail, n) == v
  {
    var b := BeBytes(v, n) + tail;
    var a := v / 0x100;
    var c := a / 0x100;
    assert v == a * 0x100 + v % 0x100;
    assert a == c * 0x100 + a % 0x100;
    assert c == c / 0x100 * 0x100 + c % 0x100;
    assert Be(b, 1) == b[0];
    if n >= 2 {
      assert Be(b, 2) == b[0] as int * 0x100 + b[1];
    }
    if n >= 3 {
      assert Be(b, 3) == Be(b, 2) * 0x100 + b[2];
    }
  }

  /** NAL units, each preceded by its length in `n` bytes, as an avcC sample or record carries them. */
  function LengthPrefixed(units: seq<seq<Byte>>, n: nat): seq<Byte>
    requires 1 <= n <= 4 && forall i :: 0 <= i < |units| ==> |units[i]| < LengthLimit(n)
    decreases |units|
  {
    if units == [] then [] else BeBytes(|units[0]|, n) + units[0] + LengthPrefixed(units[1..], n)
  }

  // ---------------------------------------------------------------------
  // Parsing specifications

  /** What a parsing loop writes to the pipe (`out`), whether it got to its end (`ok`),
    * and the input it left unread, where the C pointer stops (`rest`, meaningful when `ok`). */
  datatype Scan = Scan(out: seq<Byte>, ok: bool, rest: seq<Byte>)

  /** A scan preceded by the output `unit`. */
  function Then(unit: seq<Byte>, s: Scan): Scan
  {
    Scan(unit + s.out, s.ok, s.rest)
  }

  /**
   * `count` parameter sets at the start of `s`, each a 16-bit big-endian
   * length and that many bytes, each written as a start-code-prefixed NAL
   * unit; a set whose length or payload runs past the end stops the scan
   * with `ok` false, the sets before it written.
   */
  function ParameterSets(s: seq<Byte>, count: nat): (r: Scan)
    ensures r.ok ==> |r.rest| <= |s|
    decreases count
  {
    if count == 0 then Scan([], true, s)
    else if |s| < 2 then Scan([], false, s)
    else
      var size := Be(s, 2);
      if 2 + size > |s| then Scan([], false, s)
      else Then(NalUnit(true, s[2..2 + size]), ParameterSets(s[2 + size..], count - 1))
  }

  /** One parameter set that fits. */
  lemma {:induction false} ParameterSetStep(s: seq<Byte>, count: nat, size: nat)
    requires count > 0 && 2 + size <= |s| && size == Be(s, 2)
    ensures ParameterSets(s, count) == Then(NalUnit(true, s[2..2 + size]), ParameterSets(s[2 + size..], count - 1))
  {
  }

  /**
   * The NAL units of an avcC sample, each preceded by an `n`-byte
   * big-endian length: the scan ends quietly where fewer than `n` bytes
   * remain, and fails at a payload that runs past the end.
   */
  function Packet(s: seq<Byte>, n: nat): (r: Scan)
    requires 1 <= n <= 4
    decreases |s|
  {
    if |s| < n then Scan([], true, s)
    else
      var size := Be(s, n);
      if n + size > |s| then Scan([], false, s)
      else Then(NalUnit(true, s[n..n + size]), Packet(s[n + size..], n))
  }

  /** One unit of a packet that fits. */
  lemma {:induction false} PacketStep(s: seq<Byte>, n: nat, size: nat)
    requires 1 <= n <= 4 && n + size <= |s| && size == Be(s, n)
    ensures Packet(s, n) == Then(NalUnit(true, s[n..n + size]), Packet(s[n + size..], n))
  {
  }

  /** A packet: parsed as avcC samples, or passed through whole. */
  function PacketScan(avcC: bool, n: nat, buf: seq<Byte>): Scan
    requires avcC ==> 1 <= n <= 4
  {
    if avcC then Packet(buf, n) else Scan(buf, true, [])
  }

  /** nal_length_size of an AVCDecoderConfigurationRecord: lengthSizeMinusOne + 1. */
  function NalLengthSizeOf(buf: seq<Byte>): (n: nat)
    requires |buf| >= 5
    ensures 1 <= n <= 4
  {
    buf[4] % 4 + 1
  }

  /** numOfSequenceParameterSets: the low five bits of byte 5. */
  function SpsCount(buf: seq<Byte>): nat
    requires |buf| >= 6
  {
    buf[5] % 32
  }

  /** The sequence parameter sets of an avcC record, read from byte 6. */
  function Sps(buf: seq<Byte>): Scan
    requires |buf| >= 6
  {
    ParameterSets(buf[6..], SpsCount(buf))
  }

  /**
   * The extradata bytes decode_extradata reads without a bounds check are
   * present: byte 0 always; for an avcC record also bytes 1 to 5 and the
   * PPS count byte after the sequence parameter sets.
   */
  predicate HeaderReadable(buf: seq<Byte>)
  {
    |buf| >= 1 &&
    (buf[0] == 1 ==> |buf| >= 6 && (Sps(buf).ok ==> Sps(buf).rest != []))
  }

  /**
   * decode_extradata's output: extradata that is not an avcC record
   * (configurationVersion other than 1) is passed through whole; a record's
   * sequence then picture parameter sets are written as NAL units, the PPS
   * count being the byte after the last SPS.
   */
  function Extradata(buf: seq<Byte>): Scan
    requires HeaderReadable(buf)
  {
    if buf[0] != 1 then Scan(buf, true, [])
    else
      var sps := Sps(buf);
      if !sps.ok then sps
      else Then(sps.out, ParameterSets(sps.rest[1..], sps.rest[0]))
  }

  /** A working pipe takes a scan whole; a broken one accepts only a scan that wrote nothing. */
  predicate Accepted(broken: bool, s: Scan)
  {
    s.ok && (!broken || s.out == [])
  }

  /** What reaches the pipe of a scan: all of it, or nothing through a broken pipe. */
  function Sent(broken: bool, s: Scan): seq<Byte>
  {
    if broken then [] else s.out
  }

  /** Output written ahead of a scan, none of it through a broken pipe: the whole is
    * accepted exactly when the scan is, and the pipe, holding `w`, gets the output then
    * the scan's. */
  lemma {:induction false} Prefixed(broken: bool, w: seq<Byte>, out: seq<Byte>, s: Scan)
    requires broken ==> out == []
    ensures Accepted(broken, Then(out, s)) <==> Accepted(broken, s)
    ensures w + out + Sent(broken, s) == w + Sent(broken, Then(out, s))
  {
    if broken {
      assert w + out == w;
    } else {
      assert w + out + s.out == w + (out + s.out);
    }
  }

  /** One more unit written by a loop that has written `out` to a pipe holding `w`:
    * the scan still ahead and the pipe both move on by that unit. */
  lemma {:induction false} Extended(w: seq<Byte>, out: seq<Byte>, unit: seq<Byte>, s: Scan)
    ensures Then(out, Then(unit, s)) == Then(out + unit, s)
    ensures w + out + unit == w + (out + unit)
  {
    assert out + (unit + s.out) == (out + unit) + s.out;
  }

  /** A scan the pipe accepted, followed by a second: the pipe, holding `w`, gets both,
    * and the whole is accepted exactly when the second is. */
  lemma {:induction false} Sequenced(broken: bool, w: seq<Byte>, s1: Scan, s2: Scan)
    requires Accepted(broken, s1)
    ensures w + Sent(broken, s1) + Sent(broken, s2) == w + Sent(broken, Then(s1.out, s2))
    ensures Accepted(broken, Then(s1.out, s2)) <==> Accepted(broken, s2)
  {
    Prefixed(broken, w, s1.out, s2);
  }

  /** A first scan the pipe rejected after it read through: nothing more is accepted. */
  lemma {:induction false} FirstRejected(broken: bool, s1: Scan, s2: Scan)
    requires s1.ok && !Accepted(broken, s1)
    ensures !Accepted(broken, Then(s1.out, s2)) && Sent(broken, Then(s1.out, s2)) == Sent(broken, s1)
  {
  }

  lemma {:induction false} Appended(a: seq<Byte>, b: seq<Byte>, c: seq<Byte>)
    ensures a + b + c == a + (b + c)
  {
  }

  // ---------------------------------------------------------------------
  // Round trips: what an encoder puts in, the parsers give back as Annex B

  /** Every unit is short enough for an `n`-byte length. */
  predicate Fits(units: seq<seq<Byte>>, n: nat)
  {
    1 <= n <= 4 && forall i :: 0 <= i < |units| ==> |units[i]| < LengthLimit(n)
  }

  /** A length-prefixed run starts with the first unit's length and the first unit. */
  lemma {:induction false} LengthPrefixedHead(units: seq<seq<Byte>>, n: nat, tail: seq<Byte>)
    requires units != [] && Fits(units, n)
    ensures LengthPrefixed(units, n) + tail ==
      BeBytes(|units[0]|, n) + (units[0] + (LengthPrefixed(units[1..], n) + tail))
  {
    var len := BeBytes(|units[0]|, n);
    var rest := LengthPrefixed(units[1..], n);
    assert LengthPrefixed(units, n) == len + units[0] + rest;
    Appended(len, units[0], rest);
    Appended(len, units[0] + rest, tail);
    Appended(units[0], rest, tail);
  }

  /** The first unit of a length-prefixed run parses back to itself. */
  lemma {:induction false} FirstUnit(s: seq<Byte>, units: seq<seq<Byte>>, n: nat, tail: seq<Byte>)
    requires units != [] && Fits(units, n) && s == LengthPrefixed(units, n) + tail
    ensures n + |units[0]| <= |s| && Be(s, n) == |units[0]|
    ensures s[n..n + |units[0]|] == units[0]
    ensures s[n + |units[0]|..] == LengthPrefixed(units[1..], n) + tail
  {
    var len := BeBytes(|units[0]|, n);
    var rest := LengthPrefixed(units[1..], n) + tail;
    LengthPrefixedHead(units, n, tail);
    BeOfBeBytes(|units[0]|, n, units[0] + rest);
    assert s[n..] == units[0] + rest;
    assert s[n..n + |units[0]|] == s[n..][..|units[0]|];
    assert s[n + |units[0]|..] == s[n..][|units[0]|..];
  }

  /** Parameter sets with 16-bit lengths parse back to their Annex B stream, and the
    * pointer stops where they end, whatever follows. */
  lemma {:induction false} ParameterSetsOfUnits(units: seq<seq<Byte>>, tail: seq<Byte>)
    requires Fits(units, 2)
    ensures ParameterSets(LengthPrefixed(units, 2) + tail, |units|) == Scan(AnnexB(units), true, tail)
    decreases |units|
  {
    if units == [] {
      assert LengthPrefixed(units, 2) + tail == tail;
    } else {
      ParameterSetHead(units, tail);
      ParameterSetsOfUnits(units[1..], tail);
      assert |units[1..]| == |units| - 1;
    }
  }

  /** The first unit of a run with 16-bit lengths is the first set its scan writes. */
  lemma {:induction false} ParameterSetHead(units: seq<seq<Byte>>, tail: seq<Byte>)
    requires units != [] && Fits(units, 2)
    ensures ParameterSets(LengthPrefixed(units, 2) + tail, |units|) ==
      Then(NalUnit(true, units[0]), ParameterSets(LengthPrefixed(units[1..], 2) + tail, |units| - 1))
  {
    var s := LengthPrefixed(units, 2) + tail;
    FirstUnit(s, units, 2, tail);
    ParameterSetStep(s, |units|, |units[0]|);
  }

  /** Length-prefixed NAL units followed by fewer bytes than a length takes parse back to
    * their Annex B stream: the short tail is left unread without an error. */
  lemma {:induction false} PacketOfUnits(units: seq<seq<Byte>>, n: nat, tail: seq<Byte>)
    requires Fits(units, n) && |tail| < n
    ensures Packet(LengthPrefixed(units, n) + tail, n) == Scan(AnnexB(units), true, tail)
    decreases |units|
  {
    if units == [] {
      assert LengthPrefixed(units, n) + tail == tail;
    } else {
      PacketHead(units, n, tail);
      PacketOfUnits(units[1..], n, tail);
    }
  }

  /** The first unit of a length-prefixed run is the first unit of its packet scan. */
  lemma {:induction false} PacketHead(units: seq<seq<Byte>>, n: nat, tail: seq<Byte>)
    requires units != [] && Fits(units, n)
    ensures Packet(LengthPrefixed(units, n) + tail, n) ==
      Then(NalUnit(true, units[0]), Packet(LengthPrefixed(units[1..], n) + tail, n))
  {
    var s := LengthPrefixed(units, n) + tail;
    FirstUnit(s, units, n, tail);
    PacketStep(s, n, |units[0]|);
  }

  /**
   * An AVCDecoderConfigurationRecord (section 5.2.4.1 of ISO/IEC 14496-15):
   * version 1, profile, compatibility and level bytes, six reserved bits
   * with lengthSizeMinusOne, three reserved bits with the SPS count, the
   * SPS, the PPS count, the PPS, and any extension bytes.
   */
  function Record(profile: Byte, compat: Byte, level: Byte, n: nat, sps: seq<seq<Byte>>, pps: seq<seq<Byte>>, ext: seq<Byte>): seq<Byte>
    requires 1 <= n <= 4 && |sps| < 32 && |pps| < 256 && Fits(sps, 2) && Fits(pps, 2)
  {
    [1, profile, compat, level, 0xfc + (n - 1), 0xe0 + |sps|] + (LengthPrefixed(sps, 2) + ([|pps|] + LengthPrefixed(pps, 2) + ext))
  }

  /** The SPS half of a record: read from byte 6, they stop at the PPS count. */
  lemma {:induction false} SpsOfRecord(profile: Byte, compat: Byte, level: Byte, n: nat, sps: seq<seq<Byte>>, pps: seq<seq<Byte>>, ext: seq<Byte>)
    requires 1 <= n <= 4 && |sps| < 32 && |pps| < 256 && Fits(sps, 2) && Fits(pps, 2)
    ensures var rec := Record(profile, compat, level, n, sps, pps, ext);
      |rec| >= 6 && rec[0] == 1 && NalLengthSizeOf(rec) == n &&
      Sps(rec) == Scan(AnnexB(sps), true, [|pps| as Byte] + LengthPrefixed(pps, 2) + ext)
  {
    var head: seq<Byte> := [1, profile, compat, level, 0xfc + (n - 1), 0xe0 + |sps|];
    var tail := [|pps| as Byte] + LengthPrefixed(pps, 2) + ext;
    var body := LengthPrefixed(sps, 2) + tail;
    var rec := Record(profile, compat, level, n, sps, pps, ext);
    assert rec == head + body;
    HeadOf(head, body);
    HeaderFields(n, |sps|);
    assert rec[4] == 0xfc + (n - 1) && rec[5] == 0xe0 + |sps|;
    assert NalLengthSizeOf(rec) == n && SpsCount(rec) == |sps|;
    ParameterSetsOfUnits(sps, tail);
    assert Sps(rec) == ParameterSets(body, |sps|);
  }

  /** Six header bytes in front of a body. */
  lemma {:induction false} HeadOf(head: seq<Byte>, body: seq<Byte>)
    requires |head| == 6
    ensures var rec := head + body;
      |rec| >= 6 && rec[6..] == body && rec[0] == head[0] && rec[4] == head[4] && rec[5] == head[5]
  {
  }

  /** The reserved bits set in bytes 4 and 5 of a record do not disturb the fields below them. */
  lemma {:induction false} HeaderFields(n: nat, count: nat)
    requires 1 <= n <= 4 && count < 32
    ensures (0xfc + (n - 1)) % 4 + 1 == n && (0xe0 + count) % 32 == count
  {
    assert 0xfc + (n - 1) == 63 * 4 + (n - 1);
    assert 0xe0 + count == 7 * 32 + count;
  }

  /** The PPS half of a record: the count byte, then the sets, up to the extension bytes. */
  lemma {:induction false} PpsOfRecord(pps: seq<seq<Byte>>, ext: seq<Byte>)
    requires |pps| < 256 && Fits(pps, 2)
    ensures var tail := [|pps| as Byte] + LengthPrefixed(pps, 2) + ext;
      tail != [] && ParameterSets(tail[1..], tail[0]) == Scan(AnnexB(pps), true, ext)
  {
    var tail := [|pps| as Byte] + LengthPrefixed(pps, 2) + ext;
    assert tail[1..] == LengthPrefixed(pps, 2) + ext;
    ParameterSetsOfUnits(pps, ext);
  }

  /** decode_extradata reads a record back: its length size and its parameter sets, in
    * order, leaving the extension bytes unread. */
  lemma {:induction false} ExtradataOfRecord(profile: Byte, compat: Byte, level: Byte, n: nat, sps: seq<seq<Byte>>, pps: seq<seq<Byte>>, ext: seq<Byte>)
    requires 1 <= n <= 4 && |sps| < 32 && |pps| < 256 && Fits(sps, 2) && Fits(pps, 2)
    ensures var rec := Record(profile, compat, level, n, sps, pps, ext);
      HeaderReadable(rec) && NalLengthSizeOf(rec) == n &&
      Extradata(rec) == Scan(AnnexB(sps + pps), true, ext)
  {
    SpsOfRecord(profile, compat, level, n, sps, pps, ext);
    PpsOfRecord(pps, ext);
    AnnexBConcat(sps, pps);
  }

  // ---------------------------------------------------------------------
  // The pipe and the decoder

  /** The write end of the pipe to JM. A broken pipe (the reader gone) takes no byte. */
  class Pipe {
    var written: seq<Byte>
    const broken: bool

    constructor (broken: bool)
      ensures written == [] && this.broken == broken
    {
      written := [];
      this.broken := broken;
    }

    /** write(2) of `buf`: complete, or (broken) nothing; a zero-byte write always completes. */
    method Write(buf: seq<Byte>) returns (ok: bool)
      modifies this
      ensures ok <==> !broken || buf == []
      ensures written == old(written) + (if ok then buf else [])
    {
      ok := !broken || buf == [];
      if ok {
        written := written + buf;
      }
    }
  }

  class Decoder {
    /** The extradata buffer last processed, by address (0 for NULL). */
    var extradata: nat
    var isAvcC: bool
    var nalLengthSize: nat
    const pipe: Pipe

    predicate Valid()
      reads this
    {
      isAvcC ==> 1 <= nalLengthSize <= 4
    }

    /** The zeroed decoder with no extradata seen yet. */
    constructor (pipe: Pipe)
      ensures Valid() && extradata == 0 && !isAvcC && nalLengthSize == 0 && this.pipe == pipe
    {
      extradata := 0;
      isAvcC := false;
      nalLengthSize := 0;
      this.pipe := pipe;
    }

    /** bs_write: succeeds when the whole buffer went down the pipe. */
    method BsWrite(buf: seq<Byte>) returns (ok: bool)
      modifies pipe
      ensures ok <==> !pipe.broken || buf == []
      ensures pipe.written == old(pipe.written) + (if ok then buf else [])
    {
      ok := pipe.Write(buf);
    }

    method BsWriteUint8(value: Byte) returns (ok: bool)
      modifies pipe
      ensures ok <==> !pipe.broken
      ensures pipe.written == old(pipe.written) + (if ok then [value] else [])
    {
      ok := BsWrite([value]);
    }

    method BsWriteStartCodePrefix() returns (ok: bool)
      modifies pipe
      ensures ok <==> !pipe.broken
      ensures pipe.written == old(pipe.written) + (if ok then StartCodePrefix else [])
    {
      ok := BsWrite(StartCodePrefix);
    }

    /** bs_write_nal_unit: the payload, after a start code prefix in avcC mode. */
    method BsWriteNalUnit(nal: seq<Byte>) returns (ok: bool)
      modifies pipe
      ensures ok <==> !pipe.broken || NalUnit(isAvcC, nal) == []
      ensures pipe.written == old(pipe.written) + (if ok then NalUnit(isAvcC, nal) else [])
    {
      if isAvcC {
        ok := BsWriteStartCodePrefix();
        if !ok {
          return;
        }
      }
      ok := BsWrite(nal);
    }

    /** bs_write_filler_data: the filler_data() NAL unit with `length` payload bytes. */
    method BsWriteFillerData(length: int) returns (ok: bool)
      modifies pipe
      ensures ok <==> !pipe.broken
      ensures pipe.written == old(pipe.written) + (if ok then FillerData(length) else [])
    {
      ok := WriteFillerHead();
      if !ok {
        return;
      }
      var n := length;
      while n > 0
        invariant n <= Max(length, 0) && !pipe.broken
        invariant pipe.written == old(pipe.written) + StartCodePrefix + [0x0c] + seq(Max(length, 0) - Max(n, 0), _ => 0xff)
      {
        ok := BsWriteUint8(0xff);
        if !ok {
          return;
        }
        n := n - 1;
      }
      ok := BsWriteUint8(0x80);
    }

    method WriteFillerHead() returns (ok: bool)
      modifies pipe
      ensures ok <==> !pipe.broken
      ensures pipe.written == old(pipe.written) + (if ok then StartCodePrefix + [0x0c] else [])
    {
      ok := BsWriteStartCodePrefix();
      if !ok {
        return;
      }
      ok := BsWriteUint8(0x0c);
    }

    /** bs_write_eos: the end_of_stream() NAL unit. */
    method BsWriteEos() returns (ok: bool)
      modifies pipe
      ensures ok <==> !pipe.broken
      ensures pipe.written == old(pipe.written) + (if ok then EndOfStream else [])
    {
      ok := BsWriteStartCodePrefix();
      if !ok {
        return;
      }
      ok := BsWriteUint8(0x0b);
    }

    /** One parameter set at the start of `p`: its 16-bit length, then its payload as a
      * NAL unit; `used` is how far the C pointer moves. */
    method WriteParameterSet(p: seq<Byte>, k: nat) returns (ok: bool, used: nat)
      requires isAvcC && k > 0
      modifies pipe
      ensures var s := ParameterSets(p, k);
        if ok then
          2 <= used <= |p| && !pipe.broken &&
          s == Then(NalUnit(true, p[2..used]), ParameterSets(p[used..], k - 1)) &&
          pipe.written == old(pipe.written) + NalUnit(true, p[2..used])
        else !Accepted(pipe.broken, s) && pipe.written == old(pipe.written) + Sent(pipe.broken, s)
    {
      if 2 > |p| {
        return false, 0;
      }
      var size: nat := (p[0] as int) * 256 + p[1] as int;
      assert Be(p, 1) == p[0];
      if 2 + size > |p| {
        return false, 2;
      }
      used := 2 + size;
      ParameterSetStep(p, k, size);
      ok := WriteUnit(p[2..used], ParameterSets(p, k), ParameterSets(p[used..], k - 1));
    }

    /** The NAL unit a scan `s` starts with, followed by the scan `r`: written whole, or
      * the pipe is broken and `s` not accepted. */
    method WriteUnit(unit: seq<Byte>, ghost s: Scan, ghost r: Scan) returns (ok: bool)
      requires isAvcC && s == Then(NalUnit(true, unit), r)
      modifies pipe
      ensures if ok then !pipe.broken && pipe.written == old(pipe.written) + NalUnit(true, unit)
        else !Accepted(pipe.broken, s) && pipe.written == old(pipe.written) + Sent(pipe.broken, s)
    {
      ok := BsWriteNalUnit(unit);
      if !ok {
        assert |s.out| >= 4;
      }
    }

    /**
     * One of the two parameter-set loops of decode_extradata, `p0` at its
     * first length: the scan of ParameterSets goes down a working pipe; a
     * broken one takes nothing and the loop fails at the first set it has to
     * write. `rest` is where the pointer stops.
     */
    method WriteParameterSets(p0: seq<Byte>, count: nat) returns (ok: bool, rest: seq<Byte>)
      requires isAvcC
      modifies pipe
      ensures var s := ParameterSets(p0, count);
        (ok <==> Accepted(pipe.broken, s)) && pipe.written == old(pipe.written) + Sent(pipe.broken, s) &&
        (ok ==> rest == s.rest)
    {
      var p := p0;
      var i: nat := 0;
      ghost var out: seq<Byte> := [];
      while i < count
        invariant i <= count
        invariant ParameterSets(p0, count) == Then(out, ParameterSets(p, count - i))
        invariant pipe.written == old(pipe.written) + out
        invariant pipe.broken ==> out == []
      {
        ghost var tail := ParameterSets(p, count - i);
        var used;
        ok, used := WriteParameterSet(p, count - i);
        if !ok {
          Prefixed(pipe.broken, old(pipe.written), out, tail);
          return ok, p;
        }
        ghost var unit := NalUnit(true, p[2..used]);
        Extended(old(pipe.written), out, unit, ParameterSets(p[used..], count - i - 1));
        p := p[used..];
        out := out + unit;
        i := i + 1;
      }
      Prefixed(pipe.broken, old(pipe.written), out, ParameterSets(p, 0));
      ok, rest := true, p;
    }

    /**
     * decode_extradata: extradata at an address already seen is skipped;
     * otherwise the decoder records the address, whether it is an avcC
     * record and, for one, its NAL length size, and writes its Annex B form.
     */
    method DecodeExtradata(id: nat, bytes: seq<Byte>) returns (ret: int)
      requires Valid()
      requires id != extradata ==> HeaderReadable(bytes)
      modifies this, pipe
      ensures Valid() && extradata == id
      ensures ret == 0 || ret == AVERROR_INVALIDDATA
      ensures id == old(extradata) ==>
        ret == 0 && isAvcC == old(isAvcC) && nalLengthSize == old(nalLengthSize) && pipe.written == old(pipe.written)
      ensures id != old(extradata) ==>
        isAvcC == (bytes[0] == 1) &&
        nalLengthSize == (if isAvcC then NalLengthSizeOf(bytes) else old(nalLengthSize)) &&
        (ret == 0 <==> Accepted(pipe.broken, Extradata(bytes))) &&
        pipe.written == old(pipe.written) + Sent(pipe.broken, Extradata(bytes))
    {
      if extradata == id {
        return 0;
      }
      extradata := id;
      isAvcC := bytes[0] == 1;
      if !isAvcC {
        var ok := BsWrite(bytes);
        return if ok then 0 else AVERROR_INVALIDDATA;
      }
      nalLengthSize := bytes[4] % 4 + 1;
      ret := WriteHeaders(bytes);
    }

    /** The SPS then the PPS loop of an avcC record. */
    method WriteHeaders(bytes: seq<Byte>) returns (ret: int)
      requires isAvcC && HeaderReadable(bytes) && bytes[0] == 1
      modifies pipe
      ensures ret == 0 || ret == AVERROR_INVALIDDATA
      ensures (ret == 0 <==> Accepted(pipe.broken, Extradata(bytes))) &&
        pipe.written == old(pipe.written) + Sent(pipe.broken, Extradata(bytes))
    {
      ghost var sps := Sps(bytes);
      var ok, rest := WriteParameterSets(bytes[6..], bytes[5] % 32);
      if !ok {
        if sps.ok {
          FirstRejected(pipe.broken, sps, ParameterSets(sps.rest[1..], sps.rest[0]));
        }
        return AVERROR_INVALIDDATA;
      }
      ghost var pps := ParameterSets(rest[1..], rest[0]);
      ghost var mid := pipe.written;
      var count := rest[0];
      ok, rest := WriteParameterSets(rest[1..], count);
      Sequenced(pipe.broken, old(pipe.written), sps, pps);
      ret := if ok then 0 else AVERROR_INVALIDDATA;
    }

    /** The `n`-byte big-endian length at the start of `p`, accumulated as decode_packet does. */
    method ReadNalSize(p: seq<Byte>, n: nat) returns (size: nat)
      requires n <= 4 && n <= |p|
      ensures size == Be(p, n)
    {
      size := 0;
      for i := 0 to n
        invariant size == Be(p, i)
      {
        size := size * 256 + p[i];
      }
    }

    /** One NAL unit of an avcC sample at the start of `p`: its length, then the unit itself. */
    method ForwardSample(p: seq<Byte>) returns (ok: bool, used: nat)
      requires isAvcC && 1 <= nalLengthSize <= 4 && nalLengthSize <= |p|
      modifies pipe
      ensures var n := nalLengthSize; var s := Packet(p, n);
        if ok then
          n <= used <= |p| && !pipe.broken &&
          s == Then(NalUnit(true, p[n..used]), Packet(p[used..], n)) &&
          pipe.written == old(pipe.written) + NalUnit(true, p[n..used])
        else !Accepted(pipe.broken, s) && pipe.written == old(pipe.written) + Sent(pipe.broken, s)
    {
      var n := nalLengthSize;
      var size := ReadNalSize(p, n);
      if n + size > |p| {
        return false, n;
      }
      used := n + size;
      PacketStep(p, n, size);
      ok := WriteUnit(p[n..used], Packet(p, n), Packet(p[used..], n));
    }

    /**
     * The avcC loop of decode_packet. Its do-while test `buf < buf_end`
     * never ends the loop before the length test does, since a length
     * takes at least one byte.
     */
    method ForwardSamples(buf: seq<Byte>) returns (ok: bool)
      requires isAvcC && 1 <= nalLengthSize <= 4
      modifies pipe
      ensures var s := Packet(buf, nalLengthSize);
        (ok <==> Accepted(pipe.broken, s)) && pipe.written == old(pipe.written) + Sent(pipe.broken, s)
    {
      var p := buf;
      ghost var out: seq<Byte> := [];
      while nalLengthSize <= |p|
        invariant |p| <= |buf|
        invariant Packet(buf, nalLengthSize) == Then(out, Packet(p, nalLengthSize))
        invariant pipe.written == old(pipe.written) + out
        invariant pipe.broken ==> out == []
        decreases |p|
      {
        ghost var tail := Packet(p, nalLengthSize);
        var used;
        ok, used := ForwardSample(p);
        if !ok {
          Prefixed(pipe.broken, old(pipe.written), out, tail);
          return;
        }
        ghost var unit := NalUnit(true, p[nalLengthSize..used]);
        Extended(old(pipe.written), out, unit, Packet(p[used..], nalLengthSize));
        p := p[used..];
        out := out + unit;
      }
      Prefixed(pipe.broken, old(pipe.written), out, Packet(p, nalLengthSize));
      ok := true;
    }

    /** The part of decode_packet after the extradata: avcC samples become Annex B
      * NAL units, anything else goes down the pipe whole. */
    method ForwardPacket(buf: seq<Byte>) returns (ok: bool)
      requires Valid()
      modifies pipe
      ensures var s := PacketScan(isAvcC, nalLengthSize, buf);
        (ok <==> Accepted(pipe.broken, s)) && pipe.written == old(pipe.written) + Sent(pipe.broken, s)
    {
      if isAvcC {
        ok := ForwardSamples(buf);
      } else {
        ok := BsWriteNalUnit(buf);
      }
    }

    /**
     * decode_packet: the extradata first (its failure ends the call), then
     * the packet; the pipe receives both outputs in that order.
     */
    method DecodePacket(id: nat, bytes: seq<Byte>, buf: seq<Byte>) returns (ret: int)
      requires Valid()
      requires id != extradata ==> HeaderReadable(bytes)
      modifies this, pipe
      ensures Valid() && extradata == id
      ensures ret == 0 || ret == AVERROR_INVALIDDATA
      ensures (isAvcC, nalLengthSize) ==
        if id == old(extradata) then (old(isAvcC), old(nalLengthSize))
        else (bytes[0] == 1, if bytes[0] == 1 then NalLengthSizeOf(bytes) else old(nalLengthSize))
      ensures var e := if id == old(extradata) then Scan([], true, []) else Extradata(bytes);
        var all := if Accepted(pipe.broken, e) then Then(e.out, PacketScan(isAvcC, nalLengthSize, buf)) else e;
        (ret == 0 <==> Accepted(pipe.broken, all)) && pipe.written == old(pipe.written) + Sent(pipe.broken, all)
    {
      ghost var e := if id == extradata then Scan([], true, []) else Extradata(bytes);
      ret := DecodeExtradata(id, bytes);
      if id == old(extradata) {
        assert old(pipe.written) + Sent(pipe.broken, e) == old(pipe.written);
      }
      if ret < 0 {
        return;
      }
      var ok := ForwardPacket(buf);
      Sequenced(pipe.broken, old(pipe.written), e, PacketScan(isAvcC, nalLengthSize, buf));
      ret := if ok then 0 else AVERROR_INVALIDDATA;
    }
  }

  // ---------------------------------------------------------------------
  // Decoded pictures

  /** The scalar fields of JM's `DecodedPicList` entry. */
  datatype PicInfo = PicInfo(yuvFormat: int, storageFormat: int, bitDepth: int, width: int, height: int,
                             yStride: int, uvStride: int)

  /** A `DecodedPicList` entry: validity, the scalars, and the plane buffers it owns. */
  class Picture {
    var valid: int
    var info: PicInfo
    var y: array?<Byte>
    var u: array?<Byte>
    var v: array?<Byte>
    var bufSize: int

    constructor (valid: int, info: PicInfo, y: array?<Byte>, u: array?<Byte>, v: array?<Byte>, bufSize: int)
      ensures this.valid == valid && this.info == info && this.y == y && this.u == u && this.v == v
      ensures this.bufSize == bufSize
    {
      this.valid := valid;
      this.info := info;
      this.y := y;
      this.u := u;
      this.v := v;
      this.bufSize := bufSize;
    }
  }

  /** The decoder's list of decoded pictures, head first. */
  class PictureQueue {
    var pics: seq<Picture>

    constructor ()
      ensures pics == []
    {
      pics := [];
    }

    /** dp_queue_push: the picture goes in at the tail. */
    method Push(pic: Picture) returns (r: Picture)
      modifies this
      ensures pics == old(pics) + [pic] && r == pic
    {
      pics := pics + [pic];
      r := pic;
    }

    /**
     * dp_queue_push_copy: a new entry with every field of `pic` goes in at
     * the tail, taking over its planes; `pic` is left invalid, with no planes
     * and a zero buffer size.
     */
    method PushCopy(pic: Picture) returns (copy: Picture)
      modifies this, pic
      ensures fresh(copy) && pics == old(pics) + [copy]
      ensures copy.valid == old(pic.valid) && copy.info == old(pic.info) && copy.bufSize == old(pic.bufSize)
      ensures copy.y == old(pic.y) && copy.u == old(pic.u) && copy.v == old(pic.v)
      ensures pic.valid == 0 && pic.y == null && pic.u == null && pic.v == null && pic.bufSize == 0
      ensures pic.info == old(pic.info)
    {
      copy := new Picture(pic.valid, pic.info, pic.y, pic.u, pic.v, pic.bufSize);
      pic.valid := 0;
      pic.y := null;
      pic.u := null;
      pic.v := null;
      pic.bufSize := 0;
      var _ := Push(copy);
    }

    /** dp_queue_pop: the head, removed, or null for an empty queue. */
    method Pop() returns (pic: Picture?)
      modifies this
      ensures old(pics) == [] ==> pic == null && pics == []
      ensures old(pics) != [] ==> pic == old(pics[0]) && pics == old(pics[1..])
    {
      if pics == [] {
        return null;
      }
      pic := pics[0];
      pics := pics[1..];
    }
  }

  // ---------------------------------------------------------------------
  // jm_get_pixel_format

  /** JM's chroma format codes (`ColorFormat`). */
  const YUV400: int := 0
  const YUV420: int := 1
  const YUV422: int := 2
  const YUV444: int := 3

  function JmChroma(yuvFormat: int): Option<Chroma>
  {
    if yuvFormat == YUV400 then Some(Chroma400)
    else if yuvFormat == YUV420 then Some(Chroma420)
    else if yuvFormat == YUV422 then Some(Chroma422)
    else if yuvFormat == YUV444 then Some(Chroma444)
    else None
  }

  /** jm_get_pixel_format: the FFmpeg format of a picture with planar samples. */
  function JmPixelFormat(info: PicInfo): PixelFormat
  {
    if info.storageFormat != 0 then PixFmtNone
    else if info.bitDepth == 8 then
      if info.yuvFormat == YUV400 then Gray8
      else if info.yuvFormat == YUV420 then Yuv420p
      else if info.yuvFormat == YUV422 then Yuv422p
      else if info.yuvFormat == YUV444 then Yuv444p
      else PixFmtNone
    else if info.bitDepth == 10 then
      if info.yuvFormat == YUV420 then Yuv420p10le
      else if info.yuvFormat == YUV422 then Yuv422p10le
      else if info.yuvFormat == YUV444 then Yuv444p10le
      else PixFmtNone
    else if info.bitDepth == 12 then
      if info.yuvFormat == YUV420 then Yuv420p12le
      else if info.yuvFormat == YUV422 then Yuv422p12le
      else if info.yuvFormat == YUV444 then Yuv444p12le
      else PixFmtNone
    else if info.bitDepth == 16 then
      if info.yuvFormat == YUV400 then Gray16
      else if info.yuvFormat == YUV420 then Yuv420p16le
      else if info.yuvFormat == YUV422 then Yuv422p16le
      else if info.yuvFormat == YUV444 then Yuv444p16le
      else PixFmtNone
    else PixFmtNone
  }

  /**
   * A picture gets a format exactly when it is stored planar, its chroma
   * code is known and its depth is 8 or 16 bits, or 10 or 12 bits with
   * chroma; the format has the picture's chroma and depth, three planes,
   * and one plane for grey.
   */
  lemma {:induction false} JmPixelFormatLayout(info: PicInfo)
    ensures JmPixelFormat(info) != PixFmtNone <==>
      info.storageFormat == 0 && JmChroma(info.yuvFormat).Some? &&
      (info.bitDepth in {8, 16} || (info.bitDepth in {10, 12} && info.yuvFormat != YUV400))
    ensures JmPixelFormat(info) != PixFmtNone ==>
      LayoutOf(JmPixelFormat(info)) ==
        Some(Layout(JmChroma(info.yuvFormat).value, info.bitDepth, if info.yuvFormat == YUV400 then 1 else 3))
  {
  }
}
