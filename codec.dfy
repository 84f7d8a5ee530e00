// Codec metadata: the codec and per-codec profile name tables, the
// translation to VA-API profiles, and the derivation of a profile from a
// stream's codec-data record (an H.264 AVCDecoderConfigurationRecord, or a
// WMV3 sequence header).

module Codecs {
  import opened Common
  import opened Maps

  // ---------------------------------------------------------------------
  // Identifiers

  /** `MvtCodec`, in declaration order. */
  const CODEC_NONE: int := 0
  const CODEC_RAWVIDEO: int := 1
  const CODEC_MPEG1: int := 2
  const CODEC_MPEG2: int := 3
  const CODEC_MPEG4: int := 4
  const CODEC_JPEG: int := 5
  const CODEC_H263: int := 6
  const CODEC_H264: int := 7
  const CODEC_VC1: int := 8
  const CODEC_VP8: int := 9
  const CODEC_VP9: int := 10
  const CODEC_HEVC: int := 11

  /** `MvtMpeg2Profile`: the 3-bit profile field of the sequence extension. */
  const MPEG2_PROFILE_SIMPLE: int := 0x05
  const MPEG2_PROFILE_MAIN: int := 0x04
  const MPEG2_PROFILE_SNR_SCALABLE: int := 0x03
  const MPEG2_PROFILE_SPATIALLY_SCALABLE: int := 0x02
  const MPEG2_PROFILE_HIGH: int := 0x01

  /** `MvtMpeg4Profile`. */
  const MPEG4_PROFILE_SIMPLE: int := 0x00
  const MPEG4_PROFILE_MAIN: int := 0x03
  const MPEG4_PROFILE_ADVANCED_SIMPLE: int := 0x0f

  /**
   * The constraint_set<n>_flag bits of ITU-T H.264 section 7.3.2.1.1, as the
   * byte after profile_idc holds them (flag n is bit 7 - n), moved to bits
   * 16..23 of an `MvtH264Profile`.
   */
  const H264_CONSTRAINT_SET0_FLAG: int := 0x80_0000
  const H264_CONSTRAINT_SET1_FLAG: int := 0x40_0000
  const H264_CONSTRAINT_SET2_FLAG: int := 0x20_0000
  const H264_CONSTRAINT_SET3_FLAG: int := 0x10_0000
  const H264_CONSTRAINT_SET4_FLAG: int := 0x08_0000
  const H264_CONSTRAINT_SET5_FLAG: int := 0x04_0000

  /**
   * `MvtH264Profile`: profile_idc in the low byte, or-ed with the constraint
   * flags that single out a sub-profile (Annex A.2, G.10 and H.10 of ITU-T
   * H.264); each combined value is written out in hexadecimal, with the
   * profile it extends and the flags it adds beside it.
   */
  const H264_PROFILE_BASELINE: int := 66
  const H264_PROFILE_CONSTRAINED_BASELINE: int := 0x40_0042   // BASELINE | SET1
  const H264_PROFILE_MAIN: int := 77
  const H264_PROFILE_EXTENDED: int := 88
  const H264_PROFILE_HIGH: int := 100
  const H264_PROFILE_PROGRESSIVE_HIGH: int := 0x08_0064       // HIGH | SET4
  const H264_PROFILE_CONSTRAINED_HIGH: int := 0x0c_0064       // HIGH | SET4 | SET5
  const H264_PROFILE_HIGH10: int := 110
  const H264_PROFILE_HIGH_422: int := 122
  const H264_PROFILE_HIGH_444: int := 244
  const H264_PROFILE_HIGH10_INTRA: int := 0x10_006e           // HIGH10 | SET3
  const H264_PROFILE_HIGH_422_INTRA: int := 0x10_007a         // HIGH_422 | SET3
  const H264_PROFILE_HIGH_444_INTRA: int := 0x10_00f4         // HIGH_444 | SET3
  const H264_PROFILE_SCALABLE_BASELINE: int := 83
  const H264_PROFILE_SCALABLE_CONSTRAINED_BASELINE: int := 0x04_0053  // SCALABLE_BASELINE | SET5
  const H264_PROFILE_SCALABLE_HIGH: int := 86
  const H264_PROFILE_SCALABLE_CONSTRAINED_HIGH: int := 0x04_0056      // SCALABLE_HIGH | SET5
  const H264_PROFILE_SCALABLE_HIGH_INTRA: int := 0x10_0056     // SCALABLE_HIGH | SET3
  const H264_PROFILE_MULTIVIEW_HIGH: int := 118
  const H264_PROFILE_STEREO_HIGH: int := 128

  /** `MvtVc1Profile`. */
  const VC1_PROFILE_SIMPLE: int := 0
  const VC1_PROFILE_MAIN: int := 1
  const VC1_PROFILE_ADVANCED: int := 3

  /** `MvtVp9Profile`. */
  const VP9_PROFILE_0: int := 0x00
  const VP9_PROFILE_1: int := 0x02

  /** `MvtHevcProfile`. */
  const HEVC_PROFILE_MAIN: int := 1
  const HEVC_PROFILE_MAIN10: int := 2
  const HEVC_PROFILE_MAIN_STILL_PICTURE: int := 3

  // ---------------------------------------------------------------------
  // Tables

  /** `codec_map`: its sentinel `{ NULL, }` holds 0, that is `MVT_CODEC_NONE`. */
  const CodecMap: Map := Map([
    Entry("mpeg1", CODEC_MPEG1),
    Entry("mpeg2", CODEC_MPEG2),
    Entry("mpeg4", CODEC_MPEG4),
    Entry("jpeg", CODEC_JPEG),
    Entry("h263", CODEC_H263),
    Entry("h264", CODEC_H264),
    Entry("vc1", CODEC_VC1),
    Entry("vp8", CODEC_VP8),
    Entry("vp9", CODEC_VP9),
    Entry("hevc", CODEC_HEVC)], 0)

  const Mpeg2Profiles: Map := Map([
    Entry("simple", MPEG2_PROFILE_SIMPLE),
    Entry("main", MPEG2_PROFILE_MAIN),
    Entry("snr-scalable", MPEG2_PROFILE_SNR_SCALABLE),
    Entry("spatially-scalable", MPEG2_PROFILE_SPATIALLY_SCALABLE),
    Entry("high", MPEG2_PROFILE_HIGH)], -1)

  const Mpeg4Profiles: Map := Map([
    Entry("simple", MPEG4_PROFILE_SIMPLE),
    Entry("main", MPEG4_PROFILE_MAIN),
    Entry("advanced-simple", MPEG4_PROFILE_ADVANCED_SIMPLE)], -1)

  const H264Profiles: Map := Map([
    Entry("baseline", H264_PROFILE_BASELINE),
    Entry("constrained-baseline", H264_PROFILE_CONSTRAINED_BASELINE),
    Entry("main", H264_PROFILE_MAIN),
    Entry("extended", H264_PROFILE_EXTENDED),
    Entry("high", H264_PROFILE_HIGH),
    Entry("progressive-high", H264_PROFILE_PROGRESSIVE_HIGH),
    Entry("constrained-high", H264_PROFILE_CONSTRAINED_HIGH),
    Entry("high-10", H264_PROFILE_HIGH10),
    Entry("high-4:2:2", H264_PROFILE_HIGH_422),
    Entry("high-4:4:4", H264_PROFILE_HIGH_444),
    Entry("high-10-intra", H264_PROFILE_HIGH10_INTRA),
    Entry("high-4:2:2-intra", H264_PROFILE_HIGH_422_INTRA),
    Entry("high-4:4:4-intra", H264_PROFILE_HIGH_444_INTRA),
    Entry("scalable-baseline", H264_PROFILE_SCALABLE_BASELINE),
    Entry("scalable-constrained-baseline", H264_PROFILE_SCALABLE_CONSTRAINED_BASELINE),
    Entry("scalable-high", H264_PROFILE_SCALABLE_HIGH),
    Entry("scalable-constrained-high", H264_PROFILE_SCALABLE_CONSTRAINED_HIGH),
    Entry("scalable-high-intra", H264_PROFILE_SCALABLE_HIGH_INTRA),
    Entry("multiview-high", H264_PROFILE_MULTIVIEW_HIGH),
    Entry("stereo-high", H264_PROFILE_STEREO_HIGH)], -1)

  const Vc1Profiles: Map := Map([
    Entry("simple", VC1_PROFILE_SIMPLE),
    Entry("main", VC1_PROFILE_MAIN),
    Entry("advanced", VC1_PROFILE_ADVANCED)], -1)

  const Vp9Profiles: Map := Map([
    Entry("profile0", VP9_PROFILE_0),
    Entry("profile1", VP9_PROFILE_1)], -1)

  const HevcProfiles: Map := Map([
    Entry("main", HEVC_PROFILE_MAIN),
    Entry("main-10", HEVC_PROFILE_MAIN10),
    Entry("main-still-picture", HEVC_PROFILE_MAIN_STILL_PICTURE)], -1)

  // ---------------------------------------------------------------------
  // Name lookups (NULL is `None`)

  function CodecFromName(name: string): int { LookupOf(CodecMap, name) }
  function CodecToName(codec: int): Option<string> { LookupValueOf(CodecMap, codec) }

  function Mpeg2ProfileFromName(name: string): int { LookupOf(Mpeg2Profiles, name) }
  function Mpeg2ProfileToName(profile: int): Option<string> { LookupValueOf(Mpeg2Profiles, profile) }
  function Mpeg4ProfileFromName(name: string): int { LookupOf(Mpeg4Profiles, name) }
  function Mpeg4ProfileToName(profile: int): Option<string> { LookupValueOf(Mpeg4Profiles, profile) }
  function H264ProfileFromName(name: string): int { LookupOf(H264Profiles, name) }
  function H264ProfileToName(profile: int): Option<string> { LookupValueOf(H264Profiles, profile) }
  function Vc1ProfileFromName(name: string): int { LookupOf(Vc1Profiles, name) }
  function Vc1ProfileToName(profile: int): Option<string> { LookupValueOf(Vc1Profiles, profile) }
  function Vp9ProfileFromName(name: string): int { LookupOf(Vp9Profiles, name) }
  function Vp9ProfileToName(profile: int): Option<string> { LookupValueOf(Vp9Profiles, profile) }
  function HevcProfileFromName(name: string): int { LookupOf(HevcProfiles, name) }
  function HevcProfileToName(profile: int): Option<string> { LookupValueOf(HevcProfiles, profile) }

  /** The profile table `mvt_profile_to_name` consults for a codec, if any. */
  function ProfileTable(codec: int): Option<Map>
  {
    if codec == CODEC_MPEG2 then Some(Mpeg2Profiles)
    else if codec == CODEC_MPEG4 then Some(Mpeg4Profiles)
    else if codec == CODEC_H264 then Some(H264Profiles)
    else if codec == CODEC_VC1 then Some(Vc1Profiles)
    else if codec == CODEC_VP9 then Some(Vp9Profiles)
    else if codec == CODEC_HEVC then Some(HevcProfiles)
    else None
  }

  /** `mvt_profile_to_name`: the per-codec name lookup; NULL for a codec without profiles. */
  function ProfileToName(codec: int, profile: int): Option<string>
  {
    if codec == CODEC_MPEG2 then Mpeg2ProfileToName(profile)
    else if codec == CODEC_MPEG4 then Mpeg4ProfileToName(profile)
    else if codec == CODEC_H264 then H264ProfileToName(profile)
    else if codec == CODEC_VC1 then Vc1ProfileToName(profile)
    else if codec == CODEC_VP9 then Vp9ProfileToName(profile)
    else if codec == CODEC_HEVC then HevcProfileToName(profile)
    else None
  }

  /** The `mvt_<codec>_profile_from_name` that pairs with `ProfileToName`. */
  function ProfileFromName(codec: int, name: string): int
    requires ProfileTable(codec).Some?
  {
    LookupOf(ProfileTable(codec).value, name)
  }

  /** All seven tables list distinct names and distinct values. */
  lemma {:induction false} TablesDistinct()
    ensures Distinct(CodecMap)
    ensures forall c :: ProfileTable(c).Some? ==> Distinct(ProfileTable(c).value)
  {
    CodecMapDistinct();
    H264ProfilesDistinct();
    SmallTablesDistinct();
  }

  lemma {:induction false} CodecMapDistinct()
    ensures Distinct(CodecMap)
  {
    forall i | 0 <= i < |CodecMap.entries| ensures RowFresh(CodecMap, i) {
    }
    DistinctRows(CodecMap);
  }

  lemma {:induction false} SmallTablesDistinct()
    ensures Distinct(Mpeg2Profiles) && Distinct(Mpeg4Profiles) && Distinct(Vc1Profiles)
    ensures Distinct(Vp9Profiles) && Distinct(HevcProfiles)
  {
  }

  lemma {:induction false} H264ProfilesDistinct()
    ensures Distinct(H264Profiles)
  {
    forall i | 0 <= i < |H264Profiles.entries| ensures RowFresh(H264Profiles, i) {
      if i < 2 {
        H264RowsFresh0(i);
      } else if i < 4 {
        H264RowsFresh2(i);
      } else if i < 7 {
        H264RowsFresh4(i);
      } else if i < 10 {
        H264RowsFresh7(i);
      } else {
        H264RowsFresh10(i);
      }
    }
    DistinctRows(H264Profiles);
  }

  // The H.264 rows a few at a time, to keep each proof small.

  lemma {:induction false} H264RowsFresh0(i: nat)
    requires i < 2
    ensures RowFresh(H264Profiles, i)
  {
  }

  lemma {:induction false} H264RowsFresh2(i: nat)
    requires 2 <= i < 4
    ensures RowFresh(H264Profiles, i)
  {
  }

  lemma {:induction false} H264RowsFresh4(i: nat)
    requires 4 <= i < 7
    ensures RowFresh(H264Profiles, i)
  {
  }

  lemma {:induction false} H264RowsFresh7(i: nat)
    requires 7 <= i < 10
    ensures RowFresh(H264Profiles, i)
  {
  }

  lemma {:induction false} H264RowsFresh10(i: nat)
    requires 10 <= i < |H264Profiles.entries|
    ensures RowFresh(H264Profiles, i)
  {
  }

  /** `mvt_codec_to_name` and `mvt_codec_from_name` invert each other on listed codecs. */
  lemma {:induction false} CodecRoundTrip(name: string, codec: int)
    ensures CodecToName(codec).Some? ==> CodecFromName(CodecToName(codec).value) == codec
    ensures CodecToName(codec).Some? <==> CODEC_MPEG1 <= codec <= CODEC_HEVC
    ensures CodecFromName(name) != CODEC_NONE ==> CodecToName(CodecFromName(name)) == Some(name)
    ensures CodecFromName(name) == CODEC_NONE || CODEC_MPEG1 <= CodecFromName(name) <= CODEC_HEVC
  {
    TablesDistinct();
    LookupRoundTrip(CodecMap, name, codec);
    CodecValues(codec);
    var k := FirstNamed(CodecMap.entries, name);
    if k.Some? {
      CodecValues(CodecMap.entries[k.value].value);
    }
  }

  /** The codec table holds exactly the identifiers MPEG-1 to HEVC. */
  lemma {:induction false} CodecValues(codec: int)
    ensures (exists i :: 0 <= i < |CodecMap.entries| && CodecMap.entries[i].value == codec) <==>
      CODEC_MPEG1 <= codec <= CODEC_HEVC
  {
    if CODEC_MPEG1 <= codec <= CODEC_HEVC {
      assert CodecMap.entries[codec - CODEC_MPEG1].value == codec;
    }
  }

  /**
   * A profile name that `mvt_profile_to_name` returns is looked up back to
   * the same profile by the codec's own `from_name`; no name comes back for
   * none, raw video, MPEG-1, JPEG, H.263 or VP8.
   */
  lemma {:induction false} ProfileRoundTrip(codec: int, profile: int)
    ensures ProfileToName(codec, profile).Some? ==>
      ProfileTable(codec).Some? && ProfileFromName(codec, ProfileToName(codec, profile).value) == profile
    ensures codec in {CODEC_NONE, CODEC_RAWVIDEO, CODEC_MPEG1, CODEC_JPEG, CODEC_H263, CODEC_VP8} ==>
      ProfileToName(codec, profile).None?
  {
    if ProfileTable(codec).Some? {
      var m := ProfileTable(codec).value;
      ProfileTableAgrees(codec, profile);
      TablesDistinct();
      assert Distinct(m);
      LookupRoundTrip(m, "", profile);
    }
  }

  /** `mvt_profile_to_name` consults exactly the codec's table. */
  lemma {:induction false} ProfileTableAgrees(codec: int, profile: int)
    requires ProfileTable(codec).Some?
    ensures ProfileToName(codec, profile) == LookupValueOf(ProfileTable(codec).value, profile)
  {
  }

  /** A name listed for a codec's profiles is what `mvt_profile_to_name` gives for its value. */
  lemma {:induction false} ProfileNameRoundTrip(codec: int, name: string)
    requires ProfileTable(codec).Some?
    requires FirstNamed(ProfileTable(codec).value.entries, name).Some?
    ensures ProfileToName(codec, ProfileFromName(codec, name)) == Some(name)
  {
    var m := ProfileTable(codec).value;
    ProfileTableAgrees(codec, ProfileFromName(codec, name));
    TablesDistinct();
    assert Distinct(m);
    LookupRoundTrip(m, name, 0);
  }

  /** A name that no table row carries gives the sentinel: -1 for every profile table. */
  lemma {:induction false} ProfileUnknownName(codec: int, name: string)
    requires ProfileTable(codec).Some?
    requires FirstNamed(ProfileTable(codec).value.entries, name).None?
    ensures ProfileFromName(codec, name) == -1
  {
  }

  // ---------------------------------------------------------------------
  // VA-API profiles

  /** The `VAProfile` values the translation can produce. */
  datatype VaProfile =
    | VaMpeg2Simple | VaMpeg2Main
    | VaMpeg4Simple | VaMpeg4AdvancedSimple | VaMpeg4Main
    | VaH264Baseline | VaH264ConstrainedBaseline | VaH264Main | VaH264High
    | VaVc1Simple | VaVc1Main | VaVc1Advanced

  /** What `mvt_profile_to_va_profile` translates a codec and profile pair to; `None` is false. */
  function VaProfileOf(codec: int, profile: int): Option<VaProfile>
  {
    if codec == CODEC_MPEG2 then
      if profile == MPEG2_PROFILE_SIMPLE then Some(VaMpeg2Simple)
      else if profile == MPEG2_PROFILE_MAIN then Some(VaMpeg2Main)
      else None
    else if codec == CODEC_MPEG4 then
      if profile == MPEG4_PROFILE_SIMPLE then Some(VaMpeg4Simple)
      else if profile == MPEG4_PROFILE_ADVANCED_SIMPLE then Some(VaMpeg4AdvancedSimple)
      else if profile == MPEG4_PROFILE_MAIN then Some(VaMpeg4Main)
      else None
    else if codec == CODEC_H264 then
      if profile == H264_PROFILE_BASELINE then Some(VaH264Baseline)
      else if profile == H264_PROFILE_CONSTRAINED_BASELINE then Some(VaH264ConstrainedBaseline)
      else if profile == H264_PROFILE_MAIN then Some(VaH264Main)
      else if profile == H264_PROFILE_HIGH then Some(VaH264High)
      else None
    else if codec == CODEC_VC1 then
      if profile == VC1_PROFILE_SIMPLE then Some(VaVc1Simple)
      else if profile == VC1_PROFILE_MAIN then Some(VaVc1Main)
      else if profile == VC1_PROFILE_ADVANCED then Some(VaVc1Advanced)
      else None
    else None
  }

  /**
   * Every translated pair is a named profile of its codec, and only
   * MPEG-2, MPEG-4, H.264 and VC-1 translate at all.
   */
  lemma {:induction false} VaProfileNamed(codec: int, profile: int)
    ensures VaProfileOf(codec, profile).Some? ==> ProfileToName(codec, profile).Some?
    ensures VaProfileOf(codec, profile).Some? ==>
      codec in {CODEC_MPEG2, CODEC_MPEG4, CODEC_H264, CODEC_VC1}
  {
    if VaProfileOf(codec, profile).Some? {
      if codec == CODEC_MPEG2 {
        assert Mpeg2Profiles.entries[if profile == MPEG2_PROFILE_SIMPLE then 0 else 1].value == profile;
      } else if codec == CODEC_MPEG4 {
        assert Mpeg4Profiles.entries[
          if profile == MPEG4_PROFILE_SIMPLE then 0 else if profile == MPEG4_PROFILE_MAIN then 1 else 2].value
          == profile;
      } else if codec == CODEC_H264 {
        assert H264Profiles.entries[
          if profile == H264_PROFILE_BASELINE then 0
          else if profile == H264_PROFILE_CONSTRAINED_BASELINE then 1
          else if profile == H264_PROFILE_MAIN then 2 else 4].value == profile;
      } else {
        assert Vc1Profiles.entries[
          if profile == VC1_PROFILE_SIMPLE then 0 else if profile == VC1_PROFILE_MAIN then 1 else 2].value
          == profile;
      }
    }
  }

  /** No two pairs translate to the same VA profile. */
  lemma {:induction false} VaProfileInjective(codec: int, profile: int, codec2: int, profile2: int)
    requires VaProfileOf(codec, profile).Some?
    requires VaProfileOf(codec, profile) == VaProfileOf(codec2, profile2)
    ensures codec == codec2 && profile == profile2
  {
  }

  /**
   * `mvt_profile_to_va_profile`: false unless the pair translates; the
   * out-parameter (`want` says it is non-NULL) is written only on success.
   */
  method ProfileToVaProfile(codec: int, profile: int, want: bool)
      returns (ok: bool, va: Option<VaProfile>)
    ensures ok <==> VaProfileOf(codec, profile).Some?
    ensures va == if ok && want then VaProfileOf(codec, profile) else None
  {
    var v: VaProfile;
    if codec == CODEC_MPEG2 {
      if profile == MPEG2_PROFILE_SIMPLE { v := VaMpeg2Simple; }
      else if profile == MPEG2_PROFILE_MAIN { v := VaMpeg2Main; }
      else { return false, None; }
    } else if codec == CODEC_MPEG4 {
      if profile == MPEG4_PROFILE_SIMPLE { v := VaMpeg4Simple; }
      else if profile == MPEG4_PROFILE_ADVANCED_SIMPLE { v := VaMpeg4AdvancedSimple; }
      else if profile == MPEG4_PROFILE_MAIN { v := VaMpeg4Main; }
      else { return false, None; }
    } else if codec == CODEC_H264 {
      if profile == H264_PROFILE_BASELINE { v := VaH264Baseline; }
      else if profile == H264_PROFILE_CONSTRAINED_BASELINE { v := VaH264ConstrainedBaseline; }
      else if profile == H264_PROFILE_MAIN { v := VaH264Main; }
      else if profile == H264_PROFILE_HIGH { v := VaH264High; }
      else { return false, None; }
    } else if codec == CODEC_VC1 {
      if profile == VC1_PROFILE_SIMPLE { v := VaVc1Simple; }
      else if profile == VC1_PROFILE_MAIN { v := VaVc1Main; }
      else if profile == VC1_PROFILE_ADVANCED { v := VaVc1Advanced; }
      else { return false, None; }
    } else {
      return false, None;
    }
    ok := true;
    va := if want then Some(v) else None;
  }

  // ---------------------------------------------------------------------
  // Profiles from codec data

  /** constraint_set<n>_flag of the flag byte that follows profile_idc: bit 7 - n. */
  predicate ConstraintSet(flags: Byte, n: nat)
    requires n <= 5
  {
    flags / [0x80, 0x40, 0x20, 0x10, 0x08, 0x04][n] % 2 == 1
  }

  /**
   * `(buf[2] << 16) & keep`: the constraint flags kept for a profile_idc,
   * at their `MvtH264Profile` positions. Kept are constrained for Baseline
   * (set 1), progressive and constrained for High (sets 4 and 5), intra for
   * High 10, High 4:2:2, High 4:4:4 and Scalable High (set 3), constrained
   * for Scalable Baseline (set 5), and nothing for any other profile_idc.
   */
  function KeptFlags(profileIdc: Byte, flags: Byte): int
  {
    if profileIdc == H264_PROFILE_BASELINE then
      (if ConstraintSet(flags, 1) then H264_CONSTRAINT_SET1_FLAG else 0)
    else if profileIdc == H264_PROFILE_HIGH then
      (if ConstraintSet(flags, 4) then H264_CONSTRAINT_SET4_FLAG else 0) +
      (if ConstraintSet(flags, 5) then H264_CONSTRAINT_SET5_FLAG else 0)
    else if profileIdc in {H264_PROFILE_HIGH10, H264_PROFILE_HIGH_422, H264_PROFILE_HIGH_444,
                           H264_PROFILE_SCALABLE_HIGH} then
      (if ConstraintSet(flags, 3) then H264_CONSTRAINT_SET3_FLAG else 0)
    else if profileIdc == H264_PROFILE_SCALABLE_BASELINE then
      (if ConstraintSet(flags, 5) then H264_CONSTRAINT_SET5_FLAG else 0)
    else 0
  }

  /**
   * The profile `mvt_h264_profile_from_codec_data` derives from an avcC
   * record (ISO/IEC 14496-15 section 5.2.4.1): configurationVersion 1,
   * then AVCProfileIndication, then the constraint-flag byte. The kept
   * flags lie above bit 15 and profile_idc below bit 8, so the C `|` of
   * the two is their sum. `None` for a NULL or short buffer, another
   * version, or a result without a name.
   */
  function H264ProfileOf(buf: Option<seq<Byte>>): Option<int>
  {
    if buf.None? || |buf.value| < 3 || buf.value[0] != 1 then None
    else
      var profile := buf.value[1] + KeptFlags(buf.value[1], buf.value[2]);
      if H264ProfileToName(profile).Some? then Some(profile) else None
  }

  /** The profile_idc values with an `MvtH264Profile` of their own. */
  const H264ProfileIdcs: set<int> := {
    H264_PROFILE_BASELINE, H264_PROFILE_MAIN, H264_PROFILE_EXTENDED, H264_PROFILE_HIGH,
    H264_PROFILE_HIGH10, H264_PROFILE_HIGH_422, H264_PROFILE_HIGH_444,
    H264_PROFILE_SCALABLE_BASELINE, H264_PROFILE_SCALABLE_HIGH,
    H264_PROFILE_MULTIVIEW_HIGH, H264_PROFILE_STEREO_HIGH}

  /** A well-formed record head: non-NULL, three bytes at least, configurationVersion 1. */
  predicate RecordHead(buf: Option<seq<Byte>>)
  {
    buf.Some? && |buf.value| >= 3 && buf.value[0] == 1
  }

  /**
   * The derived profile for every profile_idc and flag byte: the
   * sub-profile the kept flags select, or rejection for H.264 High with
   * constraint set 5 but not set 4 (there is no constrained interlaced
   * High) and for an unknown profile_idc.
   */
  lemma {:induction false} H264Subprofiles(buf: Option<seq<Byte>>)
    ensures !RecordHead(buf) ==> H264ProfileOf(buf).None?
    ensures RecordHead(buf) ==>
      var idc, f := buf.value[1], buf.value[2];
      H264ProfileOf(buf) ==
        if idc == H264_PROFILE_BASELINE then
          Some(if ConstraintSet(f, 1) then H264_PROFILE_CONSTRAINED_BASELINE else H264_PROFILE_BASELINE)
        else if idc == H264_PROFILE_HIGH then
          if ConstraintSet(f, 4) && ConstraintSet(f, 5) then Some(H264_PROFILE_CONSTRAINED_HIGH)
          else if ConstraintSet(f, 4) then Some(H264_PROFILE_PROGRESSIVE_HIGH)
          else if ConstraintSet(f, 5) then None
          else Some(H264_PROFILE_HIGH)
        else if idc == H264_PROFILE_HIGH10 then
          Some(if ConstraintSet(f, 3) then H264_PROFILE_HIGH10_INTRA else H264_PROFILE_HIGH10)
        else if idc == H264_PROFILE_HIGH_422 then
          Some(if ConstraintSet(f, 3) then H264_PROFILE_HIGH_422_INTRA else H264_PROFILE_HIGH_422)
        else if idc == H264_PROFILE_HIGH_444 then
          Some(if ConstraintSet(f, 3) then H264_PROFILE_HIGH_444_INTRA else H264_PROFILE_HIGH_444)
        else if idc == H264_PROFILE_SCALABLE_HIGH then
          Some(if ConstraintSet(f, 3) then H264_PROFILE_SCALABLE_HIGH_INTRA else H264_PROFILE_SCALABLE_HIGH)
        else if idc == H264_PROFILE_SCALABLE_BASELINE then
          Some(if ConstraintSet(f, 5) then H264_PROFILE_SCALABLE_CONSTRAINED_BASELINE
               else H264_PROFILE_SCALABLE_BASELINE)
        else if idc in H264ProfileIdcs then Some(idc)
        else None
  {
    if RecordHead(buf) {
      var idc := buf.value[1];
      if idc == H264_PROFILE_BASELINE {
        H264BaselineFamily(buf);
      } else if idc == H264_PROFILE_HIGH {
        H264HighFamily(buf);
      } else if idc in {H264_PROFILE_HIGH10, H264_PROFILE_HIGH_422, H264_PROFILE_HIGH_444,
                        H264_PROFILE_SCALABLE_HIGH} {
        H264IntraFamily(buf);
      } else if idc == H264_PROFILE_SCALABLE_BASELINE {
        H264ScalableBaselineFamily(buf);
      } else if idc in H264ProfileIdcs {
        H264PlainFamily(buf);
      } else {
        H264Unlisted(idc);
      }
    }
  }

  lemma {:induction false} H264BaselineFamily(buf: Option<seq<Byte>>)
    requires RecordHead(buf) && buf.value[1] == H264_PROFILE_BASELINE
    ensures H264ProfileOf(buf) == Some(if ConstraintSet(buf.value[2], 1)
      then H264_PROFILE_CONSTRAINED_BASELINE else H264_PROFILE_BASELINE)
  {
    if ConstraintSet(buf.value[2], 1) {
      H264Found(1, H264_PROFILE_CONSTRAINED_BASELINE);
    } else {
      H264Found(0, H264_PROFILE_BASELINE);
    }
  }

  lemma {:induction false} H264HighFamily(buf: Option<seq<Byte>>)
    requires RecordHead(buf) && buf.value[1] == H264_PROFILE_HIGH
    ensures var f := buf.value[2];
      H264ProfileOf(buf) ==
        if ConstraintSet(f, 4) && ConstraintSet(f, 5) then Some(H264_PROFILE_CONSTRAINED_HIGH)
        else if ConstraintSet(f, 4) then Some(H264_PROFILE_PROGRESSIVE_HIGH)
        else if ConstraintSet(f, 5) then None
        else Some(H264_PROFILE_HIGH)
  {
    var f := buf.value[2];
    if ConstraintSet(f, 4) && ConstraintSet(f, 5) {
      H264Found(6, H264_PROFILE_CONSTRAINED_HIGH);
    } else if ConstraintSet(f, 4) {
      H264Found(5, H264_PROFILE_PROGRESSIVE_HIGH);
    } else if ConstraintSet(f, 5) {
      H264Unlisted(H264_PROFILE_HIGH + H264_CONSTRAINT_SET5_FLAG);
    } else {
      H264Found(4, H264_PROFILE_HIGH);
    }
  }

  lemma {:induction false} H264IntraFamily(buf: Option<seq<Byte>>)
    requires RecordHead(buf)
    requires buf.value[1] in {H264_PROFILE_HIGH10, H264_PROFILE_HIGH_422, H264_PROFILE_HIGH_444,
                              H264_PROFILE_SCALABLE_HIGH}
    ensures H264ProfileOf(buf) == Some(buf.value[1] +
      if ConstraintSet(buf.value[2], 3) then H264_CONSTRAINT_SET3_FLAG else 0)
  {
    var idc, intra := buf.value[1], ConstraintSet(buf.value[2], 3);
    if idc == H264_PROFILE_HIGH10 {
      if intra { H264Found(10, H264_PROFILE_HIGH10_INTRA); } else { H264Found(7, H264_PROFILE_HIGH10); }
    } else if idc == H264_PROFILE_HIGH_422 {
      if intra { H264Found(11, H264_PROFILE_HIGH_422_INTRA); } else { H264Found(8, H264_PROFILE_HIGH_422); }
    } else if idc == H264_PROFILE_HIGH_444 {
      if intra { H264Found(12, H264_PROFILE_HIGH_444_INTRA); } else { H264Found(9, H264_PROFILE_HIGH_444); }
    } else {
      if intra {
        H264Found(17, H264_PROFILE_SCALABLE_HIGH_INTRA);
      } else {
        H264Found(15, H264_PROFILE_SCALABLE_HIGH);
      }
    }
  }

  lemma {:induction false} H264ScalableBaselineFamily(buf: Option<seq<Byte>>)
    requires RecordHead(buf) && buf.value[1] == H264_PROFILE_SCALABLE_BASELINE
    ensures H264ProfileOf(buf) == Some(if ConstraintSet(buf.value[2], 5)
      then H264_PROFILE_SCALABLE_CONSTRAINED_BASELINE else H264_PROFILE_SCALABLE_BASELINE)
  {
    if ConstraintSet(buf.value[2], 5) {
      H264Found(14, H264_PROFILE_SCALABLE_CONSTRAINED_BASELINE);
    } else {
      H264Found(13, H264_PROFILE_SCALABLE_BASELINE);
    }
  }

  lemma {:induction false} H264PlainFamily(buf: Option<seq<Byte>>)
    requires RecordHead(buf)
    requires buf.value[1] in {H264_PROFILE_MAIN, H264_PROFILE_EXTENDED, H264_PROFILE_MULTIVIEW_HIGH,
                              H264_PROFILE_STEREO_HIGH}
    ensures H264ProfileOf(buf) == Some(buf.value[1])
  {
    var idc := buf.value[1];
    assert KeptFlags(idc, buf.value[2]) == 0;
    if idc == H264_PROFILE_MAIN {
      H264Found(2, idc);
    } else if idc == H264_PROFILE_EXTENDED {
      H264Found(3, idc);
    } else if idc == H264_PROFILE_MULTIVIEW_HIGH {
      H264Found(18, idc);
    } else {
      H264Found(19, idc);
    }
  }

  /** The values the H.264 table lists: the profile_idcs and their sub-profiles. */
  const H264ProfileValues: set<int> := H264ProfileIdcs + {
    H264_PROFILE_CONSTRAINED_BASELINE, H264_PROFILE_PROGRESSIVE_HIGH, H264_PROFILE_CONSTRAINED_HIGH,
    H264_PROFILE_HIGH10_INTRA, H264_PROFILE_HIGH_422_INTRA, H264_PROFILE_HIGH_444_INTRA,
    H264_PROFILE_SCALABLE_CONSTRAINED_BASELINE, H264_PROFILE_SCALABLE_CONSTRAINED_HIGH,
    H264_PROFILE_SCALABLE_HIGH_INTRA}

  /** A row of the H.264 table is found by `mvt_h264_profile_to_name`. */
  lemma {:induction false} H264Found(k: nat, profile: int)
    requires k < |H264Profiles.entries| && H264Profiles.entries[k].value == profile
    ensures H264ProfileToName(profile).Some?
  {
  }

  /** A value the H.264 table does not list has no name. */
  lemma {:induction false} H264Unlisted(profile: int)
    requires profile !in H264ProfileValues
    ensures H264ProfileToName(profile).None?
  {
    var t := H264Profiles.entries;
    forall j | 0 <= j < |t| ensures t[j].value in H264ProfileValues {
      if j < 10 {
        H264EarlyValue(j);
      } else {
        H264LateValue(j);
      }
    }
  }

  lemma {:induction false} H264EarlyValue(j: nat)
    requires j < 10
    ensures H264Profiles.entries[j].value in H264ProfileValues
  {
  }

  lemma {:induction false} H264LateValue(j: nat)
    requires 10 <= j < |H264Profiles.entries|
    ensures H264Profiles.entries[j].value in H264ProfileValues
  {
  }

  /**
   * A derived profile is a named one whose name looks it up again, and
   * H.264 Scalable Constrained High is never derived: the Scalable High
   * family keeps only the intra flag.
   */
  lemma {:induction false} H264ProfileNamed(buf: Option<seq<Byte>>)
    ensures H264ProfileOf(buf).Some? ==>
      H264ProfileToName(H264ProfileOf(buf).value).Some? &&
      H264ProfileFromName(H264ProfileToName(H264ProfileOf(buf).value).value) == H264ProfileOf(buf).value
    ensures H264ProfileOf(buf) != Some(H264_PROFILE_SCALABLE_CONSTRAINED_HIGH)
  {
    H264Subprofiles(buf);
    if H264ProfileOf(buf).Some? {
      ProfileRoundTrip(CODEC_H264, H264ProfileOf(buf).value);
    }
  }

  /**
   * `mvt_h264_profile_from_codec_data`, step by step on its locals; the
   * out-parameter (`want`: non-NULL) is written only on success.
   */
  method H264ProfileFromCodecData(buf: Option<seq<Byte>>, want: bool)
      returns (ok: bool, profile: Option<int>)
    ensures ok <==> H264ProfileOf(buf).Some?
    ensures profile == if ok && want then H264ProfileOf(buf) else None
  {
    if buf.None? || |buf.value| < 3 {
      return false, None;
    }
    var b := buf.value;
    if b[0] != 1 {
      return false, None;
    }
    var p: int := b[1];
    var ext: int;
    if p == H264_PROFILE_BASELINE {
      ext := if ConstraintSet(b[2], 1) then H264_CONSTRAINT_SET1_FLAG else 0;
    } else if p == H264_PROFILE_HIGH {
      ext := (if ConstraintSet(b[2], 4) then H264_CONSTRAINT_SET4_FLAG else 0) +
        (if ConstraintSet(b[2], 5) then H264_CONSTRAINT_SET5_FLAG else 0);
    } else if p == H264_PROFILE_HIGH10 || p == H264_PROFILE_HIGH_422 ||
              p == H264_PROFILE_HIGH_444 || p == H264_PROFILE_SCALABLE_HIGH {
      ext := if ConstraintSet(b[2], 3) then H264_CONSTRAINT_SET3_FLAG else 0;
    } else if p == H264_PROFILE_SCALABLE_BASELINE {
      ext := if ConstraintSet(b[2], 5) then H264_CONSTRAINT_SET5_FLAG else 0;
    } else {
      ext := 0;
    }
    p := p + ext;
    var name := LookupValue(H264Profiles, p);
    if name.None? {
      return false, None;
    }
    ok := true;
    profile := if want then Some(p) else None;
  }

  /** What `mvt_wmv3_profile_from_codec_data` derives: the top two bits of the first byte. */
  function Wmv3ProfileOf(buf: Option<seq<Byte>>): Option<int>
  {
    if buf.None? || |buf.value| < 1 then None
    else
      var profile := buf.value[0] / 64;
      if Vc1ProfileToName(profile).Some? then Some(profile) else None
  }

  /** Simple, Main and Advanced (0, 1, 3) are accepted; the reserved value 2 and an empty buffer are not. */
  lemma {:induction false} Wmv3ProfileAccepted(buf: Option<seq<Byte>>)
    ensures Wmv3ProfileOf(buf).Some? <==> buf.Some? && |buf.value| >= 1 && buf.value[0] / 64 != 2
    ensures Wmv3ProfileOf(buf).Some? ==>
      Wmv3ProfileOf(buf).value == buf.value[0] / 64 &&
      Wmv3ProfileOf(buf).value in {VC1_PROFILE_SIMPLE, VC1_PROFILE_MAIN, VC1_PROFILE_ADVANCED}
  {
    if buf.Some? && |buf.value| >= 1 {
      var p := buf.value[0] / 64;
      assert 0 <= p < 4;
      if p != 2 {
        assert Vc1Profiles.entries[if p == 3 then 2 else p].value == p;
      }
    }
  }

  /** `mvt_wmv3_profile_from_codec_data`; the out-parameter is written only on success. */
  method Wmv3ProfileFromCodecData(buf: Option<seq<Byte>>, want: bool)
      returns (ok: bool, profile: Option<int>)
    ensures ok <==> Wmv3ProfileOf(buf).Some?
    ensures profile == if ok && want then Wmv3ProfileOf(buf) else None
  {
    if buf.None? || |buf.value| < 1 {
      return false, None;
    }
    var p := buf.value[0] / 64;
    var name := LookupValue(Vc1Profiles, p);
    if name.None? {
      return false, None;
    }
    ok := true;
    profile := if want then Some(p) else None;
  }
}
