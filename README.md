# mvt_tools core, modelled in Dafny

mvt_tools is a set of media video tools. They decode a stream with a hardware or reference
decoder, check each decoded frame against a reference, and write raw YUV4MPEG2 output. This
project models the library parts those tools share and proves properties of the model:

- **Video format registry** (`video_format.dfy`). There is one immutable descriptor per
  format. Lookups go by identifier, name, VA fourcc and VA image format, plus family
  predicates and per-plane pixel pitches.
- **Images** (`image.dfy`, `image_access.dfy`). The plane layout of a new frame, with
  16-row alignment and `uint32_t` arithmetic. Zero-copy views of a region, of one field and
  of a VA image, which alias the parent's pixel block. Ownership of the block through the
  private data, clearing, and 8-bit and 16-bit sample access.
- **Conversion** (`image_convert.dfy`). Plane copy, NV12 chroma split and merge, the USWC
  fast path with its copy cache, the libyuv route, and field-by-field conversion.
- **Hashing** (`hash.dfy`, `adler32.dfy`, `image_hash.dfy`). A hash context bound to a hash
  class, the Adler-32 class, and the frame hash over the visible samples of each component.
- **Comparison** (`image_compare.dfy`). The PSNR and Y-PSNR metrics: the checks that make a
  comparison fail, the alpha rules, and the squared error and sample count the score comes
  from.
- **Y4M writer** (`image_file.dfy`). The header line and the frames.
- **Tables and codecs** (`map.dfy`, `codec.dfy`). Name/value tables and codec and profile
  metadata, including profile detection from H.264 and WMV3 codec data.
- **Front end** (`report.dfy`, `decoder.dfy`, `strings.dfy`, `printf.dfy`,
  `ffmpeg_utils.dfy`). The report file, the decoder's options, file names and per-frame
  bookkeeping, the string utilities, and the FFmpeg pixel format translation.
- **H.264 reference generator** (`gen_ref_h264.dfy`). The bitstream side: avcC extradata
  and packets rewritten as an ITU-T H.264 Annex B stream on the pipe, the picture queue,
  and the JM picture format.

Each C file becomes one module. Pure lookups and computations become functions with lemmas.
Structures the C code updates in place become classes with `modifies` clauses, among them
`Image`, `Hash`, `ImageFile`, `Report`, the decoder and the picture queue. Pixel blocks
become `array<Byte>`, and image pointers are a block and an offset, so views share memory
with their parent. Each loop of the source is a method with invariants. Each method is
proved against a specification function, and the lemmas next to that function state what
the program promises: round trips, reference definitions and preserved invariants.

The C `uint32_t` arithmetic is written out modulo 2^32: layout sizes, rounding,
`num_samples`, and the size computations of the writers. The `uint64_t` error sum is
written out modulo 2^64.

Points where the code's behaviour is easy to misread, each modelled as the code is written:
- Adler-32 starts both sums at 0 (src/mvt_hash_adler32.c:33). The comment above that line
  says the usual start is 1, and section 2.2 of RFC 1950 starts the first sum at 1.
- PSNR scores a missing alpha as fully opaque in one case only: when the FIRST image has
  four components and the reference three (src/mvt_image_compare.c:155-167). A reference
  that carries alpha against an image without it compares the colour components only. The
  reference's alpha is never scored (`ImageCompare.AlphaRules`).
- A grayscale frame is hashed from its Y plane alone (src/mvt_image_hash.c:74-77,
  `ImageHash.HashedComponents`). No mid-gray chroma is fed for it.

## Model

| member | source | states |
|---|---|---|
| Maps.FirstNamed | src/mvt_map.c:34-36 | the index found holds the name and no earlier row does; `None` exactly when no row has the name |
| Maps.FirstValued | src/mvt_map.c:49-51 | the index found holds the value and no earlier row does; `None` exactly when no row has it |
| Maps.Lookup | src/mvt_map.c:27-39 | the scan returns the value of the first row with the name, and the sentinel's value when no row has it |
| Maps.LookupValue | src/mvt_map.c:42-54 | the scan returns the name of the first row with the value; a name is returned exactly when some row holds the value (NULL otherwise) |
| Maps.FirstNamedAt | src/mvt_map.c:34-36 | a row with no earlier namesake is the one the name lookup stops at |
| Maps.FirstValuedAt | src/mvt_map.c:49-51 | a row with no earlier row of the same value is the one the value lookup stops at |
| Maps.DistinctRows | src/mvt_map.c:27-54 | a table whose every row differs in name and value from the rows after it has distinct names and values |
| Maps.LookupListed | src/mvt_map.c:27-54 | in a table with distinct names and values, every listed row is found by its name and by its value |
| Maps.LookupRoundTrip | src/mvt_map.c:27-54 | in such a table the two lookups invert each other: name of a value looked up by name gives the value back, and the reverse |
| VideoFormats.TableIndexed | src/video_format.c:90-143 | each valid entry of the format table sits at the index of its own identifier, and the table holds one slot per format plus the terminator |
| VideoFormats.GetInfo | src/video_format.c:187-197 | a descriptor exactly for the registered identifiers NV12 .. COUNT-1, and then the table entry at that index, whose identifier is the format itself; negative and out-of-range identifiers give none |
| VideoFormats.GetName | src/video_format.c:309-315 | a name exactly when the format is registered; NULL otherwise |
| VideoFormats.GetChromaType | src/video_format.c:318-324 | the chroma type is 0 exactly for an unregistered format |
| VideoFormats.ToVaFormat | src/video_format.c:293-299 | a VA image format exactly when the format is registered |
| VideoFormats.FirstMatch | src/video_format.c:250-258 | the lookup loop's result: UNKNOWN exactly when no valid entry from `i` on matches; otherwise a valid matching entry with no valid match before it |
| VideoFormats.FirstMatchIs | src/video_format.c:250-258 | a scan whose first valid match is at `r` returns the format at `r` |
| VideoFormats.Find | src/video_format.c:253-258 | the loop over the whole table, terminator included, returns the first valid matching entry's format, or UNKNOWN |
| VideoFormats.FromName | src/video_format.c:245-259 | a missing name gives UNKNOWN; otherwise the first valid entry with that exact name, or UNKNOWN |
| VideoFormats.FromVaFourcc | src/video_format.c:262-276 | fourcc 0 gives UNKNOWN; otherwise the first valid entry with that fourcc, or UNKNOWN |
| VideoFormats.FromVaFormat | src/video_format.c:161-177 | the first valid entry that `va_format_is_same` accepts: equal fourcc, and for RGB entries also equal byte order and masks (loop at src/video_format.c:279-290) |
| VideoFormats.NamesDistinct | src/video_format.c:90-143 | no two valid table entries share a name |
| VideoFormats.FourccsDistinct | src/video_format.c:90-143 | no two valid table entries share a VA fourcc |
| VideoFormats.FourccNonZero | src/video_format.c:90-143 | every valid table entry has a non-zero fourcc |
| VideoFormats.FromNameOfName | src/video_format.c:245-259 | looking up a registered format by its own name finds that format; a missing name finds UNKNOWN |
| VideoFormats.FromVaFourccOfFormat | src/video_format.c:262-276 | the VA fourcc of a registered format maps back to that format |
| VideoFormats.FromVaFormatOfFormat | src/video_format.c:279-299 | the VA image format of a registered format maps back to that format |
| VideoFormats.RgbYuvPartition | src/video_format.c:149-159 | RGB and YUV are disjoint and together cover the registered formats; RGB holds exactly for XRGB .. BGRA and exactly for the RGB32 chroma type (predicates at src/video_format.c:200-215) |
| VideoFormats.FormatPredicates | src/video_format.c:218-242 | `has_alpha` holds exactly for AYUV and the four alpha RGB formats, `is_subsampled` exactly for the 4:2:0 and 4:2:2 chroma types, `is_grayscale` exactly for Y800 |
| VideoFormats.ShiftsByFamily | src/video_format.c:57-65 | 4:2:0 formats shift chroma by 1 both ways, 4:2:2 only horizontally, 4:4:4, 4:0:0 and RGB not at all, and no other chroma type occurs |
| VideoFormats.RgbAlphaDepthZero | src/video_format.c:74-81 | the alpha component of the RGB formats has bit depth 0 |
| VideoFormats.RgbColourDepths | src/video_format.c:74-81 | the three colour components of every RGB format have 8 bits, and there are four components exactly when the format has alpha |
| VideoFormats.FirstOnPlane | src/video_format.c:337-347 | the first component at or after `c` stored in plane `p`, with none in between, or the component count |
| VideoFormats.RegisteredCoherent | src/video_format.c:67-82 | every registered descriptor is coherent: component 0 on plane 0, planes in use exactly 0 .. numPlanes-1, strides 1 to 4, and components sharing a plane agree on a non-zero pixel pitch |
| VideoFormats.CoherentYuv | src/video_format.c:67-73 | the 8-bit YUV descriptors are coherent |
| VideoFormats.CoherentRgb | src/video_format.c:74-81 | the RGB descriptors are coherent |
| VideoFormats.CoherentDeep | src/video_format.c:82 | the 10-, 12- and 16-bit planar YUV descriptors are coherent |
| VideoFormats.ScanPixelPitches | src/video_format.c:337-347 | the loop state after `k` components: four pitch and four output entries, and an output entry that was non-negative stays non-negative |
| VideoFormats.ScanFailureSticks | src/video_format.c:345-346 | once a plane's pitch conflicts, the later components change nothing |
| VideoFormats.GetPixelPitches | src/video_format.c:327-350 | an unregistered format gives false and leaves the caller's array unchanged; a registered one gives the scan's verdict and output |
| VideoFormats.ScanComponents | src/video_format.c:336-349 | the in-place loop returns the scan's verdict and leaves the caller's array equal to the scan's output, the early return included |
| VideoFormats.ScanPixelPitchesCoherent | src/video_format.c:337-347 | on a coherent descriptor the scan never fails, and each plane holds its first component's pitch and stride once that component has been examined |
| VideoFormats.FirstOnPlaneNot | src/video_format.c:337-347 | a component stored in another plane is not that plane's first component |
| VideoFormats.FirstOnPlaneMin | src/video_format.c:337-347 | a plane's first component comes no later than any component stored in it |
| VideoFormats.PixelPitchesOfCoherent | src/video_format.c:327-350 | on a coherent descriptor the scan succeeds, each plane in use receives its first component's pixel stride, and the other entries keep their values |
| VideoFormats.UsedPlaneFirst | src/video_format.c:337-347 | a plane that holds a component has a first component |
| VideoFormats.PixelPitchesOfRegistered | src/video_format.c:327-350 | for every registered format, get_pixel_pitches succeeds and fills exactly the planes in use with their first component's stride |
| VideoFormats.ScanAgrees | src/video_format.c:342-346 | a component whose plane already holds its pitch changes nothing |
| VideoFormats.PixelPitchesNV12 | src/video_format.c:67 | NV12 yields pitch 1 for luma and 2 for the interleaved chroma plane; entries 2 and 3 keep their values |
| VideoFormats.YUY2Components | src/video_format.c:70 | each YUY2 component lies in plane 0 with pixel pitch 2 |
| VideoFormats.PixelPitchesYUY2 | src/video_format.c:70 | YUY2 yields pitch 2 for its single plane; entries 1 to 3 keep their values |
| VideoFormats.YUY2Luma | src/video_format.c:70 | after the YUY2 luma component the scan holds pitch 2 in plane 0 and stride 2 in the output |
| Hashes.TypeFromName | src/mvt_hash.c:28-32 | "adler32" and "md5" map to their type ids through the map table; any other name gives 0, the sentinel |
| Hashes.TypeToName | src/mvt_hash.c:51-55 | the two type ids map back to their names; any other id gives NULL |
| Hashes.ClassesChecked | src/mvt_hash.c:34-41 | `check_class` passes exactly for the Adler-32 and MD5 classes, whose digests are 4 and 16 bytes long and whose size covers the base context |
| Hashes.Hash.constructor | src/mvt_hash.c:80-84 | the zeroed context bound to its class, with an empty input and a zero value buffer; ready for update only for Adler-32, whose zeroed state is its initial checksum |
| Hashes.New | src/mvt_hash.c:58-92 | NULL exactly when the type has no class that passes `check_class`; otherwise a fresh valid context of that class, with no input fed and its class constructor run; an MD5 context is not ready for update or finalize until init, since `md5_init` only allocates |
| Hashes.Free | src/mvt_hash.c:95-104 | NULL is a no-op; otherwise the class destructor runs (it closes the MD5 context) and nothing else changes |
| Hashes.FreeP | src/mvt_hash.c:107-114 | through a non-NULL pointer the context is freed and the variable becomes NULL; a NULL pointer is left alone |
| Hashes.Init | src/mvt_hash.c:117-123 | the computation restarts: no input fed, value buffer unchanged, and the context ready for update and finalize; NULL is a no-op |
| Hashes.Update | src/mvt_hash.c:135-143 | on a ready context, the first `len` bytes of the buffer are appended to the input; with a NULL buffer or `len` 0 nothing changes |
| Hashes.Finalize | src/mvt_hash.c:126-132 | the head of the value buffer becomes the digest of the bytes fed since the last init (the packed Adler-32 sums or the MD5 digest), the rest of the buffer is kept; an MD5 context then needs a new init, an Adler-32 context stays ready |
| Hashes.GetValue | src/mvt_hash.c:146-155 | each out-parameter is written only when its pointer and the context are non-NULL; the length is the class's digest length, 4 or 16, below 64 |
| Adler32.UnpackPack | src/mvt_hash_adler32.c:56-60 | `ADLER32_UNPACK` recovers the 16-bit sums that `ADLER32_PACK` stored |
| Adler32.Step1 | src/mvt_hash_adler32.c:62-73 | one `DO1` byte on the first sum, reduced, stays below 65521 |
| Adler32.Step2 | src/mvt_hash_adler32.c:62-74 | one `DO1` byte on the second sum, reduced, stays below 65521 |
| Adler32.First | src/mvt_hash_adler32.c:71-75 | the first sum after a run of bytes fits 16 bits, and is reduced below 65521 once a byte has been read |
| Adler32.Second | src/mvt_hash_adler32.c:71-75 | the second sum after a run of bytes fits 16 bits, and is reduced below 65521 once a byte has been read |
| Adler32.ChecksumEmpty | src/mvt_hash_adler32.c:32-43 | nothing fed leaves the initial value 0 |
| Adler32.ChecksumExtend | src/mvt_hash_adler32.c:65-77 | updating the checksum of `a` with `b` gives the checksum of `a + b` |
| Adler32.Digest | src/mvt_hash_adler32.c:45-54 | `adler32_finalize` writes the packed value as four bytes, most significant first |
| Adler32.Update | src/mvt_hash_adler32.c:65-77 | the loop over `len` bytes leaves the packed value that the sums over `buf[..len]` give |
| Adler32.ExtendRun | src/mvt_hash_adler32.c:71-75 | one more loop iteration applies one `DO1` step to both sums |
| Adler32.RunConcat | src/mvt_hash_adler32.c:71-75 | a run over `a + b` is the run over `b` started from the sums after `a` |
| Adler32.UpdateConcat | src/mvt_hash_adler32.c:65-77 | two updates in a row give the update over the concatenated bytes, so feeding a frame in rows or at once is the same |
| Adler32.BytewiseIsBulk | src/mvt_hash_adler32.c:65-77 | updating one byte per call and updating the whole buffer at once give the same value |
| Adler32.ZerosKeepZero | src/mvt_hash_adler32.c:33-62 | from the initial value 0, zero bytes leave both sums at 0 |
| Adler32.ZerosDigest | src/mvt_hash_adler32.c:45-54 | the digest of any run of zero bytes is four zero bytes (a blank frame does not change the value) |
| Adler32.ZeroRun | src/mvt_hash_adler32.c:71-75 | zero bytes keep both sums at 0 |
| Adler32.RunningSumsShift | src/mvt_hash_adler32.c:62 | raising the starting first sum by `k` raises the unreduced second sum by `k` per byte |
| Adler32.RunClosedForm | src/mvt_hash_adler32.c:71-75 | the reduced loop computes the closed form: the first sum is the start plus the byte sum, the second the start plus the running sums, both modulo 65521 |
| Adler32.RunFirstSum | src/mvt_hash_adler32.c:71-75 | the first sum in closed form |
| Adler32.RunSecondSum | src/mvt_hash_adler32.c:71-75 | the second sum in closed form |
| Adler32.DifferenceFromRfc1950 | src/mvt_hash_adler32.c:32-33 | starting from 0 instead of 1 shifts the first sum by 1 and the second by the number of bytes, modulo 65521 |
| ImageHash.Row | src/mvt_image_hash.c:53-54 | the bytes of one row read at a pixel stride: exactly `w` of them |
| ImageHash.Samples | src/mvt_image_hash.c:45-57 | the rows of a component, top to bottom: exactly `w * h` bytes |
| ImageHash.SampleOrder | src/mvt_image_hash.c:45-57 | sample (x, y) is byte `y * w + x` of the hashed input and comes from `start + y * pitch + x * stride` in the plane |
| ImageHash.VisibleOnly | src/mvt_image_hash.c:45-57 | two planes that agree on every visible sample give the same input: padding bytes between rows do not reach the hash |
| ImageHash.HighByteIgnored | src/mvt_image_hash.c:52-54 | at a pixel stride of 2 over an even pitch, changing an odd byte (the other half of a packed pixel) does not change the input |
| ImageHash.ChromaCeiling | src/mvt_image_hash.c:38-41 | the shifted chroma width and height are the rounded-up quotients, enough chroma samples to cover the luma ones and no more |
| ImageHash.HashedComponents | src/mvt_image_hash.c:74-78 | the hashed components are 0 alone, or 0, 1 and 2; never the alpha component |
| ImageHash.FrameInputOrder | src/mvt_image_hash.c:73-79 | the frame input is component 0 alone for one-component formats, and components 0, 1 and 2 in that order otherwise; its length is the luma area plus twice the chroma area |
| ImageHash.HashComponent | src/mvt_image_hash.c:28-58 | feeds exactly the component's samples, row by row, whatever the pixel stride; the value buffer is not touched |
| ImageHash.FeedRows | src/mvt_image_hash.c:45-50 | one update per row of `w` contiguous bytes, each row `pitch` further on, feeds the component's samples |
| ImageHash.FeedNextRow | src/mvt_image_hash.c:47-49 | one row's update extends the input fed so far by exactly that row's `w` samples and leaves the running value as it was |
| ImageHash.FeedSlice | src/mvt_image_hash.c:47 | one update of `w` contiguous bytes feeds that row |
| ImageHash.FeedSamples | src/mvt_image_hash.c:51-57 | one-byte updates at the pixel stride, row after row, feed the component's samples |
| ImageHash.FeedRow | src/mvt_image_hash.c:53-54 | one-byte updates across a row feed that row's samples |
| ImageHash.Hash | src/mvt_image_hash.c:61-87 | succeeds exactly for a non-NULL image of a YUV format with a non-NULL hash; on failure the hash is untouched; on success the input is restarted and fed the frame, and the value holds the digest of the frame |
| ImageHash.HashFrame | src/mvt_image_hash.c:73-79 | init, the components in order, finalize: the hash input is the frame input and the value its digest |
| ImageHash.HashChroma | src/mvt_image_hash.c:76-77 | component 1 then component 2 are appended to the input |
| Images.Priv.constructor | src/mvt_image_priv.h:27-31 | the private data `calloc` returns: no base buffer, no copy cache, cache size 0 (allocation at src/mvt_image.c:36) |
| Images.RoundUpBounds | src/mvt_image_priv.h:39-43 | without overflow, `round_up(v, a)` for a power of two `a` is the multiple of `a` in `[v, v + a)` |
| Images.RoundUpLeast | src/mvt_image_priv.h:39-43 | without overflow, `round_up(v, a)` is no larger than any multiple of `a` that is at least `v` |
| Images.RoundUpWraps | src/mvt_image_priv.h:39-43 | a value within 15 of 2^32 wraps and rounds up to 0 |
| Images.ScanPlanes | src/mvt_image.c:134-147 | the component loop's state after `k` components: four pitches and four heights |
| Images.ScanPlanesFailureSticks | src/mvt_image.c:139-145 | once a pitch or height conflict is found, the later components change nothing |
| Images.LayoutOffsets | src/mvt_image.c:151-160 | four offsets: the running sums for the planes in use, zero for the rest |
| Images.ScanInitComponents | src/mvt_image.c:134-147 | the loop's verdict, the image's pitches and the local heights are those of the component scan, the early returns included |
| Images.PlaceOffsets | src/mvt_image.c:151-160 | the plane loop succeeds exactly when every plane in use has a non-zero pitch, and then the offsets are the running uint32_t sums of the plane sizes; when it stops early, the planes up to the first one without a pitch hold their sums and the rest stay zero |
| Images.RegisteredPlanes | src/video_format.c:67-82 | every registered descriptor has four component slots, one to four planes and at least one component |
| Images.LayOut | src/mvt_image.c:129-164 | the computation after the clear: verdict and pitches as the layout function gives them, on success its offsets and data size, and in every case the offsets written before it stopped |
| Images.InitOffsetsOfLayout | src/mvt_image.c:145-160 | the offsets init leaves are the layout's offsets after a success; after a failure each is the layout's offset or zero |
| Images.PlanePitchBlocks | src/mvt_image.c:137-138 | for a width that is a multiple of 16, a component's pitch is its stride times the width, shifted down exactly, and equals width / 16 times its bytes per 16 columns, at least 8 |
| Images.ScanPlanesCoherent | src/mvt_image.c:134-147 | on a coherent descriptor with an aligned width the component loop never fails, and each plane holds its first component's pitch and height once that one is examined |
| Images.PlaneOffsetSumExact | src/mvt_image.c:155-157 | when no plane exceeds 2^28 bytes, the uint32_t running offset sum does not wrap and equals the exact sum of the plane sizes |
| Images.InitLayoutOfRegistered | src/mvt_image.c:115-170 | for every registered format and sides 1 .. 8192, init succeeds; each plane in use takes its first component's pitch and height from the sides rounded up to 16 and shifted for chroma; the planes are contiguous from offset 0, and the data size ends the last one |
| Images.InitLayoutOfCoherent | src/mvt_image.c:129-164 | the same layout for any coherent descriptor |
| Images.ScanShapes | src/mvt_image.c:132-147 | on a coherent descriptor the component loop succeeds with those plane shapes, and no plane exceeds 2^28 bytes |
| Images.LayoutContiguous | src/mvt_image.c:151-164 | with no plane over 2^28 bytes, the computed offsets place the planes end to end from 0, the unused ones at 0, and the data size ends the last plane |
| Images.OffsetStep | src/mvt_image.c:156-157 | without wrap-around, each offset is the previous offset plus the previous plane's size |
| Images.AlignedBounds | src/mvt_image.c:132-133 | a side of 1 .. 8192 rounds up to a multiple of 16 between 16 and 8192, no smaller than the side |
| Images.ComponentGeometry | src/mvt_image.c:137-146 | for aligned sides, a component's pitch is its stride times the width shifted down exactly, between 8 and 4 x 8192, and its height is the height shifted down exactly, between 8 and 8192 |
| Images.ComponentPitchBounds | src/mvt_image.c:137-138 | for an aligned width, a component's pitch is between 8 and 4 x 8192 |
| Images.ComponentHeightBounds | src/mvt_image.c:143 | for an aligned height, a component's height is the height shifted down exactly, between 8 and 8192 |
| Images.PlaneGeometry | src/mvt_image.c:134-147 | each plane in use of a coherent descriptor gets its first component's non-zero pitch and height; no plane's pitch or height exceeds its bound |
| Images.InitLayoutI420 | src/mvt_image.c:115-170 | a 16x16 I420 frame has a 16-byte luma pitch over 16 rows, two 8x8 chroma planes at offsets 256 and 320, and 384 bytes in all |
| Images.InitLayoutNV12Padded | src/mvt_image.c:132-164 | a 17x9 NV12 frame is padded to 32x16: both planes have pitch 32, the chroma plane has 8 rows and starts at 512, and the data size is 768 |
| Images.ShiftPlanesAt | src/mvt_image.c:213-219 | a plane in use of a shifted image has its pointer and its uint32_t offset advanced by the same amount |
| Images.MultiPlaneIsYuv | src/mvt_image.c:202 | a registered format with several planes has several components and is YUV, so the chroma-grid check applies to it |
| Images.SubimageAccepted | src/mvt_image.c:201-210 | for a registered format the subimage is refused exactly when a multi-component YUV origin lies off the chroma grid; the pixel-pitch query never fails |
| Images.SubimageWhole | src/mvt_image.c:188-199 | with no rectangle, or the whole-image one, the view is the source's structure with its size truncated to 16 bits, no data and no private data |
| Images.ShiftPlanesZero | src/mvt_image.c:212-220 | shifting by zero offsets changes nothing |
| Images.OriginOffsetZero | src/mvt_image.c:212-217 | a rectangle at the origin starts every plane at offset 0 |
| Images.SubimageOrigin | src/mvt_image.c:212-220 | when nothing wraps, plane `i` of an accepted subimage starts at the parent's sample (x >> w_shift, y >> h_shift) in offset and pointer alike, so every sample of the view is the parent's sample displaced by that origin |
| Images.PlaneOrigin | src/mvt_image.c:216-219 | the same on one plane's new offset and pointer |
| Images.SubimagePlane | src/mvt_image.c:212-220 | plane `i` of an accepted subimage is the parent's plane advanced by the origin's offset, in pointer and in uint32_t offset |
| Images.SubimageAligned | src/mvt_image.c:202-207 | the origin of an accepted subimage lies on the subsampling grid of every plane in use |
| Images.SubimageOffsetExact | src/mvt_image.c:212-217 | with the origin on the grid and no wrap-around, the computed offset is the shifted origin's exact byte position |
| Images.ShiftedSum | src/mvt_image.c:216-217 | for an origin on the grid and no wrap-around, the uint32_t expression `(y*p >> hs) + (x*q >> ws)` equals `(y / 2^hs) * p + (x / 2^ws) * q`, which is no larger than `y*p + x*q` |
| Images.ShrProduct | src/mvt_image.c:216 | for `y` on the grid and no wrap-around, `y*p >> hs` equals `(y / 2^hs) * p` |
| Images.SampleShift | src/mvt_image_priv.h:50-51 | moving a plane pointer by the byte position of sample (xs, ys) moves every sample address by that many samples |
| Images.FieldRows | src/mvt_image.c:240-250 | for a single field, row `v` of the view is row `2v` of the frame (top) or `2v + 1` (bottom), with the pitch doubled, as long as it fits in 32 bits; the height is halved |
| Images.FieldFrame | src/mvt_image.c:239-251 | with neither or both field bits set, the view keeps the frame's planes and pitches and halves the height |
| Images.VaImageWrap | src/mvt_image.c:256-301 | a VA image whose format is that of a registered format is wrapped with that format, and once data is attached `init_pixels` points each plane in use at the buffer plus its VA offset |
| Images.Image.constructor | src/mvt_image.c:129 | the cleared structure: unknown format, zero sizes, NULL data and planes, no private data |
| Images.Image.Assign | src/mvt_image.c:59 | the structure assignment: the new state is the given one |
| Images.Image.Init | src/mvt_image.c:115-170 | a zero size or an unregistered format fails with nothing touched; otherwise success is the layout's verdict and the new state is the laid-out structure; a failed layout leaves format UNKNOWN, a zero size, no data and no plane pointers, the plane count set, and the pitches and offsets the loops wrote before stopping |
| Images.Image.InitPixels | src/mvt_image.c:290-301 | fails, changing nothing, exactly when there is no data; otherwise each plane in use points at `data + offsets[i]` and the rest keep their pointers |
| Images.Image.PrivEnsure | src/mvt_image.c:29-38 | the existing private data, or a fresh zeroed one; nothing else changes |
| Images.Image.PrivClear | src/mvt_image.c:41-53 | the copy cache and the base buffer are released and the private data pointer becomes NULL; nothing else changes |
| Images.Image.Clear | src/mvt_image.c:304-326 | data, size, format, sizes and plane count reset, the planes in use emptied, the others kept, and the private data released |
| Images.New | src/mvt_image.c:64-91 | for a non-zero size and a registered format: NULL exactly when the layout fails; otherwise a fresh image laid out by init whose data is a fresh block of `data_size` bytes owned by fresh private data, with the plane pointers into it |
| Images.Free | src/mvt_image.c:94-102 | the image is cleared; NULL is ignored |
| Images.Freep | src/mvt_image.c:105-112 | the image is cleared and the caller's pointer becomes NULL |
| Images.InitFromSubimage | src/mvt_image.c:173-222 | NULL images and an unregistered source format fail with nothing written; otherwise the outcome and the destination are the subimage view of the source's structure |
| Images.ShiftedPlanes | src/mvt_image.c:212-220 | the offset loop advances the pointers and offsets of the planes in use by the origin's per-plane offset |
| Images.InitFromField | src/mvt_image.c:225-253 | succeeds exactly for non-NULL images with a registered source format, leaving the field view of the source; a failure writes nothing |
| Images.InitFromVaImage | src/mvt_image.c:256-287 | succeeds exactly for non-NULL arguments whose VA format maps to a registered one, leaving the VA layout with no pixels and nothing owned; a failure writes nothing |
| Images.CopyVaPlanes | src/mvt_image.c:278-285 | the planes in use take the VA offsets and pitches, the others zero |
| ImageAccess.ComponentPtrExact | src/mvt_image_priv.h:46-52 | without wrap-around, a component's address is the plane's sample (x, y) plus the component's offset |
| ImageAccess.Load | src/mvt_image_priv.h:55-78 | a component up to 8 bits reads one byte, below 256; a deeper one reads a 16-bit word masked below `1 << bit_depth` (dispatch at src/mvt_image_priv.h:91-97) |
| ImageAccess.Store | src/mvt_image_priv.h:63-88 | a store rewrites a buffer of the same length (dispatch at src/mvt_image_priv.h:100-108) |
| ImageAccess.LoadStore | src/mvt_image_priv.h:55-108 | reading a sample back after storing `v` gives the stored value: `v` truncated to a byte on the 8-bit path, `v` masked to the bit depth on the 16-bit path |
| ImageAccess.StoredBelow | src/mvt_image_priv.h:87 | a stored 16-bit value is already within the bit-depth mask |
| ImageAccess.StoredMasked | src/mvt_image_priv.h:85-87 | for a bit depth of 9 to 16 the stored value is `v & ((1 << bit_depth) - 1)` |
| ImageAccess.StoreFrame | src/mvt_image_priv.h:63-88 | a store changes only the one or two bytes of the addressed sample |
| ImageAccess.GetComponent | src/mvt_image_priv.h:91-97 | the value read at sample (x, y) is the load at the component's address |
| ImageAccess.Put | src/mvt_image_priv.h:63-88 | the block holding the pointer is rewritten by the store at that position, and only that block |
| ImageAccess.PutComponent | src/mvt_image_priv.h:100-108 | the block of sample (x, y) is rewritten by the store at the component's address |
| ImageAccess.Put8 | src/mvt_image_priv.h:63-68 | one byte is written; the bytes at any other given pointers keep their values |
| ImageAccess.PutRgbPixel | src/mvt_image_priv.h:121-128 | when the three samples are distinct bytes, reading the pixel back with `get_rgb_pixel` (src/mvt_image_priv.h:111-118) gives R, G and B |
| ImageAccess.RegisteredRgbDistinct | src/video_format.c:74-81 | for every registered RGB format, the R, G and B samples of a pixel are different bytes of its one plane, when the plane lies in a block and the pixel's index does not wrap |
| ImageAccess.RgbComponents | src/video_format.c:74-81 | registered RGB formats keep R, G and B on plane 0 at 4 bytes per pixel, at three different offsets below 4, with at most 8 bits |
| ImageConvert.CopyRowAt | src/mvt_image_convert.c:164-165 | a row copy puts source byte `so + (i - o)` at each index `i` of the destination row and leaves every other byte |
| ImageConvert.CopiedAt | src/mvt_image_convert.c:151-169 | after a 2-D copy with a pitch of at least the width, every byte (x, y) of the destination region holds source byte (x, y) |
| ImageConvert.CopiedElsewhere | src/mvt_image_convert.c:151-169 | a 2-D copy leaves every byte outside the destination rows, row padding included, as it was |
| ImageConvert.CopiedSplit | src/mvt_image_convert.c:151-169 | copying `y + k` rows is copying `y` rows, then the `k` rows that follow |
| ImageConvert.CopiedSameSource | src/mvt_image_convert.c:151-169 | a 2-D copy depends only on the source bytes inside the copied rows |
| ImageConvert.CopiedRows | src/mvt_image_convert.c:151-169 | every destination row of a copy holds the `w` bytes of the matching source row |
| ImageConvert.CopyOneRow | src/mvt_image_convert.c:164-165 | the byte loop leaves the destination equal to the row copy |
| ImageConvert.CopyRows | src/mvt_image_convert.c:151-169 | the row loop, with both pointers advancing by their pitches, leaves the destination equal to the 2-D copy of `h` rows of `w` bytes |
| ImageConvert.Copy2d | src/mvt_image_convert.c:140-170 | given the 16-byte aligned source and pitch it asserts, Copy2d leaves the destination equal to the 2-D copy; the SSE paths copy the same bytes as the scalar tail |
| ImageConvert.CopyFromUswc | src/mvt_image_convert.c:93-138 | given the 16-byte aligned destination and pitch it asserts, the destination becomes the 2-D copy of the source |
| ImageConvert.W16Above | src/mvt_image_convert.c:263 | unless it wraps to 0, the cache pitch `round_up(width, 16)` is a multiple of 16 and at least the width |
| ImageConvert.CacheFits | src/mvt_image_convert.c:264-270 | a block of at most `cache_size / w16` rows of at most `w16` bytes at pitch `w16` fits in the cache |
| ImageConvert.FitsBlock | src/mvt_image_convert.c:269-284 | rows `y .. y + k` of a region inside a buffer form a region inside it |
| ImageConvert.CopyBlock | src/mvt_image_convert.c:272-280 | one block, copied into the cache at pitch `w16` and then out of it, leaves the destination equal to the direct copy of those rows |
| ImageConvert.CopyPlane | src/mvt_image_convert.c:257-287 | with `hstep = cache_size / w16` at least 1, the blocked copy through the cache leaves the destination equal to the direct 2-D copy of the whole plane |
| ImageConvert.SplitRowPair | src/mvt_image_convert.c:247-250 | byte x of the U row is source byte 2x, and byte x of the V row is source byte 2x + 1 |
| ImageConvert.SplitRowStep | src/mvt_image_convert.c:247-250 | splitting `x + 1` bytes is splitting `x` bytes, then writing U byte x and V byte x |
| ImageConvert.SplitRowSame | src/mvt_image_convert.c:247-250 | a row split reads only the `2w` source bytes of its row |
| ImageConvert.SplitFitsTail | src/mvt_image_convert.c:188-254 | the rows from row `y` on of a split that fits form a split that fits |
| ImageConvert.SplitFitsRow | src/mvt_image_convert.c:247-253 | row `y` of a split that fits lies inside both buffers, its U and V rows sharing no byte |
| ImageConvert.SplitFitsFromRegions | src/mvt_image_convert.c:172-255 | U and V regions that fit, one wholly before the other, with a source region of `2w` bytes per row, make a split that fits |
| ImageConvert.SpansMiss | src/mvt_image_convert.c:188-254 | when the regions are apart, a byte of a row of one region lies in no row of the other |
| ImageConvert.DeinterleavedSplit | src/mvt_image_convert.c:188-254 | splitting `y + k` rows is splitting `y` rows, then the `k` rows that follow |
| ImageConvert.DeinterleavedSameSource | src/mvt_image_convert.c:188-254 | a split depends only on the `2w` source bytes of each of its rows |
| ImageConvert.DeinterleavedElsewhere | src/mvt_image_convert.c:188-254 | a byte in no U row and no V row is left as it was |
| ImageConvert.DeinterleavedAt | src/mvt_image_convert.c:188-254 | with pitches of at least `w` and the U and V regions apart, byte x of U row y is source byte 2x of row y and byte x of V row y is source byte 2x + 1 |
| ImageConvert.FirstRowKept | src/mvt_image_convert.c:188-254 | the rows below the first leave the first U and V rows as the first row's split wrote them |
| ImageConvert.SplitFitsSource | src/mvt_image_convert.c:247-251 | a split that fits reads `2w` bytes from each of its `h` source rows, inside the source |
| ImageConvert.SplitOneRow | src/mvt_image_convert.c:247-250 | the byte loop leaves the destination equal to the row split |
| ImageConvert.SplitUV | src/mvt_image_convert.c:172-255 | given the aligned source and pitch it asserts, the destination's U and V rows become the even and odd bytes of each source row, the three pointers advancing by their pitches |
| ImageConvert.SplitRows | src/mvt_image_convert.c:188-254 | the row loop leaves the destination equal to the split of `h` rows |
| ImageConvert.SplitBlock | src/mvt_image_convert.c:305-311 | one block, copied into the cache at pitch `w2_16` and split out of it, leaves the destination equal to the direct split of those rows |
| ImageConvert.SplitPlanes | src/mvt_image_convert.c:289-319 | with `hstep = cache_size / w2_16` at least 1, the blocked split through the cache leaves the destination equal to the direct split of the whole plane |
| ImageConvert.MergeRowPair | src/mvt_image_convert.c:408-415 | libyuv's row merge puts byte x of the U row at `2x` of the destination row and byte x of the V row at `2x + 1` |
| ImageConvert.MergeRowKeeps | src/mvt_image_convert.c:408-415 | a row merge leaves every byte outside its `2w` destination bytes as it was |
| ImageConvert.InterleavedAt | src/mvt_image_convert.c:408-415 | with a destination pitch of at least `2w`, byte `2x` of destination row y is byte x of U row y and byte `2x + 1` is byte x of V row y |
| ImageConvert.InterleavedElsewhere | src/mvt_image_convert.c:408-415 | the merge leaves every byte outside the destination rows as it was |
| ImageConvert.MergeOneRow | src/mvt_image_convert.c:408-415 | the byte loop leaves the destination equal to the row merge |
| ImageConvert.MergeUVPlane | src/mvt_image_convert.c:408-415 | the row loop leaves the destination equal to the merge of `h` rows of U and V into interleaved rows |
| ImageConvert.NV12ToI420 | src/mvt_image_convert.c:389-396 | -1, with nothing written, for a zero width or height; otherwise 0, with the luma copied at `w` x `h` and the chroma plane split into U and V at half the size rounded up |
| ImageConvert.I420Copy | src/mvt_image_convert.c:398-406 | -1, with nothing written, for a zero width or height; otherwise 0, with the three planes copied, chroma at half the size rounded up |
| ImageConvert.I420ToNV12 | src/mvt_image_convert.c:408-415 | -1, with nothing written, for a zero width or height; otherwise 0, with the luma copied and U and V merged into one chroma plane at half the size |
| ImageConvert.NV12ToI420Chroma | src/mvt_image_convert.c:389-396 | after NV12 to I420, U sample (x, y) is the even byte and V sample (x, y) the odd byte of pair (x, y) of the NV12 chroma plane |
| ImageConvert.I420ToNV12Chroma | src/mvt_image_convert.c:408-415 | after I420 to NV12, pair (x, y) of the chroma plane is U sample (x, y) followed by V sample (x, y) |
| ImageConvert.W16Chroma | src/mvt_image_convert.c:338 | for `0 < w < 2^31`, the cache rows of the chroma copies and splits, at `(w + 1) / 2` and twice that, are no wider than the luma's |
| ImageConvert.W16Bounds | src/mvt_image_convert.c:263 | up to 2^31, `round_up(w, 16)` is a multiple of 16 in `[w, w + 16)` |
| ImageConvert.CacheRows | src/mvt_image_convert.c:264-267 | a cache with room for one luma row has room for at least one row of every plane copy and split, so the `hstep > 0` asserts hold |
| ImageConvert.EnsureCopyCache | src/mvt_image_convert.c:57-72 | the image gets private data if it has none, and the private data gets a fresh cache of `max(round_up(width, 16), 4096)` bytes if it has none; an existing cache and base buffer are kept |
| ImageConvert.CopyFromNV12 | src/mvt_image_convert.c:321-341 | the destination block becomes the luma copy followed by the chroma split, at half the size rounded up; the image structure is unchanged apart from its private data |
| ImageConvert.CopiedPlanesThree | src/mvt_image_convert.c:352-358 | the I420 copy is the luma copy, then the U copy, then the V copy, chroma at half the size rounded up |
| ImageConvert.CopyFromI420 | src/mvt_image_convert.c:343-361 | the destination block becomes the three plane copies; the image structure is unchanged apart from its private data |
| ImageConvert.ImageConvertInternal | src/mvt_image_convert.c:369-420 | the outcome is the pass: an unsupported pair fails; a USWC I420 destination from NV12 or I420 takes the fast path and succeeds; the libyuv routes fail on a zero size; only a success writes, with the route's bytes |
| ImageConvert.FieldReady | src/mvt_image_convert.c:464-478 | each field pass that is asked for meets what a pass needs |
| ImageConvert.FieldPass | src/mvt_image_convert.c:465-469 | one field pass converts field views of both images, which own nothing, and writes the pass's bytes |
| ImageConvert.ConvertFields | src/mvt_image_convert.c:464-479 | with a field flag, the top field and then the bottom field are converted, stopping at the first failure |
| ImageConvert.ConvertKnown | src/mvt_image_convert.c:459-479 | with both formats known, the outcome is one pass over the frame without a field flag, or the field passes otherwise; the structure changes only in its private data, and not at all for field passes |
| ImageConvert.ConvertFull | src/mvt_image_convert.c:430-480 | a missing image or an unknown format fails and writes nothing; otherwise the outcome and the destination bytes are the full conversion's |
| ImageConvert.Convert | src/mvt_image_convert.c:423-427 | `convert_full` without flags: a failure writes nothing, and a success is the single pass |
| Codecs.TablesDistinct | src/mvt_codec.c:28-108 | the codec table and every profile table list distinct names and distinct values |
| Codecs.CodecMapDistinct | src/mvt_codec.c:28-40 | the codec table lists distinct names and values |
| Codecs.SmallTablesDistinct | src/mvt_codec.c:43-108 | the MPEG-2, MPEG-4, VC-1, VP9 and HEVC profile tables list distinct names and values |
| Codecs.H264ProfilesDistinct | src/mvt_codec.c:61-85 | the H.264 profile table lists distinct names and values |
| Codecs.CodecRoundTrip | src/mvt_codec.c:111-122 | the codec name of an id looks up to the same id, and the listed ids are exactly MPEG-1 to HEVC; a known name round-trips, an unknown one gives CODEC_NONE |
| Codecs.CodecValues | src/mvt_codec.c:28-40 | the ids the table lists are exactly those from MPEG-1 to HEVC |
| Codecs.ProfileRoundTrip | src/mvt_codec.c:125-154 | a profile named for a codec looks up by that name to the same profile; codecs without a profile table (none, raw video, MPEG-1, JPEG, H.263, VP8) name no profile |
| Codecs.ProfileTableAgrees | src/mvt_codec.c:125-154 | naming a profile of a codec with a table is the value lookup in that codec's table |
| Codecs.ProfileNameRoundTrip | src/mvt_codec.c:125-371 | a listed profile name of a codec looks up to a profile whose name is that name |
| Codecs.ProfileUnknownName | src/mvt_codec.c:212-371 | an unlisted profile name gives -1, the tables' sentinel |
| Codecs.VaProfileNamed | src/mvt_codec.c:157-209 | only profiles of MPEG-2, MPEG-4, H.264 and VC-1 that have a name map to a VA-API profile |
| Codecs.VaProfileInjective | src/mvt_codec.c:157-209 | two codec and profile pairs that map to the same VA-API profile are the same pair |
| Codecs.ProfileToVaProfile | src/mvt_codec.c:157-209 | succeeds exactly for the pairs the switch maps, and writes the VA-API profile only on success through a non-NULL pointer |
| Codecs.H264Subprofiles | src/mvt_codec.c:261-303 | a NULL buffer, one shorter than 3 bytes or whose configuration version is not 1 gives no profile; otherwise the profile byte with the constraint flags each family keeps (Constrained Baseline, Progressive and Constrained High, the Intra profiles, Scalable Constrained Baseline), accepted only when the profile table names the result |
| Codecs.H264BaselineFamily | src/mvt_codec.c:276-278 | Baseline keeps only constraint_set1: Constrained Baseline when it is set |
| Codecs.H264HighFamily | src/mvt_codec.c:279-282 | High keeps constraint_set4 and 5: Constrained High with both, Progressive High with 4, rejected with 5 alone (no such named profile), High otherwise |
| Codecs.H264IntraFamily | src/mvt_codec.c:283-288 | High 10, 4:2:2, 4:4:4 and Scalable High keep constraint_set3: their Intra profile when it is set |
| Codecs.H264ScalableBaselineFamily | src/mvt_codec.c:289-291 | Scalable Baseline keeps constraint_set5: Scalable Constrained Baseline when it is set |
| Codecs.H264PlainFamily | src/mvt_codec.c:292-295 | Main, Extended, Multiview High and Stereo High drop every flag |
| Codecs.H264Found | src/mvt_codec.c:247-258 | a profile listed in the table has a name |
| Codecs.H264Unlisted | src/mvt_codec.c:247-258 | a profile outside the listed values has no name |
| Codecs.H264EarlyValue | src/mvt_codec.c:61-71 | the first ten rows list known profile values |
| Codecs.H264LateValue | src/mvt_codec.c:72-84 | the remaining rows list known profile values |
| Codecs.H264ProfileNamed | src/mvt_codec.c:261-303 | every profile the codec data yields has a name that looks up to it; Scalable Constrained High is never yielded |
| Codecs.H264ProfileFromCodecData | src/mvt_codec.c:261-303 | succeeds exactly when the codec data yields a profile, and writes it only then, through a non-NULL pointer |
| Codecs.Wmv3ProfileAccepted | src/mvt_codec.c:327-343 | the profile is the top two bits of the first byte; it is accepted exactly when it is 0, 1 or 3 (2 has no name), and a NULL or empty buffer fails |
| Codecs.Wmv3ProfileFromCodecData | src/mvt_codec.c:327-343 | succeeds exactly when the first byte yields a named VC-1 profile, and writes it only then, through a non-NULL pointer |
| ImageCompare.SquareBound | src/mvt_image_compare.c:73-74 | a difference's square is at most `bound * bound` exactly when the difference lies within `bound` |
| ImageCompare.CalcSeDefinedRange | src/mvt_image_compare.c:70-75 | on samples of up to 16 bits, the int32 square is defined exactly when the samples differ by at most 46340, and there it equals the true square |
| ImageCompare.CalcSeOverflows | src/mvt_image_compare.c:73-74 | white against black on 16 bits (65535 against 0) overflows the int32 product, although the true square fits the uint32_t result |
| ImageCompare.CalcSe | src/mvt_image_compare.c:70-75 | the squared error is zero exactly when the samples are equal, and below 2^32 for samples below 2^16 |
| ImageCompare.CalcSeSymmetric | src/mvt_image_compare.c:70-75 | the squared error does not depend on the order of the samples |
| ImageCompare.Accumulate | src/mvt_image_compare.c:148 | one wrapping uint64_t `se += c` keeps `se` the running sum modulo 2^64 |
| ImageCompare.GridSeSymmetric | src/mvt_image_compare.c:146-150 | the error over an area does not depend on which picture comes first |
| ImageCompare.GridSeZero | src/mvt_image_compare.c:146-150 | the error over an area is zero exactly when the two pictures agree on all of it |
| ImageCompare.GridConstSeZero | src/mvt_image_compare.c:170-174 | the error against `max_intensity` is zero exactly when the whole area equals it |
| ImageCompare.SweepableWithin | src/mvt_image_compare.c:146-150 | a component readable over `w` x `h` is readable over any smaller area |
| ImageCompare.MaxIntensity | src/mvt_image_compare.c:130 | `(1U << bit_depth) - 1` is `2^bit_depth - 1` for a depth below 32 |
| ImageCompare.CalcPsnr | src/mvt_image_compare.c:78-83 | the score is +infinity exactly when the error is zero |
| ImageCompare.DepthScanFixed | src/mvt_image_compare.c:112-127 | once a nonzero depth is seen, the depth loop continues exactly when every later component repeats it, and yields that depth |
| ImageCompare.DepthsUniform | src/mvt_image_compare.c:112-127 | with a nonzero first depth, the loop succeeds exactly when all compared components share it, and yields it |
| ImageCompare.AlphaRules | src/mvt_image_compare.c:155-167 | the reference's alpha is never scored; the first image's alpha is scored exactly for a 4-against-3 pair with more than one component compared; equal component counts and Y-PSNR score no alpha |
| ImageCompare.MainSeSymmetric | src/mvt_image_compare.c:133-152 | for one format and size, the error of the main components does not depend on which image comes first |
| ImageCompare.MainSeZero | src/mvt_image_compare.c:133-152 | the error of the main components is zero exactly when each compared component has identical samples |
| ImageCompare.SelfComparison | src/mvt_image_compare.c:86-181 | an image compared with itself, when the comparison succeeds, scores +infinity |
| ImageCompare.ScoreSymmetric | src/mvt_image_compare.c:86-181 | swapping two images of the same format and size gives the same outcome |
| ImageCompare.ScoreTotal | src/mvt_image_compare.c:86-181 | a comparison that passes its checks succeeds, and scores +infinity exactly when the wrapped total error is zero |
| ImageCompare.InfinityIffIdentical | src/mvt_image_compare.c:86-181 | while the error fits 64 bits, the score is +infinity exactly when every compared component has identical samples and any scored alpha is fully opaque |
| ImageCompare.SamplesCounted | src/mvt_image_compare.c:151 | `num_samples` is the exact sum of the component areas while that sum fits 32 bits |
| ImageCompare.CheckDepths | src/mvt_image_compare.c:112-129 | the depth loops and the final check succeed exactly when both images have uniform, equal depths, and return that depth |
| ImageCompare.ShowsPicture | src/mvt_image_compare.c:146-149 | a readable component shows its own picture |
| ImageCompare.ReadComponent | src/mvt_image_compare.c:148-149 | `get_component` at (x, y) returns the picture's sample there |
| ImageCompare.SampleStep | src/mvt_image_compare.c:148-149 | one inner pass adds the squared error of sample (i, y) to the wrapped row sum |
| ImageCompare.SweepRow | src/mvt_image_compare.c:147-149 | the inner loop leaves `se` the row's error added modulo 2^64 |
| ImageCompare.SweepComponent | src/mvt_image_compare.c:146-150 | the two loops leave `se` the component's error over `w` x `h` added modulo 2^64 |
| ImageCompare.AlphaStep | src/mvt_image_compare.c:172-173 | one inner alpha pass adds the squared error of sample (i, y) against `max_intensity` |
| ImageCompare.SweepAlphaRow | src/mvt_image_compare.c:171-173 | the inner alpha loop leaves `se` the row's error against `max_intensity` added modulo 2^64 |
| ImageCompare.SweepAlpha | src/mvt_image_compare.c:170-174 | the alpha loops over the image size leave `se` the alpha error added modulo 2^64 |
| ImageCompare.MainStep | src/mvt_image_compare.c:133-152 | one pass of the component loop keeps `se` the wrapped error of the components done |
| ImageCompare.CompareComponent | src/mvt_image_compare.c:139-150 | component `n` is swept over its size, the chroma size rounded up for `n > 0`, adding its error to `se` |
| ImageCompare.SamplesStep | src/mvt_image_compare.c:151 | one pass adds the component's area to the uint32_t `num_samples` |
| ImageCompare.SweepMain | src/mvt_image_compare.c:133-152 | the component loop leaves `se` the wrapped main error and `num_samples` the wrapped count |
| ImageCompare.ScoreRejected | src/mvt_image_compare.c:112-129 | the comparison fails when the depths disagree or the alpha component counts do not match (src/mvt_image_compare.c:166-167) |
| ImageCompare.ScoreWithoutAlpha | src/mvt_image_compare.c:133-179 | without scored alpha, the score is `calc_psnr` of the wrapped main error, the main sample count and the maximum intensity |
| ImageCompare.ScoreWithAlpha | src/mvt_image_compare.c:155-179 | with the first image's alpha scored, the error and the sample count also take in the alpha sweep over the image size |
| ImageCompare.AlphaScored | src/mvt_image_compare.c:168-179 | the wrapped sums the loops leave, main then alpha, give the same score |
| ImageCompare.ComparePsnrWith | src/mvt_image_compare.c:98-181 | with both descriptors looked up, the outcome is the score: none for a failure, otherwise the value stored |
| ImageCompare.ComparePsnrOn | src/mvt_image_compare.c:98-181 | the same on the images' states and plane contents |
| ImageCompare.ScoreImageAlpha | src/mvt_image_compare.c:168-179 | the alpha loops of the first image, added to the main error and sample count, give the score |
| ImageCompare.ScoreChecked | src/mvt_image_compare.c:130-179 | once the component count and depths are checked, the loops and the alpha rules give the score |
| ImageCompare.ComparePsnr | src/mvt_image_compare.c:86-181 | for registered formats, the outcome is the score of the two images |
| ImageCompare.MetricFlags | src/mvt_image_compare.c:54-65 | a metric is supported exactly when it is PSNR or Y-PSNR, and the Y-PSNR flag is set exactly for Y-PSNR |
| ImageCompare.Compare | src/mvt_image_compare.c:33-67 | a value exactly when both images are present, of one size and chroma type, a value pointer is given and the metric is supported; then the PSNR score with the metric's flags |
| ImageCompare.RgbAlphaPairsRejected | src/mvt_image_compare.c:112-129 | two RGB images that both carry alpha are never compared by PSNR: the alpha slot has depth 0, so the depth check fails |
| Strings.StrCmp | src/mvt_map.c:35 | `strcmp` gives 0 exactly for equal strings, and otherwise -1 or 1 |
| Strings.StrNCmp | src/mvt_string.c:139 | `strncmp` over `n` characters gives 0 exactly when the first `n` characters (or the whole, shorter, strings) agree |
| Strings.HasPrefix | src/mvt_string.c:127-140 | true exactly when both strings are non-NULL, the prefix is no longer than the string and the string begins with it |
| Strings.PrefixesOf | src/mvt_string.c:127-140 | `s + t` has the prefix `s`, the empty string is a prefix of everything, and nothing has a longer prefix than itself |
| Strings.PrefixTransitive | src/mvt_string.c:127-140 | a prefix of a prefix is a prefix |
| Strings.DigitIn | src/mvt_string.c:150 | a digit of `strtoul` in a base is below the base |
| Strings.SkipSpace | src/mvt_string.c:150 | leading white space is skipped forward and within the string |
| Strings.DigitRun | src/mvt_string.c:150 | the digit run of a base ends within the string and holds only digits of that base |
| Strings.SubjectOf | src/mvt_string.c:150 | the subject sequence: sign, optional `0x` prefix in base 16 or 0, and the base chosen, 2 to 36 |
| Strings.Convert | src/mvt_string.c:150 | the converted value never exceeds ULONG_MAX (an overflow saturates with ERANGE) and the end pointer lies within the string |
| Strings.Strtoul | src/mvt_string.c:150 | `strtoul`: the end pointer within the string, the value at most ULONG_MAX |
| Strings.DecimalDigits | src/mvt_string.c:150 | in base ten the digits are '0' to '9' with their usual values |
| Strings.DecimalRunValue | src/mvt_string.c:150 | a run of decimal digits has in base ten the value `%u` reads back |
| Strings.RunEnds | src/mvt_string.c:150 | the digit run ends at the first non-digit |
| Strings.StrtoulDecimal | src/mvt_string.c:150 | `strtoul` reads the digits of `n`, up to the next non-digit, as `n` when it fits `unsigned long` and as ULONG_MAX with ERANGE when it does not; after a minus sign it gives the negation modulo 2^64 |
| Strings.DecimalSubject | src/mvt_string.c:150 | a string starting with a digit, or with a minus sign and a digit, has its subject sequence there, in base ten |
| Strings.ParseUintDecimal | src/mvt_string.c:143-156 | the decimal digits of a number up to ULONG_MAX parse to that number cut to 32 bits, every `uint32_t` parses to itself, and a larger number fails |
| Strings.ParseUintNegated | src/mvt_string.c:143-156 | a minus sign before the digits is accepted and yields the negation modulo 2^64, cut to 32 bits |
| Strings.ParseUintCanonical | src/mvt_string.c:143-156 | a digit string as `%u` writes it, of a 32-bit value, parses to the number whose `%u` is that string |
| Strings.ParseUintRejects | src/mvt_string.c:143-156 | the empty string and a number followed by a non-digit fail |
| Strings.ScanUint | src/mvt_string.c:165 | a `%u` conversion of `sscanf` consumes at least one character and stays within the string |
| Strings.ParseSize | src/mvt_string.c:159-173 | succeeds exactly when `sscanf` scans both numbers; then each result is written only when its pointer is non-NULL, with the scanned width and height; nothing is written on failure |
| Strings.ScanSizeDecimal | src/mvt_string.c:159-173 | `<w>x<h>` as `%ux%u` writes it, followed by anything but a digit, scans back to `(w, h)` |
| Strings.ScanSizeNeedsX | src/mvt_string.c:165 | a number not followed by 'x' does not scan as a size |
| Strings.ScanSizeOf | src/mvt_string.c:165 | two scanned numbers around an 'x' make the size |
| Strings.ScanUintDecimal | src/mvt_string.c:165 | the decimal digits of a 32-bit number followed by a non-digit scan back to the number, ending right after its digits |
| Strings.Dup | src/mvt_string.c:55-66 | `str_dup` of NULL is NULL, and of a string a string |
| Strings.DupN | src/mvt_string.c:69-80 | `str_dup_n` of NULL is NULL; otherwise the first `len` characters, or the whole string when shorter |
| Strings.DupWhole | src/mvt_string.c:55-80 | `str_dup` copies the string as it is, and `str_dup_n` with a cap no shorter than the string is `str_dup` |
| Strings.FreeV | src/mvt_string.c:31-41 | a NULL array releases nothing; otherwise every string of the array, in order, then the array |
| Strings.FreeVP | src/mvt_string.c:44-52 | through a non-NULL pointer the array is freed and the variable becomes NULL; a NULL pointer is left alone |
| Printf.DigitChar | src/mvt_report.c:150 | a digit value below ten prints as a decimal digit character |
| Printf.DigitValue | src/mvt_report.c:150 | a digit character reads as a value below ten that prints back as the same character |
| Printf.Decimal | src/mvt_report.c:150 | `%u` writes at least one decimal digit, and starts with '0' exactly for zero |
| Printf.DecimalValue | src/mvt_report.c:150 | reading back the digits `%u` writes gives the number |
| Printf.ValueDecimal | src/mvt_report.c:150 | every digit string without a leading zero (and "0") is what `%u` writes for its value |
| Printf.LeadingDigitPositive | src/mvt_report.c:150 | digits that do not start with '0' have a positive value |
| Printf.DecimalWidth | src/mvt_report.c:150 | a number below 10^k takes at most k digits (at least one): a `uint32_t` takes at most ten |
| Printf.Pow10 | src/mvt_report.c:150 | powers of ten are positive |
| Printf.AsInt32 | src/mvt_report.c:162 | the `uint32_t` index passed to `%d` is read as the `int` with the same 32 bits: itself below 2^31, itself minus 2^32 above |
| Printf.HexDigit | src/mvt_report.c:159 | a value below 16 prints as a lower-case hex digit |
| Printf.HexDigitValue | src/mvt_report.c:159 | a lower-case hex digit reads as a value below 16 |
| Printf.Hex2 | src/mvt_report.c:159 | `%02x` of a byte is exactly two lower-case hex digits |
| Printf.Hex2Value | src/mvt_report.c:159 | the two digits of `%02x` read back as the byte, high digit first |
| Printf.HexDigitRoundTrip | src/mvt_report.c:159 | a hex digit reads back as the value printed |
| Printf.HexString | src/mvt_report.c:158-160 | the hex string of the hash value has two characters per byte |
| Printf.HexStringPairs | src/mvt_report.c:158-160 | characters `2i` and `2i + 1` of the hex string are the `%02x` of byte `i` |
| Printf.PadLeft | src/mvt_report.c:162 | a right-justified field of width `w` is as long as the longer of the text and the width |
| Printf.PadLeftShape | src/mvt_report.c:162 | a right-justified field ends with the text and is blank before it |
| Printf.PadRight | src/mvt_report.c:162 | a left-justified field (`%-18s`) is as long as the longer of the text and the width |
| Printf.PadRightShape | src/mvt_report.c:162 | a left-justified field starts with the text and is blank after it |
| Printf.PadFree | src/mvt_report.c:162 | padding adds only blanks: a character other than a blank is in the field only if it is in the text |
| Printf.Split | src/mvt_report.c:99-103 | cutting a string at every separator gives at least one segment |
| Printf.JoinSplit | src/mvt_report.c:99-103 | the segments joined by the separator give the string back, and no segment holds the separator |
| Printf.SplitJoin | src/mvt_image_file.c:129 | segments free of the separator, joined and cut again, give the same segments |
| Printf.SplitPiece | src/mvt_report.c:99-103 | a segment free of the separator, followed by a separator or the end, is the first segment |
| Printf.JoinFree | src/mvt_report.c:99-103 | joining segments free of a character other than the separator gives a string free of it |
| Reports.CommentLinesOf | src/mvt_report.c:99-103 | a comment is one "# <segment>" line per segment of the text cut at '\n', the last one included, and the segments put back together give the text |
| Reports.LinesSplit | src/mvt_report.c:99-103 | the lines written for segments free of '\n' are exactly those segments, marked, one per line |
| Reports.CommentStep | src/mvt_report.c:99-103 | each loop iteration writes the segment before the next '\n' and leaves the comment of the rest; without a '\n' the rest is one last line |
| Reports.NextChar | src/mvt_report.c:99 | `strchr` finds the first occurrence at or after the position, or the end of the string when there is none |
| Reports.HeaderComment | src/mvt_report.c:112-121 | the column header is one comment line of 37 characters starting with "frame" |
| Reports.HashLineIndex | src/mvt_report.c:162 | a hash line starts with its index field; an index below ten million fills the seven columns right-justified and reads back; from 2^31 on `%d` prints it as minus its distance to 2^32 |
| Reports.LineStart | src/mvt_report.c:162 | the first field of the line is at its start |
| Reports.SmallIndexField | src/mvt_report.c:162 | an index below ten million prints in exactly seven columns and reads back |
| Reports.HashLineHex | src/mvt_report.c:158-163 | the line holds "0x" followed by two lower-case hex digits per hash byte that read back as the bytes, and ends with '\n' |
| Reports.HexFields | src/mvt_report.c:162 | the same on the line's fields before they are named |
| Reports.HexFieldMarks | src/mvt_report.c:162 | the "0x" marks sit just before the hex field and the line ends with '\n' |
| Reports.HexFieldDigits | src/mvt_report.c:158-162 | the hex field holds the digits of every hash byte |
| Reports.Around | src/mvt_report.c:162 | a field keeps its characters in the middle of a line |
| Reports.InMiddle | src/mvt_report.c:162 | a prefix of a middle field is found at its offset |
| Reports.HexDigitsAt | src/mvt_report.c:158-160 | the characters of the hex string read back pairwise as the bytes |
| Reports.SizeStringOverflows | src/mvt_report.c:127-150 | init accepts a Y800 frame of 4294967280 x 4294967280, and `%ux%u` of that size is 21 characters, so with its NUL it does not fit `size_string[20]` |
| Images.InitLayoutY800Widest | src/mvt_image.c:129-164 | init lays out a Y800 frame of 4294967280 x 4294967280: both sides are already multiples of 16 and the pitch and rows are non-zero, though the data size wraps |
| Reports.DecimalLength | src/mvt_report.c:150 | a number of k digits prints as k characters |
| Reports.SizeStringFits | src/mvt_report.c:150 | any `%ux%u` of two `uint32_t` values, with its NUL, fits 22 bytes |
| Reports.EntryAppend | src/mvt_report.c:135-163 | the optional header then the hash line make up the frame's entry |
| Reports.WarningsConcat | src/mvt_report.c:138-149 | warnings are counted per kind additively over concatenation |
| Reports.WarnedOnce | src/mvt_report.c:138-149 | after a frame each kind of warning has been emitted once if its condition ever held and never otherwise: at most once per report |
| Reports.Report.constructor | src/mvt_report.c:41 | the zeroed structure: nothing written, index 0, no warning emitted |
| Reports.New | src/mvt_report.c:36-53 | a report exactly when the file opens; a fresh one with nothing written, index 0 and no warnings |
| Reports.WriteComment | src/mvt_report.c:72-109 | false on NULL; otherwise the comment of the text, one "# " line per '\n'-separated segment, is appended and nothing else changes |
| Reports.SegmentStep | src/mvt_report.c:99-103 | the loop step on positions: the segment up to the next '\n' is written, or the rest when none is left |
| Reports.WriteHeaders | src/mvt_report.c:112-121 | false on NULL; the column header is appended while the index is 0, and nothing otherwise |
| Reports.Warn | src/mvt_report.c:138-149 | the index and size warnings are emitted when their limit is reached and not yet warned, and the flags are raised; the text and index are unchanged |
| Reports.WriteLine | src/mvt_report.c:162-163 | the hash line of the current index, size and value is appended; nothing else changes |
| Reports.HexValue | src/mvt_report.c:158-160 | the loop of `%02x` writes the hex string of the value |
| Reports.WriteImageHash | src/mvt_report.c:124-167 | false, with nothing written or counted, when the report, image or hash is NULL; otherwise the header before the first frame and the hash line are appended, each warning is emitted at most once, and the index goes up by one modulo 2^32 |
| Decoders.HwaccelFromName | src/mvt_decoder.c:35-46 | "vaapi" gives the VA-API mode; "none" and every unknown name give none, the table's sentinel |
| Decoders.HwaccelToName | src/mvt_decoder.c:49-53 | the two modes map back to "none" and "vaapi"; any other id gives NULL |
| Decoders.HwaccelRoundTrip | src/mvt_decoder.c:35-53 | the table has distinct names and values, so the two lookups invert each other on what it lists |
| Decoders.DefaultOptions | src/mvt_decoder.c:29-62 | the default options name the "adler32" hash and the "none" acceleration, have no file names and benchmark mode off |
| Decoders.LastIndexOf | src/mvt_decoder.c:78 | `strrchr`: an offset holding the character with none after it, or NULL exactly when the character does not occur |
| Decoders.GetBasename | src/mvt_decoder.c:75-81 | the basename is the longest suffix without a '/': it ends the name, holds no '/', and is preceded by a '/' when shorter than the name |
| Decoders.BasenameIdempotent | src/mvt_decoder.c:75-81 | a name without '/' is its own basename, and taking the basename twice changes nothing |
| Decoders.NoSlash | src/mvt_decoder.c:75-81 | without a '/' the name itself is returned |
| Decoders.LastIndexOfTail | src/mvt_decoder.c:78 | text without the character after a prefix does not move its last occurrence |
| Decoders.BasenameOfPath | src/mvt_decoder.c:75-81 | the basename of `dir/name` is `name` |
| Decoders.IsDevNull | src/mvt_decoder.c:83-87 | true exactly for a non-NULL "/dev/null" |
| Decoders.DefaultOutputName | src/mvt_decoder.c:233-244 | the default output name is the input's basename followed by ".raw", and holds no '/' |
| Decoders.WithOutputName | src/mvt_decoder.c:233-244 | only the output name can change; it is set to the default name exactly when output is generated, none was given and an input file is named |
| Decoders.OutputNameOfPath | src/mvt_decoder.c:233-244 | the default output name of `dir/name` is `name.raw` |
| Decoders.NextInfoOf | src/mvt_decoder.c:330-345 | the descriptor of the first frame is the kept one with the image's format and size, frame rate and aspect ratio kept, whether or not it changed |
| Decoders.OutputOf | src/mvt_decoder.c:329-351 | the output step keeps the file state valid: the headers committed before the first counted frame, then the frame written |
| Decoders.CommittedOutput | src/mvt_decoder.c:346-349 | once the header is committed, the output step only writes the frame |
| Decoders.FirstOutput | src/mvt_decoder.c:329-351 | the first YUV frame on a fresh file appends the Y4M header of the filled descriptor, the FRAME line and the frame's bytes; any other format fails and adds nothing |
| Decoders.CommitFormat | src/mvt_decoder.c:346-347 | committing takes the descriptor's format, and changes nothing once committed |
| Decoders.HashAndReport | src/mvt_decoder.c:323-327 | succeeds exactly for a YUV image; then the hash is fed the frame and the report gains the frame's entry and one more index; on failure neither changes; the image memory is not written |
| Decoders.OutputImage | src/mvt_decoder.c:329-351 | the new file state and the result are those of the output step |
| Decoders.ProcessImage | src/mvt_decoder.c:323-351 | the frame's work: the hash and report step when both exist, whose failure ends the frame with the file untouched; then the output step when a file exists, from the refreshed descriptor before the first counted frame; success otherwise |
| Decoders.ReportAndOutput | src/mvt_decoder.c:323-351 | with a hash, a report and a file: the report step, then the output step only if the hash succeeded |
| Decoders.OutputOnly | src/mvt_decoder.c:329-351 | without a hash or without a report: only the output step, or success without a file |
| Decoders.OutputNext | src/mvt_decoder.c:330-351 | the descriptor refreshed before the first counted frame, then the output step's result and file state |
| Decoders.OpenAll | src/mvt_decoder.c:264-283 | fails exactly when no input is named, the report or hash cannot be created (unless the report goes to "/dev/null"), or a named output other than "/dev/null" does not open; on success a fresh report and hash exist together exactly when the report is not "/dev/null", and an output file exactly when one is named that is not "/dev/null" |
| Decoders.Decoder.constructor | src/mvt_decoder.c:133-149 | the new decoder has no profile (-1), the default options and output descriptor, no hash, report or file, and nothing counted |
| Decoders.Decoder.Init | src/mvt_decoder.c:233-299 | the options get the default output name, then the opening succeeds and creates objects exactly as above; the counters are untouched |
| Decoders.Decoder.Record | src/mvt_decoder.c:315-354 | the maxima and the descriptor are stored, the frame count goes up by one modulo 2^32 when the frame counts, and the decoder's hash, report and file stay |
| Decoders.Decoder.Work | src/mvt_decoder.c:320-352 | in benchmark mode nothing changes and the frame succeeds; otherwise the frame's hash, report and output work is done, with the outcome and the new descriptor that work gives, and the decoder's objects stay valid |
| Decoders.Decoder.HandleImage | src/mvt_decoder.c:310-356 | the maxima follow the image always; in benchmark mode the frame counts and nothing else changes; otherwise the frame's work is done, and the count goes up exactly when it succeeds |
| FfmpegUtils.VideoFormatOf | src/ffmpeg_utils.c:42-61 | the switch gives UNKNOWN exactly for the pixel formats it does not list, and a YUV format otherwise |
| FfmpegUtils.VideoFormatKeepsLayout | src/ffmpeg_utils.c:42-61 | each translated format has the chroma subsampling, bit depth and plane count of the FFmpeg format, and the registry name Y800, I420, NV12, YUY2 or UYVY |
| FfmpegUtils.ToVideoFormat | src/ffmpeg_utils.c:37-68 | success exactly for the five translatable formats; the format is stored through a non-NULL pointer only on success |
| ImageFiles.DefaultsFilled | src/mvt_image_file.c:299-303 | the filled descriptor keeps format and size and every rate or aspect with both terms non-zero, replaces the others by 60:1 and 1:1, and filling again changes nothing; a descriptor from `mvt_image_info_init` (src/mvt_image_file.c:221-230) is already filled |
| ImageFiles.PictureStructureFlags | src/mvt_image_file.c:59-79 | top field alone gives 't', bottom alone 'b', both 'm', neither 'p', as for the 0 the header passes |
| ImageFiles.ColorspaceOfFormat | src/mvt_image_file.c:82-110 | a registered format has a Y4M colorspace tag exactly when it is YUV; the tag names its chroma type and is "444alpha" exactly when it has alpha |
| ImageFiles.ColorspaceTag | src/mvt_image_file.c:82-110 | a tag names the chroma type it was chosen for, says "alpha" exactly for a 4:4:4 format with alpha, and is a single header word |
| ImageFiles.HeaderLine | src/mvt_image_file.c:129-132 | the header is one line, ended by its only newline, made of exactly the seven space-separated words, whose W and H words carry the decimal value of the width and height |
| ImageFiles.DigitsOnly | src/mvt_image_file.c:129-131 | a `%u` field holds no space, newline or colon, so it cannot split a header word |
| ImageFiles.CommitOutcome | src/mvt_image_file.c:287-321 | committing succeeds exactly on a file already committed or for a YUV format; the first success appends the header of the filled descriptor and marks the class and the file ready; a failure writes nothing and leaves the file not ready, with the filled descriptor stored |
| ImageFiles.CommitIdempotent | src/mvt_image_file.c:296-297 | once a commit succeeds, every later commit succeeds and changes nothing, whatever its descriptor |
| ImageFiles.WrittenComponents | src/mvt_image_file.c:180-191 | the components written are Y, then Cb and Cr past one component, then alpha past three, each below four |
| ImageFiles.FramePlanes | src/mvt_image_file.c:151-153 | the contents of the written components' blocks, each large enough for its component |
| ImageFiles.EmitOk | src/mvt_image_file.c:174-193 | writing a list of components succeeds exactly when none of them has zero-width rows on the unit-stride path |
| ImageFiles.EmitStep | src/mvt_image_file.c:180-191 | a successful write of components is the first one's samples followed by a successful write of the rest |
| ImageFiles.FrameWhole | src/mvt_image_file.c:174-193 | a frame written without failure holds every written component in full, in order |
| ImageFiles.PayloadIsHashInput | src/mvt_image_file.c:174-193 | the frame payload is exactly the bytes `mvt_image_hash` feeds (src/mvt_image_hash.c:28-87), Y, Cb and Cr, followed by the alpha samples when the format has four components |
| ImageFiles.PayloadSize | src/mvt_image_file.c:145-150 | when the rounded chroma size does not wrap, the payload is w x h luma samples plus ceil(w / 2^ws) x ceil(h / 2^hs) samples for each of Cb, Cr and any alpha |
| ImageFiles.ComponentLength | src/mvt_image_file.c:145-169 | a component contributes one byte per visible sample of its own size |
| ImageFiles.WriteImageOf | src/mvt_image_file.c:324-341 | on a present file and image: the headers are committed from the image's own descriptor unless they were, then the FRAME line and the components; the file state stays valid |
| ImageFiles.FirstImage | src/mvt_image_file.c:332-340 | the first image written to an uncommitted file commits its own format and size at 60:1 and 1:1 and then writes its frame; a non-YUV image fails with nothing written |
| ImageFiles.LaterImages | src/mvt_image_file.c:332-340 | after a successful write the header stays committed, and every later image appends only its FRAME line and payload, laid out by the committed format whatever its own |
| ImageFiles.NonEmptyFrameWritten | src/mvt_image_file.c:154-159 | a frame of a YUV format with a non-zero size that does not wrap is always written |
| ImageFiles.ChromaPositive | src/mvt_image_file.c:147-150 | a non-empty width keeps a non-empty rounded chroma width |
| ImageFiles.Stream.constructor | src/mvt_image_file.c:262 | a freshly opened stream holds nothing |
| ImageFiles.ImageFile.constructor | src/mvt_image_file.c:258-266 | a fresh file on a fresh stream, in write mode, with the default descriptor, no class and no header |
| ImageFiles.Open | src/mvt_image_file.c:240-272 | NULL for a NULL path, for any mode but write, or when fopen fails; otherwise an empty file with the default descriptor and no header |
| ImageFiles.WriteHeader | src/mvt_image_file.c:113-134 | fails, writing nothing, for a format without a colorspace tag; otherwise appends the header line |
| ImageFiles.WriteHeaders | src/mvt_image_file.c:287-321 | fails on a NULL file or descriptor, changing nothing for a NULL descriptor; otherwise the outcome and new state are those of committing the descriptor |
| ImageFiles.WriteImage | src/mvt_image_file.c:324-341 | fails on a NULL file or image; otherwise the outcome and new state are those of writing the image to the file |
| ImageFiles.CommitInfo | src/mvt_image_file.c:333-336 | committing leaves the image untouched, so its planes read the same whenever the frame format is unchanged |
| ImageFiles.WriteHeadersKeeping | src/mvt_image_file.c:287-321 | committing changes the file and no pixel block |
| ImageFiles.CommitImage | src/mvt_image_file.c:332-337 | the headers come from the image's own descriptor unless committed; the image and its blocks are untouched |
| ImageFiles.Committed | src/mvt_image_file.c:332-339 | after a successful commit the file is ready and its format is the frame format, a YUV one |
| ImageFiles.PlanesOf | src/mvt_image_file.c:151-153 | the planes of a writable frame fit every written component and hold its block's contents |
| ImageFiles.WriteFrame | src/mvt_image_file.c:174-193 | appends the FRAME line and the written components, succeeding exactly as the frame outcome says |
| ImageFiles.WriteComponents | src/mvt_image_file.c:180-191 | Y and then the others: success leaves all written, a failure leaves what the component list writes up to its failure |
| ImageFiles.WriteOthers | src/mvt_image_file.c:182-191 | Cb and Cr past one component, then alpha past three, with the same outcome |
| ImageFiles.WriteChromaAlpha | src/mvt_image_file.c:182-191 | Cb, Cr and alpha, each only when the one before succeeds |
| ImageFiles.WriteAlpha | src/mvt_image_file.c:188-191 | the alpha component of a four-component format, last |
| ImageFiles.WriteChroma | src/mvt_image_file.c:182-187 | Cb and then Cr, the second only when the first succeeds |
| ImageFiles.WriteNext | src/mvt_image_file.c:180-191 | one component call adds its samples and moves on, or fails the whole write with what was written so far |
| ImageFiles.Pending | src/mvt_image_file.c:180 | before the first component nothing is written and every component is pending |
| ImageFiles.Advance | src/mvt_image_file.c:180-191 | the next component either fails the whole write with what was written so far, or adds its samples and moves on |
| ImageFiles.Finished | src/mvt_image_file.c:192 | with no component left the write succeeds with everything written |
| ImageFiles.EmitHead | src/mvt_image_file.c:180-191 | a non-empty list of components writes its first component, failing on zero-width rows, and then the rest |
| ImageFiles.WriteComponent | src/mvt_image_file.c:137-171 | succeeds exactly unless the unit-stride rows are empty of width, and then appends the component's visible samples |
| ImageFiles.WriteRows | src/mvt_image_file.c:154-160 | one fwrite per row: succeeds exactly when the width is non-zero or there are no rows, and then appends every row |
| ImageFiles.UnitRowsStep | src/mvt_image_file.c:156-158 | one more row of single-byte samples is the next slice of the block |
| ImageFiles.Fwrite | src/mvt_image_file.c:156 | `fwrite(p, w, 1, f)` writes one item of `w` bytes, or none for a zero-byte item |
| ImageFiles.WriteSamples | src/mvt_image_file.c:161-169 | one putc per sample, at `x * pixel_stride` in its row, appends every row |
| ImageFiles.WriteRow | src/mvt_image_file.c:163-166 | one row of samples, one putc each |
| GenRefH264.ToInt64 | src/gen_ref_h264_avc.c:66 | the conversion to a signed 64-bit `time_t` agrees with the value modulo 2^64 and leaves a value in range unchanged |
| GenRefH264.AddMsec | src/gen_ref_h264_avc.c:61-68 | the timespec left by `ts_add_msec` has its nanoseconds below 10^9 and its seconds in the signed 64-bit range |
| GenRefH264.AddMsecExact | src/gen_ref_h264_avc.c:61-68 | a non-negative delay on a normalised timespec moves it ahead by exactly `msec` milliseconds, never back in seconds |
| GenRefH264.AddMsecNegativeWraps | src/gen_ref_h264_avc.c:64 | a delay that makes the nanosecond sum negative wraps it through uint64_t: the deadline lands 2^64 ns late |
| GenRefH264.Timespec.constructor | src/gen_ref_h264_avc.c:61-62 | a timespec holding the seconds and nanoseconds given |
| GenRefH264.TsAddMsec | src/gen_ref_h264_avc.c:61-68 | the timespec is updated in place to the deadline `AddMsec` describes |
| GenRefH264.FillerData | src/gen_ref_h264_avc.c:255-268 | the filler_data() unit: start code, header 0x0c, `length` bytes 0xff (none for a negative length) and the trailing 0x80 |
| GenRefH264.HeaderTypes | src/gen_ref_h264_avc.c:261-276 | the header bytes written are those of the filler data and end of stream NAL unit types, with nal_ref_idc 0 |
| GenRefH264.AnnexBConcat | src/gen_ref_h264_avc.c:305-327 | the Annex B stream of two runs of units is the first run's stream followed by the second's |
| GenRefH264.Be | src/gen_ref_h264_avc.c:354-355 | the big-endian value of the first `n` bytes fits `n` bytes |
| GenRefH264.BeBytes | src/gen_ref_h264_avc.c:308 | a length written in `n` bytes, most significant first, takes `n` bytes |
| GenRefH264.BeOfBeBytes | src/gen_ref_h264_avc.c:308-355 | reading back a big-endian length gives the value written, whatever follows it |
| GenRefH264.ParameterSets | src/gen_ref_h264_avc.c:305-314 | the scan of parameter sets never consumes more than it was given |
| GenRefH264.ParameterSetStep | src/gen_ref_h264_avc.c:306-313 | a set whose 16-bit length and payload fit is written as one NAL unit and the scan moves past it |
| GenRefH264.PacketStep | src/gen_ref_h264_avc.c:352-361 | a packet unit whose length and payload fit is written as one NAL unit and the scan moves past it |
| GenRefH264.NalLengthSizeOf | src/gen_ref_h264_avc.c:300 | the NAL length size read from byte 4 is between 1 and 4 |
| GenRefH264.Prefixed | src/gen_ref_h264_avc.c:305-327 | output written ahead of a scan through a working pipe: the whole is accepted exactly when the scan is, and the pipe gets the output then the scan's |
| GenRefH264.Extended | src/gen_ref_h264_avc.c:311-313 | one more unit written moves both the scan still ahead and the pipe on by that unit |
| GenRefH264.Sequenced | src/gen_ref_h264_avc.c:302-327 | a scan the pipe accepted followed by a second: the pipe gets both, and the whole is accepted exactly when the second is |
| GenRefH264.FirstRejected | src/gen_ref_h264_avc.c:311-312 | once the pipe rejects the first scan, nothing more is accepted or written |
| GenRefH264.LengthPrefixedHead | src/gen_ref_h264_avc.c:308 | a length-prefixed run starts with the first unit's length and the first unit |
| GenRefH264.FirstUnit | src/gen_ref_h264_avc.c:306-313 | the first unit of a length-prefixed run reads back as itself, and the rest of the run follows it |
| GenRefH264.ParameterSetsOfUnits | src/gen_ref_h264_avc.c:305-314 | parameter sets written with 16-bit lengths read back to their Annex B stream, stopping where they end whatever follows |
| GenRefH264.ParameterSetHead | src/gen_ref_h264_avc.c:305-314 | the first unit of a run with 16-bit lengths is the first set its scan writes |
| GenRefH264.PacketOfUnits | src/gen_ref_h264_avc.c:351-362 | length-prefixed NAL units followed by fewer bytes than a length read back to their Annex B stream, the short tail left unread without an error |
| GenRefH264.PacketHead | src/gen_ref_h264_avc.c:351-362 | the first unit of a length-prefixed run is the first unit of its packet scan |
| GenRefH264.SpsOfRecord | src/gen_ref_h264_avc.c:292-314 | an AVCDecoderConfigurationRecord is avcC, has its built-in length size, and its SPS loop reads back its SPS units, stopping at the PPS count |
| GenRefH264.HeadOf | src/gen_ref_h264_avc.c:292-304 | the six header bytes of a record are those read at offsets 0, 4 and 5, and the body starts at offset 6 |
| GenRefH264.HeaderFields | src/gen_ref_h264_avc.c:300-303 | the reserved bits set in bytes 4 and 5 of a record do not disturb the length size or the SPS count below them |
| GenRefH264.PpsOfRecord | src/gen_ref_h264_avc.c:317-327 | the PPS loop reads the count byte and then the PPS units, leaving the extension bytes unread |
| GenRefH264.ExtradataOfRecord | src/gen_ref_h264_avc.c:280-337 | `decode_extradata` reads a record back: its header bytes are readable, its length size is the one written, and it writes every SPS then every PPS, leaving the extension bytes unread |
| GenRefH264.Pipe.constructor | src/gen_ref_h264_avc.c:205 | a pipe that holds nothing yet |
| GenRefH264.Pipe.Write | src/gen_ref_h264_avc.c:223-227 | a write completes on a working pipe or for no bytes, and then the pipe holds the bytes; otherwise it takes nothing |
| GenRefH264.Decoder.constructor | src/gen_ref_h264_avc.c:200-220 | the zeroed decoder on its pipe: no extradata seen, not avcC, no length size |
| GenRefH264.Decoder.BsWrite | src/gen_ref_h264_avc.c:223-227 | succeeds exactly when the whole buffer went down the pipe, and then appends it |
| GenRefH264.Decoder.BsWriteUint8 | src/gen_ref_h264_avc.c:230-234 | one byte, written exactly on a working pipe |
| GenRefH264.Decoder.BsWriteStartCodePrefix | src/gen_ref_h264_avc.c:237-243 | the four-byte start code, written exactly on a working pipe |
| GenRefH264.Decoder.BsWriteNalUnit | src/gen_ref_h264_avc.c:246-252 | the NAL unit, start code first in avcC mode, written exactly on a working pipe or when it is empty |
| GenRefH264.Decoder.BsWriteFillerData | src/gen_ref_h264_avc.c:255-268 | the whole filler_data() unit, written exactly on a working pipe |
| GenRefH264.Decoder.WriteFillerHead | src/gen_ref_h264_avc.c:258-262 | the start code and the 0x0c header, written exactly on a working pipe |
| GenRefH264.Decoder.BsWriteEos | src/gen_ref_h264_avc.c:271-277 | the end_of_stream() unit, written exactly on a working pipe |
| GenRefH264.Decoder.WriteParameterSet | src/gen_ref_h264_avc.c:306-313 | one iteration of a parameter-set loop: it writes the next set and moves past its length and payload, or fails with the pipe holding what the scan sends |
| GenRefH264.Decoder.WriteUnit | src/gen_ref_h264_avc.c:311-312 | a unit is written whole, or the pipe is broken and the scan it starts is not accepted |
| GenRefH264.Decoder.WriteParameterSets | src/gen_ref_h264_avc.c:305-314 | a parameter-set loop succeeds exactly when the pipe accepts the scan, writes what the scan sends, and leaves the pointer where the scan stops |
| GenRefH264.Decoder.DecodeExtradata | src/gen_ref_h264_avc.c:280-337 | extradata at an address already seen is skipped; otherwise the address, the avcC flag and its length size are recorded, and the call succeeds exactly when the pipe accepts the extradata's Annex B form, which it receives |
| GenRefH264.Decoder.WriteHeaders | src/gen_ref_h264_avc.c:302-328 | the SPS then the PPS loop of a record succeed exactly when the pipe accepts the extradata scan |
| GenRefH264.Decoder.ReadNalSize | src/gen_ref_h264_avc.c:354-355 | the length is the big-endian value of the first `nal_length_size` bytes |
| GenRefH264.Decoder.ForwardSample | src/gen_ref_h264_avc.c:352-361 | one NAL unit of an avcC sample is written and passed over, or the call fails with the pipe holding what the scan sends |
| GenRefH264.Decoder.ForwardSamples | src/gen_ref_h264_avc.c:350-363 | the avcC loop succeeds exactly when the pipe accepts the packet scan, and writes what it sends |
| GenRefH264.Decoder.ForwardPacket | src/gen_ref_h264_avc.c:350-366 | avcC samples become Annex B NAL units, anything else goes down the pipe whole; success exactly when the pipe accepts |
| GenRefH264.Decoder.DecodePacket | src/gen_ref_h264_avc.c:340-375 | the extradata first, whose failure ends the call, then the packet; the pipe receives both in that order and the call succeeds exactly when it accepts them |
| GenRefH264.Picture.constructor | src/gen_ref_h264_avc.c:515-523 | a picture entry with the fields given |
| GenRefH264.PictureQueue.constructor | src/gen_ref_h264_avc.c:210-211 | an empty queue of decoded pictures |
| GenRefH264.PictureQueue.Push | src/gen_ref_h264_avc.c:506-512 | the picture goes in at the tail and is returned |
| GenRefH264.PictureQueue.PushCopy | src/gen_ref_h264_avc.c:515-534 | a new entry with every field of the picture goes in at the tail, taking over its planes; the picture is left invalid, with no planes and a zero buffer size |
| GenRefH264.PictureQueue.Pop | src/gen_ref_h264_avc.c:537-548 | the head, removed, or null and no change for an empty queue |
| GenRefH264.JmPixelFormatLayout | src/gen_ref_h264_avc.c:790-835 | a picture gets an FFmpeg format exactly when it is stored planar, its chroma code is known and its depth is 8 or 16, or 10 or 12 with chroma; the format has the picture's chroma and depth and three planes, one for grayscale |

## Left out

Allocation, the host and foreign code:
- Allocation never fails. This covers `mvt_image_new` and `mvt_image_priv_ensure` (`Images.New`, `Images.Image.PrivEnsure`), the copy cache of the conversion, the contexts and MD5 state of `mvt_hash_new` (`Hashes.New`), the `calloc` in `ImageFiles.Open`, the report and decoder structures, and the `malloc` of `dp_queue_push_copy`.
- GenRefH264.PictureQueue.PushCopy: always returns a copy. In the source a failed `malloc` returns NULL and leaves `pic` valid (src/gen_ref_h264_avc.c:520-522).
- ImageConvert.Convert: the USWC fast path never fails. In the source a failing `mvt_image_priv_ensure` or `ensure_copy_cache` falls back to the libyuv route.
- MD5 is foreign (libavutil). It is modelled as an opaque digest function of the bytes fed to the context.
- libyuv's `NV12ToI420`, `I420Copy`, `I420ToNV12` and `MergeUVPlane` are foreign. They are given their scalar plane-copy meaning. Their refusal of a zero width or height is modelled: they return -1 and write nothing (`ImageConvert.NV12ToI420`, `ImageConvert.I420Copy`, `ImageConvert.I420ToNV12`, `ImageConvert.Pass`). A negative size, and libyuv's flipping of an image with a negative height, cannot arise from the `uint32_t` sizes of an image, so they are not modelled.
- The SSE2/SSE4.1 instructions of the fast path are modelled by the bytes they move. A vector step only changes how many bytes one step copies. The alignment prefix of the USWC copy moves the same bytes.
- The host is little-endian, so a 16-bit sample is its low byte followed by its high byte.
- A NULL data pointer plus an offset stays `Null`. In C it would be a wild pointer that is never dereferenced.
- FfmpegUtils and GenRefH264.JmPixelFormatLayout: the 12-bit case of `jm_get_pixel_format` assumes libavutil newer than 51.34.0, the only build that has those formats.
- The `log10` step of `calc_psnr` is floating point. A score is the three integers it is computed from (squared error, sample count, maximum intensity), or +infinity.
- `getenv`, `fopen`, `open`, `mkfifo`, threads, condition variables, the JM decoder itself, FFmpeg's demuxer, and the VA-API and VDPAU back ends are not modelled. An `fopen` or `write` outcome is a parameter (`fopenOk`, `Pipe.broken`).

Fatal errors and undefined behaviour, turned into preconditions:
- ImageConvert.Convert: requires images of one size and one chroma type, and different pixel blocks (`db != sb`). The source reports a size or chroma mismatch with a fatal error, and has no defined behaviour for overlapping planes.
- ImageConvert.SplitRow: requires the U and V rows to be disjoint.
- ImageConvert.CopyFromNV12, ImageConvert.CopyFromI420 and ImageConvert.PlanesReady: require a non-zero width on the USWC path. For a zero width `round_up(width, 16)` is 0, and `cache_size / w16` divides by zero (src/mvt_image_convert.c:263, 296).
- ImageConvert.CacheReady: requires a copy cache at least one `round_up(width, 16)` row wide (it is required by CopyFromNV12, CopyFromI420, ImageConvertInternal, ConvertKnown and ConvertFull). A narrower cache gives `hstep == 0`, and `assert(hstep > 0)` aborts (src/mvt_image_convert.c:266, 299). Under NDEBUG the row loop would then never advance.
- Images.VaShaped: requires at most three planes in a VA image, whose `pitches` and `offsets` arrays have three entries. With more, the plane loop of `mvt_image_init_from_va_image` reads past them (src/mvt_image.c:278-281).
- ImageCompare.Comparable: requires every sample the comparison reads to lie inside its plane's block (`PairReadable`, `Sweepable`). The source reads the planes unchecked, so a sample outside them is undefined behaviour.
- Strings.SubjectOf, Strings.Strtoul and Strings.ParseUint: require a base of 0 or 2 to 36. For any other base `strtoul` converts nothing and sets EINVAL. No caller passes one: they pass 10 or 0.
- Hashes.New, Hashes.Update and Hashes.Finalize: update and finalize require a ready context (`Hash.Ready`). For MD5 that means after `mvt_hash_init` and before the next finalize: `md5_init` only allocates the libavutil context (src/mvt_hash_md5.c:38-46), `av_md5_init` runs only from `mvt_hash_init` (src/mvt_hash.c:118-122), and `av_md5_final` pads the context. Updating or finalizing an MD5 context that was never initialised reads uninitialised memory. The only core caller, `mvt_image_hash`, calls init first (src/mvt_image_hash.c:73).
- Images.New: requires a non-zero size and a registered format. On the excluded inputs `mvt_image_init` returns before its `memset` (src/mvt_image.c:122-127). `mvt_image_new` then clears and frees a structure that `malloc` left uninitialised (src/mvt_image.c:69-74, 88-90), which is undefined behaviour.
- ImageCompare.Compare: requires registered formats when the sizes match. `mvt_image_compare` dereferences a NULL `video_format_get_info` result there (src/mvt_image_compare.c:46-49).
- ImageCompare.Compare: the unsupported-metric `assert(0)` is modelled on its NDEBUG path, which returns false.
- ImageCompare.CalcSe: uses the true square. The source's `int32_t` product overflows, which is undefined behaviour, for 16-bit samples more than 46340 apart (see Findings).
- GenRefH264.Decoder.DecodeExtradata: requires `HeaderReadable`. The source reads bytes 0, 4 and 5 and the PPS count without checking the extradata size.
- Reports.WriteImageHash: a hash value longer than 64 bytes is a fatal error. It cannot happen with the two hash classes, whose digests fit.
- ImageFiles.WriteImage: requires the image's planes to hold the frame format's components. The source dereferences them unchecked.

I/O:
- ImageFiles: `fprintf` and `putc` errors are not modelled. Of `fwrite`, only a zero-byte item that writes nothing fails.
- GenRefH264.Pipe.Write: all or nothing. A short `write(2)` would leave part of the buffer in the pipe and return false.
- Reports and Decoders: `fprintf` errors are not modelled, and neither is a `vsnprintf` or `malloc` failure in `mvt_report_write_comment`.
- Reports.WriteComment: the in-place rewrite of each `'\n'` to `'\0'` in the formatted buffer is not modelled. The segments it produces are.
- Reports.WriteImageHash: the boolean result is returned as in the source. Its caller ignores it.
- Decoders.HashAndReport: src/mvt_decoder.c:326 passes a fourth argument, `0`, to `mvt_report_write_image_hash`. The header src/mvt_report.h:48 declares three parameters, and so does the definition (src/mvt_report.c:125). A C compiler rejects that call, so the model follows the three-parameter definition and drops the extra argument.
- Messages are modelled in the report only. The two `mvt_warning` calls of `mvt_report_write_image_hash` (src/mvt_report.c:139, 146) are a sequence of `Warning` values, not text on stdout. Every other message is dropped, and only the failure it goes with is modelled. That includes the `mvt_warning` at src/gen_ref_h264_avc.c:332, the `mvt_error` calls at src/gen_ref_h264_avc.c:335, 370 and 373, src/mvt_image_convert.c:417, src/mvt_image_file.c:254 and 311, and src/mvt_image_hash.c:84, and the `mvt_error` calls of src/mvt_decoder.c.
- `mvt_return_if_fail` on a NULL argument is a no-op. Its message is not modelled.

Operations not modelled:
- `mvt_image_file_close`, `mvt_decoder_free` and `mvt_decoder_options_clear` only release memory. There is nothing to state once allocation is not modelled.
- `mvt_report_free`: it releases memory and also flushes the report file and closes it unless it is stdout (src/mvt_report.c:62-66). Stream flushing and closing are outside the model, like `fopen`. `Strings.FreeV` and `Strings.FreeVP` model the pointer updates of `str_freev`/`str_freevp`.
- `str_dup_printf` and `str_dup_vprintf` take C varargs and are not modelled. The printf conversions the writers use are modelled in `Printf`.
- `getopt`-based option parsing, `print_help`, `dump_config`, `main` and the decoder class `init`/`run` hooks are not modelled. Neither is the JM glue: `jm_init`, `jm_finalize`, the picture-buffer callbacks, `jm_flush_pictures`, `jm_handle_picture`, `jm_decode_packet`, the thread helpers and `parser_thread_func`.
- `get_tmpdir` and the pipe name are not modelled.
- GenRefH264.PictureQueue: the queue is a sequence of pictures. The `pNext` links and the tail pointer are not modelled.

Simplifications:
- C strings are `Option<string>`, with `None` for NULL. Only the characters before the terminating NUL are kept.
- `strtoul` and `sscanf("%u")` follow ISO C and glibc on an LP64 host, where `ULONG_MAX` is 2^64 - 1.
- Decoders: `num_frames` is taken as a `uint32_t` counter.
- Decoders: an unknown hardware-acceleration name maps to none, as the table's sentinel does.
- Decoders.Decoder.HandleImage: stores the running maxima after the frame's work instead of before it. Nothing in between reads them.
- Decoders.Decoder.Init: stores its fields after the files are opened instead of before.
- ImageConvert: the field views of a field-by-field conversion are fresh images. Their private data and copy cache, which the source never frees, are only implied.
- ImageConvert.SplitPlanes: requires `2 * w < 2^32`, which the source's unsigned index arithmetic assumes.
- ImageConvert: libyuv takes `int` arguments, so the libyuv route requires sizes and pitches below 2^31.

## Findings

| source | as written | input that shows it | evidently intended | confidence | as-written member | corrected member |
|---|---|---|---|---|---|---|
| src/mvt_image_compare.c:70-75 | `calc_se` computes `diff * diff` in `int32_t`, which overflows, undefined behaviour, once the samples differ by more than 46340 | one 16-bit sample of 65535 against 0: 65535² = 4294836225 is above 2^31 - 1 | the exact square. It always fits the `uint32_t` result for samples of up to 16 bits | not executed | ImageCompare.CalcSeOverflows | ImageCompare.CalcSe |
| src/mvt_report.c:127-150 | `sprintf(size_string, "%ux%u", ...)` into `char size_string[20]` | a Y800 image of 4294967280 x 4294967280, which `mvt_image_init` accepts: the text is 21 characters plus the NUL, which overflows the buffer. Any 10-digit by 9-digit size, such as 1000000000 x 100000000, overflows it too, by its NUL | a buffer of at least 22 bytes, which every pair of `uint32_t` values fits | not executed | Reports.SizeStringOverflows | Reports.SizeStringFits |
