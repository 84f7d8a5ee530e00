// Frame hashing: the visible samples of the luma and chroma components are
// fed to a hash context row by row, then the digest is finalised.

module ImageHash {
  import opened Common
  import opened VideoFormats
  import opened Images
  import opened ImageAccess
  import Hashes

  // ---------------------------------------------------------------------
  // The bytes one component contributes

  /** Byte `x` of row `y` in a plane whose first sample is at `start`. */
  function Idx(start: int, pitch: nat, stride: nat, x: nat, y: nat): int
  {
    start + y * pitch + x * stride
  }

  /** Every visible sample of a `w` x `h` component lies inside a buffer of `n` bytes. */
  predicate Inside(n: nat, start: int, pitch: nat, stride: nat, w: nat, h: nat)
  {
    w == 0 || h == 0 || (0 <= start && Idx(start, pitch, stride, w - 1, h - 1) < n)
  }

  /** The first `w` samples of the row starting at `r`, one byte per sample. */
  function Row(mem: seq<Byte>, r: int, stride: nat, w: nat): (row: seq<Byte>)
    requires w == 0 || (0 <= r && r + (w - 1) * stride < |mem|)
    ensures |row| == w
    decreases w
  {
    if w == 0 then []
    else
      var x := w - 1;
      MulAtLeast(x, x - 1, stride);
      Row(mem, r, stride, x) + [mem[r + x * stride]]
  }

  /** The first `h` rows, top to bottom, the rows `pitch` bytes apart. */
  function Samples(mem: seq<Byte>, start: int, pitch: nat, stride: nat, w: nat, h: nat): (r: seq<Byte>)
    requires Inside(|mem|, start, pitch, stride, w, h)
    ensures |r| == w * h
    decreases h
  {
    if h == 0 then []
    else
      var y := h - 1;
      RowsInside(|mem|, start, pitch, stride, w, y);
      Samples(mem, start, pitch, stride, w, y) + Row(mem, start + y * pitch, stride, w)
  }

  lemma {:induction false} MulAtLeast(a: int, b: int, c: nat)
    requires b <= a
    ensures b * c <= a * c
  {
  }

  /** A component of `y + 1` rows inside a buffer has its first `y` rows and its row `y` inside too. */
  lemma {:induction false} RowsInside(n: nat, start: int, pitch: nat, stride: nat, w: nat, y: nat)
    requires Inside(n, start, pitch, stride, w, y + 1)
    ensures Inside(n, start, pitch, stride, w, y)
    ensures w == 0 || (0 <= start + y * pitch && start + y * pitch + (w - 1) * stride < n)
  {
    if w > 0 && y > 0 {
      MulAtLeast(y, y - 1, pitch);
    }
    if w > 0 {
      assert Idx(start, pitch, stride, w - 1, y) == start + y * pitch + (w - 1) * stride;
    }
  }

  /** Fewer rows of a component inside a buffer are inside it too. */
  lemma {:induction false} InsidePrefix(n: nat, start: int, pitch: nat, stride: nat, w: nat, k: nat, h: nat)
    requires Inside(n, start, pitch, stride, w, h) && k <= h
    ensures Inside(n, start, pitch, stride, w, k)
  {
    if w > 0 && k > 0 {
      MulAtLeast(h - 1, k - 1, pitch);
    }
  }

  lemma Assoc(a: seq<Byte>, b: seq<Byte>, c: seq<Byte>)
    ensures a + b + c == a + (b + c)
  {
  }

  /** Row `y` of a component inside a buffer is what its first `y + 1` rows add to its first `y`. */
  lemma {:induction false} SamplesStep(mem: seq<Byte>, start: int, pitch: nat, stride: nat, w: nat, y: nat, h: nat)
    requires Inside(|mem|, start, pitch, stride, w, h) && y < h
    ensures Inside(|mem|, start, pitch, stride, w, y + 1) && Inside(|mem|, start, pitch, stride, w, y)
    ensures w == 0 || (0 <= start + y * pitch && start + y * pitch + (w - 1) * stride < |mem|)
    ensures Samples(mem, start, pitch, stride, w, y + 1) ==
      Samples(mem, start, pitch, stride, w, y) + Row(mem, start + y * pitch, stride, w)
  {
    InsidePrefix(|mem|, start, pitch, stride, w, y + 1, h);
    RowsInside(|mem|, start, pitch, stride, w, y);
  }

  /** A row of single-byte samples is the slice `p[0..w]` that `mvt_hash_update(hash, p, w)` reads. */
  lemma {:induction false} UnitRowIsSlice(mem: seq<Byte>, r: int, w: nat)
    requires w == 0 || (0 <= r && r + (w - 1) < |mem|)
    ensures w > 0 ==> Row(mem, r, 1, w) == mem[r..r + w]
    decreases w
  {
    if w > 1 {
      UnitRowIsSlice(mem, r, w - 1);
      assert mem[r..r + w] == mem[r..r + w - 1] + [mem[r + w - 1]];
    }
  }

  /** Row `y` of a component holds sample `x` at position `y * w + x` of its bytes. */
  lemma {:induction false} SampleOrder(mem: seq<Byte>, start: int, pitch: nat, stride: nat, w: nat, h: nat, x: nat, y: nat)
    requires Inside(|mem|, start, pitch, stride, w, h) && x < w && y < h
    ensures 0 <= Idx(start, pitch, stride, x, y) < |mem|
    ensures y * w + x < w * h
    ensures Samples(mem, start, pitch, stride, w, h)[y * w + x] == mem[Idx(start, pitch, stride, x, y)]
    decreases h
  {
    RowsInside(|mem|, start, pitch, stride, w, h - 1);
    FlatIndex(x, y, w, h);
    var r := start + (h - 1) * pitch;
    var prefix := Samples(mem, start, pitch, stride, w, h - 1);
    var row := Row(mem, r, stride, w);
    assert Samples(mem, start, pitch, stride, w, h) == prefix + row;
    if y < h - 1 {
      SampleOrder(mem, start, pitch, stride, w, h - 1, x, y);
      FlatIndex(x, y, w, h - 1);
    } else {
      FlatRow(w, y);
      RowAt(mem, r, stride, w, x);
      assert Idx(start, pitch, stride, x, y) == r + x * stride;
    }
  }

  /** Sample `x` of row `y` comes before the end of row `k - 1`. */
  lemma {:induction false} FlatIndex(x: nat, y: nat, w: nat, k: nat)
    requires x < w && y < k
    ensures y * w + x < k * w && y * w + x < w * k
  {
    MulAtLeast(k - 1, y, w);
    MulDistributes(k, w);
  }

  lemma {:induction false} FlatRow(w: nat, y: nat)
    ensures w * y == y * w
  {
  }

  lemma {:induction false} RowAt(mem: seq<Byte>, r: int, stride: nat, w: nat, x: nat)
    requires 0 <= r && r + (w - 1) * stride < |mem| && x < w
    ensures 0 <= r + x * stride < |mem|
    ensures Row(mem, r, stride, w)[x] == mem[r + x * stride]
    decreases w
  {
    MulAtLeast(w - 1, x, stride);
    if x < w - 1 {
      MulAtLeast(w - 1, w - 2, stride);
      RowAt(mem, r, stride, w - 1, x);
    }
  }

  /**
   * Only visible samples reach the hash: two buffers that agree on every
   * visible sample give the same bytes, whatever the row padding or the
   * bytes between samples hold.
   */
  lemma {:induction false} VisibleOnly(m1: seq<Byte>, m2: seq<Byte>, start: int, pitch: nat, stride: nat, w: nat, h: nat)
    requires Inside(|m1|, start, pitch, stride, w, h) && Inside(|m2|, start, pitch, stride, w, h)
    requires forall x: nat, y: nat :: x < w && y < h ==>
      0 <= Idx(start, pitch, stride, x, y) < |m1| && 0 <= Idx(start, pitch, stride, x, y) < |m2| &&
      m1[Idx(start, pitch, stride, x, y)] == m2[Idx(start, pitch, stride, x, y)]
    ensures Samples(m1, start, pitch, stride, w, h) == Samples(m2, start, pitch, stride, w, h)
  {
    var s1, s2 := Samples(m1, start, pitch, stride, w, h), Samples(m2, start, pitch, stride, w, h);
    forall k | 0 <= k < |s1| ensures s1[k] == s2[k] {
      var x, y := SplitIndex(k, w, h);
      SampleAgrees(m1, m2, start, pitch, stride, w, h, x, y);
    }
  }

  /** A flat index below `w * h` is row `y`, column `x` of a `w`-wide grid. */
  lemma {:induction false} SplitIndex(k: nat, w: nat, h: nat) returns (x: nat, y: nat)
    requires k < w * h
    ensures x < w && y < h && y * w + x == k
  {
    y, x := k / w, k % w;
    if y >= h {
      MulAtLeast(y, h, w);
    }
  }

  /** One visible sample on which two buffers agree is the same in both sample sequences. */
  lemma {:induction false} SampleAgrees(m1: seq<Byte>, m2: seq<Byte>, start: int, pitch: nat, stride: nat, w: nat, h: nat, x: nat, y: nat)
    requires Inside(|m1|, start, pitch, stride, w, h) && Inside(|m2|, start, pitch, stride, w, h) && x < w && y < h
    requires 0 <= Idx(start, pitch, stride, x, y) < |m1| && 0 <= Idx(start, pitch, stride, x, y) < |m2|
    requires m1[Idx(start, pitch, stride, x, y)] == m2[Idx(start, pitch, stride, x, y)]
    ensures y * w + x < w * h
    ensures Samples(m1, start, pitch, stride, w, h)[y * w + x] == Samples(m2, start, pitch, stride, w, h)[y * w + x]
  {
    SampleOrder(m1, start, pitch, stride, w, h, x, y);
    SampleOrder(m2, start, pitch, stride, w, h, x, y);
  }

  /**
   * For two-byte samples (pixel stride 2, an even pitch) the byte after each
   * sample, its high byte on a little-endian host, never reaches the hash.
   */
  lemma {:induction false} HighByteIgnored(mem: seq<Byte>, start: int, pitch: nat, w: nat, h: nat, i: int, v: Byte)
    requires Inside(|mem|, start, pitch, 2, w, h) && pitch % 2 == 0
    requires 0 <= i < |mem| && (i - start) % 2 == 1
    ensures Samples(mem[i := v], start, pitch, 2, w, h) == Samples(mem, start, pitch, 2, w, h)
  {
    var m2 := mem[i := v];
    forall x: nat, y: nat | x < w && y < h
      ensures 0 <= Idx(start, pitch, 2, x, y) < |m2| && 0 <= Idx(start, pitch, 2, x, y) < |mem|
      ensures m2[Idx(start, pitch, 2, x, y)] == mem[Idx(start, pitch, 2, x, y)]
    {
      SampleOrder(mem, start, pitch, 2, w, h, x, y);
      EvenOffset(pitch / 2, x, y);
      assert Idx(start, pitch, 2, x, y) - start == 2 * (y * (pitch / 2) + x);
    }
    VisibleOnly(m2, mem, start, pitch, 2, w, h);
  }

  lemma {:induction false} EvenOffset(q: nat, x: nat, y: nat)
    ensures y * (2 * q) + x * 2 == 2 * (y * q + x)
  {
  }

  // ---------------------------------------------------------------------
  // Components of an image

  /**
   * The dimensions of component `c` on `uint32_t`: the image size for the
   * first component, `(w + (1 << shift) - 1) >> shift` for the others.
   */
  function ComponentWidth(info: FormatInfo, c: nat, width: U32): U32
  {
    if c == 0 then width else Shr32(Wrap32(width + Pow2(info.chromaWShift) - 1), info.chromaWShift)
  }

  function ComponentHeight(info: FormatInfo, c: nat, height: U32): U32
  {
    if c == 0 then height else Shr32(Wrap32(height + Pow2(info.chromaHShift) - 1), info.chromaHShift)
  }

  /** Without wrap-around a chroma component covers the image size divided by 2^shift, rounded up. */
  lemma {:induction false} ChromaCeiling(info: FormatInfo, c: nat, width: U32, height: U32)
    requires c > 0 && width + Pow2(info.chromaWShift) <= U32_MOD && height + Pow2(info.chromaHShift) <= U32_MOD
    ensures ComponentWidth(info, c, width) == CeilShr(width, info.chromaWShift)
    ensures ComponentHeight(info, c, height) == CeilShr(height, info.chromaHShift)
    ensures ComponentWidth(info, c, width) * Pow2(info.chromaWShift) >= width
    ensures (ComponentWidth(info, c, width) - 1) * Pow2(info.chromaWShift) < width || width == 0
  {
    var p := Pow2(info.chromaWShift);
    var q := (width + p - 1) / p;
    assert q * p + (width + p - 1) % p == width + p - 1;
    if width > 0 {
      assert q >= 1 by {
        DivAtLeastOne(width + p - 1, p);
      }
      MulDistributes(q, p);
    }
  }

  lemma {:induction false} DivAtLeastOne(x: nat, p: nat)
    requires p >= 1 && x >= p
    ensures x / p >= 1
  {
  }

  lemma {:induction false} MulDistributes(q: int, p: int)
    ensures (q - 1) * p == q * p - p
  {
  }

  /** Position of sample (0, 0) of component `c`: `get_component_ptr(image, cip, 0, 0)`. */
  function ComponentStart(s: ImageState, info: FormatInfo, c: nat): Ptr
    requires WellShaped(s) && Shaped(info) && c < 4
  {
    ComponentPtr(s, info.components[c], 0, 0)
  }

  /** Every byte the hashing of component `c` reads is inside an allocated block. */
  predicate Readable(s: ImageState, info: FormatInfo, c: nat)
  {
    WellShaped(s) && Shaped(info) && c < 4 &&
    var cip := info.components[c];
    var p := ComponentStart(s, info, c);
    var w, h := ComponentWidth(info, c, s.width), ComponentHeight(info, c, s.height);
    p.At? && Inside(p.block.Length, p.pos, s.pitches[cip.plane], cip.pixelStride, w, h) &&
    (w == 0 || (w - 1) * cip.pixelStride < U32_MOD)
  }

  /** The block component `c` lies in. */
  function Plane(s: ImageState, info: FormatInfo, c: nat): array<Byte>
    requires Readable(s, info, c)
  {
    ComponentStart(s, info, c).block
  }

  /**
   * The bytes `mvt_image_hash_component` feeds for component `c`, when the
   * block it lies in holds `mem`.
   */
  function ComponentInput(s: ImageState, info: FormatInfo, c: nat, mem: seq<Byte>): seq<Byte>
    requires Readable(s, info, c) && |mem| == Plane(s, info, c).Length
  {
    var cip := info.components[c];
    var p := ComponentStart(s, info, c);
    Samples(mem, p.pos, s.pitches[cip.plane], cip.pixelStride,
      ComponentWidth(info, c, s.width), ComponentHeight(info, c, s.height))
  }

  /** The components `mvt_image_hash` visits: Y, then U and V unless Y is the only one. */
  function HashedComponents(info: FormatInfo): (cs: seq<nat>)
    ensures forall i :: 0 <= i < |cs| ==> cs[i] < 3
  {
    if info.numComponents > 1 then [0, 1, 2] else [0]
  }

  /** Every component `mvt_image_hash` visits is readable. */
  predicate FrameReadable(s: ImageState, info: FormatInfo)
  {
    Readable(s, info, 0) && (info.numComponents > 1 ==> Readable(s, info, 1) && Readable(s, info, 2))
  }

  /** The blocks the hashed components lie in. */
  function FrameBlocks(s: ImageState, info: FormatInfo): set<array<Byte>>
    requires FrameReadable(s, info)
  {
    {ComponentStart(s, info, 0).block} +
    (if info.numComponents > 1
     then {ComponentStart(s, info, 1).block, ComponentStart(s, info, 2).block} else {})
  }

  /** Everything `mvt_image_hash` feeds between init and finalize. */
  function FrameInput(s: ImageState, info: FormatInfo): seq<Byte>
    requires FrameReadable(s, info)
    reads FrameBlocks(s, info)
  {
    ComponentInput(s, info, 0, Plane(s, info, 0)[..]) +
    (if info.numComponents > 1
     then ComponentInput(s, info, 1, Plane(s, info, 1)[..]) + ComponentInput(s, info, 2, Plane(s, info, 2)[..])
     else [])
  }

  /**
   * The input is the visited components in order; alpha (component 3) is
   * never among them, and a single-component (grayscale) format feeds its
   * luma alone.
   */
  lemma {:induction false} FrameInputOrder(s: ImageState, info: FormatInfo)
    requires FrameReadable(s, info)
    ensures 3 !in HashedComponents(info)
    ensures info.numComponents <= 1 ==> FrameInput(s, info) == ComponentInput(s, info, 0, Plane(s, info, 0)[..])
    ensures info.numComponents > 1 ==>
      FrameInput(s, info) == ComponentInput(s, info, 0, Plane(s, info, 0)[..]) +
        ComponentInput(s, info, 1, Plane(s, info, 1)[..]) + ComponentInput(s, info, 2, Plane(s, info, 2)[..])
    ensures |FrameInput(s, info)| ==
      ComponentWidth(info, 0, s.width) * ComponentHeight(info, 0, s.height) +
      (if info.numComponents > 1
       then 2 * (ComponentWidth(info, 1, s.width) * ComponentHeight(info, 1, s.height)) else 0)
  {
  }

  // ---------------------------------------------------------------------
  // The hashing methods

  /** `mvt_image_hash_component`: feeds the visible samples of component `c`, row by row. */
  method HashComponent(image: Image, hash: Hashes.Hash, info: FormatInfo, c: nat,
      ghost s: ImageState, ghost mem: seq<Byte>)
    requires hash.Ready() && s == image.State() && Readable(s, info, c) && mem == Plane(s, info, c)[..]
    modifies hash
    ensures hash.Ready() && hash.value == old(hash.value)
    ensures hash.fed == old(hash.fed) + ComponentInput(s, info, c, mem)
  {
    var cip := info.components[c];
    var w, h := ComponentWidth(info, c, image.width), ComponentHeight(info, c, image.height);
    var pitch := image.pitches[cip.plane];
    var p := ComponentStart(image.State(), info, c);
    if cip.pixelStride == 1 {
      FeedRows(hash, p.block, p.pos, pitch, w, h, mem);
    } else {
      FeedSamples(hash, p.block, p.pos, pitch, cip.pixelStride, w, h, mem);
    }
  }

  /** The unit-stride path: one update of `w` bytes per row, the rows `pitch` apart. */
  method FeedRows(hash: Hashes.Hash, blk: array<Byte>, pos: int, pitch: U32, w: U32, h: U32, ghost mem: seq<Byte>)
    requires hash.Ready() && mem == blk[..] && Inside(|mem|, pos, pitch, 1, w, h)
    modifies hash
    ensures hash.Ready() && hash.value == old(hash.value)
    ensures hash.fed == old(hash.fed) + Samples(mem, pos, pitch, 1, w, h)
  {
    var y: U32 := 0;
    while y < h
      invariant y <= h && hash.Ready() && hash.value == old(hash.value)
      invariant Inside(|mem|, pos, pitch, 1, w, y)
      invariant hash.fed == old(hash.fed) + Samples(mem, pos, pitch, 1, w, y)
    {
      FeedNextRow(hash, blk, pos, pitch, w, y, h, mem, old(hash.fed));
      y := y + 1;
    }
  }

  /** Row `y` of the unit-stride path: the input fed so far grows by that row. */
  method FeedNextRow(hash: Hashes.Hash, blk: array<Byte>, pos: int, pitch: U32, w: U32, y: U32, h: U32,
      ghost mem: seq<Byte>, ghost fed0: seq<Byte>)
    requires hash.Ready() && mem == blk[..] && Inside(|mem|, pos, pitch, 1, w, h) && y < h
    requires hash.fed == fed0 + Samples(mem, pos, pitch, 1, w, y)
    modifies hash
    ensures hash.Ready() && hash.value == old(hash.value)
    ensures Inside(|mem|, pos, pitch, 1, w, y + 1)
    ensures hash.fed == fed0 + Samples(mem, pos, pitch, 1, w, y + 1)
  {
    SamplesStep(mem, pos, pitch, 1, w, y, h);
    FeedSlice(hash, blk, pos + y * pitch, w, mem);
    Assoc(fed0, Samples(mem, pos, pitch, 1, w, y), Row(mem, pos + y * pitch, 1, w));
  }

  /** One row of the unit-stride path: a single update of the `w` bytes from `r`. */
  method FeedSlice(hash: Hashes.Hash, blk: array<Byte>, r: int, w: U32, ghost mem: seq<Byte>)
    requires hash.Ready() && mem == blk[..] && (w == 0 || (0 <= r && r + (w - 1) < |mem|))
    modifies hash
    ensures hash.Ready() && hash.value == old(hash.value)
    ensures hash.fed == old(hash.fed) + Row(mem, r, 1, w)
  {
    if w > 0 {
      UnitRowIsSlice(mem, r, w);
      Hashes.Update(hash, Some(blk[r..r + w]), w);
    } else {
      Hashes.Update(hash, Some([]), w);
    }
  }

  /** The other path: one single-byte update per sample, at `x * pixel_stride` in its row. */
  method FeedSamples(hash: Hashes.Hash, blk: array<Byte>, pos: int, pitch: U32, stride: nat, w: U32, h: U32,
      ghost mem: seq<Byte>)
    requires hash.Ready() && mem == blk[..] && Inside(|mem|, pos, pitch, stride, w, h)
    requires w == 0 || (w - 1) * stride < U32_MOD
    modifies hash
    ensures hash.Ready() && hash.value == old(hash.value)
    ensures hash.fed == old(hash.fed) + Samples(mem, pos, pitch, stride, w, h)
  {
    var y: U32 := 0;
    while y < h
      invariant y <= h && hash.Ready() && hash.value == old(hash.value)
      invariant Inside(|mem|, pos, pitch, stride, w, y)
      invariant hash.fed == old(hash.fed) + Samples(mem, pos, pitch, stride, w, y)
    {
      SamplesStep(mem, pos, pitch, stride, w, y, h);
      FeedRow(hash, blk, pos + y * pitch, stride, w, mem);
      Assoc(old(hash.fed), Samples(mem, pos, pitch, stride, w, y), Row(mem, pos + y * pitch, stride, w));
      y := y + 1;
    }
  }

  /** The samples of one row, one byte each. */
  method FeedRow(hash: Hashes.Hash, blk: array<Byte>, r: int, stride: nat, w: U32, ghost mem: seq<Byte>)
    requires hash.Ready() && mem == blk[..] && (w == 0 || (0 <= r && r + (w - 1) * stride < |mem|))
    requires w == 0 || (w - 1) * stride < U32_MOD
    modifies hash
    ensures hash.Ready() && hash.value == old(hash.value)
    ensures hash.fed == old(hash.fed) + Row(mem, r, stride, w)
  {
    var x: U32 := 0;
    while x < w
      invariant x <= w && hash.Ready() && hash.value == old(hash.value)
      invariant hash.fed == old(hash.fed) + Row(mem, r, stride, x)
    {
      MulAtLeast(w - 1, x, stride);
      var i := r + Wrap32(x * stride);
      assert i == r + x * stride;
      assert blk[i..i + 1] == [mem[i]];
      Hashes.Update(hash, Some(blk[i..i + 1]), 1);
      x := x + 1;
    }
  }

  /**
   * `mvt_image_hash`: fails, leaving the hash untouched, on a NULL image or
   * hash or a format that is unknown or not YUV; otherwise re-initialises the
   * hash, feeds Y, then U and V when there is more than one component, and
   * finalises.
   */
  method Hash(image: Image?, hash: Hashes.Hash?) returns (ok: bool)
    requires image != null ==> image.Valid()
    requires hash != null ==> hash.Valid()
    requires image != null && hash != null && IsYuv(image.format) ==>
      FrameReadable(image.State(), GetInfo(image.format).value)
    modifies hash
    ensures ok <==> image != null && hash != null && IsYuv(image.format)
    ensures !ok && hash != null ==> unchanged(hash)
    ensures ok ==> (hash.Valid() &&
      hash.fed == old(FrameInput(image.State(), GetInfo(image.format).value)) &&
      hash.value == Hashes.DigestOf(hash.klass, hash.md5, hash.fed) + old(hash.value)[hash.klass.valueLength..])
  {
    if image == null || hash == null {
      return false;
    }
    var vip := GetInfo(image.format);
    if vip.None? || !IsYuv(image.format) {
      return false;
    }
    HashFrame(image, hash, vip.value);
    return true;
  }

  /** The body of `mvt_image_hash` once the arguments are checked, for the descriptor `info`. */
  method HashFrame(image: Image, hash: Hashes.Hash, info: FormatInfo)
    requires hash.Valid() && FrameReadable(image.State(), info)
    modifies hash
    ensures hash.Valid() && hash.fed == old(FrameInput(image.State(), info))
    ensures hash.Ready() <==> hash.klass.algorithm == Hashes.Adler32Algorithm
    ensures hash.value == Hashes.DigestOf(hash.klass, hash.md5, hash.fed) + old(hash.value)[hash.klass.valueLength..]
  {
    ghost var s := image.State();
    ghost var m0 := Plane(s, info, 0)[..];
    ghost var y := ComponentInput(s, info, 0, m0);
    ghost var m1 := if info.numComponents > 1 then Plane(s, info, 1)[..] else [];
    ghost var m2 := if info.numComponents > 1 then Plane(s, info, 2)[..] else [];
    ghost var uv := if info.numComponents > 1
      then ComponentInput(s, info, 1, m1) + ComponentInput(s, info, 2, m2) else [];
    assert FrameInput(s, info) == y + uv;
    Hashes.Init(hash);
    HashComponent(image, hash, info, 0, s, m0);
    assert hash.fed == y;
    if info.numComponents > 1 {
      HashChroma(image, hash, info, s, m1, m2);
    }
    Hashes.Finalize(hash);
  }

  /** The U then V components, each fed by `mvt_image_hash_component`. */
  method HashChroma(image: Image, hash: Hashes.Hash, info: FormatInfo, ghost s: ImageState,
      ghost m1: seq<Byte>, ghost m2: seq<Byte>)
    requires hash.Ready() && s == image.State() && Readable(s, info, 1) && Readable(s, info, 2)
    requires m1 == Plane(s, info, 1)[..] && m2 == Plane(s, info, 2)[..]
    modifies hash
    ensures hash.Ready() && hash.value == old(hash.value)
    ensures hash.fed == old(hash.fed) + (ComponentInput(s, info, 1, m1) + ComponentInput(s, info, 2, m2))
  {
    ghost var f := hash.fed;
    HashComponent(image, hash, info, 1, s, m1);
    HashComponent(image, hash, info, 2, s, m2);
    Assoc(f, ComponentInput(s, info, 1, m1), ComponentInput(s, info, 2, m2));
  }
}
