// Sample addressing and 8/16-bit sample access inside the planes of an
// image. The host is little-endian: a 16-bit sample is its low byte followed
// by its high byte.

module ImageAccess {
  import opened Common
  import opened VideoFormats
  import opened Images

  // ---------------------------------------------------------------------
  // Addressing

  /**
   * get_component_ptr: the byte index of sample (x, y) of a component in its
   * plane, `y * pitch + x * pixel_stride + pixel_offset`, on unsigned int.
   */
  function SampleIndex(pitch: U32, cip: Component, x: int, y: int): U32
  {
    Wrap32(y * pitch + x * cip.pixelStride + cip.pixelOffset)
  }

  function ComponentPtr(s: ImageState, cip: Component, x: int, y: int): Ptr
    requires WellShaped(s) && cip.plane < 4
  {
    Offset(s.pixels[cip.plane], SampleIndex(s.pitches[cip.plane], cip, x, y))
  }

  /** Without wrap-around the index is the sample position of the plane plus the component offset. */
  lemma {:induction false} ComponentPtrExact(s: ImageState, cip: Component, x: int, y: int)
    requires WellShaped(s) && cip.plane < 4
    requires 0 <= y * s.pitches[cip.plane] + x * cip.pixelStride + cip.pixelOffset < U32_MOD
    ensures ComponentPtr(s, cip, x, y) ==
      Offset(SampleAt(s.pixels[cip.plane], s.pitches[cip.plane], cip.pixelStride, x, y), cip.pixelOffset)
  {
  }

  /** Bytes a sample occupies: one on the 8-bit path (bit depth up to 8, zero included), else two. */
  function SampleWidth(bitDepth: nat): nat
  {
    if bitDepth <= 8 then 1 else 2
  }

  // ---------------------------------------------------------------------
  // Sample values on a byte sequence

  /**
   * get_component: the byte itself on the 8-bit path, otherwise the 16-bit
   * word masked with `(1 << bit_depth) - 1`.
   */
  function Load(b: seq<Byte>, i: int, bitDepth: nat): (r: nat)
    requires 0 <= i && i + SampleWidth(bitDepth) <= |b|
    ensures bitDepth <= 8 ==> r < 256
    ensures bitDepth > 8 ==> r < Pow2(bitDepth) && r < 0x1_0000
  {
    if bitDepth <= 8 then b[i]
    else
      var w := Word16(b[i], b[i + 1]);
      ModBelow(w, Pow2(bitDepth));
      w % Pow2(bitDepth)
  }

  /** A little-endian 16-bit word. */
  function Word16(lo: Byte, hi: Byte): nat
  {
    lo as int + 256 * (hi as int)
  }

  /** The value put_component stores: truncated to 8 bits, or to 16 bits and then masked. */
  function Stored(bitDepth: nat, v: U32): nat
  {
    if bitDepth <= 8 then v % 256 else (v % 0x1_0000) % Pow2(bitDepth)
  }

  /** put_component on a byte sequence. */
  function Store(b: seq<Byte>, i: int, bitDepth: nat, v: U32): (r: seq<Byte>)
    requires 0 <= i && i + SampleWidth(bitDepth) <= |b|
    ensures |r| == |b|
  {
    var w := Stored(bitDepth, v);
    if bitDepth <= 8 then b[i := w]
    else
      ModBelow(v % 0x1_0000, Pow2(bitDepth));
      b[i := w % 256][i + 1 := w / 256]
  }

  lemma {:induction false} ModBelow(v: nat, m: nat)
    requires m >= 1
    ensures v % m <= v
  {
  }

  lemma {:induction false} Pow2Monotone(i: nat, j: nat)
    requires i <= j
    ensures Pow2(i) <= Pow2(j)
    decreases j
  {
    if i < j {
      Pow2Monotone(i, j - 1);
    }
  }

  /** A put followed by a get of the same sample reads back the stored value. */
  lemma {:induction false} LoadStore(b: seq<Byte>, i: int, bitDepth: nat, v: U32)
    requires 0 <= i && i + SampleWidth(bitDepth) <= |b|
    ensures Load(Store(b, i, bitDepth, v), i, bitDepth) == Stored(bitDepth, v)
  {
    if bitDepth > 8 {
      var w := Stored(bitDepth, v);
      ModBelow(v % 0x1_0000, Pow2(bitDepth));
      var b2 := Store(b, i, bitDepth, v);
      assert b2 == b[i := w % 256][i + 1 := w / 256];
      Word16Split(w);
      assert Word16(b2[i], b2[i + 1]) == w;
      StoredBelow(bitDepth, v);
    }
  }

  lemma {:induction false} Word16Split(w: nat)
    requires w < 0x1_0000
    ensures w / 256 < 256 && Word16(w % 256, w / 256) == w
  {
  }

  /** A stored 16-bit value is already within the mask. */
  lemma {:induction false} StoredBelow(bitDepth: nat, v: U32)
    requires bitDepth > 8
    ensures Stored(bitDepth, v) < Pow2(bitDepth) && Stored(bitDepth, v) % Pow2(bitDepth) == Stored(bitDepth, v)
  {
    var m := Pow2(bitDepth);
    var w := (v % 0x1_0000) % m;
    assert w < m;
    ModUnique(w, m, 0, w);
  }

  /** For a 16-bit sample of at most 16 bits the stored value is `v & ((1 << bit_depth) - 1)`. */
  lemma {:induction false} StoredMasked(bitDepth: nat, v: U32)
    requires 8 < bitDepth <= 16
    ensures Stored(bitDepth, v) == v % Pow2(bitDepth)
  {
    var m := Pow2(bitDepth);
    var k := Pow2(16 - bitDepth);
    Pow2Add(bitDepth, 16 - bitDepth);
    assert Pow2(16) == 0x1_0000 by {
      Pow2Sixteen16();
    }
    ModMod(v, m, k);
  }

  lemma {:induction false} Pow2Sixteen16()
    ensures Pow2(16) == 0x1_0000
  {
    assert Pow2(8) == 256;
  }

  lemma {:induction false} Pow2Add(i: nat, j: nat)
    ensures Pow2(i + j) == Pow2(i) * Pow2(j)
    decreases i
  {
    if i > 0 {
      Pow2Add(i - 1, j);
    }
  }

  /** Reducing modulo a multiple of `m` first does not change the remainder modulo `m`. */
  lemma {:induction false} ModMod(v: nat, m: nat, k: nat)
    requires m >= 1 && k >= 1
    ensures (v % (m * k)) % m == v % m
  {
    var q := v / (m * k);
    var r := v % (m * k);
    assert v == q * (m * k) + r;
    assert q * (m * k) == (q * k) * m;
    MulAddMod(q * k, m, r);
  }

  lemma {:induction false} MulAddMod(a: nat, m: nat, r: nat)
    requires m >= 1
    ensures (a * m + r) % m == r % m
  {
    var q0, r0 := r / m, r % m;
    assert r == q0 * m + r0;
    assert a * m + r == (a + q0) * m + r0;
    ModUnique(a * m + r, m, a + q0, r0);
  }

  /** The remainder is the unique one in [0, m). */
  lemma {:induction false} ModUnique(x: int, m: int, q: int, r0: int)
    requires m >= 1 && x == q * m + r0 && 0 <= r0 < m
    ensures x % m == r0
  {
    var q2, r2 := x / m, x % m;
    assert x == q2 * m + r2 && 0 <= r2 < m;
    assert (q - q2) * m == r2 - r0;
    SmallMultiple(q - q2, m);
  }

  /** The only multiple of `m` strictly between -m and m is 0. */
  lemma {:induction false} SmallMultiple(d: int, m: int)
    requires m >= 1 && -m < d * m < m
    ensures d == 0
  {
    assert d < 1 by {
      if d >= 1 {
        Images.MulMonotone(1, d, m);
      }
    }
  }

  /** A put changes only the one or two bytes of the addressed sample. */
  lemma {:induction false} StoreFrame(b: seq<Byte>, i: int, bitDepth: nat, v: U32, j: int)
    requires 0 <= i && i + SampleWidth(bitDepth) <= |b|
    requires 0 <= j < |b| && !(i <= j < i + SampleWidth(bitDepth))
    ensures Store(b, i, bitDepth, v)[j] == b[j]
  {
  }

  // ---------------------------------------------------------------------
  // Access through the image planes

  /** The addressed sample lies inside the block its plane points into. */
  predicate Addressable(s: ImageState, cip: Component, x: int, y: int)
    requires WellShaped(s) && cip.plane < 4
  {
    var p := ComponentPtr(s, cip, x, y);
    p.At? && 0 <= p.pos && p.pos + SampleWidth(cip.bitDepth) <= p.block.Length
  }

  /** get_component on the sample (x, y). */
  function GetComponent(s: ImageState, cip: Component, x: int, y: int): (r: nat)
    requires WellShaped(s) && cip.plane < 4 && Addressable(s, cip, x, y)
    reads ComponentPtr(s, cip, x, y).block
    ensures r == Load(ComponentPtr(s, cip, x, y).block[..], ComponentPtr(s, cip, x, y).pos, cip.bitDepth)
  {
    var p := ComponentPtr(s, cip, x, y);
    if cip.bitDepth <= 8 then p.block[p.pos]
    else
      var w := Word16(p.block[p.pos], p.block[p.pos + 1]);
      w % Pow2(cip.bitDepth)
  }

  /** put_component8 / put_component16 at a byte pointer. */
  method Put(p: Ptr, bitDepth: nat, v: U32)
    requires p.At? && 0 <= p.pos && p.pos + SampleWidth(bitDepth) <= p.block.Length
    modifies p.block
    ensures p.block[..] == Store(old(p.block[..]), p.pos, bitDepth, v)
  {
    if bitDepth <= 8 {
      p.block[p.pos] := v % 256;
    } else {
      var w := (v % 0x1_0000) % Pow2(bitDepth);
      ModBelow(v % 0x1_0000, Pow2(bitDepth));
      p.block[p.pos] := w % 256;
      p.block[p.pos + 1] := w / 256;
    }
  }

  /** put_component on the sample (x, y): only the bytes of that sample change. */
  method PutComponent(s: ImageState, cip: Component, x: int, y: int, v: U32)
    requires WellShaped(s) && cip.plane < 4 && Addressable(s, cip, x, y)
    modifies ComponentPtr(s, cip, x, y).block
    ensures var p := ComponentPtr(s, cip, x, y);
      p.block[..] == Store(old(p.block[..]), p.pos, cip.bitDepth, v)
  {
    Put(ComponentPtr(s, cip, x, y), cip.bitDepth, v);
  }

  // ---------------------------------------------------------------------
  // RGB pixels

  /** A byte pointer into a block. */
  predicate InBlock(p: Ptr)
  {
    p.At? && 0 <= p.pos < p.block.Length
  }

  /** get_component8: the byte at the sample. */
  function Get8(p: Ptr): Byte
    requires InBlock(p)
    reads p.block
  {
    p.block[p.pos]
  }

  /** put_component8: stores one byte; the bytes at the pointers in `keep`, all elsewhere, keep their values. */
  method Put8(p: Ptr, v: Byte, ghost keep: seq<Ptr>)
    requires InBlock(p) && forall k :: 0 <= k < |keep| ==> InBlock(keep[k]) && keep[k] != p
    modifies p.block
    ensures p.block[..] == old(p.block[..])[p.pos := v]
    ensures forall k :: 0 <= k < |keep| ==> Get8(keep[k]) == old(Get8(keep[k]))
  {
    p.block[p.pos] := v;
  }

  /** The first three components of an RGB format address bytes inside their blocks. */
  predicate RgbAddressable(s: ImageState, info: FormatInfo, x: int, y: int)
    requires WellShaped(s) && Shaped(info)
  {
    info.numComponents >= 3 &&
    (forall c :: 0 <= c < 3 ==> info.components[c].plane < 4) &&
    InBlock(ComponentPtr(s, info.components[0], x, y)) && InBlock(ComponentPtr(s, info.components[1], x, y)) &&
    InBlock(ComponentPtr(s, info.components[2], x, y))
  }

  /** get_rgb_pixel: components 0, 1 and 2 as R, G and B, read as bytes. */
  function GetRgbPixel(s: ImageState, info: FormatInfo, x: int, y: int): (rgb: (Byte, Byte, Byte))
    requires WellShaped(s) && Shaped(info) && RgbAddressable(s, info, x, y)
    reads ComponentPtr(s, info.components[0], x, y).block, ComponentPtr(s, info.components[1], x, y).block,
      ComponentPtr(s, info.components[2], x, y).block
  {
    (Get8(ComponentPtr(s, info.components[0], x, y)), Get8(ComponentPtr(s, info.components[1], x, y)),
      Get8(ComponentPtr(s, info.components[2], x, y)))
  }

  /** put_rgb_pixel: writes R, G and B as bytes at components 0, 1 and 2; reading the pixel back gives them. */
  method PutRgbPixel(s: ImageState, info: FormatInfo, x: int, y: int, r: Byte, g: Byte, b: Byte)
    requires WellShaped(s) && Shaped(info) && RgbAddressable(s, info, x, y)
    requires DistinctRgbBytes(s, info, x, y)
    modifies ComponentPtr(s, info.components[0], x, y).block, ComponentPtr(s, info.components[1], x, y).block,
      ComponentPtr(s, info.components[2], x, y).block
    ensures GetRgbPixel(s, info, x, y) == (r, g, b)
  {
    var p0 := ComponentPtr(s, info.components[0], x, y);
    var p1 := ComponentPtr(s, info.components[1], x, y);
    var p2 := ComponentPtr(s, info.components[2], x, y);
    Put8(p0, r, []);
    Put8(p1, g, [p0]);
    Put8(p2, b, [p0, p1]);
  }

  /** The three RGB samples of a pixel are three different bytes. */
  predicate DistinctRgbBytes(s: ImageState, info: FormatInfo, x: int, y: int)
    requires WellShaped(s) && Shaped(info) && info.numComponents >= 3
    requires forall c :: 0 <= c < 3 ==> info.components[c].plane < 4
  {
    var p0 := ComponentPtr(s, info.components[0], x, y);
    var p1 := ComponentPtr(s, info.components[1], x, y);
    var p2 := ComponentPtr(s, info.components[2], x, y);
    p0 != p1 && p0 != p2 && p1 != p2
  }

  /**
   * For every registered RGB format the three samples of a pixel are
   * different bytes of its one plane, as long as the plane pointer lies in a
   * block and the index of the pixel does not wrap around.
   */
  lemma {:induction false} RegisteredRgbDistinct(s: ImageState, format: int, x: int, y: int)
    requires WellShaped(s) && IsRgb(format) && s.pixels[0].At?
    requires 0 <= y * s.pitches[0] + x * 4 && y * s.pitches[0] + x * 4 + 3 < U32_MOD
    ensures var info := GetInfo(format).value;
      Shaped(info) && info.numComponents >= 3 &&
      (forall c :: 0 <= c < 3 ==> info.components[c].plane < 4) &&
      DistinctRgbBytes(s, info, x, y)
  {
    RegisteredCoherent(format);
    var info := GetInfo(format).value;
    RgbComponents(format);
    var base := y * s.pitches[0] + x * 4;
    assert forall c :: 0 <= c < 3 ==> (SampleIndex(s.pitches[0], info.components[c], x, y) ==
      base + info.components[c].pixelOffset);
  }

  /** Registered RGB formats keep all components on plane 0 at 4 bytes per pixel, at different offsets below 4. */
  lemma {:induction false} RgbComponents(format: int)
    requires IsRgb(format)
    ensures var info := GetInfo(format).value;
      info.numComponents >= 3 &&
      (forall c :: 0 <= c < 3 ==> (info.components[c].plane == 0 && info.components[c].pixelStride == 4 &&
        info.components[c].pixelOffset < 4 && info.components[c].bitDepth <= 8)) &&
      info.components[0].pixelOffset != info.components[1].pixelOffset &&
      info.components[0].pixelOffset != info.components[2].pixelOffset &&
      info.components[1].pixelOffset != info.components[2].pixelOffset
  {
    RgbYuvPartition(format);
  }
}
