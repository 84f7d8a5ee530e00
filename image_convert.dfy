// Plane copy and deinterleave, and the conversion dispatch between images
// of the same size. The byte-level meaning of the copy loops is modelled:
// a block of `w` bytes per row over `h` rows, read at one pitch and written
// at another, with the NV12 chroma plane split into (or merged from) two
// planes. The vector instructions of the fast path only change how many
// bytes one step moves.

module ImageConvert {
  import opened Common
  import opened VideoFormats
  import opened Images

  // ---------------------------------------------------------------------
  // Rows of a plane

  /**
   * Byte index where row `y` of a plane with the given origin and pitch
   * starts: the row pointer advanced `y` times by the pitch.
   */
  function RowStart(origin: int, pitch: nat, y: nat): int
  {
    if y == 0 then origin else RowStart(origin, pitch, y - 1) + pitch
  }

  /** The row pointer after `y` advances is `origin + y * pitch`. */
  lemma {:induction false} RowStartIsProduct(origin: int, pitch: nat, y: nat)
    ensures RowStart(origin, pitch, y) == origin + y * pitch
  {
    if y > 0 {
      RowStartIsProduct(origin, pitch, y - 1);
      MulSucc(y - 1, pitch);
    }
  }

  lemma {:induction false} RowStartMonotone(origin: int, pitch: nat, y: nat, r: nat)
    requires y <= r
    ensures RowStart(origin, pitch, y) <= RowStart(origin, pitch, r)
    decreases r
  {
    if y < r {
      RowStartMonotone(origin, pitch, y, r - 1);
    }
  }

  /** A region of `h` rows of `w` bytes lies inside a buffer of `len` bytes. */
  predicate Fits(len: int, origin: int, pitch: nat, w: nat, h: nat)
  {
    h == 0 || (0 <= origin && RowStart(origin, pitch, h - 1) + w <= len)
  }

  lemma {:induction false} FitsRow(len: int, origin: int, pitch: nat, w: nat, h: nat, y: nat)
    requires Fits(len, origin, pitch, w, h) && y < h
    ensures 0 <= RowStart(origin, pitch, y) && RowStart(origin, pitch, y) + w <= len
  {
    RowStartMonotone(origin, pitch, 0, y);
    RowStartMonotone(origin, pitch, y, h - 1);
  }

  lemma {:induction false} FitsFewer(len: int, origin: int, pitch: nat, w: nat, h: nat, k: nat)
    requires Fits(len, origin, pitch, w, h) && k <= h
    ensures Fits(len, origin, pitch, w, k)
  {
    if k > 0 {
      FitsRow(len, origin, pitch, w, h, k - 1);
    }
  }

  /** The rows from row `y` on are the rows of a region starting at row `y`. */
  lemma {:induction false} RowStartShift(origin: int, pitch: nat, y: nat, k: nat)
    ensures RowStart(RowStart(origin, pitch, y), pitch, k) == RowStart(origin, pitch, y + k)
    decreases k
  {
    if k > 0 {
      RowStartShift(origin, pitch, y, k - 1);
    }
  }

  lemma {:induction false} FitsTail(len: int, origin: int, pitch: nat, w: nat, h: nat, y: nat)
    requires Fits(len, origin, pitch, w, h) && y <= h
    ensures Fits(len, RowStart(origin, pitch, y), pitch, w, h - y)
  {
    if y < h {
      FitsRow(len, origin, pitch, w, h, y);
      RowStartShift(origin, pitch, y, h - y - 1);
    }
  }

  /** With a pitch of at least `w`, every byte of row `y` comes before row `r > y`. */
  lemma {:induction false} RowsApart(origin: int, pitch: nat, w: nat, y: nat, r: nat, x: nat)
    requires pitch >= w && y < r && x < w
    ensures RowStart(origin, pitch, y) + x < RowStart(origin, pitch, r)
  {
    RowStartMonotone(origin, pitch, y + 1, r);
  }

  predicate InRow(i: int, start: int, w: nat)
  {
    start <= i < start + w
  }

  // ---------------------------------------------------------------------
  // 2D copy

  /** One row of a copy: the first `w` bytes of `s` from `so` written over `d` from `o`, one after the other. */
  function CopyRow(d: seq<Byte>, o: int, s: seq<Byte>, so: int, w: nat): (r: seq<Byte>)
    requires 0 <= o && o + w <= |d| && 0 <= so && so + w <= |s|
    ensures |r| == |d|
  {
    if w == 0 then d else CopyRow(d, o, s, so, w - 1)[o + w - 1 := s[so + w - 1]]
  }

  /** A row copy puts source byte `so + (i - o)` at each index `i` of the row and leaves the rest. */
  lemma {:induction false} CopyRowAt(d: seq<Byte>, o: int, s: seq<Byte>, so: int, w: nat, i: int)
    requires 0 <= o && o + w <= |d| && 0 <= so && so + w <= |s| && 0 <= i < |d|
    ensures CopyRow(d, o, s, so, w)[i] == if InRow(i, o, w) then s[so + (i - o)] else d[i]
  {
    if w > 0 {
      CopyRowAt(d, o, s, so, w - 1, i);
    }
  }

  /**
   * Copy2d / CopyFromUswc on byte sequences: rows 0 .. h-1 of `s` (origin
   * `so`, pitch `sp`) are copied, `w` bytes each, over the rows of `d`
   * (origin `o`, pitch `p`), top to bottom.
   */
  function Copied(d: seq<Byte>, o: int, p: nat, s: seq<Byte>, so: int, sp: nat, w: nat, h: nat): (r: seq<Byte>)
    requires Fits(|d|, o, p, w, h) && Fits(|s|, so, sp, w, h)
    ensures |r| == |d|
    decreases h
  {
    if h == 0 then d
    else
      FitsFewer(|d|, o, p, w, h, h - 1);
      FitsFewer(|s|, so, sp, w, h, h - 1);
      FitsRow(|d|, o, p, w, h, h - 1);
      FitsRow(|s|, so, sp, w, h, h - 1);
      CopyRow(Copied(d, o, p, s, so, sp, w, h - 1), RowStart(o, p, h - 1), s, RowStart(so, sp, h - 1), w)
  }

  /** Every visible byte of the destination region receives the byte at the same row and column of the source. */
  lemma {:induction false} CopiedAt(d: seq<Byte>, o: int, p: nat, s: seq<Byte>, so: int, sp: nat, w: nat, h: nat,
    y: nat, x: nat)
    requires Fits(|d|, o, p, w, h) && Fits(|s|, so, sp, w, h) && p >= w && y < h && x < w
    ensures 0 <= RowStart(o, p, y) + x < |d| && 0 <= RowStart(so, sp, y) + x < |s|
    ensures Copied(d, o, p, s, so, sp, w, h)[RowStart(o, p, y) + x] == s[RowStart(so, sp, y) + x]
    decreases h
  {
    FitsRow(|d|, o, p, w, h, y);
    FitsRow(|s|, so, sp, w, h, y);
    FitsFewer(|d|, o, p, w, h, h - 1);
    FitsFewer(|s|, so, sp, w, h, h - 1);
    FitsRow(|d|, o, p, w, h, h - 1);
    FitsRow(|s|, so, sp, w, h, h - 1);
    var i := RowStart(o, p, y) + x;
    CopyRowAt(Copied(d, o, p, s, so, sp, w, h - 1), RowStart(o, p, h - 1), s, RowStart(so, sp, h - 1), w, i);
    if y < h - 1 {
      CopiedAt(d, o, p, s, so, sp, w, h - 1, y, x);
      RowsApart(o, p, w, y, h - 1, x);
    }
  }

  /** Bytes outside every row of the destination region (the padding included) are left as they were. */
  lemma {:induction false} CopiedElsewhere(d: seq<Byte>, o: int, p: nat, s: seq<Byte>, so: int, sp: nat, w: nat,
    h: nat, i: int)
    requires Fits(|d|, o, p, w, h) && Fits(|s|, so, sp, w, h) && 0 <= i < |d|
    requires forall y :: 0 <= y < h ==> !InRow(i, RowStart(o, p, y), w)
    ensures Copied(d, o, p, s, so, sp, w, h)[i] == d[i]
    decreases h
  {
    if h > 0 {
      FitsFewer(|d|, o, p, w, h, h - 1);
      FitsFewer(|s|, so, sp, w, h, h - 1);
      CopiedElsewhere(d, o, p, s, so, sp, w, h - 1, i);
      assert !InRow(i, RowStart(o, p, h - 1), w);
      FitsRow(|d|, o, p, w, h, h - 1);
      FitsRow(|s|, so, sp, w, h, h - 1);
      CopyRowAt(Copied(d, o, p, s, so, sp, w, h - 1), RowStart(o, p, h - 1), s, RowStart(so, sp, h - 1), w, i);
    }
  }

  /** Copying `y + k` rows is copying `y` rows and then the `k` rows below them. */
  lemma {:induction false} CopiedSplit(d: seq<Byte>, o: int, p: nat, s: seq<Byte>, so: int, sp: nat, w: nat,
    y: nat, k: nat)
    requires Fits(|d|, o, p, w, y + k) && Fits(|s|, so, sp, w, y + k)
    ensures Fits(|d|, o, p, w, y) && Fits(|s|, so, sp, w, y)
    ensures Fits(|d|, RowStart(o, p, y), p, w, k) && Fits(|s|, RowStart(so, sp, y), sp, w, k)
    ensures Copied(d, o, p, s, so, sp, w, y + k) ==
      Copied(Copied(d, o, p, s, so, sp, w, y), RowStart(o, p, y), p, s, RowStart(so, sp, y), sp, w, k)
    decreases k
  {
    FitsFewer(|d|, o, p, w, y + k, y);
    FitsFewer(|s|, so, sp, w, y + k, y);
    FitsTail(|d|, o, p, w, y + k, y);
    FitsTail(|s|, so, sp, w, y + k, y);
    if k > 0 {
      var j := k - 1;
      var n := y + j;
      CopiedSplit(d, o, p, s, so, sp, w, y, j);
      var top := Copied(d, o, p, s, so, sp, w, y);
      var ro, rs := RowStart(o, p, y), RowStart(so, sp, y);
      var mid := Copied(top, ro, p, s, rs, sp, w, j);
      assert Copied(d, o, p, s, so, sp, w, n) == mid;
      var rd, rsrc := RowStart(o, p, n), RowStart(so, sp, n);
      RowStartShift(o, p, y, j);
      RowStartShift(so, sp, y, j);
      assert RowStart(ro, p, j) == rd && RowStart(rs, sp, j) == rsrc;
      FitsRow(|d|, o, p, w, y + k, n);
      FitsRow(|s|, so, sp, w, y + k, n);
      assert Copied(d, o, p, s, so, sp, w, n + 1) == CopyRow(mid, rd, s, rsrc, w);
      assert Copied(top, ro, p, s, rs, sp, w, j + 1) == CopyRow(mid, rd, s, rsrc, w);
    }
  }

  /** Byte x of the U row is source byte 2x, and byte x of the V row is source byte 2x+1. */
  lemma {:induction false} SplitRowPair(d: seq<Byte>, uo: int, vo: int, s: seq<Byte>, so: int, w: nat, x: nat)
    requires 0 <= uo && uo + w <= |d| && 0 <= vo && vo + w <= |d| && 0 <= so && so + 2 * w <= |s|
    requires RowsDisjoint(uo, vo, w) && x < w
    ensures SplitRow(d, uo, vo, s, so, w)[uo + x] == s[so + 2 * x]
    ensures SplitRow(d, uo, vo, s, so, w)[vo + x] == s[so + 2 * x + 1]
  {
    assert InRow(uo + x, uo, w);
    assert !InRow(vo + x, uo, w) && InRow(vo + x, vo, w);
  }

  /** Bytes `a .. a+w` of `s1` and `b .. b+w` of `s2` are the same. */
  predicate SameBytes(s1: seq<Byte>, a: int, s2: seq<Byte>, b: int, w: nat)
  {
    0 <= a && a + w <= |s1| && 0 <= b && b + w <= |s2| &&
    (w == 0 || (SameBytes(s1, a, s2, b, w - 1) && s1[a + w - 1] == s2[b + w - 1]))
  }

  lemma {:induction false} CopyRowSame(d: seq<Byte>, o: int, s1: seq<Byte>, a: int, s2: seq<Byte>, b: int, w: nat)
    requires 0 <= o && o + w <= |d| && 0 <= a && a + w <= |s1| && 0 <= b && b + w <= |s2|
    requires SameBytes(s1, a, s2, b, w)
    ensures CopyRow(d, o, s1, a, w) == CopyRow(d, o, s2, b, w)
  {
    if w > 0 {
      CopyRowSame(d, o, s1, a, s2, b, w - 1);
    }
  }

  /** A copy depends only on the source bytes inside the copied rows. */
  lemma {:induction false} CopiedSameSource(d: seq<Byte>, o: int, p: nat, s1: seq<Byte>, o1: int, p1: nat,
    s2: seq<Byte>, o2: int, p2: nat, w: nat, h: nat)
    requires Fits(|d|, o, p, w, h) && Fits(|s1|, o1, p1, w, h) && Fits(|s2|, o2, p2, w, h)
    requires forall y :: 0 <= y < h ==> SameBytes(s1, RowStart(o1, p1, y), s2, RowStart(o2, p2, y), w)
    ensures Copied(d, o, p, s1, o1, p1, w, h) == Copied(d, o, p, s2, o2, p2, w, h)
    decreases h
  {
    if h > 0 {
      FitsFewer(|d|, o, p, w, h, h - 1);
      FitsFewer(|s1|, o1, p1, w, h, h - 1);
      FitsFewer(|s2|, o2, p2, w, h, h - 1);
      FitsRow(|d|, o, p, w, h, h - 1);
      CopiedSameSource(d, o, p, s1, o1, p1, s2, o2, p2, w, h - 1);
      var mid := Copied(d, o, p, s1, o1, p1, w, h - 1);
      var r, a, b := RowStart(o, p, h - 1), RowStart(o1, p1, h - 1), RowStart(o2, p2, h - 1);
      assert SameBytes(s1, a, s2, b, w);
      CopyRowSame(mid, r, s1, a, s2, b, w);
      assert Copied(d, o, p, s1, o1, p1, w, h) == CopyRow(mid, r, s1, a, w);
      assert Copied(d, o, p, s2, o2, p2, w, h) == CopyRow(mid, r, s2, b, w);
    }
  }

  /** The inner loop of Copy2d: one row, byte by byte. */
  method CopyOneRow(dst: array<Byte>, ro: nat, src: array<Byte>, rs: nat, w: nat)
    requires dst != src && ro + w <= dst.Length && rs + w <= src.Length
    modifies dst
    ensures dst[..] == CopyRow(old(dst[..]), ro, src[..], rs, w)
  {
    var x := 0;
    while x < w
      invariant x <= w
      invariant dst[..] == CopyRow(old(dst[..]), ro, src[..], rs, x)
    {
      dst[ro + x] := src[rs + x];
      x := x + 1;
    }
  }

  /**
   * The row loop that Copy2d, CopyFromUswc and libyuv's CopyPlane share:
   * `w` bytes per row for `h` rows, the source and destination pointers
   * advancing by their pitches.
   */
  method CopyRows(dst: array<Byte>, o: nat, p: nat, src: array<Byte>, so: nat, sp: nat, w: nat, h: nat)
    requires dst != src && Fits(dst.Length, o, p, w, h) && Fits(src.Length, so, sp, w, h)
    modifies dst
    ensures dst[..] == Copied(old(dst[..]), o, p, src[..], so, sp, w, h)
  {
    var y := 0;
    while y < h
      invariant y <= h
      invariant Fits(dst.Length, o, p, w, y) && Fits(src.Length, so, sp, w, y)
      invariant dst[..] == Copied(old(dst[..]), o, p, src[..], so, sp, w, y)
    {
      FitsRow(dst.Length, o, p, w, h, y);
      FitsRow(src.Length, so, sp, w, h, y);
      var ro, rs := RowStart(o, p, y), RowStart(so, sp, y);
      CopyOneRow(dst, ro, src, rs, w);
      FitsFewer(dst.Length, o, p, w, h, y + 1);
      FitsFewer(src.Length, so, sp, w, h, y + 1);
      y := y + 1;
    }
  }

  /**
   * Copy2d: the cache-to-destination copy. The C code asserts a 16-byte
   * aligned source and source pitch; the source offset stands for the
   * address here.
   */
  method Copy2d(dst: array<Byte>, o: nat, p: nat, src: array<Byte>, so: nat, sp: nat, w: nat, h: nat)
    requires dst != src && so % 16 == 0 && sp % 16 == 0
    requires Fits(dst.Length, o, p, w, h) && Fits(src.Length, so, sp, w, h)
    modifies dst
    ensures dst[..] == Copied(old(dst[..]), o, p, src[..], so, sp, w, h)
  {
    CopyRows(dst, o, p, src, so, sp, w, h);
  }

  /** Every row of a copy holds the `w` bytes of the matching source row. */
  lemma {:induction false} CopiedRows(d: seq<Byte>, o: int, p: nat, s: seq<Byte>, so: int, sp: nat, w: nat, h: nat,
    r: nat, n: nat)
    requires Fits(|d|, o, p, w, h) && Fits(|s|, so, sp, w, h) && p >= w && r < h && n <= w
    ensures SameBytes(Copied(d, o, p, s, so, sp, w, h), RowStart(o, p, r), s, RowStart(so, sp, r), n)
    decreases n
  {
    FitsRow(|d|, o, p, w, h, r);
    FitsRow(|s|, so, sp, w, h, r);
    if n > 0 {
      CopiedRows(d, o, p, s, so, sp, w, h, r, n - 1);
      CopiedAt(d, o, p, s, so, sp, w, h, r, n - 1);
    }
  }

  // ---------------------------------------------------------------------
  // Copy through the cache

  /** `round_up(w, 16)`: the cache pitch for rows of `w` bytes. */
  function W16(w: U32): U32
  {
    Pow2Sixteen();
    RoundUp(w, 16)
  }

  /** Unless it wraps to 0, the cache pitch is at least the row width and a multiple of 16. */
  lemma {:induction false} W16Above(w: U32)
    ensures W16(w) > 0 ==> w <= W16(w) && W16(w) % 16 == 0
  {
    Pow2Sixteen();
    if w > U32_MOD - 16 {
      RoundUpWraps(w);
    } else {
      RoundUpBounds(w, 16);
    }
  }

  /** `hblock <= cache_size / w16` rows of `w <= w16` bytes at pitch `w16` fit in the cache. */
  lemma {:induction false} CacheFits(len: int, cacheSize: nat, w16: nat, w: nat, hblock: nat)
    requires 1 <= w16 && w <= w16 && cacheSize <= len && hblock <= cacheSize / w16
    ensures Fits(len, 0, w16, w, hblock)
  {
    if hblock > 0 {
      RowStartIsProduct(0, w16, hblock - 1);
      MulSucc(hblock - 1, w16);
      MulMonotone(hblock, cacheSize / w16, w16);
      DivMulBelow(cacheSize, w16);
    }
  }

  /** The rows `y .. y+k` of a region inside a buffer form a region inside it. */
  lemma {:induction false} FitsBlock(len: int, origin: int, pitch: nat, w: nat, h: nat, y: nat, k: nat)
    requires Fits(len, origin, pitch, w, h) && y + k <= h
    ensures Fits(len, RowStart(origin, pitch, y), pitch, w, k)
  {
    FitsFewer(len, origin, pitch, w, h, y + k);
    FitsTail(len, origin, pitch, w, y + k, y);
  }

  /** One block of SSE_CopyPlane: `k` rows from the source into the cache at pitch `w16`, then from the cache to the destination. */
  method CopyBlock(dst: array<Byte>, ro: nat, p: nat, src: array<Byte>, rs: nat, sp: nat,
    cache: array<Byte>, w16: nat, w: nat, k: nat)
    requires dst != src && cache != dst && cache != src && w16 % 16 == 0
    requires Fits(dst.Length, ro, p, w, k) && Fits(src.Length, rs, sp, w, k) && Fits(cache.Length, 0, w16, w, k)
    requires w <= w16
    modifies dst, cache
    ensures dst[..] == Copied(old(dst[..]), ro, p, src[..], rs, sp, w, k)
  {
    ghost var cache0 := cache[..];
    CopyFromUswc(cache, 0, w16, src, rs, sp, w, k);
    forall r | 0 <= r < k
      ensures SameBytes(cache[..], RowStart(0, w16, r), src[..], RowStart(rs, sp, r), w)
    {
      CopiedRows(cache0, 0, w16, src[..], rs, sp, w, k, r, w);
    }
    ghost var before := dst[..];
    Copy2d(dst, ro, p, cache, 0, w16, w, k);
    CopiedSameSource(before, ro, p, cache[..], 0, w16, src[..], rs, sp, w, k);
  }

  /**
   * SSE_CopyPlane: the rows go in blocks of `hstep = cache_size / w16` rows,
   * each block first from the source into the cache at pitch
   * `w16 = round_up(w, 16)` and then from the cache to the destination. The
   * destination ends exactly as after a direct copy. The C code asserts
   * `hstep > 0`.
   */
  method CopyPlane(dst: array<Byte>, o: nat, p: nat, src: array<Byte>, so: nat, sp: nat,
    cache: array<Byte>, cacheSize: U32, w: U32, h: U32)
    requires dst != src && cache != dst && cache != src && cacheSize <= cache.Length
    requires 0 < W16(w) && cacheSize / W16(w) > 0
    requires Fits(dst.Length, o, p, w, h) && Fits(src.Length, so, sp, w, h)
    modifies dst, cache
    ensures dst[..] == Copied(old(dst[..]), o, p, src[..], so, sp, w, h)
  {
    var w16 := W16(w);
    W16Above(w);
    var hstep := cacheSize / w16;
    var y: U32 := 0;
    while y < h
      invariant y <= h
      invariant Fits(dst.Length, o, p, w, y) && Fits(src.Length, so, sp, w, y)
      invariant dst[..] == Copied(old(dst[..]), o, p, src[..], so, sp, w, y)
      decreases h - y
    {
      var hblock := Min(hstep, h - y);
      var ro, rs := RowStart(o, p, y), RowStart(so, sp, y);
      FitsBlock(dst.Length, o, p, w, h, y, hblock);
      FitsBlock(src.Length, so, sp, w, h, y, hblock);
      FitsRow(dst.Length, o, p, w, h, y);
      FitsRow(src.Length, so, sp, w, h, y);
      CacheFits(cache.Length, cacheSize, w16, w, hblock);
      CopyBlock(dst, ro, p, src, rs, sp, cache, w16, w, hblock);
      FitsFewer(dst.Length, o, p, w, h, y + hblock);
      FitsFewer(src.Length, so, sp, w, h, y + hblock);
      CopiedSplit(old(dst[..]), o, p, src[..], so, sp, w, y, hblock);
      y := y + hblock;
    }
  }

  // ---------------------------------------------------------------------
  // Chroma deinterleave (NV12 UV plane to U and V planes)

  /** Two rows of `w` bytes that share no byte. */
  predicate RowsDisjoint(a: int, b: int, w: nat)
  {
    a + w <= b || b + w <= a
  }

  /**
   * One row of SSE_SplitUV: byte x of the U row (at `uo`) becomes source
   * byte 2x and byte x of the V row (at `vo`) becomes source byte 2x+1;
   * the U and V rows lie in the same buffer and share no byte.
   */
  function SplitRow(d: seq<Byte>, uo: int, vo: int, s: seq<Byte>, so: int, w: nat): (r: seq<Byte>)
    requires 0 <= uo && uo + w <= |d| && 0 <= vo && vo + w <= |d| && 0 <= so && so + 2 * w <= |s|
    requires RowsDisjoint(uo, vo, w)
    ensures |r| == |d|
  {
    seq(|d|, i requires 0 <= i < |d| =>
      if InRow(i, uo, w) then s[so + 2 * (i - uo)]
      else if InRow(i, vo, w) then s[so + 2 * (i - vo) + 1]
      else d[i])
  }

  /** Splitting `x + 1` bytes is splitting `x` bytes, then writing U byte x and V byte x. */
  lemma {:induction false} SplitRowStep(d: seq<Byte>, uo: int, vo: int, s: seq<Byte>, so: int, w: nat, x: nat)
    requires 0 <= uo && uo + w <= |d| && 0 <= vo && vo + w <= |d| && 0 <= so && so + 2 * w <= |s|
    requires RowsDisjoint(uo, vo, w) && x < w
    ensures SplitRow(d, uo, vo, s, so, x + 1) ==
      SplitRow(d, uo, vo, s, so, x)[uo + x := s[so + 2 * x]][vo + x := s[so + 2 * x + 1]]
  {
    var r1 := SplitRow(d, uo, vo, s, so, x + 1);
    var r0 := SplitRow(d, uo, vo, s, so, x)[uo + x := s[so + 2 * x]][vo + x := s[so + 2 * x + 1]];
    forall i | 0 <= i < |d|
      ensures r1[i] == r0[i]
    {
    }
  }

  /** The row split reads only the `2w` source bytes of its row. */
  lemma {:induction false} SplitRowSame(d: seq<Byte>, uo: int, vo: int, s1: seq<Byte>, a: int, s2: seq<Byte>, b: int, w: nat)
    requires 0 <= uo && uo + w <= |d| && 0 <= vo && vo + w <= |d| && RowsDisjoint(uo, vo, w)
    requires SameBytes(s1, a, s2, b, 2 * w)
    ensures SplitRow(d, uo, vo, s1, a, w) == SplitRow(d, uo, vo, s2, b, w)
  {
    var r1, r2 := SplitRow(d, uo, vo, s1, a, w), SplitRow(d, uo, vo, s2, b, w);
    forall i | 0 <= i < |d|
      ensures r1[i] == r2[i]
    {
      if InRow(i, uo, w) {
        SameBytesAt(s1, a, s2, b, 2 * w, 2 * (i - uo));
      } else if InRow(i, vo, w) {
        SameBytesAt(s1, a, s2, b, 2 * w, 2 * (i - vo) + 1);
      }
    }
  }

  lemma {:induction false} SameBytesFewer(s1: seq<Byte>, a: int, s2: seq<Byte>, b: int, w: nat, k: nat)
    requires SameBytes(s1, a, s2, b, w) && k <= w
    ensures SameBytes(s1, a, s2, b, k)
    decreases w
  {
    if k < w {
      SameBytesFewer(s1, a, s2, b, w - 1, k);
    }
  }

  /** Bytes `a + x` and `b + x` agree for every `x < w`. */
  lemma {:induction false} SameBytesAt(s1: seq<Byte>, a: int, s2: seq<Byte>, b: int, w: nat, x: nat)
    requires SameBytes(s1, a, s2, b, w) && x < w
    ensures s1[a + x] == s2[b + x]
    decreases w
  {
    if x < w - 1 {
      SameBytesAt(s1, a, s2, b, w - 1, x);
    }
  }

  /**
   * The rows a split writes and reads lie inside their buffers, and each U
   * row shares no byte with the V row written beside it.
   */
  predicate SplitFits(len: int, uo: int, up: nat, vo: int, vp: nat, slen: int, so: int, sp: nat, w: nat, h: nat)
    decreases h
  {
    h == 0 ||
    (0 <= uo && uo + w <= len && 0 <= vo && vo + w <= len && 0 <= so && so + 2 * w <= slen &&
     RowsDisjoint(uo, vo, w) && SplitFits(len, uo + up, up, vo + vp, vp, slen, so + sp, sp, w, h - 1))
  }

  /**
   * SSE_SplitUV on byte sequences: the `h` rows of the interleaved source
   * (origin `so`, pitch `sp`) are split, top to bottom, into the U rows
   * (origin `uo`, pitch `up`) and the V rows (origin `vo`, pitch `vp`) of
   * `d`, the three row pointers advancing by their pitches.
   */
  function Deinterleaved(d: seq<Byte>, uo: int, up: nat, vo: int, vp: nat, s: seq<Byte>, so: int, sp: nat,
    w: nat, h: nat): (r: seq<Byte>)
    requires SplitFits(|d|, uo, up, vo, vp, |s|, so, sp, w, h)
    ensures |r| == |d|
    decreases h
  {
    if h == 0 then d
    else Deinterleaved(SplitRow(d, uo, vo, s, so, w), uo + up, up, vo + vp, vp, s, so + sp, sp, w, h - 1)
  }

  /** The rows from row `y` on of a split that fits form a split that fits. */
  lemma {:induction false} SplitFitsTail(len: int, uo: int, up: nat, vo: int, vp: nat, slen: int, so: int, sp: nat,
    w: nat, h: nat, y: nat)
    requires SplitFits(len, uo, up, vo, vp, slen, so, sp, w, h) && y <= h
    ensures SplitFits(len, RowStart(uo, up, y), up, RowStart(vo, vp, y), vp, slen, RowStart(so, sp, y), sp, w, h - y)
    decreases y
  {
    if y > 0 {
      SplitFitsTail(len, uo + up, up, vo + vp, vp, slen, so + sp, sp, w, h - 1, y - 1);
      RowStartShift(uo, up, 1, y - 1);
      RowStartShift(vo, vp, 1, y - 1);
      RowStartShift(so, sp, 1, y - 1);
    }
  }

  lemma {:induction false} SplitFitsFewer(len: int, uo: int, up: nat, vo: int, vp: nat, slen: int, so: int,
    sp: nat, w: nat, h: nat, k: nat)
    requires SplitFits(len, uo, up, vo, vp, slen, so, sp, w, h) && k <= h
    ensures SplitFits(len, uo, up, vo, vp, slen, so, sp, w, k)
    decreases k
  {
    if k > 0 {
      SplitFitsFewer(len, uo + up, up, vo + vp, vp, slen, so + sp, sp, w, h - 1, k - 1);
    }
  }

  /** Row `y` of a split that fits lies inside the buffers, its U and V rows apart. */
  lemma {:induction false} SplitFitsRow(len: int, uo: int, up: nat, vo: int, vp: nat, slen: int, so: int, sp: nat, w: nat, h: nat,
    y: nat)
    requires SplitFits(len, uo, up, vo, vp, slen, so, sp, w, h) && y < h
    ensures 0 <= RowStart(uo, up, y) && RowStart(uo, up, y) + w <= len
    ensures 0 <= RowStart(vo, vp, y) && RowStart(vo, vp, y) + w <= len
    ensures 0 <= RowStart(so, sp, y) && RowStart(so, sp, y) + 2 * w <= slen
    ensures RowsDisjoint(RowStart(uo, up, y), RowStart(vo, vp, y), w)
  {
    SplitFitsTail(len, uo, up, vo, vp, slen, so, sp, w, h, y);
  }

  /**
   * Regions that fit, with the whole U region before the whole V region or
   * after it, make a split that fits.
   */
  lemma {:induction false} SplitFitsFromRegions(len: int, uo: int, up: nat, vo: int, vp: nat, slen: int, so: int,
    sp: nat, w: nat, h: nat)
    requires Fits(len, uo, up, w, h) && Fits(len, vo, vp, w, h) && Fits(slen, so, sp, 2 * w, h)
    requires SpansApart(uo, up, vo, vp, w, h)
    ensures SplitFits(len, uo, up, vo, vp, slen, so, sp, w, h)
    decreases h
  {
    if h > 0 {
      FitsRow(len, uo, up, w, h, 0);
      FitsRow(len, vo, vp, w, h, 0);
      FitsRow(slen, so, sp, 2 * w, h, 0);
      if w > 0 {
        SpansMiss(uo, up, vo, vp, w, h, 0, 0, 0);
      }
      FitsTail(len, uo, up, w, h, 1);
      FitsTail(len, vo, vp, w, h, 1);
      FitsTail(slen, so, sp, 2 * w, h, 1);
      SpansApartTail(uo, up, vo, vp, w, h);
      SplitFitsFromRegions(len, uo + up, up, vo + vp, vp, slen, so + sp, sp, w, h - 1);
    }
  }

  /** The whole U region ends before the V region starts, or the other way round. */
  predicate SpansApart(uo: int, up: nat, vo: int, vp: nat, w: nat, h: nat)
  {
    h == 0 || RowStart(uo, up, h - 1) + w <= vo || RowStart(vo, vp, h - 1) + w <= uo
  }

  /** Without their first rows, regions apart stay apart. */
  lemma {:induction false} SpansApartTail(uo: int, up: nat, vo: int, vp: nat, w: nat, h: nat)
    requires SpansApart(uo, up, vo, vp, w, h) && h > 0
    ensures SpansApart(uo + up, up, vo + vp, vp, w, h - 1)
  {
    if h > 1 {
      RowStartShift(uo, up, 1, h - 2);
      RowStartShift(vo, vp, 1, h - 2);
    }
  }

  /** A byte of row `y < h` of one region is in no row of the other region when the regions are apart. */
  lemma {:induction false} SpansMiss(uo: int, up: nat, vo: int, vp: nat, w: nat, h: nat, y: nat, x: nat, r: nat)
    requires SpansApart(uo, up, vo, vp, w, h) && y < h && r < h && x < w
    ensures !InRow(RowStart(uo, up, y) + x, RowStart(vo, vp, r), w)
    ensures !InRow(RowStart(vo, vp, y) + x, RowStart(uo, up, r), w)
  {
    if RowStart(uo, up, h - 1) + w <= vo {
      RegionBefore(uo, up, vo, vp, w, h, y, x, r);
    } else {
      RegionBefore(vo, vp, uo, up, w, h, y, x, r);
    }
  }

  lemma {:induction false} RegionBefore(ao: int, ap: nat, bo: int, bp: nat, w: nat, h: nat, y: nat, x: nat, r: nat)
    requires 0 < h && RowStart(ao, ap, h - 1) + w <= bo && y < h && r < h && x < w
    ensures !InRow(RowStart(ao, ap, y) + x, RowStart(bo, bp, r), w)
    ensures !InRow(RowStart(bo, bp, y) + x, RowStart(ao, ap, r), w)
  {
    var ay, ar, last := RowStart(ao, ap, y), RowStart(ao, ap, r), RowStart(ao, ap, h - 1);
    var b0, br := RowStart(bo, bp, y), RowStart(bo, bp, r);
    RowStartMonotone(ao, ap, y, h - 1);
    RowStartMonotone(ao, ap, r, h - 1);
    RowStartMonotone(bo, bp, 0, y);
    RowStartMonotone(bo, bp, 0, r);
    assert ay + x < last + w <= bo <= br;
    assert ar + w <= last + w <= bo <= b0;
  }

  /** Splitting `y + k` rows is splitting `y` rows and then the `k` rows below them. */
  lemma {:induction false} DeinterleavedSplit(d: seq<Byte>, uo: int, up: nat, vo: int, vp: nat, s: seq<Byte>,
    so: int, sp: nat, w: nat, y: nat, k: nat)
    requires SplitFits(|d|, uo, up, vo, vp, |s|, so, sp, w, y + k)
    ensures SplitFits(|d|, uo, up, vo, vp, |s|, so, sp, w, y)
    ensures SplitFits(|d|, RowStart(uo, up, y), up, RowStart(vo, vp, y), vp, |s|, RowStart(so, sp, y), sp, w, k)
    ensures Deinterleaved(d, uo, up, vo, vp, s, so, sp, w, y + k) ==
      Deinterleaved(Deinterleaved(d, uo, up, vo, vp, s, so, sp, w, y), RowStart(uo, up, y), up,
        RowStart(vo, vp, y), vp, s, RowStart(so, sp, y), sp, w, k)
    decreases y
  {
    SplitFitsFewer(|d|, uo, up, vo, vp, |s|, so, sp, w, y + k, y);
    SplitFitsTail(|d|, uo, up, vo, vp, |s|, so, sp, w, y + k, y);
    if y > 0 {
      var first := SplitRow(d, uo, vo, s, so, w);
      DeinterleavedSplit(first, uo + up, up, vo + vp, vp, s, so + sp, sp, w, y - 1, k);
      RowStartShift(uo, up, 1, y - 1);
      RowStartShift(vo, vp, 1, y - 1);
      RowStartShift(so, sp, 1, y - 1);
    }
  }

  /** A split depends only on the `2w` source bytes of each of its rows. */
  lemma {:induction false} DeinterleavedSameSource(d: seq<Byte>, uo: int, up: nat, vo: int, vp: nat,
    s1: seq<Byte>, a: int, p1: nat, s2: seq<Byte>, b: int, p2: nat, w: nat, h: nat)
    requires SplitFits(|d|, uo, up, vo, vp, |s1|, a, p1, w, h) && SplitFits(|d|, uo, up, vo, vp, |s2|, b, p2, w, h)
    requires forall y :: 0 <= y < h ==> SameBytes(s1, RowStart(a, p1, y), s2, RowStart(b, p2, y), 2 * w)
    ensures Deinterleaved(d, uo, up, vo, vp, s1, a, p1, w, h) == Deinterleaved(d, uo, up, vo, vp, s2, b, p2, w, h)
    decreases h
  {
    if h > 0 {
      assert SameBytes(s1, RowStart(a, p1, 0), s2, RowStart(b, p2, 0), 2 * w);
      SplitRowSame(d, uo, vo, s1, a, s2, b, w);
      var first := SplitRow(d, uo, vo, s1, a, w);
      var a1, b1 := a + p1, b + p2;
      forall y | 0 <= y < h - 1
        ensures SameBytes(s1, RowStart(a1, p1, y), s2, RowStart(b1, p2, y), 2 * w)
      {
        RowStartShift(a, p1, 1, y);
        RowStartShift(b, p2, 1, y);
        assert SameBytes(s1, RowStart(a, p1, y + 1), s2, RowStart(b, p2, y + 1), 2 * w);
      }
      DeinterleavedSameSource(first, uo + up, up, vo + vp, vp, s1, a1, p1, s2, b1, p2, w, h - 1);
    }
  }

  /** Byte `i` lies in none of the `h` U rows and none of the `h` V rows. */
  predicate Untouched(i: int, uo: int, up: nat, vo: int, vp: nat, w: nat, h: nat)
    decreases h
  {
    h == 0 || (!InRow(i, uo, w) && !InRow(i, vo, w) && Untouched(i, uo + up, up, vo + vp, vp, w, h - 1))
  }

  /** A byte in no row, row by row, is in no row in the recursive sense. */
  lemma {:induction false} UntouchedRows(i: int, uo: int, up: nat, vo: int, vp: nat, w: nat, h: nat)
    requires forall y :: 0 <= y < h ==> !InRow(i, RowStart(uo, up, y), w) && !InRow(i, RowStart(vo, vp, y), w)
    ensures Untouched(i, uo, up, vo, vp, w, h)
    decreases h
  {
    if h > 0 {
      assert !InRow(i, RowStart(uo, up, 0), w) && !InRow(i, RowStart(vo, vp, 0), w);
      var u1, v1 := uo + up, vo + vp;
      forall y | 0 <= y < h - 1
        ensures !InRow(i, RowStart(u1, up, y), w) && !InRow(i, RowStart(v1, vp, y), w)
      {
        RowStartShift(uo, up, 1, y);
        RowStartShift(vo, vp, 1, y);
        assert !InRow(i, RowStart(uo, up, y + 1), w) && !InRow(i, RowStart(vo, vp, y + 1), w);
      }
      UntouchedRows(i, u1, up, v1, vp, w, h - 1);
    }
  }

  lemma {:induction false} DeinterleavedUntouched(d: seq<Byte>, uo: int, up: nat, vo: int, vp: nat, s: seq<Byte>,
    so: int, sp: nat, w: nat, h: nat, i: int)
    requires SplitFits(|d|, uo, up, vo, vp, |s|, so, sp, w, h) && 0 <= i < |d|
    requires Untouched(i, uo, up, vo, vp, w, h)
    ensures Deinterleaved(d, uo, up, vo, vp, s, so, sp, w, h)[i] == d[i]
    decreases h
  {
    if h > 0 {
      DeinterleavedUntouched(SplitRow(d, uo, vo, s, so, w), uo + up, up, vo + vp, vp, s, so + sp, sp, w, h - 1, i);
    }
  }

  /** Bytes in no U row and no V row are left as they were. */
  lemma {:induction false} DeinterleavedElsewhere(d: seq<Byte>, uo: int, up: nat, vo: int, vp: nat, s: seq<Byte>,
    so: int, sp: nat, w: nat, h: nat, i: int)
    requires SplitFits(|d|, uo, up, vo, vp, |s|, so, sp, w, h) && 0 <= i < |d|
    requires forall y :: 0 <= y < h ==> !InRow(i, RowStart(uo, up, y), w) && !InRow(i, RowStart(vo, vp, y), w)
    ensures Deinterleaved(d, uo, up, vo, vp, s, so, sp, w, h)[i] == d[i]
  {
    UntouchedRows(i, uo, up, vo, vp, w, h);
    DeinterleavedUntouched(d, uo, up, vo, vp, s, so, sp, w, h, i);
  }

  /**
   * With pitches of at least `w` and the U and V regions apart, byte x of
   * U row y is source byte 2x of row y, and byte x of V row y is byte 2x+1.
   */
  lemma {:induction false} DeinterleavedAt(d: seq<Byte>, uo: int, up: nat, vo: int, vp: nat, s: seq<Byte>, so: int,
    sp: nat, w: nat, h: nat, y: nat, x: nat)
    requires SplitFits(|d|, uo, up, vo, vp, |s|, so, sp, w, h) && up >= w && vp >= w
    requires SpansApart(uo, up, vo, vp, w, h) && y < h && x < w
    ensures 0 <= RowStart(uo, up, y) + x < |d| && 0 <= RowStart(vo, vp, y) + x < |d|
    ensures 0 <= RowStart(so, sp, y) && RowStart(so, sp, y) + 2 * x + 1 < |s|
    ensures Deinterleaved(d, uo, up, vo, vp, s, so, sp, w, h)[RowStart(uo, up, y) + x] == s[RowStart(so, sp, y) + 2 * x]
    ensures Deinterleaved(d, uo, up, vo, vp, s, so, sp, w, h)[RowStart(vo, vp, y) + x] ==
      s[RowStart(so, sp, y) + 2 * x + 1]
    decreases y
  {
    SplitFitsRow(|d|, uo, up, vo, vp, |s|, so, sp, w, h, y);
    var first := SplitRow(d, uo, vo, s, so, w);
    SpansApartTail(uo, up, vo, vp, w, h);
    if y == 0 {
      FirstRowKept(d, uo, up, vo, vp, s, so, sp, w, h, x);
    } else {
      DeinterleavedAt(first, uo + up, up, vo + vp, vp, s, so + sp, sp, w, h - 1, y - 1, x);
      RowStartShift(uo, up, 1, y - 1);
      RowStartShift(vo, vp, 1, y - 1);
      RowStartShift(so, sp, 1, y - 1);
    }
  }

  /** The rows below the first one leave a byte of the first U or V row as the first row split wrote it. */
  lemma {:induction false} FirstRowKept(d: seq<Byte>, uo: int, up: nat, vo: int, vp: nat, s: seq<Byte>, so: int,
    sp: nat, w: nat, h: nat, x: nat)
    requires SplitFits(|d|, uo, up, vo, vp, |s|, so, sp, w, h) && up >= w && vp >= w
    requires SpansApart(uo, up, vo, vp, w, h) && 0 < h && x < w
    ensures Deinterleaved(d, uo, up, vo, vp, s, so, sp, w, h)[uo + x] == s[so + 2 * x]
    ensures Deinterleaved(d, uo, up, vo, vp, s, so, sp, w, h)[vo + x] == s[so + 2 * x + 1]
  {
    SplitRowPair(d, uo, vo, s, so, w, x);
    FirstRowUntouched(uo, up, vo, vp, w, h, x);
    var first := SplitRow(d, uo, vo, s, so, w);
    DeinterleavedUntouched(first, uo + up, up, vo + vp, vp, s, so + sp, sp, w, h - 1, uo + x);
    DeinterleavedUntouched(first, uo + up, up, vo + vp, vp, s, so + sp, sp, w, h - 1, vo + x);
  }

  /** Byte x of the first U row and of the first V row lies in no later row of either region. */
  lemma {:induction false} FirstRowUntouched(uo: int, up: nat, vo: int, vp: nat, w: nat, h: nat, x: nat)
    requires up >= w && vp >= w && SpansApart(uo, up, vo, vp, w, h) && 0 < h && x < w
    ensures Untouched(uo + x, uo + up, up, vo + vp, vp, w, h - 1)
    ensures Untouched(vo + x, uo + up, up, vo + vp, vp, w, h - 1)
  {
    var u1, v1 := uo + up, vo + vp;
    forall r | 0 <= r < h - 1
      ensures !InRow(uo + x, RowStart(u1, up, r), w) && !InRow(uo + x, RowStart(v1, vp, r), w)
      ensures !InRow(vo + x, RowStart(u1, up, r), w) && !InRow(vo + x, RowStart(v1, vp, r), w)
    {
      FirstRowMissed(uo, up, vo, vp, w, h, x, r);
    }
    UntouchedRows(uo + x, u1, up, v1, vp, w, h - 1);
    UntouchedRows(vo + x, u1, up, v1, vp, w, h - 1);
  }

  /** Byte x of the first U row and of the first V row lies in no later row of either region. */
  lemma {:induction false} FirstRowMissed(uo: int, up: nat, vo: int, vp: nat, w: nat, h: nat, x: nat, r: nat)
    requires up >= w && vp >= w && SpansApart(uo, up, vo, vp, w, h) && r + 1 < h && x < w
    ensures !InRow(uo + x, RowStart(uo + up, up, r), w) && !InRow(uo + x, RowStart(vo + vp, vp, r), w)
    ensures !InRow(vo + x, RowStart(uo + up, up, r), w) && !InRow(vo + x, RowStart(vo + vp, vp, r), w)
  {
    RowStartShift(uo, up, 1, r);
    RowStartShift(vo, vp, 1, r);
    RowsApart(uo, up, w, 0, r + 1, x);
    RowsApart(vo, vp, w, 0, r + 1, x);
    SpansMiss(uo, up, vo, vp, w, h, 0, x, r + 1);
  }

  /** A split that fits reads `2w` bytes from each of its `h` source rows, inside the source. */
  lemma {:induction false} SplitFitsSource(len: int, uo: int, up: nat, vo: int, vp: nat, slen: int, so: int,
    sp: nat, w: nat, h: nat)
    requires SplitFits(len, uo, up, vo, vp, slen, so, sp, w, h)
    ensures Fits(slen, so, sp, 2 * w, h)
    decreases h
  {
    if h > 1 {
      SplitFitsSource(len, uo + up, up, vo + vp, vp, slen, so + sp, sp, w, h - 1);
      RowStartShift(so, sp, 1, h - 2);
    }
  }

  /** The same split reading from another source region that fits also fits. */
  lemma {:induction false} SplitFitsOtherSource(len: int, uo: int, up: nat, vo: int, vp: nat, slen: int, so: int,
    sp: nat, slen2: int, so2: int, sp2: nat, w: nat, h: nat)
    requires SplitFits(len, uo, up, vo, vp, slen, so, sp, w, h) && Fits(slen2, so2, sp2, 2 * w, h)
    ensures SplitFits(len, uo, up, vo, vp, slen2, so2, sp2, w, h)
    decreases h
  {
    if h > 0 {
      FitsRow(slen2, so2, sp2, 2 * w, h, 0);
      FitsTail(slen2, so2, sp2, 2 * w, h, 1);
      SplitFitsOtherSource(len, uo + up, up, vo + vp, vp, slen, so + sp, sp, slen2, so2 + sp2, sp2, w, h - 1);
    }
  }

  /** The inner loop of SSE_SplitUV: one row, U byte then V byte for each x. */
  method SplitOneRow(dst: array<Byte>, uo: nat, vo: nat, src: array<Byte>, so: nat, w: nat)
    requires dst != src && uo + w <= dst.Length && vo + w <= dst.Length && so + 2 * w <= src.Length
    requires RowsDisjoint(uo, vo, w)
    modifies dst
    ensures dst[..] == SplitRow(old(dst[..]), uo, vo, src[..], so, w)
  {
    var x := 0;
    while x < w
      invariant x <= w
      invariant dst[..] == SplitRow(old(dst[..]), uo, vo, src[..], so, x)
    {
      SplitRowStep(old(dst[..]), uo, vo, src[..], so, w, x);
      dst[uo + x] := src[so + 2 * x];
      dst[vo + x] := src[so + 2 * x + 1];
      x := x + 1;
    }
  }

  /**
   * SSE_SplitUV: for each of the `h` rows, the U and V rows of `dst` get the
   * even and odd bytes of the source row; the three row pointers then
   * advance by their pitches. The C code asserts a 16-byte aligned source
   * and source pitch; the source offset stands for the address here.
   */
  method SplitUV(dst: array<Byte>, uo: nat, up: nat, vo: nat, vp: nat, src: array<Byte>, so: nat, sp: nat,
    w: nat, h: nat)
    requires dst != src && so % 16 == 0 && sp % 16 == 0
    requires SplitFits(dst.Length, uo, up, vo, vp, src.Length, so, sp, w, h)
    modifies dst
    ensures dst[..] == Deinterleaved(old(dst[..]), uo, up, vo, vp, src[..], so, sp, w, h)
  {
    SplitRows(dst, uo, up, vo, vp, src, so, sp, w, h);
  }

  /** The row loop that SSE_SplitUV and libyuv's SplitUVPlane share. */
  method SplitRows(dst: array<Byte>, uo: nat, up: nat, vo: nat, vp: nat, src: array<Byte>, so: nat, sp: nat,
    w: nat, h: nat)
    requires dst != src
    requires SplitFits(dst.Length, uo, up, vo, vp, src.Length, so, sp, w, h)
    modifies dst
    ensures dst[..] == Deinterleaved(old(dst[..]), uo, up, vo, vp, src[..], so, sp, w, h)
  {
    var y, ru, rv, rs := 0, uo, vo, so;
    while y < h
      invariant y <= h
      invariant SplitFits(dst.Length, ru, up, rv, vp, src.Length, rs, sp, w, h - y)
      invariant Deinterleaved(dst[..], ru, up, rv, vp, src[..], rs, sp, w, h - y) ==
        Deinterleaved(old(dst[..]), uo, up, vo, vp, src[..], so, sp, w, h)
    {
      ghost var before := dst[..];
      SplitOneRow(dst, ru, rv, src, rs, w);
      assert Deinterleaved(before, ru, up, rv, vp, src[..], rs, sp, w, h - y) ==
        Deinterleaved(dst[..], ru + up, up, rv + vp, vp, src[..], rs + sp, sp, w, h - y - 1);
      y, ru, rv, rs := y + 1, ru + up, rv + vp, rs + sp;
    }
  }

  /**
   * CopyFromUswc: the same bytes as Copy2d. The C code asserts a 16-byte
   * aligned destination and destination pitch; the destination offset
   * stands for the address here.
   */
  method CopyFromUswc(dst: array<Byte>, o: nat, p: nat, src: array<Byte>, so: nat, sp: nat, w: nat, h: nat)
    requires dst != src && o % 16 == 0 && p % 16 == 0
    requires Fits(dst.Length, o, p, w, h) && Fits(src.Length, so, sp, w, h)
    modifies dst
    ensures dst[..] == Copied(old(dst[..]), o, p, src[..], so, sp, w, h)
  {
    CopyRows(dst, o, p, src, so, sp, w, h);
  }

  /** One block of SSE_SplitPlanes: `k` source rows into the cache at pitch `w16`, then split from the cache. */
  method SplitBlock(dst: array<Byte>, ru: nat, up: nat, rv: nat, vp: nat, src: array<Byte>, rs: nat, sp: nat,
    cache: array<Byte>, w16: nat, w: nat, k: nat)
    requires dst != src && cache != dst && cache != src && w16 % 16 == 0 && 2 * w <= w16
    requires SplitFits(dst.Length, ru, up, rv, vp, src.Length, rs, sp, w, k) && Fits(cache.Length, 0, w16, 2 * w, k)
    modifies dst, cache
    ensures dst[..] == Deinterleaved(old(dst[..]), ru, up, rv, vp, src[..], rs, sp, w, k)
  {
    SplitFitsSource(dst.Length, ru, up, rv, vp, src.Length, rs, sp, w, k);
    ghost var cache0 := cache[..];
    CopyFromUswc(cache, 0, w16, src, rs, sp, 2 * w, k);
    forall r | 0 <= r < k
      ensures SameBytes(cache[..], RowStart(0, w16, r), src[..], RowStart(rs, sp, r), 2 * w)
    {
      CopiedRows(cache0, 0, w16, src[..], rs, sp, 2 * w, k, r, 2 * w);
    }
    SplitFitsOtherSource(dst.Length, ru, up, rv, vp, src.Length, rs, sp, cache.Length, 0, w16, w, k);
    ghost var before := dst[..];
    SplitUV(dst, ru, up, rv, vp, cache, 0, w16, w, k);
    DeinterleavedSameSource(before, ru, up, rv, vp, cache[..], 0, w16, src[..], rs, sp, w, k);
  }

  /**
   * SSE_SplitPlanes: the rows go in blocks of `hstep = cache_size / w2_16`
   * rows, each block first copied from the source into the cache at pitch
   * `w2_16 = round_up(2w, 16)` and then split from the cache into the U and
   * V planes. The planes end exactly as after a direct split. The C code
   * asserts `hstep > 0`.
   */
  method SplitPlanes(dst: array<Byte>, uo: nat, up: nat, vo: nat, vp: nat, src: array<Byte>, so: nat, sp: nat,
    cache: array<Byte>, cacheSize: U32, w: U32, h: U32)
    requires dst != src && cache != dst && cache != src && cacheSize <= cache.Length
    requires 2 * w < U32_MOD && 0 < W16(2 * w) && cacheSize / W16(2 * w) > 0
    requires SplitFits(dst.Length, uo, up, vo, vp, src.Length, so, sp, w, h)
    modifies dst, cache
    ensures dst[..] == Deinterleaved(old(dst[..]), uo, up, vo, vp, src[..], so, sp, w, h)
  {
    var w2 := 2 * w;
    var w2_16 := W16(w2);
    W16Above(w2);
    var hstep := cacheSize / w2_16;
    var y: U32 := 0;
    while y < h
      invariant y <= h
      invariant SplitFits(dst.Length, uo, up, vo, vp, src.Length, so, sp, w, y)
      invariant dst[..] == Deinterleaved(old(dst[..]), uo, up, vo, vp, src[..], so, sp, w, y)
      decreases h - y
    {
      var hblock := Min(hstep, h - y);
      var ru, rv, rs := RowStart(uo, up, y), RowStart(vo, vp, y), RowStart(so, sp, y);
      SplitFitsFewer(dst.Length, uo, up, vo, vp, src.Length, so, sp, w, h, y + hblock);
      DeinterleavedSplit(old(dst[..]), uo, up, vo, vp, src[..], so, sp, w, y, hblock);
      SplitFitsRow(dst.Length, uo, up, vo, vp, src.Length, so, sp, w, h, y);
      CacheFits(cache.Length, cacheSize, w2_16, w2, hblock);
      SplitBlock(dst, ru, up, rv, vp, src, rs, sp, cache, w2_16, w, hblock);
      y := y + hblock;
    }
  }

  // ---------------------------------------------------------------------
  // Interleave: two chroma planes into the one plane of NV12

  /** One row of a merge: byte x of the U row goes to `2x` of the destination row, byte x of the V row to `2x + 1`. */
  function MergeRow(d: seq<Byte>, o: int, s: seq<Byte>, uo: int, vo: int, w: nat): (r: seq<Byte>)
    requires 0 <= o && o + 2 * w <= |d| && 0 <= uo && uo + w <= |s| && 0 <= vo && vo + w <= |s|
    ensures |r| == |d|
  {
    if w == 0 then d
    else MergeRow(d, o, s, uo, vo, w - 1)[o + 2 * (w - 1) := s[uo + w - 1]][o + 2 * (w - 1) + 1 := s[vo + w - 1]]
  }

  /**
   * MergeUVPlane on byte sequences: for each of `h` rows, the U row (origin
   * `uo`, pitch `up`) and the V row (origin `vo`, pitch `vp`) of `s` are
   * interleaved, `w` bytes each, into the row of `d` at origin `o`, pitch `p`.
   */
  function Interleaved(d: seq<Byte>, o: int, p: nat, s: seq<Byte>, uo: int, up: nat, vo: int, vp: nat,
    w: nat, h: nat): (r: seq<Byte>)
    requires Fits(|d|, o, p, 2 * w, h) && Fits(|s|, uo, up, w, h) && Fits(|s|, vo, vp, w, h)
    ensures |r| == |d|
    decreases h
  {
    if h == 0 then d
    else
      FitsFewer(|d|, o, p, 2 * w, h, h - 1);
      FitsFewer(|s|, uo, up, w, h, h - 1);
      FitsFewer(|s|, vo, vp, w, h, h - 1);
      FitsRow(|d|, o, p, 2 * w, h, h - 1);
      FitsRow(|s|, uo, up, w, h, h - 1);
      FitsRow(|s|, vo, vp, w, h, h - 1);
      MergeRow(Interleaved(d, o, p, s, uo, up, vo, vp, w, h - 1), RowStart(o, p, h - 1), s,
        RowStart(uo, up, h - 1), RowStart(vo, vp, h - 1), w)
  }

  /**
   * With a destination pitch of at least `2w`, byte `2x` of destination row
   * y is byte x of U row y, and byte `2x + 1` is byte x of V row y.
   */
  lemma {:induction false} InterleavedAt(d: seq<Byte>, o: int, p: nat, s: seq<Byte>, uo: int, up: nat, vo: int,
    vp: nat, w: nat, h: nat, y: nat, x: nat)
    requires Fits(|d|, o, p, 2 * w, h) && Fits(|s|, uo, up, w, h) && Fits(|s|, vo, vp, w, h)
    requires p >= 2 * w && y < h && x < w
    ensures 0 <= RowStart(o, p, y) + 2 * x && RowStart(o, p, y) + 2 * x + 1 < |d|
    ensures 0 <= RowStart(uo, up, y) + x < |s| && 0 <= RowStart(vo, vp, y) + x < |s|
    ensures Interleaved(d, o, p, s, uo, up, vo, vp, w, h)[RowStart(o, p, y) + 2 * x] == s[RowStart(uo, up, y) + x]
    ensures Interleaved(d, o, p, s, uo, up, vo, vp, w, h)[RowStart(o, p, y) + 2 * x + 1] == s[RowStart(vo, vp, y) + x]
    decreases h
  {
    FitsRow(|d|, o, p, 2 * w, h, y);
    FitsRow(|s|, uo, up, w, h, y);
    FitsRow(|s|, vo, vp, w, h, y);
    if y < h - 1 {
      FitsFewer(|d|, o, p, 2 * w, h, h - 1);
      FitsFewer(|s|, uo, up, w, h, h - 1);
      FitsFewer(|s|, vo, vp, w, h, h - 1);
      InterleavedAt(d, o, p, s, uo, up, vo, vp, w, h - 1, y, x);
      InterleavedAbove(d, o, p, s, uo, up, vo, vp, w, h, y, x);
    } else {
      InterleavedLast(d, o, p, s, uo, up, vo, vp, w, h, y, x);
    }
  }

  /** The last row merged leaves a pair of an earlier row as the rows above wrote it. */
  lemma {:induction false} InterleavedAbove(d: seq<Byte>, o: int, p: nat, s: seq<Byte>, uo: int, up: nat, vo: int,
    vp: nat, w: nat, h: nat, y: nat, x: nat)
    requires Fits(|d|, o, p, 2 * w, h) && Fits(|s|, uo, up, w, h) && Fits(|s|, vo, vp, w, h)
    requires p >= 2 * w && y < h - 1 && x < w
    requires Fits(|d|, o, p, 2 * w, h - 1) && Fits(|s|, uo, up, w, h - 1) && Fits(|s|, vo, vp, w, h - 1)
    requires 0 <= RowStart(o, p, y) + 2 * x && RowStart(o, p, y) + 2 * x + 1 < |d|
    requires 0 <= RowStart(uo, up, y) + x < |s| && 0 <= RowStart(vo, vp, y) + x < |s|
    requires Interleaved(d, o, p, s, uo, up, vo, vp, w, h - 1)[RowStart(o, p, y) + 2 * x] == s[RowStart(uo, up, y) + x]
    requires Interleaved(d, o, p, s, uo, up, vo, vp, w, h - 1)[RowStart(o, p, y) + 2 * x + 1] == s[RowStart(vo, vp, y) + x]
    ensures Interleaved(d, o, p, s, uo, up, vo, vp, w, h)[RowStart(o, p, y) + 2 * x] == s[RowStart(uo, up, y) + x]
    ensures Interleaved(d, o, p, s, uo, up, vo, vp, w, h)[RowStart(o, p, y) + 2 * x + 1] == s[RowStart(vo, vp, y) + x]
  {
    FitsRow(|d|, o, p, 2 * w, h, h - 1);
    FitsRow(|s|, uo, up, w, h, h - 1);
    FitsRow(|s|, vo, vp, w, h, h - 1);
    var above := Interleaved(d, o, p, s, uo, up, vo, vp, w, h - 1);
    var last, lu, lv := RowStart(o, p, h - 1), RowStart(uo, up, h - 1), RowStart(vo, vp, h - 1);
    assert Interleaved(d, o, p, s, uo, up, vo, vp, w, h) == MergeRow(above, last, s, lu, lv, w);
    PairAbove(o, p, w, y, h - 1, x);
    MergeRowKeepsPair(above, last, s, lu, lv, w, RowStart(o, p, y) + 2 * x);
  }

  /** The last row merged puts byte x of its U and V rows at `2x` and `2x + 1`. */
  lemma {:induction false} InterleavedLast(d: seq<Byte>, o: int, p: nat, s: seq<Byte>, uo: int, up: nat, vo: int,
    vp: nat, w: nat, h: nat, y: nat, x: nat)
    requires Fits(|d|, o, p, 2 * w, h) && Fits(|s|, uo, up, w, h) && Fits(|s|, vo, vp, w, h)
    requires y + 1 == h && x < w
    requires 0 <= RowStart(o, p, y) + 2 * x && RowStart(o, p, y) + 2 * x + 1 < |d|
    requires 0 <= RowStart(uo, up, y) + x < |s| && 0 <= RowStart(vo, vp, y) + x < |s|
    ensures Interleaved(d, o, p, s, uo, up, vo, vp, w, h)[RowStart(o, p, y) + 2 * x] == s[RowStart(uo, up, y) + x]
    ensures Interleaved(d, o, p, s, uo, up, vo, vp, w, h)[RowStart(o, p, y) + 2 * x + 1] == s[RowStart(vo, vp, y) + x]
  {
    FitsFewer(|d|, o, p, 2 * w, h, y);
    FitsFewer(|s|, uo, up, w, h, y);
    FitsFewer(|s|, vo, vp, w, h, y);
    FitsRow(|d|, o, p, 2 * w, h, y);
    FitsRow(|s|, uo, up, w, h, y);
    FitsRow(|s|, vo, vp, w, h, y);
    var above := Interleaved(d, o, p, s, uo, up, vo, vp, w, y);
    MergeRowPair(above, RowStart(o, p, y), s, RowStart(uo, up, y), RowStart(vo, vp, y), w, x);
  }

  /** The pair of bytes at `2x` of row `y` lies before row `r > y` when the pitch is at least `2w`. */
  lemma {:induction false} PairAbove(o: int, p: nat, w: nat, y: nat, r: nat, x: nat)
    requires p >= 2 * w && y < r && x < w
    ensures !InRow(RowStart(o, p, y) + 2 * x, RowStart(o, p, r), 2 * w)
    ensures !InRow(RowStart(o, p, y) + 2 * x + 1, RowStart(o, p, r), 2 * w)
  {
    RowsApart(o, p, 2 * w, y, r, 2 * x + 1);
  }

  /** Byte x of the U row lands at `2x` of the destination row and byte x of the V row at `2x + 1`. */
  lemma {:induction false} MergeRowPair(d: seq<Byte>, o: int, s: seq<Byte>, uo: int, vo: int, w: nat, x: nat)
    requires 0 <= o && o + 2 * w <= |d| && 0 <= uo && uo + w <= |s| && 0 <= vo && vo + w <= |s| && x < w
    ensures MergeRow(d, o, s, uo, vo, w)[o + 2 * x] == s[uo + x]
    ensures MergeRow(d, o, s, uo, vo, w)[o + 2 * x + 1] == s[vo + x]
    decreases w
  {
    if x < w - 1 {
      MergeRowPair(d, o, s, uo, vo, w - 1, x);
    }
  }

  /** A row merge leaves every byte outside its `2w` destination bytes as it was. */
  lemma {:induction false} MergeRowKeeps(d: seq<Byte>, o: int, s: seq<Byte>, uo: int, vo: int, w: nat, i: int)
    requires 0 <= o && o + 2 * w <= |d| && 0 <= uo && uo + w <= |s| && 0 <= vo && vo + w <= |s|
    requires 0 <= i < |d| && !InRow(i, o, 2 * w)
    ensures MergeRow(d, o, s, uo, vo, w)[i] == d[i]
    decreases w
  {
    if w > 0 {
      MergeRowKeeps(d, o, s, uo, vo, w - 1, i);
    }
  }

  /** A row merge leaves a pair of bytes outside its destination bytes as it was. */
  lemma {:induction false} MergeRowKeepsPair(d: seq<Byte>, o: int, s: seq<Byte>, uo: int, vo: int, w: nat, i: int)
    requires 0 <= o && o + 2 * w <= |d| && 0 <= uo && uo + w <= |s| && 0 <= vo && vo + w <= |s|
    requires 0 <= i && i + 1 < |d| && !InRow(i, o, 2 * w) && !InRow(i + 1, o, 2 * w)
    ensures MergeRow(d, o, s, uo, vo, w)[i] == d[i] && MergeRow(d, o, s, uo, vo, w)[i + 1] == d[i + 1]
  {
    MergeRowKeeps(d, o, s, uo, vo, w, i);
    MergeRowKeeps(d, o, s, uo, vo, w, i + 1);
  }

  /** Bytes outside every destination row (the padding included) are left as they were. */
  lemma {:induction false} InterleavedElsewhere(d: seq<Byte>, o: int, p: nat, s: seq<Byte>, uo: int, up: nat,
    vo: int, vp: nat, w: nat, h: nat, i: int)
    requires Fits(|d|, o, p, 2 * w, h) && Fits(|s|, uo, up, w, h) && Fits(|s|, vo, vp, w, h) && 0 <= i < |d|
    requires forall y :: 0 <= y < h ==> !InRow(i, RowStart(o, p, y), 2 * w)
    ensures Interleaved(d, o, p, s, uo, up, vo, vp, w, h)[i] == d[i]
    decreases h
  {
    if h > 0 {
      FitsFewer(|d|, o, p, 2 * w, h, h - 1);
      FitsFewer(|s|, uo, up, w, h, h - 1);
      FitsFewer(|s|, vo, vp, w, h, h - 1);
      InterleavedElsewhere(d, o, p, s, uo, up, vo, vp, w, h - 1, i);
      assert !InRow(i, RowStart(o, p, h - 1), 2 * w);
      FitsRow(|d|, o, p, 2 * w, h, h - 1);
      FitsRow(|s|, uo, up, w, h, h - 1);
      FitsRow(|s|, vo, vp, w, h, h - 1);
      MergeRowKeeps(Interleaved(d, o, p, s, uo, up, vo, vp, w, h - 1), RowStart(o, p, h - 1), s,
        RowStart(uo, up, h - 1), RowStart(vo, vp, h - 1), w, i);
    }
  }

  /** The inner loop of MergeUVPlane: one row, U byte then V byte for each x. */
  method MergeOneRow(dst: array<Byte>, o: nat, src: array<Byte>, uo: nat, vo: nat, w: nat)
    requires dst != src && o + 2 * w <= dst.Length && uo + w <= src.Length && vo + w <= src.Length
    modifies dst
    ensures dst[..] == MergeRow(old(dst[..]), o, src[..], uo, vo, w)
  {
    var x := 0;
    while x < w
      invariant x <= w
      invariant dst[..] == MergeRow(old(dst[..]), o, src[..], uo, vo, x)
    {
      dst[o + 2 * x] := src[uo + x];
      dst[o + 2 * x + 1] := src[vo + x];
      x := x + 1;
    }
  }

  /** libyuv's MergeUVPlane (foreign; its scalar meaning): the three row pointers advance by their pitches. */
  method MergeUVPlane(dst: array<Byte>, o: nat, p: nat, src: array<Byte>, uo: nat, up: nat, vo: nat, vp: nat,
    w: nat, h: nat)
    requires dst != src
    requires Fits(dst.Length, o, p, 2 * w, h) && Fits(src.Length, uo, up, w, h) && Fits(src.Length, vo, vp, w, h)
    modifies dst
    ensures dst[..] == Interleaved(old(dst[..]), o, p, src[..], uo, up, vo, vp, w, h)
  {
    var y, ro, ru, rv := 0, o, uo, vo;
    while y < h
      invariant y <= h && ro == RowStart(o, p, y) && ru == RowStart(uo, up, y) && rv == RowStart(vo, vp, y)
      invariant Fits(dst.Length, o, p, 2 * w, y) && Fits(src.Length, uo, up, w, y) && Fits(src.Length, vo, vp, w, y)
      invariant dst[..] == Interleaved(old(dst[..]), o, p, src[..], uo, up, vo, vp, w, y)
    {
      FitsRow(dst.Length, o, p, 2 * w, h, y);
      FitsRow(src.Length, uo, up, w, h, y);
      FitsRow(src.Length, vo, vp, w, h, y);
      MergeOneRow(dst, ro, src, ru, rv, w);
      FitsFewer(dst.Length, o, p, 2 * w, h, y + 1);
      FitsFewer(src.Length, uo, up, w, h, y + 1);
      FitsFewer(src.Length, vo, vp, w, h, y + 1);
      y, ro, ru, rv := y + 1, ro + p, ru + up, rv + vp;
    }
  }

  // ---------------------------------------------------------------------
  // libyuv conversions (foreign; their scalar meaning)

  /** `(v + 1) / 2`: the chroma width or height of a 4:2:0 frame. */
  function Half(v: nat): nat
  {
    (v + 1) / 2
  }

  /**
   * libyuv NV12ToI420: -1 for a zero width or height; otherwise luma
   * copied at `w` x `h` and the chroma plane split at half the size,
   * rounded up.
   */
  method NV12ToI420(src: array<Byte>, sy: nat, syp: nat, suv: nat, suvp: nat,
    dst: array<Byte>, dy: nat, dyp: nat, du: nat, dup: nat, dv: nat, dvp: nat, w: nat, h: nat) returns (r: int)
    requires dst != src && Fits(dst.Length, dy, dyp, w, h) && Fits(src.Length, sy, syp, w, h)
    requires SplitFits(dst.Length, du, dup, dv, dvp, src.Length, suv, suvp, Half(w), Half(h))
    modifies dst
    ensures r == if w == 0 || h == 0 then -1 else 0
    ensures r != 0 ==> dst[..] == old(dst[..])
    ensures r == 0 ==> dst[..] == Deinterleaved(Copied(old(dst[..]), dy, dyp, src[..], sy, syp, w, h),
      du, dup, dv, dvp, src[..], suv, suvp, Half(w), Half(h))
  {
    if w == 0 || h == 0 {
      return -1;
    }
    CopyRows(dst, dy, dyp, src, sy, syp, w, h);
    SplitRows(dst, du, dup, dv, dvp, src, suv, suvp, Half(w), Half(h));
    return 0;
  }

  /** libyuv I420Copy: -1 for a zero width or height; otherwise the three planes copied, chroma at half size rounded up. */
  method I420Copy(src: array<Byte>, sy: nat, syp: nat, su: nat, sup: nat, sv: nat, svp: nat,
    dst: array<Byte>, dy: nat, dyp: nat, du: nat, dup: nat, dv: nat, dvp: nat, w: nat, h: nat) returns (r: int)
    requires dst != src && Fits(dst.Length, dy, dyp, w, h) && Fits(src.Length, sy, syp, w, h)
    requires Fits(dst.Length, du, dup, Half(w), Half(h)) && Fits(src.Length, su, sup, Half(w), Half(h))
    requires Fits(dst.Length, dv, dvp, Half(w), Half(h)) && Fits(src.Length, sv, svp, Half(w), Half(h))
    modifies dst
    ensures r == if w == 0 || h == 0 then -1 else 0
    ensures r != 0 ==> dst[..] == old(dst[..])
    ensures r == 0 ==> dst[..] == Copied(Copied(Copied(old(dst[..]), dy, dyp, src[..], sy, syp, w, h),
      du, dup, src[..], su, sup, Half(w), Half(h)), dv, dvp, src[..], sv, svp, Half(w), Half(h))
  {
    if w == 0 || h == 0 {
      return -1;
    }
    CopyRows(dst, dy, dyp, src, sy, syp, w, h);
    CopyRows(dst, du, dup, src, su, sup, Half(w), Half(h));
    CopyRows(dst, dv, dvp, src, sv, svp, Half(w), Half(h));
    return 0;
  }

  /** libyuv I420ToNV12: -1 for a zero width or height; otherwise luma copied and the chroma planes merged at half size. */
  method I420ToNV12(src: array<Byte>, sy: nat, syp: nat, su: nat, sup: nat, sv: nat, svp: nat,
    dst: array<Byte>, dy: nat, dyp: nat, duv: nat, duvp: nat, w: nat, h: nat) returns (r: int)
    requires dst != src && Fits(dst.Length, dy, dyp, w, h) && Fits(src.Length, sy, syp, w, h)
    requires Fits(dst.Length, duv, duvp, 2 * Half(w), Half(h))
    requires Fits(src.Length, su, sup, Half(w), Half(h)) && Fits(src.Length, sv, svp, Half(w), Half(h))
    modifies dst
    ensures r == if w == 0 || h == 0 then -1 else 0
    ensures r != 0 ==> dst[..] == old(dst[..])
    ensures r == 0 ==> dst[..] == Interleaved(Copied(old(dst[..]), dy, dyp, src[..], sy, syp, w, h),
      duv, duvp, src[..], su, sup, sv, svp, Half(w), Half(h))
  {
    if w == 0 || h == 0 {
      return -1;
    }
    CopyRows(dst, dy, dyp, src, sy, syp, w, h);
    MergeUVPlane(dst, duv, duvp, src, su, sup, sv, svp, Half(w), Half(h));
    return 0;
  }

  // ---------------------------------------------------------------------
  // Conversion between images of the same size

  /** Plane `n` of an image has a pixel pointer, at a non-negative position of its block. */
  predicate PlaneAt(s: ImageState, n: nat)
  {
    WellShaped(s) && n < MAX_PLANES && s.pixels[n].At? && s.pixels[n].pos >= 0
  }

  function Pos(s: ImageState, n: nat): nat
    requires PlaneAt(s, n)
  {
    s.pixels[n].pos
  }

  /** The first `k` planes of an image point into block `b`. */
  predicate PlanesOn(s: ImageState, k: nat, b: array<Byte>)
  {
    forall n :: 0 <= n < k ==> PlaneAt(s, n) && s.pixels[n].block == b
  }

  /** The conversions the dispatch supports, by (source, destination) format. */
  datatype Route = NoRoute | NV12ToI420Route | I420CopyRoute | I420ToNV12Route

  function RouteOf(dstFormat: int, srcFormat: int): Route
  {
    if srcFormat == NV12 && dstFormat == I420 then NV12ToI420Route
    else if srcFormat == I420 && dstFormat == I420 then I420CopyRoute
    else if srcFormat == I420 && dstFormat == NV12 then I420ToNV12Route
    else NoRoute
  }

  /** Number of destination and of source planes a route uses. */
  function DstPlanes(r: Route): nat
  {
    match r
    case NoRoute => 0
    case I420ToNV12Route => 2
    case _ => 3
  }

  function SrcPlanes(r: Route): nat
  {
    match r
    case NoRoute => 0
    case NV12ToI420Route => 2
    case _ => 3
  }

  /**
   * The planes a route reads and writes, at the sizes it uses (the
   * destination's size, chroma at half of it rounded up), lie inside a
   * destination block of `dlen` and a source block of `slen` bytes.
   */
  predicate RouteFits(r: Route, d: ImageState, dlen: int, s: ImageState, slen: int)
  {
    var w, h, cw, ch := d.width as nat, d.height as nat, Half(d.width), Half(d.height);
    match r
    case NoRoute => true
    case NV12ToI420Route =>
      PlaneAt(d, 0) && PlaneAt(d, 1) && PlaneAt(d, 2) && PlaneAt(s, 0) && PlaneAt(s, 1) &&
      Fits(dlen, Pos(d, 0), d.pitches[0], w, h) && Fits(slen, Pos(s, 0), s.pitches[0], w, h) &&
      SplitFits(dlen, Pos(d, 1), d.pitches[1], Pos(d, 2), d.pitches[2], slen, Pos(s, 1), s.pitches[1], cw, ch)
    case I420CopyRoute =>
      PlaneAt(d, 0) && PlaneAt(d, 1) && PlaneAt(d, 2) && PlaneAt(s, 0) && PlaneAt(s, 1) && PlaneAt(s, 2) &&
      Fits(dlen, Pos(d, 0), d.pitches[0], w, h) && Fits(slen, Pos(s, 0), s.pitches[0], w, h) &&
      Fits(dlen, Pos(d, 1), d.pitches[1], cw, ch) && Fits(slen, Pos(s, 1), s.pitches[1], cw, ch) &&
      Fits(dlen, Pos(d, 2), d.pitches[2], cw, ch) && Fits(slen, Pos(s, 2), s.pitches[2], cw, ch)
    case I420ToNV12Route =>
      PlaneAt(d, 0) && PlaneAt(d, 1) && PlaneAt(s, 0) && PlaneAt(s, 1) && PlaneAt(s, 2) &&
      Fits(dlen, Pos(d, 0), d.pitches[0], w, h) && Fits(slen, Pos(s, 0), s.pitches[0], w, h) &&
      Fits(dlen, Pos(d, 1), d.pitches[1], 2 * cw, ch) &&
      Fits(slen, Pos(s, 1), s.pitches[1], cw, ch) && Fits(slen, Pos(s, 2), s.pitches[2], cw, ch)
  }

  /** The destination block after a route has run: luma copied, then the chroma copied, split or merged. */
  function RouteBytes(r: Route, d: ImageState, db: seq<Byte>, s: ImageState, sb: seq<Byte>): (b: seq<Byte>)
    requires RouteFits(r, d, |db|, s, |sb|)
    ensures |b| == |db|
  {
    var w, h, cw, ch := d.width as nat, d.height as nat, Half(d.width), Half(d.height);
    match r
    case NoRoute => db
    case NV12ToI420Route =>
      Deinterleaved(Copied(db, Pos(d, 0), d.pitches[0], sb, Pos(s, 0), s.pitches[0], w, h),
        Pos(d, 1), d.pitches[1], Pos(d, 2), d.pitches[2], sb, Pos(s, 1), s.pitches[1], cw, ch)
    case I420CopyRoute => CopiedPlanes(d, db, s, sb, 3)
    case I420ToNV12Route =>
      Interleaved(Copied(db, Pos(d, 0), d.pitches[0], sb, Pos(s, 0), s.pitches[0], w, h),
        Pos(d, 1), d.pitches[1], sb, Pos(s, 1), s.pitches[1], Pos(s, 2), s.pitches[2], cw, ch)
  }

  /**
   * After NV12 to I420, each U and V sample of the destination is the even
   * and the odd byte of the same pair of the NV12 chroma plane.
   */
  lemma {:induction false} NV12ToI420Chroma(d: ImageState, db: seq<Byte>, s: ImageState, sb: seq<Byte>, y: nat, x: nat)
    requires RouteFits(NV12ToI420Route, d, |db|, s, |sb|)
    requires d.pitches[1] >= Half(d.width) && d.pitches[2] >= Half(d.width)
    requires SpansApart(Pos(d, 1), d.pitches[1], Pos(d, 2), d.pitches[2], Half(d.width), Half(d.height))
    requires y < Half(d.height) && x < Half(d.width)
    ensures 0 <= RowStart(Pos(d, 1), d.pitches[1], y) + x < |db| && 0 <= RowStart(Pos(d, 2), d.pitches[2], y) + x < |db|
    ensures 0 <= RowStart(Pos(s, 1), s.pitches[1], y) && RowStart(Pos(s, 1), s.pitches[1], y) + 2 * x + 1 < |sb|
    ensures RouteBytes(NV12ToI420Route, d, db, s, sb)[RowStart(Pos(d, 1), d.pitches[1], y) + x] ==
      sb[RowStart(Pos(s, 1), s.pitches[1], y) + 2 * x]
    ensures RouteBytes(NV12ToI420Route, d, db, s, sb)[RowStart(Pos(d, 2), d.pitches[2], y) + x] ==
      sb[RowStart(Pos(s, 1), s.pitches[1], y) + 2 * x + 1]
  {
    var luma := Copied(db, Pos(d, 0), d.pitches[0], sb, Pos(s, 0), s.pitches[0], d.width, d.height);
    DeinterleavedAt(luma, Pos(d, 1), d.pitches[1], Pos(d, 2), d.pitches[2], sb, Pos(s, 1), s.pitches[1],
      Half(d.width), Half(d.height), y, x);
  }

  /**
   * After I420 to NV12, each pair of the destination chroma plane is the U
   * sample followed by the V sample at the same place.
   */
  lemma {:induction false} I420ToNV12Chroma(d: ImageState, db: seq<Byte>, s: ImageState, sb: seq<Byte>, y: nat, x: nat)
    requires RouteFits(I420ToNV12Route, d, |db|, s, |sb|)
    requires d.pitches[1] >= 2 * Half(d.width) && y < Half(d.height) && x < Half(d.width)
    ensures 0 <= RowStart(Pos(d, 1), d.pitches[1], y) + 2 * x && RowStart(Pos(d, 1), d.pitches[1], y) + 2 * x + 1 < |db|
    ensures 0 <= RowStart(Pos(s, 1), s.pitches[1], y) + x < |sb| && 0 <= RowStart(Pos(s, 2), s.pitches[2], y) + x < |sb|
    ensures RouteBytes(I420ToNV12Route, d, db, s, sb)[RowStart(Pos(d, 1), d.pitches[1], y) + 2 * x] ==
      sb[RowStart(Pos(s, 1), s.pitches[1], y) + x]
    ensures RouteBytes(I420ToNV12Route, d, db, s, sb)[RowStart(Pos(d, 1), d.pitches[1], y) + 2 * x + 1] ==
      sb[RowStart(Pos(s, 2), s.pitches[2], y) + x]
  {
    var luma := Copied(db, Pos(d, 0), d.pitches[0], sb, Pos(s, 0), s.pitches[0], d.width, d.height);
    InterleavedAt(luma, Pos(d, 1), d.pitches[1], sb, Pos(s, 1), s.pitches[1], Pos(s, 2), s.pitches[2],
      Half(d.width), Half(d.height), y, x);
  }

  /** Bit 31 of the flags asks for the copy that reads the source the way USWC memory wants to be read. */
  predicate FromUswc(flags: U32)
  {
    flags >= FLAG_FROM_USWC
  }

  /** The fast path is tried for an I420 destination and an NV12 or I420 source. */
  predicate UswcRoute(flags: U32, dstFormat: int, srcFormat: int)
  {
    FromUswc(flags) && dstFormat == I420 && (srcFormat == NV12 || srcFormat == I420)
  }

  /** The outcome of a conversion: success, and the destination block afterwards. */
  datatype Outcome = Outcome(ok: bool, bytes: seq<Byte>)

  /**
   * image_convert_internal: an unsupported pair fails; the fast path always
   * succeeds; libyuv fails on a zero width or height. Only a success writes.
   */
  function Pass(flags: U32, d: ImageState, db: seq<Byte>, s: ImageState, sb: seq<Byte>): (o: Outcome)
    requires RouteFits(RouteOf(d.format, s.format), d, |db|, s, |sb|)
    ensures |o.bytes| == |db|
  {
    var r := RouteOf(d.format, s.format);
    if r != NoRoute && (UswcRoute(flags, d.format, s.format) || (d.width > 0 && d.height > 0)) then
      Outcome(true, RouteBytes(r, d, db, s, sb))
    else
      Outcome(false, db)
  }

  predicate TopField(flags: U32) { flags % 2 == 1 }
  predicate BottomField(flags: U32) { flags / 2 % 2 == 1 }

  /** Every pass mvt_image_convert_full makes fits: the whole frame, or each field asked for. */
  predicate FullFits(flags: U32, d: ImageState, dlen: int, s: ImageState, slen: int)
    requires WellShaped(d) && WellShaped(s) && GetInfo(d.format).Some? && GetInfo(s.format).Some?
  {
    var r := RouteOf(d.format, s.format);
    (flags % 4 == 0 ==> RouteFits(r, d, dlen, s, slen)) &&
    (TopField(flags) ==> RouteFits(r, FieldView(d, VA_TOP_FIELD), dlen, FieldView(s, VA_TOP_FIELD), slen)) &&
    (BottomField(flags) ==> RouteFits(r, FieldView(d, VA_BOTTOM_FIELD), dlen, FieldView(s, VA_BOTTOM_FIELD), slen))
  }

  /**
   * mvt_image_convert_full once both formats are known: without a field
   * flag one pass over the frame; otherwise the top field and then the
   * bottom field, each converted through field views, stopping at the
   * first failure.
   */
  function FullOutcome(flags: U32, d: ImageState, db: seq<Byte>, s: ImageState, sb: seq<Byte>): (o: Outcome)
    requires WellShaped(d) && WellShaped(s) && GetInfo(d.format).Some? && GetInfo(s.format).Some?
    requires FullFits(flags, d, |db|, s, |sb|)
    ensures |o.bytes| == |db|
  {
    if flags % 4 == 0 then Pass(flags, d, db, s, sb)
    else
      var top := if TopField(flags) then Pass(flags, FieldView(d, VA_TOP_FIELD), db, FieldView(s, VA_TOP_FIELD), sb)
        else Outcome(true, db);
      if top.ok && BottomField(flags) then
        Pass(flags, FieldView(d, VA_BOTTOM_FIELD), top.bytes, FieldView(s, VA_BOTTOM_FIELD), sb)
      else top
  }

  // ---------------------------------------------------------------------
  // The fast path and the dispatch on images

  /** The copy cache an image may own: the only buffer besides the pixels that the fast path writes. */
  function CacheOf(p: Priv?): set<object>
    reads p
  {
    if p != null && p.copyCache != null then {p.copyCache} else {}
  }

  /**
   * An existing copy cache is a buffer of its own, with its recorded size
   * inside it and at least one row of `round_up(width, 16)` bytes, since the
   * C code asserts a block height `hstep > 0`.
   */
  predicate CacheReady(p: Priv?, width: U32, db: array<Byte>, sb: array<Byte>)
    reads p
  {
    p != null && p.copyCache != null ==>
      p.copyCache != db && p.copyCache != sb && W16(width) <= p.copyCacheSize <= p.copyCache.Length
  }

  /**
   * For `0 < w < 2^31` the cache rows of the chroma copies and splits, at
   * `(w + 1) / 2` and `2 * ((w + 1) / 2)` bytes, are no wider than the
   * luma's: an odd `w` is not a multiple of 16, so `w + 1` rounds up the same.
   */
  lemma {:induction false} W16Chroma(w: U32)
    requires 0 < w < 0x8000_0000
    ensures w <= W16(w)
    ensures 0 < W16(Half(w)) <= W16(w)
    ensures 2 * Half(w) < U32_MOD && 0 < W16(2 * Half(w)) <= W16(w)
  {
    W16Bounds(w);
    W16Half(w);
    W16Pair(w);
  }

  /** Up to `2^31` the cache pitch is a multiple of 16 in `[w, w + 16)`. */
  lemma {:induction false} W16Bounds(w: U32)
    requires w <= 0x8000_0000
    ensures W16(w) % 16 == 0 && w <= W16(w) < w + 16
  {
    Pow2Sixteen();
    RoundUpBounds(w, 16);
  }

  lemma {:induction false} W16Half(w: U32)
    requires 0 < w < 0x8000_0000
    ensures 0 < W16(Half(w)) <= W16(w)
  {
    W16Bounds(w);
    W16Bounds(Half(w));
    Pow2Sixteen();
    RoundUpLeast(Half(w), 16, W16(w));
  }

  lemma {:induction false} W16Pair(w: U32)
    requires 0 < w < 0x8000_0000
    ensures 2 * Half(w) < U32_MOD && 0 < W16(2 * Half(w)) <= W16(w)
  {
    var r, c2 := W16(w), 2 * Half(w);
    W16Bounds(w);
    W16Bounds(c2);
    if c2 != w {
      EvenMultiple(r);
    }
    Pow2Sixteen();
    RoundUpLeast(c2, 16, r);
  }

  lemma {:induction false} EvenMultiple(r: nat)
    requires r % 16 == 0
    ensures r % 2 == 0
  {
    assert r == 16 * (r / 16);
  }

  /** A cache with room for one luma row has room for at least one row of every plane copy and split. */
  lemma {:induction false} CacheRows(size: nat, w: U32)
    requires 0 < w < 0x8000_0000 && W16(w) <= size
    ensures 0 < W16(w) && size / W16(w) > 0
    ensures 0 < W16(Half(w)) && size / W16(Half(w)) > 0
    ensures 2 * Half(w) < U32_MOD && 0 < W16(2 * Half(w)) && size / W16(2 * Half(w)) > 0
  {
    W16Chroma(w);
    DivAtLeastOne(size, W16(w));
    DivAtLeastOne(size, W16(Half(w)));
    DivAtLeastOne(size, W16(2 * Half(w)));
  }

  lemma {:induction false} DivAtLeastOne(a: nat, b: nat)
    requires 0 < b <= a
    ensures a / b > 0
  {
  }

  /**
   * ensure_copy_cache: the image gets a private part if it has none, and
   * the private part gets a cache of `max(round_up(width, 16), 4096)` bytes
   * if it has none. Allocation does not fail in this model.
   */
  method EnsureCopyCache(image: Image) returns (p: Priv)
    modifies image, image.priv
    ensures image.State() == old(image.State()).(priv := p)
    ensures old(image.priv) != null ==> p == old(image.priv) && p.dataBase == old(image.priv.dataBase)
    ensures old(image.priv) == null ==> fresh(p) && p.dataBase == null
    ensures old(image.priv) != null && old(image.priv.copyCache) != null ==>
      p.copyCache == old(image.priv.copyCache) && p.copyCacheSize == old(image.priv.copyCacheSize)
    ensures old(image.priv) == null || old(image.priv.copyCache) == null ==>
      p.copyCache != null && fresh(p.copyCache) && p.copyCacheSize == Max(W16(image.width), 4096) &&
      p.copyCache.Length == p.copyCacheSize
  {
    p := image.PrivEnsure();
    if p.copyCache == null {
      var size: U32 := Max(W16(image.width), 4096);
      p.copyCacheSize := size;
      p.copyCache := new Byte[size];
    }
  }

  /**
   * SSE_CopyFromNV12: luma through the cache at the full size, then the
   * chroma split through the cache at half the size rounded up.
   */
  method CopyFromNV12(dst: Image, src: Image, db: array<Byte>, sb: array<Byte>)
    requires dst != src && db != sb && dst.Valid() && src.Valid()
    requires 0 < dst.width < 0x8000_0000 && dst.height < 0x8000_0000
    requires PlanesOn(dst.State(), 3, db) && PlanesOn(src.State(), 2, sb)
    requires RouteFits(NV12ToI420Route, dst.State(), db.Length, src.State(), sb.Length)
    requires CacheReady(dst.priv, dst.width, db, sb)
    modifies dst, dst.priv, db, CacheOf(dst.priv)
    ensures dst.State() == old(dst.State()).(priv := dst.priv)
    ensures old(dst.priv) != null ==> dst.priv == old(dst.priv)
    ensures db[..] == RouteBytes(NV12ToI420Route, old(dst.State()), old(db[..]), src.State(), old(sb[..]))
  {
    var d, s := dst.State(), src.State();
    var w, h := dst.width, dst.height;
    var p := EnsureCopyCache(dst);
    var cache, size := p.copyCache, p.copyCacheSize;
    assert cache != db && cache != sb && W16(w) <= size <= cache.Length;
    CacheRows(size, w);
    assert PlaneAt(d, 0) && PlaneAt(d, 1) && PlaneAt(d, 2) && PlaneAt(s, 0) && PlaneAt(s, 1);
    CopyPlane(db, Pos(d, 0), d.pitches[0], sb, Pos(s, 0), s.pitches[0], cache, size, w, h);
    SplitPlanes(db, Pos(d, 1), d.pitches[1], Pos(d, 2), d.pitches[2], sb, Pos(s, 1), s.pitches[1],
      cache, size, Half(w), Half(h));
  }

  /** Width and height of plane `n` of an I420 copy: `(v + d - 1) / d` with `d` 1 for luma and 2 for chroma. */
  function PlaneSpan(n: nat, v: nat): nat
  {
    if n > 0 then Half(v) else v
  }

  /** The first `k` planes of an I420 frame copied, one after the other. */
  function CopiedPlanes(d: ImageState, db: seq<Byte>, s: ImageState, sb: seq<Byte>, k: nat): (b: seq<Byte>)
    requires RouteFits(I420CopyRoute, d, |db|, s, |sb|) && k <= 3
    ensures |b| == |db|
  {
    if k == 0 then db
    else
      var n := k - 1;
      Copied(CopiedPlanes(d, db, s, sb, n), Pos(d, n), d.pitches[n], sb, Pos(s, n), s.pitches[n],
        PlaneSpan(n, d.width), PlaneSpan(n, d.height))
  }

  /** The I420 copy is the luma copy, then the U copy, then the V copy. */
  lemma {:induction false} CopiedPlanesThree(d: ImageState, db: seq<Byte>, s: ImageState, sb: seq<Byte>)
    requires RouteFits(I420CopyRoute, d, |db|, s, |sb|)
    ensures CopiedPlanes(d, db, s, sb, 3) ==
      Copied(Copied(Copied(db, Pos(d, 0), d.pitches[0], sb, Pos(s, 0), s.pitches[0], d.width, d.height),
        Pos(d, 1), d.pitches[1], sb, Pos(s, 1), s.pitches[1], Half(d.width), Half(d.height)),
        Pos(d, 2), d.pitches[2], sb, Pos(s, 2), s.pitches[2], Half(d.width), Half(d.height))
  {
    assert CopiedPlanes(d, db, s, sb, 0) == db;
    assert PlaneSpan(0, d.width) == d.width && PlaneSpan(0, d.height) == d.height;
    assert PlaneSpan(1, d.width) == Half(d.width) && PlaneSpan(1, d.height) == Half(d.height);
    assert PlaneSpan(2, d.width) == Half(d.width) && PlaneSpan(2, d.height) == Half(d.height);
    var c1 := CopiedPlanes(d, db, s, sb, 1);
    assert c1 == Copied(db, Pos(d, 0), d.pitches[0], sb, Pos(s, 0), s.pitches[0], d.width, d.height);
    var c2 := CopiedPlanes(d, db, s, sb, 2);
    assert c2 == Copied(c1, Pos(d, 1), d.pitches[1], sb, Pos(s, 1), s.pitches[1], Half(d.width), Half(d.height));
  }

  /** SSE_CopyFromI420: the three planes through the cache, chroma at half the size rounded up. */
  method CopyFromI420(dst: Image, src: Image, db: array<Byte>, sb: array<Byte>)
    requires dst != src && db != sb && dst.Valid() && src.Valid()
    requires 0 < dst.width < 0x8000_0000 && dst.height < 0x8000_0000
    requires PlanesOn(dst.State(), 3, db) && PlanesOn(src.State(), 3, sb)
    requires RouteFits(I420CopyRoute, dst.State(), db.Length, src.State(), sb.Length)
    requires CacheReady(dst.priv, dst.width, db, sb)
    modifies dst, dst.priv, db, CacheOf(dst.priv)
    ensures dst.State() == old(dst.State()).(priv := dst.priv)
    ensures old(dst.priv) != null ==> dst.priv == old(dst.priv)
    ensures db[..] == RouteBytes(I420CopyRoute, old(dst.State()), old(db[..]), src.State(), old(sb[..]))
  {
    var d, s := dst.State(), src.State();
    var w, h := dst.width, dst.height;
    var p := EnsureCopyCache(dst);
    var cache, size := p.copyCache, p.copyCacheSize;
    assert cache != db && cache != sb && W16(w) <= size <= cache.Length;
    CacheRows(size, w);
    var n := 0;
    while n < 3
      invariant n <= 3
      invariant dst.State() == old(dst.State()).(priv := p)
      invariant sb[..] == old(sb[..])
      invariant db[..] == CopiedPlanes(d, old(db[..]), s, sb[..], n)
    {
      var dv := if n > 0 then 2 else 1;
      assert PlaneAt(d, n) && PlaneAt(s, n);
      assert (w + dv - 1) / dv == PlaneSpan(n, w) && (h + dv - 1) / dv == PlaneSpan(n, h);
      CopyPlane(db, Pos(d, n), d.pitches[n], sb, Pos(s, n), s.pitches[n], cache, size,
        (w + dv - 1) / dv, (h + dv - 1) / dv);
      n := n + 1;
    }
  }

  /** The planes a pass over `d` and `s` uses point into the two blocks; the fast path is not asked for a zero width. */
  predicate PlanesReady(flags: U32, d: ImageState, db: array<Byte>, s: ImageState, sb: array<Byte>)
  {
    var r := RouteOf(d.format, s.format);
    PlanesOn(d, DstPlanes(r), db) && PlanesOn(s, SrcPlanes(r), sb) &&
    (UswcRoute(flags, d.format, s.format) ==> 0 < d.width)
  }

  /** The planes a pass over `d` and `s` uses point into the two blocks and fit in them. */
  predicate PassReady(flags: U32, d: ImageState, db: array<Byte>, s: ImageState, sb: array<Byte>)
  {
    PlanesReady(flags, d, db, s, sb) && RouteFits(RouteOf(d.format, s.format), d, db.Length, s, sb.Length)
  }

  /**
   * image_convert_internal: with the USWC flag, an I420 destination and an
   * NV12 or I420 source, the fast path (which does not fail here); then
   * the three libyuv conversions; any other pair fails. Sizes are the
   * destination's.
   */
  method ImageConvertInternal(dst: Image, src: Image, db: array<Byte>, sb: array<Byte>, flags: U32) returns (ok: bool)
    requires dst != src && db != sb && dst.Valid() && src.Valid()
    requires dst.width < 0x8000_0000 && dst.height < 0x8000_0000
    requires PassReady(flags, dst.State(), db, src.State(), sb)
    requires UswcRoute(flags, dst.format, src.format) ==> CacheReady(dst.priv, dst.width, db, sb)
    modifies dst, dst.priv, db, CacheOf(dst.priv)
    ensures dst.State() == old(dst.State()).(priv := dst.priv)
    ensures old(dst.priv) != null ==> dst.priv == old(dst.priv)
    ensures var o := Pass(flags, old(dst.State()), old(db[..]), src.State(), old(sb[..]));
      ok == o.ok && db[..] == o.bytes
  {
    var d, s := dst.State(), src.State();
    if FromUswc(flags) && dst.format == I420 {
      if src.format == NV12 {
        CopyFromNV12(dst, src, db, sb);
        return true;
      } else if src.format == I420 {
        CopyFromI420(dst, src, db, sb);
        return true;
      }
    }
    if src.format == NV12 && dst.format == I420 {
      assert PlaneAt(d, 0) && PlaneAt(d, 1) && PlaneAt(d, 2) && PlaneAt(s, 0) && PlaneAt(s, 1);
      var r := NV12ToI420(sb, Pos(s, 0), s.pitches[0], Pos(s, 1), s.pitches[1],
        db, Pos(d, 0), d.pitches[0], Pos(d, 1), d.pitches[1], Pos(d, 2), d.pitches[2], d.width, d.height);
      return r == 0;
    }
    if src.format == I420 && dst.format == I420 {
      assert PlaneAt(d, 0) && PlaneAt(d, 1) && PlaneAt(d, 2) && PlaneAt(s, 0) && PlaneAt(s, 1) && PlaneAt(s, 2);
      var r := I420Copy(sb, Pos(s, 0), s.pitches[0], Pos(s, 1), s.pitches[1], Pos(s, 2), s.pitches[2],
        db, Pos(d, 0), d.pitches[0], Pos(d, 1), d.pitches[1], Pos(d, 2), d.pitches[2], d.width, d.height);
      CopiedPlanesThree(d, old(db[..]), s, sb[..]);
      return r == 0;
    }
    if src.format == I420 && dst.format == NV12 {
      assert PlaneAt(d, 0) && PlaneAt(d, 1) && PlaneAt(s, 0) && PlaneAt(s, 1) && PlaneAt(s, 2);
      var r := I420ToNV12(sb, Pos(s, 0), s.pitches[0], Pos(s, 1), s.pitches[1], Pos(s, 2), s.pitches[2],
        db, Pos(d, 0), d.pitches[0], Pos(d, 1), d.pitches[1], d.width, d.height);
      return r == 0;
    }
    return false;
  }

  /** Each pass mvt_image_convert_full makes can run: over the whole frame, or over each field asked for. */
  predicate FullReady(flags: U32, d: ImageState, db: array<Byte>, s: ImageState, sb: array<Byte>)
    requires WellShaped(d) && WellShaped(s) && GetInfo(d.format).Some? && GetInfo(s.format).Some?
  {
    FullFits(flags, d, db.Length, s, sb.Length) &&
    (flags % 4 == 0 ==> PlanesReady(flags, d, db, s, sb)) &&
    (TopField(flags) ==> PlanesReady(flags, FieldView(d, VA_TOP_FIELD), db, FieldView(s, VA_TOP_FIELD), sb)) &&
    (BottomField(flags) ==> PlanesReady(flags, FieldView(d, VA_BOTTOM_FIELD), db, FieldView(s, VA_BOTTOM_FIELD), sb))
  }

  /** A field pass that mvt_image_convert_full makes can run. */
  lemma {:induction false} FieldReady(flags: U32, d: ImageState, db: array<Byte>, s: ImageState, sb: array<Byte>, field: U32)
    requires WellShaped(d) && WellShaped(s) && GetInfo(d.format).Some? && GetInfo(s.format).Some?
    requires FullReady(flags, d, db, s, sb)
    requires (field == VA_TOP_FIELD && TopField(flags)) || (field == VA_BOTTOM_FIELD && BottomField(flags))
    ensures PassReady(flags, FieldView(d, field), db, FieldView(s, field), sb)
  {
  }

  /**
   * One field pass of mvt_image_convert_full: field views of both images,
   * which own nothing, converted by image_convert_internal.
   */
  method FieldPass(dst: Image, src: Image, ghost d: ImageState, ghost s: ImageState, db: array<Byte>, sb: array<Byte>,
    flags: U32, field: U32) returns (ok: bool)
    requires dst != src && db != sb && dst.State() == d && src.State() == s && WellShaped(d) && WellShaped(s)
    requires GetInfo(d.format).Some? && GetInfo(s.format).Some?
    requires d.width < 0x8000_0000 && d.height < 0x8000_0000
    requires field == VA_TOP_FIELD || field == VA_BOTTOM_FIELD
    requires PassReady(flags, FieldView(d, field), db, FieldView(s, field), sb)
    modifies db
    ensures var o := Pass(flags, FieldView(d, field), old(db[..]), FieldView(s, field), old(sb[..]));
      ok == o.ok && db[..] == o.bytes
  {
    var st := new Image();
    var dt := new Image();
    var _ := InitFromField(st, src, field);
    var _ := InitFromField(dt, dst, field);
    assert db[..] == old(db[..]) && sb[..] == old(sb[..]);
    ok := ImageConvertInternal(dt, st, db, sb, flags);
  }

  /** The field passes of mvt_image_convert_full: the top and then the bottom field, stopping at the first failure. */
  method ConvertFields(dst: Image, src: Image, ghost d: ImageState, ghost s: ImageState, db: array<Byte>, sb: array<Byte>,
    flags: U32) returns (ok: bool)
    requires dst != src && db != sb && dst.State() == d && src.State() == s && WellShaped(d) && WellShaped(s)
    requires GetInfo(d.format).Some? && GetInfo(s.format).Some?
    requires d.width < 0x8000_0000 && d.height < 0x8000_0000
    requires flags % 4 != 0 && FullReady(flags, d, db, s, sb)
    modifies db
    ensures FullOutcome(flags, d, old(db[..]), s, old(sb[..])) == Outcome(ok, db[..])
  {
    if TopField(flags) {
      FieldReady(flags, d, db, s, sb, VA_TOP_FIELD);
      ok := FieldPass(dst, src, d, s, db, sb, flags, VA_TOP_FIELD);
      if !ok {
        return false;
      }
    }
    if BottomField(flags) {
      FieldReady(flags, d, db, s, sb, VA_BOTTOM_FIELD);
      ok := FieldPass(dst, src, d, s, db, sb, flags, VA_BOTTOM_FIELD);
      if !ok {
        return false;
      }
    }
    return true;
  }

  /**
   * mvt_image_convert_full once both images are present and both formats
   * known: without a field flag the frame in one pass; otherwise the top
   * and then the bottom field through field views of both images, stopping
   * at the first failure. The views own nothing, so a field pass leaves the
   * destination structure as it was.
   */
  method ConvertKnown(dst: Image, src: Image, db: array<Byte>, sb: array<Byte>, flags: U32) returns (ok: bool)
    requires dst != src && db != sb && dst.Valid() && src.Valid()
    requires GetInfo(dst.format).Some? && GetInfo(src.format).Some?
    requires dst.width < 0x8000_0000 && dst.height < 0x8000_0000
    requires FullReady(flags, dst.State(), db, src.State(), sb)
    requires flags % 4 == 0 && UswcRoute(flags, dst.format, src.format) ==> CacheReady(dst.priv, dst.width, db, sb)
    modifies dst, db, {dst.priv} + CacheOf(dst.priv)
    ensures FullOutcome(flags, old(dst.State()), old(db[..]), old(src.State()), old(sb[..])) == Outcome(ok, db[..])
    ensures flags % 4 == 0 ==> dst.State() == old(dst.State()).(priv := dst.priv)
    ensures flags % 4 != 0 ==> dst.State() == old(dst.State())
  {
    if flags % 4 == 0 {
      ok := ImageConvertInternal(dst, src, db, sb, flags);
      return;
    }
    ok := ConvertFields(dst, src, dst.State(), src.State(), db, sb, flags);
  }

  /**
   * mvt_image_convert_full: a missing image or an unknown format fails and
   * writes nothing. Images of different sizes or chroma types are a fatal
   * error, so callers must not pass them.
   */
  method ConvertFull(dst: Image?, src: Image?, db: array<Byte>, sb: array<Byte>, flags: U32) returns (ok: bool)
    requires dst != null && src != null ==> dst != src && dst.Valid() && src.Valid()
    requires dst != null && src != null ==> dst.width == src.width && dst.height == src.height
    requires dst != null && src != null && GetInfo(dst.format).Some? && GetInfo(src.format).Some? ==>
      GetChromaType(dst.format) == GetChromaType(src.format)
    requires db != sb
    requires dst != null ==> dst.width < 0x8000_0000 && dst.height < 0x8000_0000
    requires dst != null && src != null && GetInfo(dst.format).Some? && GetInfo(src.format).Some? ==>
      FullReady(flags, dst.State(), db, src.State(), sb)
    requires dst != null && src != null && flags % 4 == 0 && UswcRoute(flags, dst.format, src.format) ==>
      CacheReady(dst.priv, dst.width, db, sb)
    modifies dst, db, if dst != null then {dst.priv} + CacheOf(dst.priv) else {}
    ensures ok ==> dst != null && src != null
    ensures dst != null && src != null ==>
      (GetInfo(old(dst.format)).None? || GetInfo(src.format).None? ==> !ok && db[..] == old(db[..]))
    ensures dst != null && src != null && GetInfo(old(dst.format)).Some? && GetInfo(src.format).Some? ==>
      var o := FullOutcome(flags, old(dst.State()), old(db[..]), old(src.State()), old(sb[..]));
      ok == o.ok && db[..] == o.bytes
    ensures dst != null && flags % 4 == 0 ==> dst.State() == old(dst.State()).(priv := dst.priv)
    ensures dst != null && flags % 4 != 0 ==> dst.State() == old(dst.State())
    ensures dst == null || src == null ==> db[..] == old(db[..])
  {
    if dst == null || src == null {
      return false;
    }
    if GetInfo(src.format).None? || GetInfo(dst.format).None? {
      return false;
    }
    ok := ConvertKnown(dst, src, db, sb, flags);
  }

  /** mvt_image_convert: the frame in one pass, without flags. */
  method Convert(dst: Image?, src: Image?, db: array<Byte>, sb: array<Byte>) returns (ok: bool)
    requires dst != null && src != null ==> dst != src && dst.Valid() && src.Valid()
    requires dst != null && src != null ==> dst.width == src.width && dst.height == src.height
    requires dst != null && src != null && GetInfo(dst.format).Some? && GetInfo(src.format).Some? ==>
      GetChromaType(dst.format) == GetChromaType(src.format)
    requires db != sb
    requires dst != null ==> dst.width < 0x8000_0000 && dst.height < 0x8000_0000
    requires dst != null && src != null && GetInfo(dst.format).Some? && GetInfo(src.format).Some? ==>
      PassReady(0, dst.State(), db, src.State(), sb)
    modifies dst, db, if dst != null then {dst.priv} + CacheOf(dst.priv) else {}
    ensures ok ==> dst != null && src != null && GetInfo(old(dst.format)).Some? && GetInfo(src.format).Some?
    ensures dst != null && src != null && GetInfo(old(dst.format)).Some? && GetInfo(src.format).Some? ==>
      var o := Pass(0, old(dst.State()), old(db[..]), src.State(), old(sb[..]));
      ok == o.ok && db[..] == o.bytes
    ensures !ok ==> db[..] == old(db[..])
    ensures dst != null ==> dst.State() == old(dst.State()).(priv := dst.priv)
  {
    ok := ConvertFull(dst, src, db, sb, 0);
  }
}
