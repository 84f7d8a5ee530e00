// The Adler-32 hash class: two running sums modulo 65521 packed into one
// `uint32_t`, written out big-endian. The sums start at 0, where section 2.2
// of RFC 1950 starts the first sum at 1.

module Adler32 {
  import opened Common

  /** Initial packed value (RFC 1950 uses 1). */
  const ADLER32_INIT: U32 := 0

  /** Largest prime below 65536. */
  const ADLER32_BASE: nat := 65521

  // `ADLER32_UNPACK` takes `s1` from the low 16 bits (`v % 0x1_0000`) and
  // `s2` from the high 16 bits (`v / 0x1_0000`); `ADLER32_PACK` is
  // `(s2 << 16) | s1`, the sum `s2 * 0x1_0000 + s1` because `s1` fits in 16
  // bits. Both are written out where they are used: as functions of their
  // own, their evaluation on the literal 0 sends the solver into a loop.

  /** Unpacking inverts packing. */
  lemma {:induction false} UnpackPack(s1: nat, s2: nat)
    requires s1 < 0x1_0000 && s2 < 0x1_0000
    ensures (s2 * 0x1_0000 + s1) % 0x1_0000 == s1 && (s2 * 0x1_0000 + s1) / 0x1_0000 == s2
  {
  }

  /** `DO1` followed by the reduction, first sum: `s1 += b`. */
  function Step1(s1: nat, b: Byte): (r: nat)
    ensures r < ADLER32_BASE
  {
    (s1 + b) % ADLER32_BASE
  }

  /** `DO1` followed by the reduction, second sum: `s2 += s1` with the new `s1`. */
  function Step2(s1: nat, s2: nat, b: Byte): (r: nat)
    ensures r < ADLER32_BASE
  {
    (s2 + s1 + b) % ADLER32_BASE
  }

  /** The first sum after feeding `d` byte by byte from `s1`. */
  function First(s1: nat, d: seq<Byte>): (r: nat)
    ensures s1 < 0x1_0000 ==> r < 0x1_0000
    ensures s1 < ADLER32_BASE || d != [] ==> r < ADLER32_BASE
    decreases |d|
  {
    if |d| == 0 then s1 else First(Step1(s1, d[0]), d[1..])
  }

  /** The second sum after feeding `d` byte by byte from `s1` and `s2`. */
  function Second(s1: nat, s2: nat, d: seq<Byte>): (r: nat)
    ensures s2 < 0x1_0000 ==> r < 0x1_0000
    ensures s2 < ADLER32_BASE || d != [] ==> r < ADLER32_BASE
    decreases |d|
  {
    if |d| == 0 then s2 else Second(Step1(s1, d[0]), Step2(s1, s2, d[0]), d[1..])
  }

  /** The packed value after one `adler32_update` call on `d`. */
  function UpdateValue(v: U32, d: seq<Byte>): U32
  {
    var s1, s2 := v % 0x1_0000, v / 0x1_0000;
    Second(s1, s2, d) * 0x1_0000 + First(s1, d)
  }

  /**
   * The packed value of a context initialised by `adler32_init` and fed `d`:
   * both sums start at 0.
   */
  function Checksum(d: seq<Byte>): U32
  {
    Second(0, 0, d) * 0x1_0000 + First(0, d)
  }

  /** A context that has been fed nothing holds the initial value. */
  lemma {:induction false} ChecksumEmpty(d: seq<Byte>)
    requires d == []
    ensures Checksum(d) == ADLER32_INIT
  {
  }

  /** Extending the input by one update call extends the checksum's input. */
  lemma {:induction false} ChecksumExtend(a: seq<Byte>, b: seq<Byte>)
    ensures UpdateValue(Checksum(a), b) == Checksum(a + b)
  {
    UnpackPack(First(0, a), Second(0, 0, a));
    RunConcat(0, 0, a, b);
  }

  /** `adler32_finalize`: the packed value, most significant byte first. */
  function Digest(v: U32): (r: seq<Byte>)
    ensures |r| == 4
    ensures (r[0] as int) * 0x100_0000 + (r[1] as int) * 0x1_0000 + (r[2] as int) * 0x100 + r[3] == v
  {
    // v >> 8, v >> 16 and v >> 24 are taken one byte at a time.
    var w1 := v / 0x100;
    var w2 := w1 / 0x100;
    [w2 / 0x100, w2 % 0x100, w1 % 0x100, v % 0x100]
  }

  /** `adler32_update`: unpack, run the per-byte loop over `buf[..len]`, pack. */
  method Update(v: U32, buf: seq<Byte>, len: U32) returns (r: U32)
    requires len <= |buf|
    ensures r == UpdateValue(v, buf[..len])
  {
    var a1, a2 := v % 0x1_0000, v / 0x1_0000;
    var s1: nat, s2: nat := a1, a2;
    var i: U32 := 0;
    while i < len
      invariant 0 <= i <= len
      invariant s1 == First(a1, buf[..i]) && s2 == Second(a1, a2, buf[..i])
    {
      // DO1, then both reductions.
      s1, s2 := Step1(s1, buf[i]), Step2(s1, s2, buf[i]);
      ExtendRun(a1, a2, buf, i);
      i := i + 1;
    }
    assert buf[..i] == buf[..len];
    r := s2 * 0x1_0000 + s1;
  }

  lemma {:induction false} ExtendRun(a1: nat, a2: nat, buf: seq<Byte>, i: nat)
    requires i < |buf|
    ensures First(a1, buf[..i + 1]) == Step1(First(a1, buf[..i]), buf[i])
    ensures Second(a1, a2, buf[..i + 1]) ==
      Step2(First(a1, buf[..i]), Second(a1, a2, buf[..i]), buf[i])
  {
    assert buf[..i + 1] == buf[..i] + [buf[i]];
    RunConcat(a1, a2, buf[..i], [buf[i]]);
    assert [buf[i]][1..] == [];
  }

  /** Running the sums over `a + b` runs them over `a`, then over `b`. */
  lemma {:induction false} RunConcat(s1: nat, s2: nat, a: seq<Byte>, b: seq<Byte>)
    ensures First(s1, a + b) == First(First(s1, a), b)
    ensures Second(s1, s2, a + b) == Second(First(s1, a), Second(s1, s2, a), b)
    decreases |a|
  {
    if a == [] {
      assert a + b == b;
    } else {
      assert (a + b)[0] == a[0] && (a + b)[1..] == a[1..] + b;
      RunConcat(Step1(s1, a[0]), Step2(s1, s2, a[0]), a[1..], b);
    }
  }

  /** Two updates equal one update over the concatenated bytes. */
  lemma {:induction false} UpdateConcat(v: U32, a: seq<Byte>, b: seq<Byte>)
    ensures UpdateValue(UpdateValue(v, a), b) == UpdateValue(v, a + b)
  {
    var a1, a2 := v % 0x1_0000, v / 0x1_0000;
    UnpackPack(First(a1, a), Second(a1, a2, a));
    RunConcat(a1, a2, a, b);
  }

  /** The packed value after one update call per byte. */
  function UpdateBytewise(v: U32, d: seq<Byte>): U32
    decreases |d|
  {
    if |d| == 0 then v else UpdateBytewise(UpdateValue(v, [d[0]]), d[1..])
  }

  /** Feeding the bytes one call at a time equals one bulk update. */
  lemma {:induction false} BytewiseIsBulk(v: U32, d: seq<Byte>)
    ensures UpdateBytewise(v, d) == UpdateValue(v, d)
    decreases |d|
  {
    if d == [] {
      assert v / 0x1_0000 * 0x1_0000 + v % 0x1_0000 == v;
    } else {
      BytewiseIsBulk(UpdateValue(v, [d[0]]), d[1..]);
      UpdateConcat(v, [d[0]], d[1..]);
      assert [d[0]] + d[1..] == d;
    }
  }

  /** All-zero input from the initial value keeps the value 0. */
  lemma {:induction false} ZerosKeepZero(d: seq<Byte>)
    requires forall i :: 0 <= i < |d| ==> d[i] == 0
    ensures Checksum(d) == ADLER32_INIT
  {
    ZeroRun(0, 0, d);
  }

  /** Hence the digest of all-zero input is 00 00 00 00. */
  lemma {:induction false} ZerosDigest(d: seq<Byte>)
    requires forall i :: 0 <= i < |d| ==> d[i] == 0
    ensures Digest(Checksum(d)) == [0, 0, 0, 0]
  {
    ZerosKeepZero(d);
    var r := Digest(ADLER32_INIT);
    assert r[0] == 0 && r[1] == 0 && r[2] == 0 && r[3] == 0;
  }

  lemma {:induction false} ZeroRun(s1: nat, s2: nat, d: seq<Byte>)
    requires s1 == 0 && s2 == 0
    requires forall i :: 0 <= i < |d| ==> d[i] == 0
    ensures First(s1, d) == s1 && Second(s1, s2, d) == s2
    decreases |d|
  {
    if d != [] {
      assert d[0] == 0;
      ZeroRun(Step1(s1, d[0]), Step2(s1, s2, d[0]), d[1..]);
    }
  }

  // Reference definition: Adler's two sums written out as in RFC 1950,
  // A = s1 + D1 + ... + Dn and B = s2 + (s1 + D1) + (s1 + D1 + D2) + ...

  /** D1 + ... + Dn. */
  function ByteSum(d: seq<Byte>): nat
    decreases |d|
  {
    if |d| == 0 then 0 else d[0] + ByteSum(d[1..])
  }

  /** (a + D1) + (a + D1 + D2) + ... + (a + D1 + ... + Dn). */
  function RunningSums(a: int, d: seq<Byte>): int
    decreases |d|
  {
    if |d| == 0 then 0 else (a + d[0]) + RunningSums(a + d[0], d[1..])
  }

  /** Raising the start of every running sum by `k` raises their total by `k` per byte. */
  lemma {:induction false} RunningSumsShift(a: int, k: int, d: seq<Byte>)
    ensures RunningSums(a + k, d) == RunningSums(a, d) + k * |d|
    decreases |d|
  {
    if d != [] {
      RunningSumsShift(a + d[0], k, d[1..]);
      assert (a + k) + d[0] == (a + d[0]) + k;
      assert k * |d| == k * |d[1..]| + k;
    }
  }

  /** The per-byte loop computes both sums of the reference definition modulo 65521. */
  lemma {:induction false} RunClosedForm(s1: nat, s2: nat, d: seq<Byte>)
    requires s1 < ADLER32_BASE && s2 < ADLER32_BASE
    ensures First(s1, d) == (s1 + ByteSum(d)) % ADLER32_BASE
    ensures Second(s1, s2, d) == (s2 + RunningSums(s1, d)) % ADLER32_BASE
  {
    RunFirstSum(s1, d);
    RunSecondSum(s1, s2, d);
  }

  lemma {:induction false} RunFirstSum(s1: nat, d: seq<Byte>)
    requires s1 < ADLER32_BASE
    ensures First(s1, d) == (s1 + ByteSum(d)) % ADLER32_BASE
    decreases |d|
  {
    if d != [] {
      RunFirstSum(Step1(s1, d[0]), d[1..]);
      ShiftResidues(s1 + d[0], ByteSum(d[1..]));
    }
  }

  lemma {:induction false} RunSecondSum(s1: nat, s2: nat, d: seq<Byte>)
    requires s1 < ADLER32_BASE && s2 < ADLER32_BASE
    ensures Second(s1, s2, d) == (s2 + RunningSums(s1, d)) % ADLER32_BASE
    decreases |d|
  {
    if d != [] {
      var b, rest := d[0], d[1..];
      var n1 := Step1(s1, b);
      RunSecondSum(n1, Step2(s1, s2, b), rest);
      RunningSumsReduced(s1 + b, rest);
      SecondResidue(s2 + s1 + b, RunningSums(n1, rest), RunningSums(s1 + b, rest));
    }
  }

  /** `((x mod B) + y) mod B == (x + z) mod B` when `y` and `z` are congruent. */
  lemma {:induction false} SecondResidue(x: int, y: int, z: int)
    requires (y - z) % ADLER32_BASE == 0
    ensures (x % ADLER32_BASE + y) % ADLER32_BASE == (x + z) % ADLER32_BASE
  {
    var carry := x % ADLER32_BASE - x;
    assert carry % ADLER32_BASE == 0;
    MultiplesAdd(carry, y - z);
    Congruent(x % ADLER32_BASE + y, x + z);
  }

  /** Numbers that differ by a multiple of the base have the same residue. */
  lemma {:induction false} Congruent(x: int, y: int)
    requires (x - y) % ADLER32_BASE == 0
    ensures x % ADLER32_BASE == y % ADLER32_BASE
  {
  }

  lemma {:induction false} MultiplesAdd(x: int, y: int)
    requires x % ADLER32_BASE == 0 && y % ADLER32_BASE == 0
    ensures (x + y) % ADLER32_BASE == 0
  {
  }

  lemma {:induction false} ShiftResidues(x: int, k: int)
    ensures (x + k) % ADLER32_BASE == (x % ADLER32_BASE + k) % ADLER32_BASE
  {
    Congruent(x + k, x % ADLER32_BASE + k);
  }

  lemma {:induction false} RunningSumsReduced(c: int, d: seq<Byte>)
    ensures (RunningSums(c % ADLER32_BASE, d) - RunningSums(c, d)) % ADLER32_BASE == 0
  {
    RunningSumsCongruent(c % ADLER32_BASE, c, d);
  }

  /** Congruent starting sums give congruent running sums. */
  lemma {:induction false} RunningSumsCongruent(a: int, c: int, d: seq<Byte>)
    requires (a - c) % ADLER32_BASE == 0
    ensures (RunningSums(a, d) - RunningSums(c, d)) % ADLER32_BASE == 0
    decreases |d|
  {
    if d != [] {
      RunningSumsCongruent(a + d[0], c + d[0], d[1..]);
    }
  }

  /**
   * Starting from 0 instead of RFC 1950's 1: for the same bytes, the standard
   * first sum is this one plus 1 and the standard second sum is this one plus
   * the byte count, both modulo 65521.
   */
  lemma {:induction false} DifferenceFromRfc1950(d: seq<Byte>)
    ensures First(1, d) == (First(0, d) + 1) % ADLER32_BASE
    ensures Second(1, 0, d) == (Second(0, 0, d) + |d|) % ADLER32_BASE
  {
    RunClosedForm(1, 0, d);
    RunClosedForm(0, 0, d);
    RunningSumsShift(0, 1, d);
    ShiftResidues(ByteSum(d), 1);
    ShiftResidues(RunningSums(0, d), |d|);
  }
}
