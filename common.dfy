// Shared vocabulary: bytes, C unsigned 32-bit arithmetic, powers of two,
// optional values.

module Common {

  /** An unsigned 8-bit value, as stored in image planes and byte streams. */
  type Byte = b: int | 0 <= b < 256

  const U32_MOD: int := 0x1_0000_0000

  /** A C `uint32_t` value. */
  type U32 = x: int | 0 <= x < 0x1_0000_0000

  /** C `uint16_t` and `int16_t` values. */
  type U16 = x: int | 0 <= x < 0x1_0000
  type I16 = x: int | -0x8000 <= x < 0x8000

  datatype Option<T> = None | Some(value: T)

  /** Reduction of an integer to its `uint32_t` value (wrap-around). */
  function Wrap32(x: int): (r: U32)
    ensures 0 <= x < U32_MOD ==> r == x
    ensures (r - x) % U32_MOD == 0
  {
    x % U32_MOD
  }

  function Pow2(n: nat): (r: nat)
    ensures r >= 1
  {
    if n == 0 then 1 else 2 * Pow2(n - 1)
  }

  /** `x >> n` for a non-negative `x`. */
  function Shr(x: nat, n: nat): nat
  {
    DivBelow(x, Pow2(n));
    x / Pow2(n)
  }

  /** `x >> n` on `uint32_t`. */
  function Shr32(x: U32, n: nat): (r: U32)
    ensures r <= x
  {
    DivBelow(x, Pow2(n));
    x / Pow2(n)
  }

  /** Shifts by 0 and 1, as the format table uses them. */
  lemma {:induction false} SmallShifts()
    ensures Pow2(0) == 1 && Pow2(1) == 2
    ensures forall x: nat :: Shr(x, 0) == x
    ensures forall x: nat :: Shr(x, 1) == x / 2
  {
    assert Pow2(0) == 1 && Pow2(1) == 2;
  }

  /** Division of a natural number by a positive one stays between 0 and the dividend. */
  lemma {:induction false} DivBelow(x: nat, d: nat)
    requires d >= 1
    ensures 0 <= x / d <= x
  {
    var q, r := x / d, x % d;
    assert x == q * d + r && 0 <= r < d;
    if q < 0 {
      MulNegative(q, d);
    } else if q > x {
      MulAtLeast(q, d);
    }
  }

  lemma {:induction false} MulNegative(q: int, d: nat)
    requires q < 0 && d >= 1
    ensures q * d + d <= 0
  {
    if d > 1 {
      MulNegative(q, d - 1);
      assert q * d == q * (d - 1) + q;
    }
  }

  lemma {:induction false} MulAtLeast(q: nat, d: nat)
    requires d >= 1
    ensures q * d >= q
  {
    if d > 1 {
      MulAtLeast(q, d - 1);
      assert q * d == q * (d - 1) + q;
    }
  }

  /** `x << n` on `uint32_t`. */
  function Shl32(x: U32, n: nat): U32
  {
    Wrap32(x * Pow2(n))
  }

  /** Ceiling division by a power of two, as `(v + (1 << n) - 1) >> n`. */
  function CeilShr(v: nat, n: nat): nat
  {
    DivBelow(v + Pow2(n) - 1, Pow2(n));
    (v + Pow2(n) - 1) / Pow2(n)
  }

  function Min(a: int, b: int): int { if a < b then a else b }
  function Max(a: int, b: int): int { if a > b then a else b }

  /** The characters whose codes are the given bytes. */
  function Chars(b: seq<Byte>): (r: string)
    ensures |r| == |b|
  {
    seq(|b|, i requires 0 <= i < |b| => b[i] as char)
  }

  /**
   * Byte values of a string, each character truncated to 8 bits; a string of
   * 8-bit characters reads back from its bytes.
   */
  function Ascii(s: string): (r: seq<Byte>)
    ensures |r| == |s|
    ensures (forall i :: 0 <= i < |s| ==> (s[i] as int) < 256) ==> Chars(r) == s
  {
    seq(|s|, i requires 0 <= i < |s| => (s[i] as int) % 256)
  }

  lemma {:induction false} AsciiConcat(a: string, b: string)
    ensures Ascii(a + b) == Ascii(a) + Ascii(b)
  {
  }
}
