// The printf conversions the writers use: `%u` and `%d` of 32-bit integers,
// `%02x` of a byte, and `%s` right- or left-justified in a field width.

module Printf {
  import opened Common

  predicate IsDigit(c: char) { '0' <= c <= '9' }

  predicate AllDigits(s: string)
  {
    forall i :: 0 <= i < |s| ==> IsDigit(s[i])
  }

  function DigitChar(d: nat): (c: char)
    requires d < 10
    ensures IsDigit(c)
  {
    ('0' as int + d) as char
  }

  function DigitValue(c: char): (d: nat)
    requires IsDigit(c)
    ensures d < 10 && DigitChar(d) == c
  {
    (c as int) - ('0' as int)
  }

  /** `%u`: the decimal digits of `n`, most significant first, with no leading zero. */
  function Decimal(n: nat): (r: string)
    ensures |r| >= 1 && AllDigits(r)
    ensures r[0] == '0' <==> n == 0
    decreases n
  {
    if n < 10 then [DigitChar(n)] else Decimal(n / 10) + [DigitChar(n % 10)]
  }

  /** The value of a string of decimal digits. */
  function DigitsValue(s: string): nat
    requires AllDigits(s)
    decreases |s|
  {
    if s == [] then 0 else 10 * DigitsValue(s[..|s| - 1]) + DigitValue(s[|s| - 1])
  }

  /** A digit string as `%u` writes it: non-empty, and "0" is the only one starting with '0'. */
  predicate Canonical(s: string)
  {
    |s| >= 1 && AllDigits(s) && (s[0] == '0' ==> |s| == 1)
  }

  /** Reading back the digits of `%u` gives the number written. */
  lemma {:induction false} DecimalValue(n: nat)
    ensures DigitsValue(Decimal(n)) == n
    decreases n
  {
    if n >= 10 {
      var r := Decimal(n);
      assert r[..|r| - 1] == Decimal(n / 10);
      DecimalValue(n / 10);
    }
  }

  /** Every canonical digit string is what `%u` writes for its value. */
  lemma {:induction false} ValueDecimal(s: string)
    requires Canonical(s)
    ensures Decimal(DigitsValue(s)) == s
    decreases |s|
  {
    if |s| > 1 {
      var p := s[..|s| - 1];
      assert p[0] == s[0];
      ValueDecimal(p);
      LeadingDigitPositive(p);
      assert s == p + [s[|s| - 1]];
    }
  }

  /** A digit string that does not start with '0' has a positive value. */
  lemma {:induction false} LeadingDigitPositive(s: string)
    requires |s| >= 1 && AllDigits(s) && s[0] != '0'
    ensures DigitsValue(s) >= 1
    decreases |s|
  {
    if |s| > 1 {
      var p := s[..|s| - 1];
      assert p[0] == s[0];
      LeadingDigitPositive(p);
    }
  }

  /** `%u` of a `uint32_t` takes at most ten characters. */
  lemma {:induction false} DecimalWidth(n: nat, k: nat)
    requires n < Pow10(k)
    ensures |Decimal(n)| <= Max(k, 1)
    decreases k
  {
    if n >= 10 {
      DecimalWidth(n / 10, k - 1);
    }
  }

  function Pow10(k: nat): (r: nat)
    ensures r >= 1
  {
    if k == 0 then 1 else 10 * Pow10(k - 1)
  }

  /** `%d` of a value of type `int` (`-` followed by the magnitude for a negative value). */
  function SignedDecimal(i: int): (r: string)
    ensures i >= 0 ==> r == Decimal(i)
    ensures i < 0 ==> |r| >= 2 && r[0] == '-' && r[1..] == Decimal(-i)
  {
    if i < 0 then "-" + Decimal(-i) else Decimal(i)
  }

  /** A `uint32_t` passed where `%d` expects an `int`: the same 32 bits read as signed. */
  function AsInt32(x: U32): (r: int)
    ensures -0x8000_0000 <= r < 0x8000_0000
    ensures r == x || r == x - U32_MOD
  {
    if x < 0x8000_0000 then x else x - U32_MOD
  }

  // ---------------------------------------------------------------------
  // %02x

  predicate IsHexDigit(c: char) { IsDigit(c) || 'a' <= c <= 'f' }

  function HexDigit(d: nat): (c: char)
    requires d < 16
    ensures IsHexDigit(c)
  {
    if d < 10 then DigitChar(d) else ('a' as int + d - 10) as char
  }

  function HexDigitValue(c: char): (d: nat)
    requires IsHexDigit(c)
    ensures d < 16
  {
    if IsDigit(c) then DigitValue(c) else (c as int) - ('a' as int) + 10
  }

  /** `%02x` of a byte: two lower-case hexadecimal digits. */
  function Hex2(b: Byte): (r: string)
    ensures |r| == 2 && IsHexDigit(r[0]) && IsHexDigit(r[1])
  {
    [HexDigit(b / 16), HexDigit(b % 16)]
  }

  /** Reading back the two digits of `%02x` gives the byte written. */
  lemma {:induction false} Hex2Value(b: Byte)
    ensures 16 * HexDigitValue(Hex2(b)[0]) + HexDigitValue(Hex2(b)[1]) == b
  {
    HexDigitRoundTrip(b / 16);
    HexDigitRoundTrip(b % 16);
  }

  lemma {:induction false} HexDigitRoundTrip(d: nat)
    requires d < 16
    ensures HexDigitValue(HexDigit(d)) == d
  {
  }

  /** `%02x` of each byte in turn, concatenated. */
  function HexString(bytes: seq<Byte>): (r: string)
    ensures |r| == 2 * |bytes|
    decreases |bytes|
  {
    if bytes == [] then [] else HexString(bytes[..|bytes| - 1]) + Hex2(bytes[|bytes| - 1])
  }

  /** Characters `2i` and `2i + 1` of the hex text are the `%02x` of byte `i`. */
  lemma {:induction false} HexStringPairs(bytes: seq<Byte>)
    ensures forall i :: 0 <= i < |bytes| ==> HexString(bytes)[2 * i..2 * i + 2] == Hex2(bytes[i])
    decreases |bytes|
  {
    if bytes != [] {
      var p := bytes[..|bytes| - 1];
      var q, r := HexString(p), HexString(bytes);
      HexStringPairs(p);
      assert r == q + Hex2(bytes[|bytes| - 1]);
      forall i | 0 <= i < |bytes| ensures r[2 * i..2 * i + 2] == Hex2(bytes[i]) {
        if i < |p| {
          assert r[2 * i..2 * i + 2] == q[2 * i..2 * i + 2];
          assert bytes[i] == p[i];
        } else {
          assert r[2 * i..2 * i + 2] == r[|q|..];
        }
      }
    }
  }

  // ---------------------------------------------------------------------
  // Field widths

  function Spaces(n: nat): (r: string)
    ensures |r| == n && forall i :: 0 <= i < n ==> r[i] == ' '
  {
    seq(n, _ => ' ')
  }

  /** `%<w>s`: `s` right-justified in a field of `w` characters; a longer `s` is not cut. */
  function PadLeft(s: string, w: nat): (r: string)
    ensures |r| == Max(|s|, w)
  {
    if |s| >= w then s else Spaces(w - |s|) + s
  }

  /** The padded field is spaces followed by `s`. */
  lemma PadLeftShape(s: string, w: nat)
    ensures var r := PadLeft(s, w);
      r[|r| - |s|..] == s && forall i :: 0 <= i < |r| - |s| ==> r[i] == ' '
  {
  }

  /** `%-<w>s`: `s` left-justified in a field of `w` characters. */
  function PadRight(s: string, w: nat): (r: string)
    ensures |r| == Max(|s|, w)
  {
    if |s| >= w then s else s + Spaces(w - |s|)
  }

  /** Padding adds only spaces: no other character appears that was not in `s`. */
  lemma PadFree(s: string, w: nat, c: char)
    requires c != ' ' && c !in s
    ensures c !in PadLeft(s, w) && c !in PadRight(s, w)
  {
    if |s| < w {
      assert c !in Spaces(w - |s|);
    }
  }

  /** The padded field is `s` followed by spaces. */
  lemma PadRightShape(s: string, w: nat)
    ensures var r := PadRight(s, w);
      r[..|s|] == s && forall i :: |s| <= i < |r| ==> r[i] == ' '
  {
  }

  // ---------------------------------------------------------------------
  // Separators

  /** The pieces of `s` between occurrences of `sep`, in order: one more piece than separators. */
  function Split(s: string, sep: char): (r: seq<string>)
    ensures |r| >= 1
    decreases |s|
  {
    if s == [] then [[]]
    else
      var t := Split(s[1..], sep);
      if s[0] == sep then [[]] + t else [[s[0]] + t[0]] + t[1..]
  }

  /** The pieces written one after the other with `sep` between each two. */
  function Join(parts: seq<string>, sep: char): string
    requires |parts| >= 1
    decreases |parts|
  {
    if |parts| == 1 then parts[0] else parts[0] + [sep] + Join(parts[1..], sep)
  }

  /** Splitting loses nothing: the pieces hold no separator and joining them gives `s` back. */
  lemma {:induction false} JoinSplit(s: string, sep: char)
    ensures Join(Split(s, sep), sep) == s
    ensures forall i :: 0 <= i < |Split(s, sep)| ==> sep !in Split(s, sep)[i]
    decreases |s|
  {
    if s != [] {
      var t := Split(s[1..], sep);
      JoinSplit(s[1..], sep);
      if s[0] == sep {
        assert Split(s, sep)[1..] == t;
      } else {
        var r := Split(s, sep);
        if |t| > 1 {
          assert r[1..] == t[1..];
          assert Join(r, sep) == [s[0]] + t[0] + [sep] + Join(t[1..], sep);
        }
        forall i | 0 <= i < |r| ensures sep !in r[i] {
          if i > 0 {
            assert r[i] == t[i];
          } else {
            assert r[0] == [s[0]] + t[0];
          }
        }
      }
    }
  }

  /** Pieces free of the separator are recovered by splitting their join. */
  lemma {:induction false} SplitJoin(parts: seq<string>, sep: char)
    requires |parts| >= 1 && forall i :: 0 <= i < |parts| ==> sep !in parts[i]
    ensures Split(Join(parts, sep), sep) == parts
    decreases |parts|
  {
    if |parts| == 1 {
      SplitPiece(parts[0], [], sep);
    } else {
      SplitJoin(parts[1..], sep);
      SplitPiece(parts[0], [sep] + Join(parts[1..], sep), sep);
      assert parts[0] + [sep] + Join(parts[1..], sep) == parts[0] + ([sep] + Join(parts[1..], sep));
      assert ([sep] + Join(parts[1..], sep))[1..] == Join(parts[1..], sep);
    }
  }

  /** A separator-free head forms the first piece, to the next separator or the end. */
  lemma {:induction false} SplitPiece(a: string, rest: string, sep: char)
    requires sep !in a && (rest == [] || rest[0] == sep)
    ensures rest == [] ==> Split(a, sep) == [a]
    ensures rest != [] ==> Split(a + rest, sep) == [a] + Split(rest[1..], sep)
    decreases |a|
  {
    if a == [] {
      assert a + rest == rest;
    } else {
      assert (a + rest)[1..] == a[1..] + rest;
      SplitPiece(a[1..], rest, sep);
      assert [a[0]] + a[1..] == a;
    }
  }

  /** A character other than the separator that no piece holds is not in the join. */
  lemma {:induction false} JoinFree(parts: seq<string>, sep: char, x: char)
    requires |parts| >= 1 && x != sep && forall i :: 0 <= i < |parts| ==> x !in parts[i]
    ensures x !in Join(parts, sep)
    decreases |parts|
  {
    if |parts| > 1 {
      JoinFree(parts[1..], sep, x);
      assert parts[0] in parts;
    }
  }
}
