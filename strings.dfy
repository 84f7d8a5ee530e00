// The string utilities of mvt_string.c. A C string is `Option<string>`,
// `None` standing for NULL; the characters are those before the
// terminating NUL. `strtoul` and the `%u` conversion of `sscanf` are
// described as the C library defines them on an LP64 host.

module Strings {
  import opened Common
  import opened Printf

  /** `ULONG_MAX` of a 64-bit `unsigned long`. */
  const ULONG_MAX: nat := 0xFFFF_FFFF_FFFF_FFFF

  // ---------------------------------------------------------------------
  // strcmp, strncmp

  /** The sign of `strcmp(a, b)`: the first differing character decides, a proper prefix sorts first. */
  function StrCmp(a: string, b: string): (r: int)
    ensures -1 <= r <= 1
    ensures r == 0 <==> a == b
    decreases |a|
  {
    if a == [] && b == [] then 0
    else if a == [] then -1
    else if b == [] then 1
    else if a[0] < b[0] then -1
    else if a[0] > b[0] then 1
    else (assert a == [a[0]] + a[1..] && b == [b[0]] + b[1..]; StrCmp(a[1..], b[1..]))
  }

  /** The first `n` characters of a string, or all of a shorter one. */
  function Head(s: string, n: nat): string
  {
    s[..Min(n, |s|)]
  }

  /** The sign of `strncmp(a, b, n)`: at most `n` characters compared, the terminator included. */
  function StrNCmp(a: string, b: string, n: nat): (r: int)
    ensures -1 <= r <= 1
    ensures r == 0 <==> Head(a, n) == Head(b, n)
    decreases n
  {
    if n == 0 then 0
    else if a == [] && b == [] then 0
    else if a == [] then -1
    else if b == [] then 1
    else if a[0] < b[0] then -1
    else if a[0] > b[0] then 1
    else
      (HeadCons(a, n);
       HeadCons(b, n);
       StrNCmp(a[1..], b[1..], n - 1))
  }

  lemma {:induction false} HeadCons(s: string, n: nat)
    requires n > 0 && s != []
    ensures Head(s, n) == [s[0]] + Head(s[1..], n - 1)
  {
    assert Head(s, n)[1..] == Head(s[1..], n - 1);
  }

  // ---------------------------------------------------------------------
  // str_has_prefix

  /**
   * `str_has_prefix`: false when either string is NULL or the prefix is the
   * longer; otherwise the leading characters of `str` spell the prefix.
   */
  function HasPrefix(str: Option<string>, prefix: Option<string>): (r: bool)
    ensures r <==> (str.Some? && prefix.Some? &&
      |prefix.value| <= |str.value| && str.value[..|prefix.value|] == prefix.value)
  {
    if str.None? || prefix.None? then false
    else
      var s, p := str.value, prefix.value;
      if |p| > |s| then false
      else StrNCmp(s, p, |p|) == 0
  }

  /** Any string starts with the empty prefix and with each of its prefixes, and with nothing longer. */
  lemma {:induction false} PrefixesOf(s: string, t: string)
    ensures HasPrefix(Some(s + t), Some(s))
    ensures HasPrefix(Some(s), Some([]))
    ensures t != [] ==> !HasPrefix(Some(s), Some(s + t))
  {
    assert (s + t)[..|s|] == s;
  }

  /** A prefix of a prefix is a prefix. */
  lemma {:induction false} PrefixTransitive(a: string, b: string, c: string)
    requires HasPrefix(Some(a), Some(b)) && HasPrefix(Some(b), Some(c))
    ensures HasPrefix(Some(a), Some(c))
  {
    assert a[..|c|] == a[..|b|][..|c|];
  }

  // ---------------------------------------------------------------------
  // strtoul

  /** `isspace` in the C locale: the space, and tab through carriage return. */
  predicate IsSpace(c: char)
  {
    c == ' ' || 9 <= c as int <= 13
  }

  /** The value of `c` as a digit of `base`, letters of either case counting from ten. */
  function DigitIn(c: char, base: nat): (r: Option<nat>)
    ensures r.Some? ==> r.value < base
  {
    var d := if '0' <= c <= '9' then c as int - '0' as int
      else if 'a' <= c <= 'z' then c as int - 'a' as int + 10
      else if 'A' <= c <= 'Z' then c as int - 'A' as int + 10
      else 36;
    if d < base then Some(d) else None
  }

  predicate InBase(d: string, base: nat)
  {
    forall i :: 0 <= i < |d| ==> DigitIn(d[i], base).Some?
  }

  /** The value of the digits `d` of `base`, most significant first. */
  function Value(d: string, base: nat): nat
    requires InBase(d, base)
    decreases |d|
  {
    if d == [] then 0
    else Value(d[..|d| - 1], base) * base + DigitIn(d[|d| - 1], base).value
  }

  /** The first position at or after `i` that is not white space. */
  function SkipSpace(s: string, i: nat): (j: nat)
    requires i <= |s|
    ensures i <= j <= |s|
    decreases |s| - i
  {
    if i < |s| && IsSpace(s[i]) then SkipSpace(s, i + 1) else i
  }

  /** The end of the run of digits of `base` that starts at `i`. */
  function DigitRun(s: string, base: nat, i: nat): (j: nat)
    requires i <= |s|
    ensures i <= j <= |s| && InBase(s[i..j], base)
    decreases |s| - i
  {
    if i < |s| && DigitIn(s[i], base).Some? then
      var j := DigitRun(s, base, i + 1);
      assert s[i..j] == [s[i]] + s[i + 1..j];
      j
    else i
  }

  /** The outcome of `strtoul(s, &end, base)`: the value, the offset of `end`, and whether ERANGE was set. */
  datatype Conversion = Conversion(value: nat, end: nat, range: bool)

  /**
   * Where the subject sequence of `strtoul` lies: a minus sign, the offset
   * behind the sign, the offset of the first digit, the base in effect, and
   * whether a `0x` was taken.
   */
  datatype Subject = Subject(neg: bool, signEnd: nat, start: nat, base: nat, hex: bool)

  /** White space, an optional sign, then in base 16 (or base 0) an optional `0x`; base 0 takes 8 after a `0`, else 10. */
  function SubjectOf(s: string, base: nat): (r: Subject)
    requires base == 0 || 2 <= base <= 36
    ensures r.signEnd <= r.start <= |s| && 2 <= r.base <= 36
    ensures r.hex ==> r.start == r.signEnd + 2
  {
    var i := SkipSpace(s, 0);
    var neg := i < |s| && s[i] == '-';
    var j := if i < |s| && (s[i] == '-' || s[i] == '+') then i + 1 else i;
    var hex := (base == 0 || base == 16) && j + 1 < |s| && s[j] == '0' && (s[j + 1] == 'x' || s[j + 1] == 'X');
    var b := if hex then 16 else if base != 0 then base else if j < |s| && s[j] == '0' then 8 else 10;
    Subject(neg, j, if hex then j + 2 else j, b, hex)
  }

  /**
   * The conversion of the longest run of digits from the subject's start.
   * Without a digit nothing is converted and `end` is the start of the
   * string, except that a `0x` with no hex digit behind it converts its `0`.
   * A value beyond `ULONG_MAX` gives `ULONG_MAX` and ERANGE; a minus sign
   * negates in `unsigned long`.
   */
  function Convert(s: string, p: Subject): (r: Conversion)
    requires p.signEnd <= p.start <= |s| && 2 <= p.base <= 36
    requires p.hex ==> p.start == p.signEnd + 2
    ensures r.end <= |s| && r.value <= ULONG_MAX
  {
    var e := DigitRun(s, p.base, p.start);
    if e == p.start then
      if p.hex then Conversion(0, p.signEnd + 1, false) else Conversion(0, 0, false)
    else
      var v := Value(s[p.start..e], p.base);
      if v > ULONG_MAX then Conversion(ULONG_MAX, e, true)
      else if p.neg && v != 0 then Conversion(ULONG_MAX + 1 - v, e, false)
      else Conversion(v, e, false)
  }

  /** `strtoul` as section 7.22.1.4 of ISO C 11 defines it. */
  function Strtoul(s: string, base: nat): (r: Conversion)
    requires base == 0 || 2 <= base <= 36
    ensures r.end <= |s| && r.value <= ULONG_MAX
  {
    Convert(s, SubjectOf(s, base))
  }

  /** Decimal digits are exactly the digits of base ten. */
  lemma {:induction false} DecimalDigits(c: char)
    ensures DigitIn(c, 10).Some? <==> IsDigit(c)
    ensures IsDigit(c) ==> DigitIn(c, 10).value == DigitValue(c)
  {
  }

  /** A string of decimal digits has the value of base ten that `%u` reads back. */
  lemma {:induction false} DecimalRunValue(d: string)
    requires AllDigits(d)
    ensures InBase(d, 10) && Value(d, 10) == DigitsValue(d)
    decreases |d|
  {
    forall i | 0 <= i < |d| ensures DigitIn(d[i], 10).Some? {
      DecimalDigits(d[i]);
    }
    if d != [] {
      DecimalRunValue(d[..|d| - 1]);
      DecimalDigits(d[|d| - 1]);
    }
  }

  /** The digit run from `i` ends at `e` when `s[i..e]` are digits and `s[e]` is not. */
  lemma {:induction false} RunEnds(s: string, i: nat, e: nat)
    requires i <= e <= |s| && AllDigits(s[i..e])
    requires e < |s| ==> !IsDigit(s[e])
    ensures DigitRun(s, 10, i) == e
    decreases e - i
  {
    if i < e {
      DecimalDigits(s[i]);
      assert s[i + 1..e] == s[i..e][1..];
      RunEnds(s, i + 1, e);
    } else if e < |s| {
      DecimalDigits(s[e]);
    }
  }

  /** What `strtoul` gives for the digits of `n` from offset `k`, negated when a minus sign precedes them. */
  function DecimalConversion(n: nat, k: nat, neg: bool): Conversion
  {
    if n > ULONG_MAX then Conversion(ULONG_MAX, k + |Decimal(n)|, true)
    else Conversion(if neg && n != 0 then ULONG_MAX + 1 - n else n, k + |Decimal(n)|, false)
  }

  /**
   * `strtoul` in base ten reads the whole of what `%u` writes for `n`, up to
   * a following non-digit, optionally behind a minus sign: `n` itself when
   * it fits `unsigned long`, else `ULONG_MAX` with ERANGE; `n` negated
   * after a minus sign.
   */
  lemma {:induction false} StrtoulDecimal(x: string, k: nat, n: nat)
    requires k <= 1 && k + |Decimal(n)| <= |x| && (k == 1 ==> x[0] == '-')
    requires x[k..k + |Decimal(n)|] == Decimal(n)
    requires k + |Decimal(n)| < |x| ==> !IsDigit(x[k + |Decimal(n)|])
    ensures Strtoul(x, 10) == DecimalConversion(n, k, k == 1)
  {
    var d := Decimal(n);
    DecimalSubject(x, k);
    RunEnds(x, k, k + |d|);
    DecimalRunValue(d);
    DecimalValue(n);
  }

  /** In base ten a digit at the start, or behind a minus sign, begins the subject sequence. */
  lemma {:induction false} DecimalSubject(x: string, k: nat)
    requires k <= 1 && k < |x| && (k == 1 ==> x[0] == '-') && IsDigit(x[k])
    ensures SubjectOf(x, 10) == Subject(k == 1, k, k, 10, false)
  {
    assert !IsSpace(x[0]);
  }

  // ---------------------------------------------------------------------
  // str_parse_uint

  /**
   * `str_parse_uint`: `None` leaves the output untouched. It fails on an
   * empty string, when `strtoul` stops before the end, and on ULONG_MAX
   * with ERANGE; the value stored is the `unsigned long` cut to the 32 bits
   * of `unsigned int`.
   */
  function ParseUint(str: string, base: nat): (r: Option<U32>)
    requires base == 0 || 2 <= base <= 36
  {
    var c := Strtoul(str, base);
    if !(str != [] && c.end == |str|) || (c.value == ULONG_MAX && c.range) then None
    else Some(Wrap32(c.value))
  }

  /**
   * The digits `%u` writes parse back to the number when it fits
   * `unsigned long`, cut to 32 bits (so every `uint32_t` round-trips), and
   * fail beyond it.
   */
  lemma {:induction false} ParseUintDecimal(n: nat)
    ensures n <= ULONG_MAX ==> ParseUint(Decimal(n), 10) == Some(Wrap32(n))
    ensures n < U32_MOD ==> ParseUint(Decimal(n), 10) == Some(n)
    ensures n > ULONG_MAX ==> ParseUint(Decimal(n), 10).None?
  {
    var d := Decimal(n);
    assert d[0..|d|] == d;
    StrtoulDecimal(d, 0, n);
  }

  /** Behind a minus sign the digits parse as the negation modulo 2^64, cut to 32 bits. */
  lemma {:induction false} ParseUintNegated(n: nat)
    requires 0 < n <= ULONG_MAX
    ensures ParseUint("-" + Decimal(n), 10) == Some(Wrap32(ULONG_MAX + 1 - n))
  {
    var d := Decimal(n);
    var m := "-" + d;
    assert m[1..1 + |d|] == d;
    StrtoulDecimal(m, 1, n);
  }

  /**
   * The other round trip: a digit string as `%u` writes it, with a value
   * that fits 32 bits, parses to the number whose `%u` is that string.
   */
  lemma {:induction false} ParseUintCanonical(s: string)
    requires Canonical(s) && DigitsValue(s) < U32_MOD
    ensures ParseUint(s, 10) == Some(DigitsValue(s))
    ensures Decimal(ParseUint(s, 10).value) == s
  {
    ValueDecimal(s);
    ParseUintDecimal(DigitsValue(s));
  }

  /** The empty string and a number followed by anything but a digit fail, leaving the output as it was. */
  lemma {:induction false} ParseUintRejects(n: nat, t: string, base: nat)
    requires t != [] && !IsDigit(t[0])
    requires base == 0 || 2 <= base <= 36
    ensures ParseUint([], base).None?
    ensures ParseUint(Decimal(n) + t, 10).None?
  {
    var d := Decimal(n);
    var x := d + t;
    assert x[0..|d|] == d;
    StrtoulDecimal(x, 0, n);
  }

  // ---------------------------------------------------------------------
  // str_parse_size

  /**
   * One `%u` of `sscanf` from `i`: white space skipped, then a subject
   * sequence as `strtoul` reads it in base ten, stored into `unsigned int`;
   * `None` is a matching failure (no digit).
   */
  function ScanUint(s: string, i: nat): (r: Option<(U32, nat)>)
    requires i <= |s|
    ensures r.Some? ==> i < r.value.1 <= |s|
  {
    var c := Strtoul(s[i..], 10);
    if c.end == 0 then None else Some((Wrap32(c.value), i + c.end))
  }

  /** `sscanf(str, "%ux%u", ...)` returning 2: two numbers around an `x`; what follows is not looked at. */
  function ScanSize(s: string): Option<(U32, U32)>
  {
    match ScanUint(s, 0)
    case None => None
    case Some((w, i)) =>
      if i < |s| && s[i] == 'x' then
        match ScanUint(s, i + 1)
        case None => None
        case Some((h, _)) => Some((w, h))
      else None
  }

  /**
   * `str_parse_size`: succeeds exactly when both numbers are scanned, and
   * then writes each one whose destination is not NULL; nothing is written
   * on failure.
   */
  method ParseSize(str: string, wantWidth: bool, wantHeight: bool)
      returns (ok: bool, width: Option<U32>, height: Option<U32>)
    ensures ok <==> ScanSize(str).Some?
    ensures width.Some? <==> ok && wantWidth
    ensures height.Some? <==> ok && wantHeight
    ensures width.Some? ==> width.value == ScanSize(str).value.0
    ensures height.Some? ==> height.value == ScanSize(str).value.1
  {
    width, height := None, None;
    var r := ScanSize(str);
    if r.None? {
      return false, None, None;
    }
    var (w, h) := r.value;
    if wantWidth {
      width := Some(w);
    }
    if wantHeight {
      height := Some(h);
    }
    ok := true;
  }

  /**
   * `"%ux%u"` of two `uint32_t` values scans back to them, whatever follows
   * that does not start with a digit.
   */
  lemma {:induction false} ScanSizeDecimal(w: U32, h: U32, t: string)
    requires t == [] || !IsDigit(t[0])
    ensures ScanSize(Decimal(w) + ("x" + (Decimal(h) + t))) == Some((w, h))
  {
    var dw, dh := Decimal(w), Decimal(h);
    var rest := "x" + (dh + t);
    var s := dw + rest;
    assert s == (dw + "x") + (dh + t);
    DropPrefix(dw, rest);
    DropPrefix(dw + "x", dh + t);
    ScanUintDecimal(s, 0, w, rest);
    assert s[|dw|] == rest[0] == 'x';
    ScanUintDecimal(s, |dw| + 1, h, t);
    ScanSizeOf(s, w, |dw|, h);
  }

  /** Without the `x` after the first number the scan fails. */
  lemma {:induction false} ScanSizeNeedsX(w: U32, t: string)
    requires t == [] || !IsDigit(t[0])
    ensures ScanSize(Decimal(w) + t) == None || (t != [] && t[0] == 'x')
  {
    DropPrefix(Decimal(w), t);
    ScanUintDecimal(Decimal(w) + t, 0, w, t);
  }

  lemma DropPrefix(a: string, b: string)
    ensures (a + b)[0..] == a + b && (a + b)[|a|..] == b
  {
  }

  lemma {:induction false} ScanSizeOf(s: string, w: U32, i: nat, h: U32)
    requires ScanUint(s, 0).Some? && ScanUint(s, 0).value.0 == w && ScanUint(s, 0).value.1 == i
    requires i < |s| && s[i] == 'x'
    requires ScanUint(s, i + 1).Some? && ScanUint(s, i + 1).value.0 == h
    ensures ScanSize(s) == Some((w, h))
  {
  }

  /** One `%u` reads back the digits of a `uint32_t` up to a following non-digit. */
  lemma {:induction false} ScanUintDecimal(s: string, i: nat, n: U32, t: string)
    requires i <= |s| && s[i..] == Decimal(n) + t
    requires t == [] || !IsDigit(t[0])
    ensures ScanUint(s, i).Some? && ScanUint(s, i).value.0 == n && ScanUint(s, i).value.1 == i + |Decimal(n)|
  {
    var d := Decimal(n);
    var x := s[i..];
    assert x[0..|d|] == d;
    StrtoulDecimal(x, 0, n);
  }

  // ---------------------------------------------------------------------
  // str_dup, str_dup_n, str_freev, str_freevp

  /** `str_dup`: NULL for NULL, otherwise a copy of the characters. */
  function Dup(str: Option<string>): (r: Option<string>)
    ensures r.Some? <==> str.Some?
  {
    if str.None? then None else Some(str.value[..])
  }

  /** `str_dup_n`: NULL for NULL, otherwise the copy `strndup` makes of at most `len` characters. */
  function DupN(str: Option<string>, len: nat): (r: Option<string>)
    ensures r.Some? <==> str.Some?
    ensures r.Some? ==> |r.value| == Min(len, |str.value|) && HasPrefix(str, r)
  {
    if str.None? then None else Some(Head(str.value, len))
  }

  /** A copy is the whole string; a bounded copy at least as long as the string is the same copy. */
  lemma {:induction false} DupWhole(str: Option<string>, len: nat)
    ensures Dup(str) == str
    ensures str.Some? && len >= |str.value| ==> DupN(str, len) == Dup(str)
  {
    if str.Some? {
      assert str.value[..] == str.value;
      assert Head(str.value, len) == str.value[..] || len < |str.value|;
    }
  }

  /**
   * `str_freev`: on a non-NULL vector every entry is released, in order up
   * to the terminating NULL, before the vector itself; `released` lists
   * the entries released.
   */
  method FreeV(strv: Option<seq<string>>) returns (released: seq<string>)
    ensures released == if strv.Some? then strv.value else []
  {
    released := [];
    if strv.None? {
      return;
    }
    var v := strv.value;
    var i := 0;
    while i < |v|
      invariant i <= |v| && released == v[..i]
    {
      released := released + [v[i]];
      i := i + 1;
    }
  }

  /**
   * `str_freevp` on a pointer to a vector: a NULL pointer is left alone;
   * otherwise the vector it points to is released and the pointer cleared.
   * `Some(None)` is a pointer to NULL, which is released as nothing.
   */
  method FreeVP(p: Option<Option<seq<string>>>) returns (released: seq<string>, q: Option<Option<seq<string>>>)
    ensures q == if p.Some? then Some(None) else None
    ensures released == if p.Some? && p.value.Some? then p.value.value else []
  {
    if p.None? {
      return [], None;
    }
    released := FreeV(p.value);
    q := Some(None);
  }
}
