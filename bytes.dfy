/** Octets, NUL-terminated strings and the two number notations the controller reads
    and writes: decimal (the `IMG:` length, the photo number) and two-digit hexadecimal
    (the trailer checksum). */
module Bytes {

  /** One octet on the serial link, in a buffer or in a file name. */
  type byte = bv8

  datatype Option<T> = None | Some(value: T)

  const NUL: byte := 0x00
  const LF: byte := 0x0A
  const ZERO_DIGIT: byte := 0x30

  /** The first `n` elements of `s`, or all of `s` when it is shorter. */
  function Take(s: seq<byte>, n: nat): seq<byte> {
    if |s| <= n then s else s[..n]
  }

  // ---------------------------------------------------------------------------
  // C strings

  predicate NulFree(s: seq<byte>) {
    forall i :: 0 <= i < |s| ==> s[i] != NUL
  }

  lemma NulFreeAppend(a: seq<byte>, b: seq<byte>)
    requires NulFree(a) && NulFree(b)
    ensures NulFree(a + b)
  {
    forall i | 0 <= i < |a + b| ensures (a + b)[i] != NUL {
      if i >= |a| {
        assert (a + b)[i] == b[i - |a|];
      }
    }
  }

  /** What a C string function sees of a buffer: everything before the first NUL. */
  function CString(s: seq<byte>): (r: seq<byte>)
    ensures |r| <= |s|
  {
    if |s| == 0 || s[0] == NUL then [] else [s[0]] + CString(s[1..])
  }

  /** The C string is a NUL-free prefix of the buffer, ended by a NUL or by the buffer's
      end. */
  lemma {:induction false} CStringSpec(s: seq<byte>)
    ensures var r := CString(s);
      && r == s[..|r|]
      && NulFree(r)
      && (|r| < |s| ==> s[|r|] == NUL)
  {
    if |s| > 0 && s[0] != NUL {
      CStringSpec(s[1..]);
      var rest := CString(s[1..]);
      assert s[1..][..|rest|] == s[1..|rest| + 1];
      assert forall i :: 1 <= i < |rest| + 1 ==> CString(s)[i] == rest[i - 1];
    }
  }

  /** A NUL-free prefix passes through unchanged. */
  lemma {:induction false} CStringAppend(a: seq<byte>, b: seq<byte>)
    requires NulFree(a)
    ensures CString(a + b) == a + CString(b)
  {
    if |a| > 0 {
      assert (a + b)[1..] == a[1..] + b;
      CStringAppend(a[1..], b);
    } else {
      assert a + b == b;
    }
  }

  /** Only the bytes before a terminator matter: a buffer whose byte `n` is NUL reads as
      its first `n` bytes. */
  lemma {:induction false} CStringTerminated(s: seq<byte>, n: nat)
    requires n < |s| && s[n] == NUL
    ensures CString(s) == CString(s[..n])
  {
    if n > 0 && s[0] != NUL {
      assert s[1..][..n - 1] == s[..n][1..];
      CStringTerminated(s[1..], n - 1);
    }
  }

  // ---------------------------------------------------------------------------
  // Substring search (strstr, strchr, memcmp)

  /** `pat` occurs in `s` starting at index `i`. */
  predicate OccursAt(s: seq<byte>, pat: seq<byte>, i: nat) {
    i + |pat| <= |s| && s[i..i + |pat|] == pat
  }

  /** The first occurrence of `pat` in `s` at index `i` or later. */
  function FindFrom(s: seq<byte>, pat: seq<byte>, i: nat): (r: Option<nat>)
    decreases |s| - i
    ensures r.Some? ==> i <= r.value && r.value + |pat| <= |s|
  {
    if i + |pat| > |s| then None
    else if s[i..i + |pat|] == pat then Some(i)
    else FindFrom(s, pat, i + 1)
  }

  /** The search finds the first occurrence at or after `i`, and says None only when there
      is none. */
  lemma {:induction false} FindFromSpec(s: seq<byte>, pat: seq<byte>, i: nat)
    decreases |s| - i
    ensures var r := FindFrom(s, pat, i);
      && (r.Some? ==> OccursAt(s, pat, r.value))
      && (r.Some? ==> forall j: nat :: i <= j < r.value ==> !OccursAt(s, pat, j))
      && (r.None? ==> forall j: nat :: i <= j ==> !OccursAt(s, pat, j))
  {
    if i + |pat| <= |s| && s[i..i + |pat|] != pat {
      FindFromSpec(s, pat, i + 1);
    }
  }

  /** A position without a match passes the search on to the next one. */
  lemma FindFromSkip(s: seq<byte>, pat: seq<byte>, i: nat)
    requires !OccursAt(s, pat, i)
    ensures FindFrom(s, pat, i) == (if i + |pat| > |s| then None else FindFrom(s, pat, i + 1))
  {
  }

  /** strstr: the first occurrence of `pat` in `s`. */
  function Find(s: seq<byte>, pat: seq<byte>): Option<nat> {
    FindFrom(s, pat, 0)
  }

  /** A match at `k`, with no match between `i` and `k`, is what the search returns. */
  lemma {:induction false} FindFromAt(s: seq<byte>, pat: seq<byte>, i: nat, k: nat)
    requires i <= k && OccursAt(s, pat, k)
    requires forall j: nat :: i <= j < k ==> !OccursAt(s, pat, j)
    decreases k - i
    ensures FindFrom(s, pat, i) == Some(k)
  {
    if i < k {
      assert !OccursAt(s, pat, i);
      FindFromAt(s, pat, i + 1, k);
    }
  }

  // ---------------------------------------------------------------------------
  // Decimal numbers (atoi, sscanf "%d", printf "%d" and "%04d")

  predicate IsDigit(b: byte) {
    0x30 <= b <= 0x39
  }

  predicate AllDigits(s: seq<byte>) {
    forall i :: 0 <= i < |s| ==> IsDigit(s[i])
  }

  /** The value of a digit byte. */
  function DigitValue(b: byte): nat {
    (b - ZERO_DIGIT) as nat
  }

  function DigitByte(d: nat): (b: byte)
    requires d < 10
    ensures IsDigit(b) && DigitValue(b) == d
  {
    (d as bv8) + ZERO_DIGIT
  }

  /** The value `acc` followed by the digits `ds`, most significant first. */
  function DigitsFold(acc: nat, ds: seq<byte>): nat
    decreases |ds|
  {
    if |ds| == 0 then acc else DigitsFold(10 * acc + DigitValue(ds[0]), ds[1..])
  }

  /** The value of a string of decimal digits. */
  function DigitsValue(ds: seq<byte>): nat {
    DigitsFold(0, ds)
  }

  /** The decimal conversion of the C library: digits are accumulated from the left until
      the first byte that is not a digit. */
  function ParseFrom(s: seq<byte>, acc: nat): nat
    decreases |s|
  {
    if |s| > 0 && IsDigit(s[0]) then ParseFrom(s[1..], 10 * acc + DigitValue(s[0])) else acc
  }

  /** The number a decimal parser reads at the start of `s`: 0 when `s` does not start with
      a digit. */
  function ParseDecimal(s: seq<byte>): nat {
    ParseFrom(s, 0)
  }

  /** The shortest decimal notation of `n`. */
  function Decimal(n: nat): (r: seq<byte>)
    ensures 1 <= |r| && AllDigits(r)
  {
    if n < 10 then [DigitByte(n)] else Decimal(n / 10) + [DigitByte(n % 10)]
  }

  /** Folding a concatenation folds its parts in turn. */
  lemma {:induction false} DigitsFoldAppend(acc: nat, a: seq<byte>, b: seq<byte>)
    ensures DigitsFold(acc, a + b) == DigitsFold(DigitsFold(acc, a), b)
    decreases |a|
  {
    if |a| > 0 {
      assert (a + b)[0] == a[0] && (a + b)[1..] == a[1..] + b;
      DigitsFoldAppend(10 * acc + DigitValue(a[0]), a[1..], b);
    } else {
      assert a + b == b;
    }
  }

  lemma DigitsValueSnoc(ds: seq<byte>, d: byte)
    ensures DigitsValue(ds + [d]) == 10 * DigitsValue(ds) + DigitValue(d)
  {
    DigitsFoldAppend(0, ds, [d]);
    assert [d][1..] == [];
  }

  lemma {:induction false} DecimalValue(n: nat)
    ensures DigitsValue(Decimal(n)) == n
  {
    if n >= 10 {
      DecimalValue(n / 10);
      DigitsValueSnoc(Decimal(n / 10), DigitByte(n % 10));
    } else {
      DigitsValueSnoc([], DigitByte(n));
      assert [] + [DigitByte(n)] == Decimal(n);
    }
  }

  /** A parse reads exactly the digits in front of the first non-digit. */
  lemma {:induction false} ParseFromDigits(ds: seq<byte>, rest: seq<byte>, acc: nat)
    requires AllDigits(ds)
    requires rest == [] || !IsDigit(rest[0])
    ensures ParseFrom(ds + rest, acc) == DigitsFold(acc, ds)
    decreases |ds|
  {
    if |ds| > 0 {
      assert (ds + rest)[0] == ds[0] && (ds + rest)[1..] == ds[1..] + rest;
      ParseFromDigits(ds[1..], rest, 10 * acc + DigitValue(ds[0]));
    } else {
      assert ds + rest == rest;
    }
  }

  lemma ParseDigitsOf(ds: seq<byte>, rest: seq<byte>)
    requires AllDigits(ds)
    requires rest == [] || !IsDigit(rest[0])
    ensures ParseDecimal(ds + rest) == DigitsValue(ds)
  {
    ParseFromDigits(ds, rest, 0);
  }

  function Zeros(k: nat): (r: seq<byte>)
    ensures |r| == k && AllDigits(r)
  {
    seq(k, _ => ZERO_DIGIT)
  }

  lemma {:induction false} ZerosValue(k: nat)
    ensures DigitsValue(Zeros(k)) == 0
  {
    if k > 0 {
      assert Zeros(k) == Zeros(k - 1) + [ZERO_DIGIT];
      ZerosValue(k - 1);
      DigitsValueSnoc(Zeros(k - 1), ZERO_DIGIT);
    }
  }

  /** Leading zeros do not change a decimal value. */
  lemma LeadingZerosValue(k: nat, ds: seq<byte>)
    ensures DigitsValue(Zeros(k) + ds) == DigitsValue(ds)
  {
    DigitsFoldAppend(0, Zeros(k), ds);
    ZerosValue(k);
  }

  /** The decimal notation of `n`, padded on the left with zeros to at least `width`
      digits. */
  function ZeroPadded(n: nat, width: nat): (r: seq<byte>)
    ensures width <= |r| && AllDigits(r)
  {
    var d := Decimal(n);
    if |d| < width then Zeros(width - |d|) + d else d
  }

  lemma ZeroPaddedValue(n: nat, width: nat)
    ensures DigitsValue(ZeroPadded(n, width)) == n
  {
    DecimalValue(n);
    if |Decimal(n)| < width {
      LeadingZerosValue(width - |Decimal(n)|, Decimal(n));
    }
  }

  const MINUS: byte := 0x2D
  const PLUS: byte := 0x2B

  /** printf "%04d": a minus sign for a negative value, then the digits, zero-padded so that
      the whole is at least four characters wide. */
  function Print04(v: int): (r: seq<byte>)
    ensures |r| >= 4
  {
    if v >= 0 then ZeroPadded(v, 4) else [MINUS] + ZeroPadded(-v, 3)
  }

  function Pow10(k: nat): (p: nat)
    ensures p >= 1
  {
    if k == 0 then 1 else 10 * Pow10(k - 1)
  }

  /** A number below 10^k needs at most k digits. */
  lemma {:induction false} DecimalLength(n: nat, k: nat)
    requires 1 <= k && n < Pow10(k)
    ensures |Decimal(n)| <= k
  {
    if n >= 10 {
      assert k >= 2;
      DecimalLength(n / 10, k - 1);
    }
  }

  // ---------------------------------------------------------------------------
  // Signed numbers as the C library reads them (atoi, sscanf "%d")

  /** isspace in the C locale. */
  predicate IsSpace(b: byte) {
    b == 0x20 || 0x09 <= b <= 0x0D
  }

  predicate IsSign(b: byte) {
    b == PLUS || b == MINUS
  }

  /** What is left once the leading white space is skipped. */
  function SkipSpace(s: seq<byte>): seq<byte> {
    if |s| > 0 && IsSpace(s[0]) then SkipSpace(s[1..]) else s
  }

  /** sscanf "%d": white space, an optional sign and at least one digit; None when no
      number can be converted. */
  function ScanInt(s: seq<byte>): Option<int> {
    var t := SkipSpace(s);
    if |t| > 1 && IsSign(t[0]) && IsDigit(t[1]) then
      var v: int := ParseDecimal(t[1..]);
      Some(if t[0] == MINUS then -v else v)
    else if |t| > 0 && IsDigit(t[0]) then Some(ParseDecimal(t))
    else None
  }

  /** atoi: the number sscanf "%d" reads, or 0 when there is none. */
  function Atoi(s: seq<byte>): int {
    match ScanInt(s)
    case Some(v) => v
    case None => 0
  }

  /** A run of digits followed by a non-digit reads back as its value. */
  lemma ScanDigits(ds: seq<byte>, rest: seq<byte>)
    requires AllDigits(ds) && |ds| > 0
    requires rest == [] || !IsDigit(rest[0])
    ensures ScanInt(ds + rest) == Some(DigitsValue(ds) as int)
  {
    var s := ds + rest;
    assert s[0] == ds[0];
    assert SkipSpace(s) == s;
    ParseDigitsOf(ds, rest);
  }

  /** A minus sign and a run of digits followed by a non-digit read back as the negated
      value. */
  lemma ScanNegative(ds: seq<byte>, rest: seq<byte>)
    requires AllDigits(ds) && |ds| > 0
    requires rest == [] || !IsDigit(rest[0])
    ensures ScanInt([MINUS] + ds + rest) == Some(-(DigitsValue(ds) as int))
  {
    var s := [MINUS] + ds + rest;
    assert s[0] == MINUS && s[1] == ds[0];
    assert SkipSpace(s) == s;
    assert s[1..] == ds + rest;
    ParseDigitsOf(ds, rest);
  }

  /** A number printed with "%04d" reads back as itself when a non-digit follows it. */
  lemma ScanPrinted(v: int, rest: seq<byte>)
    requires rest == [] || !IsDigit(rest[0])
    ensures ScanInt(Print04(v) + rest) == Some(v)
  {
    if v >= 0 {
      ScanDigits(ZeroPadded(v, 4), rest);
      ZeroPaddedValue(v, 4);
    } else {
      ScanNegative(ZeroPadded(-v, 3), rest);
      ZeroPaddedValue(-v, 3);
      assert Print04(v) + rest == [MINUS] + ZeroPadded(-v, 3) + rest;
    }
  }

  /** A number printed with "%d" reads back as itself when a non-digit follows it. */
  lemma ScanDecimal(n: nat, rest: seq<byte>)
    requires rest == [] || !IsDigit(rest[0])
    ensures ScanInt(Decimal(n) + rest) == Some(n as int)
  {
    ScanDigits(Decimal(n), rest);
    DecimalValue(n);
  }

  // ---------------------------------------------------------------------------
  // Fixed-width integers of the 32-bit target (uint32_t, size_t, int)

  const U32_MOD: nat := 0x1_0000_0000
  const I32_MAX: int := 0x7FFF_FFFF

  type u32 = x: nat | x < U32_MOD

  /** The conversion of an integer to uint32_t or size_t: reduction modulo 2^32. */
  function ToU32(x: int): (r: u32)
    ensures 0 <= x < U32_MOD ==> r == x
    ensures -(U32_MOD as int) <= x < 0 ==> r == x + U32_MOD
  {
    x % U32_MOD
  }

  /** A uint32_t passed where printf "%d" expects an int. */
  function AsInt32(x: u32): (r: int)
    ensures ToU32(r) == x
    ensures x <= I32_MAX ==> r == x
  {
    if x <= I32_MAX then x else x - U32_MOD
  }

  // ---------------------------------------------------------------------------
  // Two-digit hexadecimal (sscanf "%02hhX", printf "%02X")

  predicate IsHexDigit(b: byte) {
    IsDigit(b) || 0x41 <= b <= 0x46 || 0x61 <= b <= 0x66
  }

  function HexValue(b: byte): (v: byte)
    requires IsHexDigit(b)
    ensures v < 16
  {
    if IsDigit(b) then b - 0x30
    else if b <= 0x46 then b - 0x41 + 10
    else b - 0x61 + 10
  }

  /** The upper-case hexadecimal digit of `v`. */
  function HexDigit(v: byte): (b: byte)
    requires v < 16
    ensures IsHexDigit(b) && HexValue(b) == v
  {
    if v < 10 then v + 0x30 else v - 10 + 0x41
  }

  /** One or two hexadecimal digits (either case) at the start of `s`. */
  function ParseHexByte(s: seq<byte>): Option<byte> {
    if |s| == 0 || !IsHexDigit(s[0]) then None
    else if |s| == 1 || !IsHexDigit(s[1]) then Some(HexValue(s[0]))
    else Some(HexValue(s[0]) * 16 + HexValue(s[1]))
  }

  /** sscanf "%02hhX": white space, then at most two characters: an optional sign (a minus
      negates modulo 256) and hexadecimal digits. */
  function ScanHexByte(s: seq<byte>): (r: Option<byte>)
    ensures |s| > 0 && IsHexDigit(s[0]) ==> r == ParseHexByte(s)
  {
    var t := SkipSpace(s);
    if |t| > 0 && IsSign(t[0]) then
      if |t| > 1 && IsHexDigit(t[1]) then
        Some(if t[0] == MINUS then 0 - HexValue(t[1]) else HexValue(t[1]))
      else None
    else ParseHexByte(t)
  }

  /** printf "%02X". */
  function HexByte(b: byte): (r: seq<byte>)
    ensures |r| == 2 && IsHexDigit(r[0]) && IsHexDigit(r[1])
  {
    [HexDigit(b >> 4), HexDigit(b & 0x0F)]
  }

  lemma HexByteRoundTrip(b: byte, rest: seq<byte>)
    ensures ScanHexByte(HexByte(b) + rest) == Some(b)
  {
    var s := HexByte(b) + rest;
    assert s[0] == HexDigit(b >> 4) && s[1] == HexDigit(b & 0x0F);
  }

  /** Only the two digit bytes matter: whatever follows them, they read back as `b`. */
  lemma HexByteRead(s: seq<byte>, b: byte)
    requires |s| >= 2 && s[0] == HexByte(b)[0] && s[1] == HexByte(b)[1]
    ensures ScanHexByte(s) == Some(b)
  {
    HexByteRoundTrip(b, s[2..]);
    var t := HexByte(b) + s[2..];
    assert t[0] == s[0] && t[1] == s[1];
  }
}
