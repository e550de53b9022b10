/** The printf and scanf conversions the messages use: ISO C11 sections 7.21.6.1 and 7.21.6.2. */
module Formats {
  import opened Modular

  datatype Option<+T> = None | Some(value: T)

  function Pow(base: nat, n: nat): nat {
    if n == 0 then 1 else base * Pow(base, n - 1)
  }

  type Base = b: nat | b == 10 || b == 16 witness 10

  function DigitChar(d: nat): (c: char)
    requires d < 16
    ensures IsDigit(c, 16) && DigitValue(c) == d
    ensures d < 10 ==> IsDigit(c, 10)
    ensures d >= 10 ==> 'a' <= c <= 'f'
  {
    if d < 10 then ('0' as int + d) as char else ('a' as int + (d - 10)) as char
  }

  predicate IsDigit(c: char, base: Base) {
    '0' <= c <= '9' || (base == 16 && ('a' <= c <= 'f' || 'A' <= c <= 'F'))
  }

  function DigitValue(c: char): (d: nat)
    requires IsDigit(c, 16)
    ensures d < 16 && (IsDigit(c, 10) ==> d < 10)
  {
    if '0' <= c <= '9' then c as int - '0' as int
    else if 'a' <= c <= 'f' then c as int - 'a' as int + 10
    else c as int - 'A' as int + 10
  }

  predicate AllDigits(s: string, base: Base) {
    forall i :: 0 <= i < |s| ==> IsDigit(s[i], base)
  }

  // printf.

  /** %x or %u: the digits of n without leading zeros. */
  function Digits(n: nat, base: Base): (s: string)
    ensures |s| > 0 && AllDigits(s, base)
  {
    if n < base then [DigitChar(n)] else Digits(n / base, base) + [DigitChar(n % base)]
  }

  function Zeros(n: nat): (s: string)
    ensures |s| == n && AllDigits(s, 10) && AllDigits(s, 16)
  {
    seq(n, _ => '0')
  }

  /** %0<width>x or %0<width>u: at least width digits. */
  function Padded(n: nat, base: Base, width: nat): (s: string)
    ensures |s| >= width && |s| > 0 && AllDigits(s, base)
  {
    var d := Digits(n, base);
    if |d| >= width then d else Zeros(width - |d|) + d
  }

  // scanf.

  /** The number a string of digits denotes. */
  function Value(s: string, base: Base): nat
    requires AllDigits(s, base)
  {
    if |s| == 0 then 0 else Value(s[..|s| - 1], base) * base + DigitValue(s[|s| - 1])
  }

  predicate IsSpace(c: char) {
    c == ' ' || '\t' as int <= c as int <= '\r' as int
  }

  function SkipSpace(s: string): string {
    if |s| > 0 && IsSpace(s[0]) then SkipSpace(s[1..]) else s
  }

  /** How many digits s starts with, counting at most max. */
  function Leading(s: string, base: Base, max: nat): (k: nat)
    ensures k <= |s| && k <= max && AllDigits(s[..k], base)
    ensures k < max && k < |s| ==> !IsDigit(s[k], base)
  {
    if max > 0 && |s| > 0 && IsDigit(s[0], base) then 1 + Leading(s[1..], base, max - 1) else 0
  }

  datatype Scan<+T> = Fail | Got(value: T, rest: string)

  predicate HasPrefix(s: string, base: Base, max: nat) {
    base == 16 && max >= 2 && |s| >= 2 && s[0] == '0' && (s[1] == 'x' || s[1] == 'X')
  }

  /** 0x for base 16, and digits, within the width; stored in a variable of the given number of values. */
  function ScanDigits(s: string, base: Base, width: nat, modulus: nat): (r: Scan<nat>)
    requires 0 < modulus
    ensures r.Got? ==> r.value < modulus
  {
    var prefixed := HasPrefix(s, base, width);
    var digits := if prefixed then s[2..] else s;
    var k := Leading(digits, base, if prefixed then width - 2 else width);
    if k == 0 then Fail else Got(Value(digits[..k], base) % modulus, digits[k..])
  }

  /** %x, %lu and their forms with a field width: white space, a sign, which counts for the width, and the number. */
  function ScanNumber(s: string, base: Base, width: nat, modulus: nat): Scan<nat>
    requires 0 < modulus
  {
    var s1 := SkipSpace(s);
    if width > 0 && |s1| > 0 && (s1[0] == '+' || s1[0] == '-') then
      match ScanDigits(s1[1..], base, width - 1, modulus)
      case Fail => Fail
      case Got(v, rest) => Got(if s1[0] == '-' && v > 0 then modulus - v else v, rest)
    else ScanDigits(s1, base, width, modulus)
  }

  function ScanChar(s: string, c: char): Scan<()> {
    if |s| > 0 && s[0] == c then Got((), s[1..]) else Fail
  }

  function LeadingWord(s: string, max: nat): (k: nat)
    ensures k <= |s| && k <= max
  {
    if max > 0 && |s| > 0 && !IsSpace(s[0]) then 1 + LeadingWord(s[1..], max - 1) else 0
  }

  /** %s, with a field width. */
  function ScanWord(s: string, width: nat): Scan<string> {
    var s1 := SkipSpace(s);
    var k := LeadingWord(s1, width);
    if k == 0 then Fail else Got(s1[..k], s1[k..])
  }

  const NUL: char := '\0'

  /** The C string at the start of a buffer. */
  function CString(s: string): string {
    if |s| == 0 || s[0] == NUL then [] else [s[0]] + CString(s[1..])
  }

  // Printing and scanning a number are inverse.

  lemma {:induction false} ValueOfDigits(n: nat, base: Base)
    ensures Value(Digits(n, base), base) == n
    decreases n
  {
    if n >= base {
      ValueOfDigits(n / base, base);
      assert Digits(n, base)[..|Digits(n, base)| - 1] == Digits(n / base, base);
    } else {
      assert Digits(n, base)[..0] == [];
    }
  }

  lemma {:induction false} ValueOfZeros(z: nat, s: string, base: Base)
    requires AllDigits(s, base)
    ensures Value(Zeros(z) + s, base) == Value(s, base)
    decreases z + |s|
  {
    var t := Zeros(z) + s;
    if |s| > 0 {
      assert t[..|t| - 1] == Zeros(z) + s[..|s| - 1];
      ValueOfZeros(z, s[..|s| - 1], base);
    } else if z > 0 {
      assert t[..|t| - 1] == Zeros(z - 1) + s;
      ValueOfZeros(z - 1, s, base);
    }
  }

  lemma ValueOfPadded(n: nat, base: Base, width: nat)
    ensures Value(Padded(n, base, width), base) == n
  {
    ValueOfDigits(n, base);
    var d := Digits(n, base);
    if |d| < width {
      ValueOfZeros(width - |d|, d, base);
    }
  }

  lemma {:induction false} DigitsLength(n: nat, base: Base, width: nat)
    requires 0 < width
    ensures |Digits(n, base)| <= width <==> n < Pow(base, width)
    decreases n
  {
    if n < base {
      PowAtLeast(base, width);
    } else if width == 1 {
      assert Pow(base, 1) == base * Pow(base, 0);
    } else {
      DigitsLength(n / base, base, width - 1);
      assert n / base < Pow(base, width - 1) <==> n < base * Pow(base, width - 1);
    }
  }

  lemma {:induction false} PowAtLeast(base: Base, width: nat)
    requires 0 < width
    ensures base <= Pow(base, width)
  {
    if width > 1 {
      PowAtLeast(base, width - 1);
    }
  }

  /** A padded number has exactly the field width when it has no more digits than that. */
  lemma PaddedLength(n: nat, base: Base, width: nat)
    requires 0 < width
    ensures |Padded(n, base, width)| == width <==> n < Pow(base, width)
  {
    DigitsLength(n, base, width);
  }

  lemma {:induction false} LeadingAll(d: string, rest: string, base: Base, max: nat)
    requires AllDigits(d, base) && |d| <= max
    requires |d| == max || rest == [] || !IsDigit(rest[0], base)
    ensures Leading(d + rest, base, max) == |d|
    decreases |d|
  {
    if |d| > 0 {
      assert (d + rest)[1..] == d[1..] + rest;
      LeadingAll(d[1..], rest, base, max - 1);
    } else {
      assert d + rest == rest;
    }
  }

  /** Two digits at the start: no white space, sign or prefix. */
  lemma ScanPlain(s: string, base: Base, width: nat, modulus: nat)
    requires 0 < modulus && |s| >= 2 && IsDigit(s[0], base) && IsDigit(s[1], base) && width >= 2
    ensures var k := Leading(s, base, width);
            k > 0 && ScanNumber(s, base, width, modulus) == Got(Value(s[..k], base) % modulus, s[k..])
  {
    assert SkipSpace(s) == s;
    assert !HasPrefix(s, base, width);
  }

  /** Scanning what was printed gives the number and leaves what follows, where that is no digit or the field width
      ends the number. */
  lemma ScanPadded(n: nat, base: Base, printed: nat, rest: string, width: nat, modulus: nat)
    requires 2 <= printed && n < modulus && |Padded(n, base, printed)| <= width
    requires |Padded(n, base, printed)| == width || rest == [] || !IsDigit(rest[0], base)
    ensures ScanNumber(Padded(n, base, printed) + rest, base, width, modulus) == Got(n, rest)
  {
    var d := Padded(n, base, printed);
    var s := d + rest;
    assert s[0] == d[0] && s[1] == d[1];
    ScanPlain(s, base, width, modulus);
    LeadingAll(d, rest, base, width);
    assert s[..|d|] == d && s[|d|..] == rest;
    ValueOfPadded(n, base, printed);
    SmallRemainder(n, modulus);
  }

  // What a conversion accepts.

  lemma {:induction false} SkipsSpace(space: string, s: string)
    requires forall i :: 0 <= i < |space| ==> IsSpace(space[i])
    requires |s| > 0 ==> !IsSpace(s[0])
    ensures SkipSpace(space + s) == s
    decreases |space|
  {
    if |space| == 0 {
      assert space + s == s;
    } else {
      assert (space + s)[1..] == space[1..] + s;
      SkipsSpace(space[1..], s);
    }
  }

  /** Digits, and what cannot belong to them: from position p on, behind the prefix if there is one. */
  lemma DigitsFrom(s: string, p: nat, digits: string, rest: string, base: Base, width: nat, modulus: nat)
    requires 0 < modulus && |digits| > 0 && AllDigits(digits, base) && p + |digits| <= width
    requires |rest| > 0 ==> !IsDigit(rest[0], base)
    requires p <= |s| && s[p..] == digits + rest && p == if HasPrefix(s, base, width) then 2 else 0
    ensures ScanDigits(s, base, width, modulus) == Got(Value(digits, base) % modulus, rest)
  {
    var s3 := if HasPrefix(s, base, width) then s[2..] else s;
    assert s3 == digits + rest;
    LeadingAll(digits, rest, base, width - p);
    var k := Leading(s3, base, width - p);
    assert k == |digits| && s3[..k] == digits && s3[k..] == rest;
  }

  /** The prefix is 0x or 0X, for base 16. */
  predicate IsPrefix(prefix: string, base: Base) {
    base == 16 && (prefix == "0x" || prefix == "0X")
  }

  /** With a prefix, or without one. */
  lemma DigitsForm(prefix: string, digits: string, rest: string, base: Base, width: nat, modulus: nat)
    requires 0 < modulus && |digits| > 0 && AllDigits(digits, base) && |prefix| + |digits| <= width
    requires |rest| > 0 ==> !IsDigit(rest[0], base)
    requires IsPrefix(prefix, base) || (|prefix| == 0 && !HasPrefix(digits + rest, base, width))
    ensures ScanDigits(prefix + (digits + rest), base, width, modulus) == Got(Value(digits, base) % modulus, rest)
  {
    var tail := digits + rest;
    var s := prefix + tail;
    assert s[|prefix|..] == tail;
    if |prefix| == 0 {
      assert s == tail;
    } else {
      assert s[0] == prefix[0] && s[1] == prefix[1];
    }
    DigitsFrom(s, |prefix|, digits, rest, base, width, modulus);
  }

  /** White space and a sign are skipped: behind a minus sign the variable holds what is missing to the number of its
      values. */
  lemma SignedForm(space: string, sign: char, s: string, base: Base, width: nat, modulus: nat, v: nat, rest: string)
    requires 0 < modulus && 0 < width && (sign == '+' || sign == '-')
    requires forall i :: 0 <= i < |space| ==> IsSpace(space[i])
    requires ScanDigits(s, base, width - 1, modulus) == Got(v, rest)
    ensures ScanNumber(space + ([sign] + s), base, width, modulus)
         == Got(if sign == '-' && v > 0 then modulus - v else v, rest)
  {
    var s1 := [sign] + s;
    SkipsSpace(space, s1);
    assert s1[0] == sign && s1[1..] == s;
  }

  lemma UnsignedForm(space: string, s: string, base: Base, width: nat, modulus: nat)
    requires 0 < modulus && |s| > 0 && IsDigit(s[0], base)
    requires forall i :: 0 <= i < |space| ==> IsSpace(space[i])
    ensures ScanNumber(space + s, base, width, modulus) == ScanDigits(s, base, width, modulus)
  {
    SkipsSpace(space, s);
  }

  // Where the fields of a text are.

  /** The characters from from to to are digits of the base, and denote n. */
  ghost predicate NumberAt(s: string, from: nat, to: nat, base: Base, n: nat) {
    from <= to <= |s| && AllDigits(s[from..to], base) && Value(s[from..to], base) == n
  }

  /** A number of exactly width digits and a colon, from a position on. */
  lemma NumberField(s: string, from: nat, n: nat, base: Base, width: nat, rest: string)
    requires 0 < width && n < Pow(base, width)
    requires from <= |s| && s[from..] == Padded(n, base, width) + ":" + rest
    ensures from + width < |s| && NumberAt(s, from, from + width, base, n)
    ensures s[from + width] == ':' && s[from + width + 1..] == rest
  {
    var d := Padded(n, base, width);
    PaddedLength(n, base, width);
    ValueOfPadded(n, base, width);
    var tail := s[from..];
    assert tail[..width] == d && tail[width] == ':' && tail[width + 1..] == rest;
    assert s[from..from + width] == tail[..width] && s[from + width + 1..] == tail[width + 1..];
  }
}
