/** Unsigned decimal numbers as fmt prints them and std::stoull reads them. */
module Decimal {
  import opened Wrappers

  const LIMIT: nat := 0x1_0000_0000_0000_0000

  function DigitChar(d: nat): char
    requires d < 10
  {
    '0' + d as char
  }

  predicate IsDigit(c: char) {
    '0' <= c <= '9'
  }

  function DigitValue(c: char): nat
    requires IsDigit(c)
  {
    c as nat - '0' as nat
  }

  function Print(n: nat): (s: string)
    ensures s != [] && forall c | c in s :: IsDigit(c)
  {
    if n < 10 then [DigitChar(n)] else Print(n / 10) + [DigitChar(n % 10)]
  }

  /** isspace in the C locale. */
  predicate IsSpace(c: char) {
    c == ' ' || 9 as char <= c <= 13 as char
  }

  function LeadingDigits(s: string): (n: nat)
    ensures n <= |s|
    ensures forall i | 0 <= i < n :: IsDigit(s[i])
    ensures n < |s| ==> !IsDigit(s[n])
  {
    if s == [] || !IsDigit(s[0]) then 0 else 1 + LeadingDigits(s[1..])
  }

  function Numeral(digits: string): nat
    requires forall c | c in digits :: IsDigit(c)
  {
    if digits == [] then 0
    else 10 * Numeral(digits[..|digits| - 1]) + DigitValue(digits[|digits| - 1])
  }

  function SkipSpace(s: string): string {
    if s != [] && IsSpace(s[0]) then SkipSpace(s[1..]) else s
  }

  /** Leading space, an optional sign, digits; anything after them is ignored. None where stoull throws. */
  function Stoull(s: string): (r: Option<nat>)
    ensures r.Some? ==> r.value < LIMIT
  {
    var t := SkipSpace(s);
    var negative := t != [] && t[0] == '-';
    var digits := if t != [] && (t[0] == '-' || t[0] == '+') then t[1..] else t;
    var n := LeadingDigits(digits);
    if n == 0 then None
    else
      var value := Numeral(digits[..n]);
      if value >= LIMIT then None
      else Some(if negative && value > 0 then LIMIT - value else value)
  }

  lemma {:induction false} NumeralOfPrint(n: nat)
    ensures Numeral(Print(n)) == n
  {
    if n < 10 {
      assert Print(n)[..0] == [];
    } else {
      NumeralOfPrint(n / 10);
      assert Print(n)[..|Print(n)| - 1] == Print(n / 10);
    }
  }

  /** Different numbers are printed differently. */
  lemma PrintDiffers(m: nat, n: nat)
    requires m != n
    ensures Print(m) != Print(n)
  {
    NumeralOfPrint(m);
    NumeralOfPrint(n);
  }

  lemma {:induction false} LeadingDigitsStop(digits: string, rest: string)
    requires forall c | c in digits :: IsDigit(c)
    requires rest == [] || !IsDigit(rest[0])
    ensures LeadingDigits(digits + rest) == |digits|
  {
    if digits == [] {
      assert digits + rest == rest;
    } else {
      assert digits[0] in digits;
      assert (digits + rest)[1..] == digits[1..] + rest;
      LeadingDigitsStop(digits[1..], rest);
    }
  }

  lemma StoullOfDigits(n: nat, rest: string)
    requires n < LIMIT
    requires rest == [] || !IsDigit(rest[0])
    ensures Stoull(Print(n) + rest) == Some(n)
  {
    var digits := Print(n);
    var t := digits + rest;
    assert t[0] == digits[0] && digits[0] in digits;
    LeadingDigitsStop(digits, rest);
    NumeralOfPrint(n);
    assert t[..|digits|] == digits;
  }

  /** A printed 64-bit number, after a space and before anything that is no digit, reads back. */
  lemma StoullOfPrint(n: nat, rest: string)
    requires n < LIMIT
    requires rest == [] || !IsDigit(rest[0])
    ensures Stoull(Print(n) + rest) == Some(n)
    ensures Stoull([' '] + (Print(n) + rest)) == Some(n)
  {
    StoullOfDigits(n, rest);
    var t := Print(n) + rest;
    assert ([' '] + t)[1..] == t;
    assert SkipSpace([' '] + t) == SkipSpace(t);
  }

  /** A sign is read, and a negative number is taken modulo 2^64. */
  lemma SignsRead(n: nat, rest: string)
    requires n < LIMIT && (rest == [] || !IsDigit(rest[0]))
    ensures Stoull(['+'] + (Print(n) + rest)) == Some(n)
    ensures Stoull(['-'] + (Print(n) + rest)) == Some(if n == 0 then 0 else 0x1_0000_0000_0000_0000 - n)
  {
    AfterSign('+', n, rest);
    AfterSign('-', n, rest);
  }

  lemma AfterSign(sign: char, n: nat, rest: string)
    requires n < LIMIT && (rest == [] || !IsDigit(rest[0])) && (sign == '+' || sign == '-')
    ensures Stoull([sign] + (Print(n) + rest)) == Some(if sign == '-' && n > 0 then LIMIT - n else n)
  {
    var digits, t := Print(n), Print(n) + rest;
    LeadingDigitsStop(digits, rest);
    NumeralOfPrint(n);
    assert t[..|digits|] == digits;
    assert ([sign] + t)[1..] == t;
  }

  /** What does not fit 64 bits throws, and so does a text without a number. */
  lemma TooLargeThrows(n: nat, rest: string)
    requires n >= 0x1_0000_0000_0000_0000 && (rest == [] || !IsDigit(rest[0]))
    ensures Stoull(Print(n) + rest) == None
  {
    var digits, t := Print(n), Print(n) + rest;
    assert t[0] == digits[0] && digits[0] in digits;
    LeadingDigitsStop(digits, rest);
    NumeralOfPrint(n);
    assert t[..|digits|] == digits;
  }

  lemma NoNumberThrows(s: string)
    requires s == [] || !(IsDigit(s[0]) || IsSpace(s[0]) || s[0] == '+' || s[0] == '-')
    ensures Stoull(s) == None
  {
  }

  /** Blanks, tabs, line feeds, vertical tabs, form feeds and carriage returns are space. */
  lemma Spaces(c: char)
    ensures IsSpace(c) <==> c as int in {9, 10, 11, 12, 13, 32}
  {
  }
}
