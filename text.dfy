/**
 * The C library routines the shell relies on, stated on `string` (a C string
 * is the text before its terminating NUL): `strstr`, `strlen`, `isdigit`,
 * `sprintf("%d")` and the digit scan of `atoi`.
 */
module Text {
  import opened Wrappers

  /** `needle` occurs in `s` starting at index `i`. */
  predicate MatchAt(s: string, i: nat, needle: string) {
    i + |needle| <= |s| && s[i..i + |needle|] == needle
  }

  predicate StartsWith(s: string, prefix: string) {
    |prefix| <= |s| && s[..|prefix|] == prefix
  }

  predicate IsSuffix(suffix: string, s: string) {
    |suffix| <= |s| && s[|s| - |suffix|..] == suffix
  }

  lemma MatchAtStart(s: string, needle: string)
    ensures MatchAt(s, 0, needle) <==> StartsWith(s, needle)
  {
  }

  /** An occurrence in a suffix of `s` is an occurrence in `s`, shifted. */
  lemma MatchAtDrop(s: string, d: nat, i: nat, needle: string)
    requires d <= |s|
    ensures MatchAt(s[d..], i, needle) <==> MatchAt(s, d + i, needle)
  {
    if d + i + |needle| <= |s| {
      assert s[d..][i..i + |needle|] == s[d + i..d + i + |needle|];
    }
  }

  /** A string without the needle's first character contains no occurrence of it. */
  lemma NoFirstCharNoMatch(s: string, needle: string, i: nat)
    requires |needle| > 0 && needle[0] !in s
    ensures !MatchAt(s, i, needle)
  {
  }

  /**
   * `strstr` applied at offset `from`: the first occurrence of `needle` at or
   * after `from`, or None.
   */
  function StrStr(s: string, needle: string, from: nat): (r: Option<nat>)
    requires from <= |s|
    decreases |s| - from
    ensures r.Some? ==> from <= r.value && MatchAt(s, r.value, needle)
    ensures r.Some? ==> forall i :: from <= i < r.value ==> !MatchAt(s, i, needle)
    ensures r.None? ==> forall i :: from <= i ==> !MatchAt(s, i, needle)
  {
    if from + |needle| > |s| then None
    else if MatchAt(s, from, needle) then Some(from)
    else StrStr(s, needle, from + 1)
  }

  /** `strlen`: the index of the first NUL of a buffer that holds one. */
  function CLen(a: seq<char>): (n: nat)
    requires '\0' in a
    ensures n < |a| && a[n] == '\0' && '\0' !in a[..n]
  {
    if a[0] == '\0' then 0
    else
      assert '\0' in a[1..] by { var k :| 0 <= k < |a| && a[k] == '\0'; assert a[1..][k - 1] == '\0'; }
      var m := CLen(a[1..]);
      assert a[..m + 1] == [a[0]] + a[1..][..m];
      m + 1
  }

  predicate IsDigit(c: char) {
    '0' <= c <= '9'
  }

  function DigitChar(d: nat): (c: char)
    requires d < 10
    ensures IsDigit(c)
  {
    ('0' as int + d) as char
  }

  function DigitValue(c: char): (d: nat)
    requires IsDigit(c)
    ensures d < 10 && DigitChar(d) == c
  {
    c as int - '0' as int
  }

  predicate AllDigits(s: string) {
    forall i :: 0 <= i < |s| ==> IsDigit(s[i])
  }

  /** The decimal digits of `n`, most significant first, without leading zeros. */
  function NatDecimal(n: nat): (s: string)
    decreases n
  {
    if n < 10 then [DigitChar(n)] else NatDecimal(n / 10) + [DigitChar(n % 10)]
  }

  /** `sprintf("%d", x)`. */
  function Decimal(x: int): string {
    if x < 0 then "-" + NatDecimal(-x) else NatDecimal(x)
  }

  /** Value of a run of decimal digits, most significant first. */
  function DigitsValue(ds: string): (v: nat)
    requires AllDigits(ds)
  {
    if ds == [] then 0 else DigitsValue(ds[..|ds| - 1]) * 10 + DigitValue(ds[|ds| - 1])
  }

  /** The longest prefix of `s` made of decimal digits. */
  function LeadingDigits(s: string): (p: string)
    ensures StartsWith(s, p) && AllDigits(p)
    ensures |p| == |s| || !IsDigit(s[|p|])
  {
    if s == [] || !IsDigit(s[0]) then []
    else
      var p := LeadingDigits(s[1..]);
      assert s[..|p| + 1] == [s[0]] + s[1..][..|p|];
      [s[0]] + p
  }

  /**
   * `atoi` on a string whose first character is a digit: the value of the
   * leading run of digits (no whitespace or sign is skipped in that case).
   */
  function LeadingDigitsValue(s: string): nat {
    DigitsValue(LeadingDigits(s))
  }

  /** Every character `sprintf("%d")` prints is a digit or the minus sign. */
  lemma {:induction false} NatDecimalDigits(n: nat)
    ensures |NatDecimal(n)| > 0 && AllDigits(NatDecimal(n))
    decreases n
  {
    if n >= 10 {
      NatDecimalDigits(n / 10);
    }
  }

  lemma DecimalChars(x: int)
    ensures |Decimal(x)| > 0
    ensures forall i :: 0 <= i < |Decimal(x)| ==> IsDigit(Decimal(x)[i]) || Decimal(x)[i] == '-'
  {
    NatDecimalDigits(if x < 0 then -x else x);
  }

  /** Reading back the digits `sprintf` prints gives the number: `atoi` inverts `%d` on naturals. */
  lemma {:induction false} NatDecimalRoundTrip(n: nat)
    ensures AllDigits(NatDecimal(n)) && DigitsValue(NatDecimal(n)) == n
    ensures LeadingDigits(NatDecimal(n)) == NatDecimal(n)
    ensures LeadingDigitsValue(NatDecimal(n)) == n
    decreases n
  {
    NatDecimalDigits(n);
    var s := NatDecimal(n);
    if n >= 10 {
      NatDecimalRoundTrip(n / 10);
      assert s[..|s| - 1] == NatDecimal(n / 10);
      assert DigitValue(s[|s| - 1]) == n % 10;
    }
    AllDigitsLeading(s);
  }

  lemma {:induction false} AllDigitsLeading(s: string)
    requires AllDigits(s)
    ensures LeadingDigits(s) == s
    decreases |s|
  {
    if s != [] {
      AllDigitsLeading(s[1..]);
    }
  }

  /** `atoi` stops at the first character that is not a digit. */
  lemma {:induction false} LeadingDigitsAppend(p: string, rest: string)
    requires AllDigits(p) && (rest == [] || !IsDigit(rest[0]))
    ensures LeadingDigits(p + rest) == p
    decreases |p|
  {
    if p == [] {
      assert p + rest == rest;
    } else {
      assert (p + rest)[1..] == p[1..] + rest;
      LeadingDigitsAppend(p[1..], rest);
    }
  }
}
