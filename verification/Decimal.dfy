/** Decimal text as the C library prints and reads it. */
module Decimal {
  predicate IsDigit(c: char) { '0' <= c <= '9' }

  predicate AllDigits(s: string) {
    forall i :: 0 <= i < |s| ==> IsDigit(s[i])
  }

  function DigitOf(d: nat): (c: char)
    requires d < 10
    ensures IsDigit(c) && DigitValue(c) == d
  {
    '0' + d as char
  }

  function DigitValue(c: char): (d: nat)
    requires IsDigit(c)
    ensures d < 10
  {
    (c - '0') as int
  }

  /** printf's %lld of a number that is not negative. */
  function Natural(n: nat): (s: string)
    ensures s != "" && AllDigits(s)
  {
    if n < 10 then [DigitOf(n)] else Natural(n / 10) + [DigitOf(n % 10)]
  }

  /** printf's %lld */
  function Printed(n: int): (s: string)
    ensures s != "" && (IsDigit(s[0]) || s[0] == '-')
  {
    if n < 0 then "-" + Natural(-n) else Natural(n)
  }

  function Value(s: string): (n: nat)
    requires AllDigits(s)
  {
    if s == "" then 0 else 10 * Value(s[..|s| - 1]) + DigitValue(s[|s| - 1])
  }

  lemma {:induction false} NaturalValue(n: nat)
    ensures Value(Natural(n)) == n
  {
    var s := Natural(n);
    if n < 10 {
      assert s[..0] == "";
    } else {
      NaturalValue(n / 10);
      assert s[..|s| - 1] == Natural(n / 10);
    }
  }

  function LeadingDigits(s: string): (k: nat)
    ensures k <= |s| && AllDigits(s[..k])
    ensures k < |s| ==> !IsDigit(s[k])
  {
    if s == "" || !IsDigit(s[0]) then 0
    else
      var k := LeadingDigits(s[1..]);
      assert s[..k + 1] == [s[0]] + s[1..][..k];
      k + 1
  }

  predicate IsSpace(c: char) { c == ' ' || '\t' <= c <= '\r' }

  /** strtoll, atoll and atoi before any clamping: blanks, a sign, digits; what follows is not read. */
  function Scanned(s: string): (n: int)
    decreases |s|
  {
    if s == "" then 0
    else if IsSpace(s[0]) then Scanned(s[1..])
    else if s[0] == '-' then 0 - Value(s[1..][..LeadingDigits(s[1..])])
    else if s[0] == '+' then Value(s[1..][..LeadingDigits(s[1..])])
    else Value(s[..LeadingDigits(s)])
  }

  lemma {:induction false} LeadingOf(s: string, rest: string)
    requires AllDigits(s) && (rest == "" || !IsDigit(rest[0]))
    ensures LeadingDigits(s + rest) == |s|
  {
    if s == "" {
      assert s + rest == rest;
    } else {
      LeadingOf(s[1..], rest);
      assert (s + rest)[1..] == s[1..] + rest;
    }
  }

  lemma ScannedDigits(d: string, rest: string)
    requires d != "" && AllDigits(d) && (rest == "" || !IsDigit(rest[0]))
    ensures Scanned(d + rest) == Value(d)
    ensures Scanned(['-'] + (d + rest)) == 0 - Value(d)
  {
    LeadingOf(d, rest);
    hide Value, LeadingDigits;
    assert (d + rest)[..|d|] == d;
    assert (d + rest)[0] == d[0] && IsDigit(d[0]);
    assert (['-'] + (d + rest))[1..] == d + rest;
  }

  /** Reading undoes printing, whatever follows the number. */
  lemma ScannedPrinted(n: int, rest: string)
    requires rest == "" || !IsDigit(rest[0])
    ensures Scanned(Printed(n) + rest) == n
  {
    hide Value, AllDigits, Scanned, Natural;
    var m: nat := if n < 0 then -n else n;
    ScannedDigits(Natural(m), rest);
    NaturalValue(m);
    assert n < 0 ==> Printed(n) + rest == ['-'] + (Natural(m) + rest);
  }

  /** The digits are the characters 0 to 9 in this order. */
  lemma DigitLiteral(d: nat)
    requires d < 10
    ensures DigitOf(d) == "0123456789"[d] && DigitValue("0123456789"[d]) == d
  {}

  /** A zero in front changes nothing, and one more digit at the end counts ten times what stands before it. */
  lemma {:induction false} LeadingZero(s: string, d: nat)
    requires AllDigits(s) && d < 10
    ensures Value("0" + s) == Value(s) && Value(s + ["0123456789"[d]]) == 10 * Value(s) + d
  {
    DigitLiteral(d);
    assert (s + ["0123456789"[d]])[..|s|] == s;
    var z := "0" + s;
    if s == "" {
      assert z[..0] == "" && DigitValue('0') == 0;
    } else {
      LeadingZero(s[..|s| - 1], d);
      assert z[..|z| - 1] == "0" + s[..|s| - 1];
    }
  }

  lemma {:induction false} NoZeroInFront(n: nat)
    ensures n > 0 ==> Natural(n)[0] != '0'
  {
    if n >= 10 { NoZeroInFront(n / 10); }
  }
}
