/**
 * The radix texts character by character, against the literal map of bn_mp_radix_smap.c: which digit stands
 * where, which characters are read as which digit, and where reading stops.
 */
module RadixText {
  import opened Arith
  import opened Digits
  import opened Radix
  import Decimal

  const DIGITS: string := "0123456789"
  const UPPERS: string := "ABCDEFGHI" + "JKLMNOPQR" + "STUVWXYZ"
  const LOWERS: string := "abcdefghi" + "jklmnopqr" + "stuvwxyz"
  const MAP: string := DIGITS + UPPERS + LOWERS + "+/"

  lemma DigitAt(k: nat)
    requires k < 10
    ensures DIGITS[k] == '0' + k as char
  {}

  lemma LetterAt(k: nat)
    requires k < 26
    ensures |UPPERS| == 26 == |LOWERS| && UPPERS[k] == 'A' + k as char && LOWERS[k] == 'a' + k as char
  {
    var a, b, c := "ABCDEFGHI", "JKLMNOPQR", "STUVWXYZ";
    var d, e, f := "abcdefghi", "jklmnopqr", "stuvwxyz";
    if k < 9 {
      assert UPPERS[k] == a[k] && LOWERS[k] == d[k];
    } else if k < 18 {
      assert UPPERS[k] == b[k - 9] && LOWERS[k] == e[k - 9];
    } else {
      assert UPPERS[k] == c[k - 18] && LOWERS[k] == f[k - 18];
    }
  }

  /** The symbol of d is character number d of the map. */
  lemma SymbolAt(d: nat)
    requires d < 64
    ensures |MAP| == 64 && Symbol(d) == MAP[d]
  {
    LetterAt(0);
    if d < 10 {
      DigitAt(d);
    } else if d < 36 {
      LetterAt(d - 10);
    } else if d < 62 {
      LetterAt(d - 36);
    }
  }

  // ----- Reading one character -----

  /** The same character, or the two cases of one letter. */
  ghost predicate SameButCase(c: char, d: char) {
    c == d || exists k: nat :: k < 26 && ((c == UPPERS[k] && d == LOWERS[k]) || (c == LOWERS[k] && d == UPPERS[k]))
  }

  /** Up to radix 36 a character means d if it is the map's character number d in either case; above, only that one. */
  lemma MeaningExactly(c: char, radix: nat, d: nat)
    requires d < 64 && (radix <= 36 ==> d < 36)
    ensures |MAP| == 64
    ensures Meaning(c, radix) == d <==> if radix <= 36 then SameButCase(c, MAP[d]) else c == MAP[d]
  {
    hide MAP, UPPERS, LOWERS;
    SymbolAt(d);
    if radix <= 36 {
      CasesOf(c, Symbol(d));
    }
  }

  /** Two characters differ in case only if they are 32 apart. */
  lemma CasesOf(c: char, d: char)
    ensures SameButCase(c, d) <==> c == d || ('A' <= c <= 'Z' && d as int == c as int + 32) || ('a' <= c <= 'z' && d as int + 32 == c as int)
  {
    hide UPPERS, LOWERS;
    LetterAt(0);
    if k: nat :| k < 26 && ((c == UPPERS[k] && d == LOWERS[k]) || (c == LOWERS[k] && d == UPPERS[k])) {
      LetterAt(k);
    }
    if 'A' <= c <= 'Z' && d as int == c as int + 32 { LetterAt((c - 'A') as int); }
    if 'a' <= c <= 'z' && d as int + 32 == c as int { LetterAt((c - 'a') as int); }
  }

  /** A character that is no digit of the radix ends the number. */
  ghost predicate NoDigit(c: char, radix: nat)
    requires radix <= 64
  {
    forall d: nat :: d < radix ==> if radix <= 36 then !SameButCase(c, Symbol(d)) else c != Symbol(d)
  }

  lemma NoDigitMeans(c: char, radix: nat)
    requires 2 <= radix <= 64
    ensures NoDigit(c, radix) <==> Meaning(c, radix) >= radix
  {
    hide SameButCase, MAP, Meaning, Symbol;
    forall d: nat | d < radix
      ensures Meaning(c, radix) == d <==> if radix <= 36 then SameButCase(c, Symbol(d)) else c == Symbol(d)
    {
      SymbolAt(d);
      MeaningExactly(c, radix, d);
    }
    if Meaning(c, radix) < radix {
      var d := Meaning(c, radix);
      assert !(if radix <= 36 then !SameButCase(c, Symbol(d)) else c != Symbol(d));
    }
  }

  // ----- Reading texts -----

  ghost predicate AlikeButCase(s: string, t: string) {
    |s| == |t| && forall i :: 0 <= i < |s| ==> SameButCase(s[i], t[i])
  }

  /** Up to radix 36 the case of letters does not matter. */
  lemma CaseIgnored(s: string, t: string, radix: nat)
    requires radix <= 36 && AlikeButCase(s, t)
    ensures Read(s, radix) == Read(t, radix)
  {
    hide SameButCase, Reading;
    if s != "" {
      assert SameButCase(s[0], t[0]);
      CasesOf(s[0], t[0]);
      assert s[0] == '-' <==> t[0] == '-';
      assert forall i :: 0 <= i < |s| - 1 ==> s[1..][i] == s[i + 1] && t[1..][i] == t[i + 1];
      ReadingIgnoresCase(s[1..], t[1..], radix, 0);
      ReadingIgnoresCase(s, t, radix, 0);
    }
  }

  lemma {:induction false} ReadingIgnoresCase(s: string, t: string, radix: nat, acc: nat)
    requires radix <= 36 && AlikeButCase(s, t)
    ensures Reading(s, radix, acc) == Reading(t, radix, acc)
    decreases |s|
  {
    hide SameButCase;
    if s != "" {
      assert SameButCase(s[0], t[0]);
      CasesOf(s[0], t[0]);
      assert Meaning(s[0], radix) == Meaning(t[0], radix);
      assert forall i :: 0 <= i < |s| - 1 ==> s[1..][i] == s[i + 1] && t[1..][i] == t[i + 1];
      if Meaning(s[0], radix) < radix {
        MulNonNeg(acc, radix);
        ReadingIgnoresCase(s[1..], t[1..], radix, acc * radix + Meaning(s[0], radix));
      }
    }
  }

  /** The digits s, lowest first, as text. */
  function Spelled(s: seq<nat>): (t: string)
    requires IsDigits(s, 64)
    ensures |t| == |s| && forall i :: 0 <= i < |s| ==> t[|s| - 1 - i] == MAP[s[i]]
  {
    SymbolAt(0);
    seq(|s|, i requires 0 <= i < |s| => MAP[s[|s| - 1 - i]])
  }

  lemma {:induction false} NumeralSpelled(s: seq<nat>)
    requires IsDigits(s, 64)
    ensures Numeral(s) == Spelled(s)
  {
    hide MAP, Symbol;
    if s != [] {
      NumeralSpelled(s[1..]);
      SymbolAt(s[0]);
      assert Spelled(s) == Spelled(s[1..]) + [MAP[s[0]]];
    }
  }

  /** Digits in the order of the map, with zeros in front or not, are read to their value, up to the first other character. */
  lemma ReadDigits(s: seq<nat>, rest: string, radix: nat)
    requires 2 <= radix <= 64 && IsDigits(s, radix) && (rest == "" || NoDigit(rest[0], radix))
    requires s == [] ==> rest == "" || rest[0] != '-'
    ensures Read(Spelled(s) + rest, radix) == Val(s, radix) && Read("-" + (Spelled(s) + rest), radix) == 0 - Val(s, radix)
  {
    hide Val, Numeral, NoDigit, Meaning, MAP, Symbol;
    var t := Spelled(s) + rest;
    NumeralSpelled(s);
    ReadingNumeral(s, radix, rest);
    if rest != "" { NoDigitMeans(rest[0], radix); }
    assert ("-" + t)[1..] == t;
    if s != [] {
      SymbolAt(s[|s| - 1]);
      assert t[0] == Symbol(s[|s| - 1]);
      NoMinus(s[|s| - 1]);
    } else {
      assert t == rest;
    }
  }

  lemma NoMinus(d: nat)
    requires d < 64
    ensures Symbol(d) != '-'
  {}

  /** "f" and "F" are fifteen; from radix 37 on "a" is thirty-six. */
  lemma ReadExamples()
    ensures Read("f", 16) == 15 == Read("F", 16) && Read("fF", 16) == 255
    ensures Read("12", 10) == 12 && Read("-12", 10) == -12 && Read("a", 64) == 36 && Read("A", 64) == 10
  {
    assert "fF"[1..] == "F" && "f"[1..] == "" && "F"[1..] == "";
    assert "12"[1..] == "2" && "2"[1..] == "" && "-12"[1..] == "12";
    assert "a"[1..] == "" && "A"[1..] == "";
  }

  lemma WriteExamples()
    ensures Written(12, 10) == "12" && Written(-255, 16) == "-FF" && Written(4031, 64) == "+/"
  {
    TwoDigits(12, 1, 2, 10);
    TwoDigits(255, 15, 15, 16);
    TwoDigits(4031, 62, 63, 64);
    TwoSymbols(1, 2);
    TwoSymbols(15, 15);
    TwoSymbols(62, 63);
    hide ToDigits, Numeral;
  }

  lemma TwoSymbols(hi: nat, lo: nat)
    requires hi < 64 && lo < 64
    ensures Numeral([lo, hi]) == [Symbol(hi), Symbol(lo)]
  {
    hide Symbol;
    assert [lo, hi][1..] == [hi] && [hi][1..] == [];
    assert Numeral([hi]) == [Symbol(hi)];
  }

  lemma TwoDigits(v: nat, hi: nat, lo: nat, b: nat)
    requires b >= 2 && v == hi * b + lo && 0 < hi < b && lo < b
    ensures ToDigits(v, b) == [lo, hi]
  {
    hide Quo, Rem;
    QuoRemUnique(v, b, hi, lo);
    QuoRemUnique(hi, b, 0, hi);
    assert ToDigits(0, b) == [];
    assert ToDigits(hi, b) == [hi] + [];
  }

  // ----- Writing -----

  /** Digit i of v stands i places from the right, by the map, with no zero in front. */
  lemma WrittenAt(a: int, radix: nat, i: nat)
    requires 2 <= radix <= 64 && a != 0
    ensures var t, n := Written(a, radix), Used(Abs(a), radix);
      && |t| == n + (if a < 0 then 1 else 0) && (a < 0 ==> t[0] == '-')
      && (i < n ==> t[|t| - 1 - i] == MAP[Digit(Abs(a), i, radix)])
      && Digit(Abs(a), n - 1, radix) > 0
  {
    hide ToDigits, Numeral, MAP, Digit;
    var s := ToDigits(Abs(a), radix);
    NumeralSpelled(s);
    DigitOfDigits(Abs(a), |s| - 1, radix);
    if i < |s| {
      DigitOfDigits(Abs(a), i, radix);
    }
  }

  lemma {:induction false} DigitOfDigits(v: nat, i: nat, b: nat)
    requires b >= 2 && i < |ToDigits(v, b)|
    ensures ToDigits(v, b)[i] == Digit(v, i, b)
  {
    PowPos(b, i);
    if i == 0 {
      assert Pow(b, 0) == 1 && v / 1 == v;
    } else {
      DigitOfDigits(Quo(v, b), i - 1, b);
      PowPos(b, i - 1);
      assert Pow(b, i) == b * Pow(b, i - 1);
      hide Pow, ToDigits;
      DivDiv(v, b, Pow(b, i - 1));
      assert Digit(v, i, b) == Digit(Quo(v, b), i - 1, b);
    }
  }

  /** In radix 10 it is what printf prints. */
  lemma WrittenDecimal(a: int)
    ensures Written(a, 10) == Decimal.Printed(a)
  {
    hide ToDigits, Numeral;
    if a != 0 { NaturalNumeral(Abs(a)); } else { assert Decimal.DigitOf(0) == '0'; }
  }

  lemma {:induction false} NaturalNumeral(n: nat)
    requires n > 0
    ensures Numeral(ToDigits(n, 10)) == Decimal.Natural(n)
  {
    LastDigit(n, 10);
    if n < 10 {
      NoDigits(10);
    } else {
      NaturalNumeral(n / 10);
    }
    hide ToDigits, Numeral;
    assert Symbol(n % 10) == Decimal.DigitOf(n % 10);
  }
}
