/**
 * Division by one digit and the text form of numbers in radix 2 to 64 (bn_mp_div_d.c, bn_mp_div_3.c,
 * bn_mp_toradix.c, bn_mp_read_radix.c, bn_mp_radix_size.c).
 */
module Radix {
  import opened Arith
  import opened Digits
  import MontgomerySetup

  // ----- Division by one digit -----

  /** The quotient digits q of the top digits s of a number, with remainder w. */
  ghost predicate Dividing(s: seq<nat>, q: seq<nat>, w: nat, d: nat, b: nat) {
    |q| == |s| && IsDigits(q, b) && w < d && Val(s, b) == Val(q, b) * d + w
  }

  /** One more digit x below s. */
  lemma DivideStep(s: seq<nat>, q: seq<nat>, w: nat, x: nat, t: nat, w': nat, d: nat, b: nat)
    requires Dividing(s, q, w, d, b) && x < b && w' < d && w * b + x == t * d + w'
    ensures Dividing([x] + s, [t] + q, w', d, b)
  {
    hide Val;
    assert ([x] + s)[1..] == s && ([t] + q)[1..] == q;
    ValHead([x] + s, b);
    ValHead([t] + q, b);
    var v := Val(q, b);
    assert b * (v * d + w) + x == (t + b * v) * d + w' by {
      MulDist(v * d, w, b);
      MulDist(t, b * v, d);
      MulSwap(b, v, d);
    }
    assert t < b by {
      MulStep(w, d, b);
      if t >= b { MulMono(b, t, d); }
    }
  }

  lemma DivideStart(d: nat, b: nat)
    requires d > 0
    ensures Dividing([], [], 0, d, b)
  {}

  /** Lines 79-96 of bn_mp_div_d.c. */
  method DivDigit(s: seq<nat>, d: nat, b: nat) returns (q: seq<nat>, w: nat)
    requires b >= 2 && 0 < d < b && IsDigits(s, b)
    ensures Dividing(s, q, w, d, b)
  {
    hide Dividing, Quo;
    var a := new nat[|s|];
    w := 0;
    var ix := |s|;
    DivideStart(d, b);
    assert s[ix..] == [] && a[ix..] == [];
    while ix > 0
      invariant 0 <= ix <= |s|
      invariant Dividing(s[ix..], a[ix..], w, d, b)
    {
      ix := ix - 1;
      ghost var top := a[ix + 1..];
      var wide := w * b + s[ix];
      var t: nat := 0;
      QuoRemSpec(wide, d);
      MulNonNeg(w, b);
      ghost var rest := Rem(wide, d);
      var w' := wide;
      if wide >= d {
        t := Quo(wide, d);
        w' := wide - t * d;
      }
      assert wide == t * d + w';
      DivideStep(s[ix + 1..], top, w, s[ix], t, w', d, b);
      a[ix] := t;
      w := w';
      assert s[ix..] == [s[ix]] + s[ix + 1..] && a[ix..] == [t] + top;
    }
    q := a[..];
    assert s[0..] == s && a[0..] == a[..];
  }

  /** Multiplying by the digit b/3 in place of dividing never overshoots; the loop makes up the rest. */
  method DivThree(s: seq<nat>, b: nat, ww: nat) returns (q: seq<nat>, w: nat)
    requires b >= 4 && IsDigits(s, b) && b * b <= ww
    ensures Dividing(s, q, w, 3, b)
  {
    hide Dividing, Quo, Rem;
    var third := b / 3;
    var a := new nat[|s|];
    w := 0;
    var ix := |s|;
    DivideStart(3, b);
    assert s[ix..] == [] && a[ix..] == [];
    while ix > 0
      invariant 0 <= ix <= |s|
      invariant Dividing(s[ix..], a[ix..], w, 3, b)
    {
      ix := ix - 1;
      ghost var top := a[ix + 1..];
      RemainderBelow(s[ix + 1..], top, w, 3, b);
      ghost var wide := w * b + s[ix];
      var t, w' := ThirdOf(w * b + s[ix], third, b, ww);
      DivideStep(s[ix + 1..], top, w, s[ix], t, w', 3, b);
      a[ix] := t;
      w := w';
      assert s[ix..] == [s[ix]] + s[ix + 1..] && a[ix..] == [t] + top;
    }
    q := a[..];
    assert s[0..] == s && a[0..] == a[..];
  }

  lemma RemainderBelow(s: seq<nat>, q: seq<nat>, w: nat, d: nat, b: nat)
    requires Dividing(s, q, w, d, b)
    ensures w < d
  {}

  /** Lines 40-56 of bn_mp_div_3.c, with the product taken in a word. */
  method ThirdOf(wide: nat, third: nat, b: nat, ww: nat) returns (t: nat, w: nat)
    requires b >= 4 && third == b / 3 && wide < 3 * b && b * b <= ww
    ensures wide == 3 * t + w && w < 3
  {
    if wide < 3 {
      return 0, wide;
    }
    hide Quo, Rem;
    Estimate(wide, third, b, ww);
    t := Quo(Rem(wide * third, ww), b);
    w := wide - (t + t + t);
    while w >= 3
      invariant wide == 3 * t + w && 0 <= w
      decreases w
    {
      t, w := t + 1, w - 3;
    }
  }

  lemma Estimate(wide: nat, third: nat, b: nat, ww: nat)
    requires b >= 4 && third == b / 3 && wide < 3 * b && b * b <= ww
    ensures ww > 0 && wide * third >= 0 && Rem(wide * third, ww) == wide * third
    ensures 0 <= Quo(wide * third, b) && 3 * Quo(wide * third, b) <= wide
  {
    var p := wide * third;
    MulNonNeg(wide, third);
    assert 3 * third <= b;
    assert 3 * p <= wide * b by {
      MulMono(3 * third, b, wide);
      MulSwap(3, third, wide);
    }
    MulPos(b, b);
    assert p < b * b by { MulStrict(wide, 3 * b, b); }
    DivModUnique(p, ww, 0, p);
    QuoRemSpec(p, b);
    var t := Quo(p, b);
    if 3 * t > wide {
      MulStep(wide, 3 * t, b);
      MulSwap(3, t, b);
    }
  }

  /** s_is_power_of_two */
  method PowerOfTwo(d: nat, db: nat) returns (p: Option<nat>)
    ensures p.Some? ==> p.value < db && d == Pow(2, p.value)
    ensures p.None? ==> forall x: nat :: x < db ==> d != Pow(2, x)
  {
    var x := 0;
    while x < db
      invariant 0 <= x <= db
      invariant forall y: nat :: y < x ==> d != Pow(2, y)
    {
      if d == Pow(2, x) {
        return Some(x);
      }
      x := x + 1;
    }
    return None;
  }

  /** mp_div_d: the quotient toward zero with the sign of a, and the remainder of the magnitude. */
  method DivD(a: int, d: nat, db: nat, ww: nat) returns (r: Option<(int, nat)>)
    requires db >= 2 && d < Pow(2, db) && Pow(2, db) * Pow(2, db) <= ww
    ensures d == 0 <==> r.None?
    ensures d > 0 ==> r.value.1 == Rem(Abs(a), d)
    ensures d > 0 ==> r.value.0 == if a < 0 then 0 - Quo(Abs(a), d) else Quo(a, d)
    ensures d > 0 && a >= 0 ==> r.value.0 >= 0
  {
    hide Pow, Quo, Rem;
    var q := DivDMagnitude(Abs(a), d, db, ww);
    if q.None? {
      return None;
    }
    var c: int := q.value.0;
    r := Some((if a < 0 then -c else c, q.value.1));
  }

  /** Four ways to the same quotient and remainder. */
  method DivDMagnitude(v: nat, d: nat, db: nat, ww: nat) returns (r: Option<(nat, nat)>)
    requires db >= 2 && d < Pow(2, db) && Pow(2, db) * Pow(2, db) <= ww
    ensures d == 0 ==> r.None?
    ensures d > 0 ==> r.Some? && r.value == (Quo(v, d), Rem(v, d))
  {
    if d == 0 {
      return None;
    }
    if d == 1 || v == 0 {
      ZeroOver(v, d);
      return Some((v, 0));
    }
    hide Pow, Val, Dividing, ToDigits, Quo, Rem;
    BigEnough(db);
    var b := Pow(2, db);
    QuoRemSpec(v, d);
    var s := ToDigits(v, b);
    ToDigitsVal(v, b);
    var p := PowerOfTwo(d, db);
    if p.Some? {
      LowBits(v, s, p.value, db);
      QuoRemSpec(s[0], d);
      return Some((Quo(v, d), Rem(s[0], d)));
    }
    var q, w;
    if d == 3 {
      q, w := DivThree(s, b, ww);
    } else {
      q, w := DivDigit(s, d, b);
    }
    Divided(s, q, w, d, b);
    return Some((Val(q, b), w));
  }

  lemma ZeroOver(v: nat, d: nat)
    requires d > 0 && (d == 1 || v == 0)
    ensures Quo(v, d) == v && Rem(v, d) == 0
  {
    QuoRemUnique(v, d, v, 0);
  }

  lemma BigEnough(db: nat)
    requires db >= 2
    ensures Pow(2, db) >= 4
  {
    PowMono(2, 2, db);
    assert Pow(2, 2) == 4;
  }

  lemma Divided(s: seq<nat>, q: seq<nat>, w: nat, d: nat, b: nat)
    requires d > 0 && Dividing(s, q, w, d, b)
    ensures Quo(Val(s, b), d) == Val(q, b) && Rem(Val(s, b), d) == w
  {
    hide Val;
    QuoRemUnique(Val(s, b), d, Val(q, b), w);
  }

  /** The low bits of a number are those of its lowest digit. */
  lemma LowBits(v: nat, s: seq<nat>, x: nat, db: nat)
    requires x < db && Pow(2, db) >= 2 && s == ToDigits(v, Pow(2, db)) && v > 0
    ensures Pow(2, x) > 0 && |s| > 0 && Rem(v, Pow(2, x)) == Rem(s[0], Pow(2, x))
  {
    hide Val, Pow, ToDigits, Quo, Rem;
    var b, d := Pow(2, db), Pow(2, x);
    PowPos(2, x);
    ToDigitsVal(v, b);
    ValHead(s, b);
    PowAdd(2, x, db - x);
    var k, e := Val(s[1..], b), Pow(2, db - x);
    MulSwap(d, e, k);
    QuoRemSpec(s[0], d);
    var c := Quo(s[0], d);
    MulDist(c, e * k, d);
    assert v == (c + e * k) * d + Rem(s[0], d);
    QuoRemUnique(v, d, c + e * k, Rem(s[0], d));
  }

  // ----- Text -----

  /** mp_s_rmap */
  function Symbol(d: nat): char
    requires d < 64
  {
    if d < 10 then '0' + d as char
    else if d < 36 then 'A' + (d - 10) as char
    else if d < 62 then 'a' + (d - 36) as char
    else if d == 62 then '+' else '/'
  }

  lemma SymbolsDiffer(x: nat, y: nat)
    requires x < 64 && y < 64 && Symbol(x) == Symbol(y)
    ensures x == y
  {}

  function Upper(c: char): char { if 'a' <= c <= 'z' then 'A' + (c - 'a') else c }

  /** The digits of v, highest first. */
  function Numeral(s: seq<nat>): string
    requires IsDigits(s, 64)
  {
    if s == [] then "" else Numeral(s[1..]) + [Symbol(s[0])]
  }

  function Written(a: int, radix: nat): string
    requires 2 <= radix <= 64
  {
    if a == 0 then "0"
    else (if a < 0 then "-" else "") + Numeral(ToDigits(Abs(a), radix))
  }

  function Reversed(s: string): (r: string)
    ensures |r| == |s|
  {
    if s == "" then "" else Reversed(s[1..]) + [s[0]]
  }

  lemma {:induction false} ReversedSnoc(s: string, c: char)
    ensures Reversed(s + [c]) == [c] + Reversed(s)
  {
    if s == "" {
      assert s + [c] == [c] && [c][1..] == "";
    } else {
      ReversedSnoc(s[1..], c);
      assert (s + [c])[1..] == s[1..] + [c];
    }
  }

  /** mp_toradix: divide, map, append, and turn the digits round at the end. */
  method ToRadix(a: int, radix: nat, db: nat, ww: nat) returns (str: Option<string>)
    requires db >= 7 && Pow(2, db) * Pow(2, db) <= ww
    ensures str == if 2 <= radix <= 64 then Some(Written(a, radix)) else None
  {
    if radix < 2 || radix > 64 {
      return None;
    }
    if a == 0 {
      return Some("0");
    }
    hide Pow, ToDigits, Numeral, Symbol, Quo, Rem, Reversed;
    RadixFits(db);
    var t: nat, s := Abs(a), "";
    ReversedNothing();
    assert Numeral(ToDigits(t, radix)) + "" == Numeral(ToDigits(t, radix));
    while t != 0
      invariant Numeral(ToDigits(Abs(a), radix)) == Numeral(ToDigits(t, radix)) + Reversed(s)
      decreases t
    {
      var qd := DivD(t, radix, db, ww);
      LastDigit(t, radix);
      var q, d := qd.value.0, qd.value.1;
      ReversedSnoc(s, Symbol(d));
      Regroup(Numeral(ToDigits(q, radix)), [Symbol(d)], Reversed(s));
      s := s + [Symbol(d)];
      t := q;
    }
    NoDigits(radix);
    assert "" + Reversed(s) == Reversed(s);
    return Some((if a < 0 then "-" else "") + Reversed(s));
  }

  lemma ReversedNothing()
    ensures Reversed("") == ""
  {}

  lemma Regroup(x: string, y: string, z: string)
    ensures (x + y) + z == x + (y + z)
  {}

  lemma RadixFits(db: nat)
    requires db >= 7
    ensures Pow(2, db) > 64
  {
    PowMono(2, 7, db);
    assert Pow(2, 7) == 128;
  }

  lemma LastDigit(t: nat, radix: nat)
    requires t > 0 && 2 <= radix <= 64
    ensures 0 <= Quo(t, radix) < t && 0 <= Rem(t, radix) < 64
    ensures Numeral(ToDigits(t, radix)) == Numeral(ToDigits(Quo(t, radix), radix)) + [Symbol(Rem(t, radix))]
  {
    DivStep(t, radix);
    var s := ToDigits(t, radix);
    assert s[1..] == ToDigits(Quo(t, radix), radix) && s[0] == Rem(t, radix);
  }

  lemma NoDigits(radix: nat)
    requires 2 <= radix <= 64
    ensures Numeral(ToDigits(0, radix)) == ""
  {}

  /** mp_radix_size: the length of the text and its terminating zero. */
  method RadixSize(a: int, radix: nat, db: nat, ww: nat) returns (size: Option<nat>)
    requires db >= 7 && Pow(2, db) * Pow(2, db) <= ww
    ensures size == if 2 <= radix <= 64 then Some(|Written(a, radix)| + 1) else None
  {
    if radix < 2 || radix > 64 {
      return None;
    }
    if a == 0 {
      return Some(2);
    }
    hide Pow, Numeral, Quo, Rem, Written, ToDigits, MontgomerySetup.CountBits;
    WrittenLength(a, radix);
    RadixFits(db);
    if radix == 2 {
      BitCount(Abs(a), radix);
      return Some(MontgomerySetup.CountBits(Abs(a)) + (if a < 0 then 1 else 0) + 1);
    }
    var t: nat, digs := Abs(a), if a < 0 then 1 else 0;
    while t != 0
      invariant digs >= 0
      invariant |Written(a, radix)| == |Numeral(ToDigits(t, radix))| + digs
      decreases t
    {
      var qd := DivD(t, radix, db, ww);
      LastDigit(t, radix);
      t := qd.value.0;
      digs := digs + 1;
    }
    NoDigits(radix);
    return Some(digs + 1);
  }

  lemma WrittenLength(a: int, radix: nat)
    requires a != 0 && 2 <= radix <= 64
    ensures |Written(a, radix)| == |Numeral(ToDigits(Abs(a), radix))| + if a < 0 then 1 else 0
  {
    hide Numeral, ToDigits;
  }

  lemma BitCount(n: nat, radix: nat)
    requires radix == 2
    ensures MontgomerySetup.CountBits(n) == |Numeral(ToDigits(n, radix))|
  {
    NumeralLength(ToDigits(n, radix));
  }

  lemma {:induction false} NumeralLength(s: seq<nat>)
    requires IsDigits(s, 64)
    ensures |Numeral(s)| == |s|
  {
    if s != [] { NumeralLength(s[1..]); }
  }

  /** The value of a character, 64 if it has none. */
  function Meaning(c: char, radix: nat): (y: nat)
    ensures y <= 64
    ensures y < 64 ==> Symbol(y) == if radix <= 36 then Upper(c) else c
  {
    var ch := if radix <= 36 then Upper(c) else c;
    if '0' <= ch <= '9' then (ch - '0') as int
    else if 'A' <= ch <= 'Z' then (ch - 'A') as int + 10
    else if 'a' <= ch <= 'z' then (ch - 'a') as int + 36
    else if ch == '+' then 62 else if ch == '/' then 63 else 64
  }

  lemma MeaningOfSymbol(d: nat, radix: nat)
    requires d < radix <= 64
    ensures Meaning(Symbol(d), radix) == d
  {}

  /** Lines 46-73: digits are taken up to the first character that is none. */
  function Reading(s: string, radix: nat, acc: nat): nat
    decreases |s|
  {
    if s == "" || Meaning(s[0], radix) >= radix then acc
    else
      MulNonNeg(acc, radix);
      Reading(s[1..], radix, acc * radix + Meaning(s[0], radix))
  }

  function Read(s: string, radix: nat): int {
    if s != "" && s[0] == '-' then 0 - Reading(s[1..], radix, 0) else Reading(s, radix, 0)
  }

  /** mp_read_radix */
  method ReadRadix(str: string, radix: nat) returns (a: Option<int>)
    ensures a == if 2 <= radix <= 64 then Some(Read(str, radix)) else None
  {
    if radix < 2 || radix > 64 {
      return None;
    }
    var neg := str != "" && str[0] == '-';
    var i := if neg then 1 else 0;
    ghost var start := i;
    var v := 0;
    while i < |str|
      invariant start <= i <= |str| && v >= 0
      invariant Reading(str[i..], radix, v) == Reading(str[start..], radix, 0)
    {
      var y := Search(str[i], radix);
      assert str[i..][0] == str[i] && str[i..][1..] == str[i + 1..];
      if y >= radix {
        break;
      }
      MulNonNeg(v, radix);
      v := v * radix + y;
      i := i + 1;
    }
    assert str[0..] == str;
    a := Some(if v != 0 && neg then -v else v);
  }

  /** Lines 51-56: the character is searched for in the map. */
  method Search(c: char, radix: nat) returns (y: nat)
    ensures y == Meaning(c, radix)
  {
    var ch := if radix <= 36 then Upper(c) else c;
    y := 0;
    while y < 64 && ch != Symbol(y)
      invariant 0 <= y <= 64
      invariant forall x: nat :: x < y ==> ch != Symbol(x)
    {
      y := y + 1;
    }
    var m := Meaning(c, radix);
    if m < 64 && y < 64 {
      SymbolsDiffer(m, y);
    }
  }

  lemma {:induction false} ReadingNumeral(s: seq<nat>, radix: nat, rest: string)
    requires 2 <= radix <= 64 && IsDigits(s, radix)
    ensures Reading(Numeral(s) + rest, radix, 0) == Reading(rest, radix, Val(s, radix))
  {
    hide Val, Pow;
    if s == [] {
      ValEmpty(s, radix);
      assert Numeral(s) + rest == rest;
    } else {
      var c := Symbol(s[0]);
      assert Numeral(s) + rest == Numeral(s[1..]) + ([c] + rest);
      ReadingNumeral(s[1..], radix, [c] + rest);
      MeaningOfSymbol(s[0], radix);
      assert ([c] + rest)[1..] == rest;
      ValHead(s, radix);
    }
  }

  lemma ReadingBack(n: nat, radix: nat)
    requires 2 <= radix <= 64
    ensures Reading(Numeral(ToDigits(n, radix)), radix, 0) == n
  {
    hide Val, Pow, ToDigits, Numeral, Meaning;
    var s := ToDigits(n, radix);
    ToDigitsVal(n, radix);
    ReadingNumeral(s, radix, "");
    assert Numeral(s) + "" == Numeral(s);
  }

  lemma ReadingZero(radix: nat)
    requires 2 <= radix <= 64
    ensures Reading("0", radix, 0) == 0
  {
    hide Meaning;
    MeaningOfSymbol(0, radix);
    assert "0"[1..] == "";
  }

  /** Reading the text of a number gives the number, in every radix. */
  lemma RadixRoundTrip(a: int, radix: nat)
    requires 2 <= radix <= 64
    ensures Read(Written(a, radix), radix) == a
  {
    hide ToDigits, Numeral, Reading;
    var t := Numeral(ToDigits(Abs(a), radix));
    ReadingBack(Abs(a), radix);
    ReadingZero(radix);
    NoSign(ToDigits(Abs(a), radix));
    assert ("-" + t)[1..] == t && "" + t == t;
  }

  lemma {:induction false} NoSign(s: seq<nat>)
    requires IsDigits(s, 64)
    ensures Numeral(s) != "" ==> Numeral(s)[0] != '-'
  {
    if s != [] { NoSign(s[1..]); }
  }
}
