/**
 * The modular inverse by the binary extended Euclidean algorithm: the short form for odd moduli, the
 * general one, and the dispatch (bn_fast_mp_invmod.c, bn_mp_invmod_slow.c, bn_mp_invmod.c).
 */
module Invmod {
  import opened Arith

  ghost predicate Divides(d: int, n: int) {
    Cong(n, 0, d)
  }

  ghost predicate Common(d: int, u: int, v: int) {
    Divides(d, u) && Divides(d, v)
  }

  ghost predicate Coprime(u: int, v: int) {
    forall d: int :: d > 1 ==> !Common(d, u, v)
  }

  /** (u, v) has the common divisors of (x, y). */
  ghost predicate SameDivisors(u: int, v: int, x: int, y: int) {
    forall d: int :: d > 0 ==> (Common(d, u, v) <==> Common(d, x, y))
  }

  lemma DividesIntro(d: int, n: int, k: int)
    requires n == k * d
    ensures Divides(d, n)
  {
    CongIntro(n, 0, d, k);
  }

  /** Halving one of the pair keeps the common divisors, because they divide the odd x. */
  lemma HalveKeeps(u: int, v: int, x: int, y: int)
    requires x % 2 == 1 && u % 2 == 0 && SameDivisors(u, v, x, y)
    ensures SameDivisors(u / 2, v, x, y)
  {
    forall d: int | d > 0 ensures Common(d, u / 2, v) <==> Common(d, x, y) {
      if Divides(d, u / 2) {
        var k := CongWitness(u / 2, 0, d);
        assert u == (2 * k) * d by { MulSwap(2, k, d); }
        DividesIntro(d, u, 2 * k);
      }
      if Common(d, x, y) {
        assert Common(d, u, v);
        OddDivisorHalves(d, u, x);
      }
    }
  }

  lemma OddDivisorHalves(d: int, u: int, x: int)
    requires d > 0 && x % 2 == 1 && u % 2 == 0 && Divides(d, x) && Divides(d, u)
    ensures Divides(d, u / 2)
  {
    var j, k := CongWitness(x, 0, d), CongWitness(u, 0, d);
    hide Cong;
    OddFactors(j, d);
    var q := d / 2;
    assert d == 2 * q + 1;
    assert k * d == 2 * (k * q) + k by { MulDist(2 * q, 1, k); MulSwap(k, 2, q); }
    assert k % 2 == 0;
    assert u / 2 == (k / 2) * d by { MulSwap(2, k / 2, d); }
    DividesIntro(d, u / 2, k / 2);
  }

  lemma OddFactors(j: int, d: int)
    requires (j * d) % 2 == 1
    ensures d % 2 == 1
  {
    var h := d / 2;
    MulSwap(j, 2, h);
    assert d == 2 * h ==> j * d == 2 * (j * h);
  }

  /** Subtracting keeps the common divisors. */
  lemma SubtractKeeps(u: int, v: int, x: int, y: int)
    requires SameDivisors(u, v, x, y)
    ensures SameDivisors(u - v, v, x, y) && SameDivisors(u, v - u, x, y)
  {
    forall d: int | d > 0
      ensures Common(d, u - v, v) <==> Common(d, x, y)
      ensures Common(d, u, v - u) <==> Common(d, x, y)
    {
      if Common(d, u - v, v) { CongAdd(u - v, 0, v, 0, d); }
      if Common(d, u, v - u) { CongAdd(v - u, 0, u, 0, d); }
      if Common(d, u, v) { CongAdd(u, 0, v, 0, d); CongAdd(v, 0, u, 0, d); }
    }
  }

  /** At the end u = 0 and v is the greatest common divisor. */
  lemma LastDivisor(v: int, x: int, y: int)
    requires v > 0 && SameDivisors(0, v, x, y)
    ensures Coprime(x, y) <==> v == 1
  {
    if v == 1 {
      forall d: int | d > 1 ensures !Common(d, x, y) {
        if Common(d, x, y) {
          assert Common(d, 0, 1);
          var k := CongWitness(1, 0, d);
          if k >= 1 { MulMono(1, k, d); }
          if k <= 0 { MulMono(k, 0, d); }
        }
      }
    } else {
      DividesIntro(v, 0, 0);
      DividesIntro(v, v, 1);
      assert Common(v, 0, v);
      assert Common(v, x, y);
    }
  }

  /** The halving of the coefficient (lines 65-74): make it even with the odd modulus, then halve exactly. */
  function Halved(B: int, x: nat): (r: int)
    requires x % 2 == 1
    ensures 2 * r == B || 2 * r == B - x
  {
    if B % 2 != 0 then (B - x) / 2 else B / 2
  }

  /** If B*y = u then the halved coefficient gives u/2, since 2 is invertible modulo the odd x. */
  lemma HalvedCong(B: int, u: int, x: nat, y: int)
    requires x % 2 == 1 && u % 2 == 0 && Cong(B * y, u, x)
    ensures Cong(Halved(B, x) * y, u / 2, x)
  {
    var r, h := Halved(B, x), u / 2;
    var k := CongWitness(B * y, u, x);
    hide Cong;
    var c := if B % 2 != 0 then 1 else 0;
    assert 2 * r == B - c * x;
    assert 2 * (r * y) - 2 * h == (k - c * y) * x by {
      MulSwap(2, r, y);
      MulDist(B, c * x, y);
      MulSwap(c, x, y);
      MulSwap(c, y, x);
      MulDist(k, c * y, x);
    }
    var e := k - c * y;
    HalfMultiple(e, x, r * y - h);
    CongIntro(r * y, h, x, e / 2);
  }

  lemma HalfMultiple(e: int, x: nat, t: int)
    requires x % 2 == 1 && 2 * t == e * x
    ensures e % 2 == 0 && t == (e / 2) * x
  {
    var q := x / 2;
    assert x == 2 * q + 1;
    assert e * x == 2 * (e * q) + e by { MulDist(2 * q, 1, e); MulSwap(e, 2, q); }
    MulSwap(2, e / 2, x);
  }

  // ----- When the search ends -----

  /** The loops of lines 60 and 78: halve while mp_iseven holds, which it does not for zero. */
  function Stripped(n: nat): (r: nat)
    ensures r <= n && (n > 0 ==> r % 2 == 1)
    ensures n == 0 ==> r == 0
  {
    if n > 0 && n % 2 == 0 then Stripped(n / 2) else n
  }

  /** u and v after one pass from the label top to the jump back. */
  function Pass(u: nat, v: nat): (r: (nat, nat)) {
    var s, t := Stripped(u), Stripped(v);
    if s >= t then (s - t, t) else (s, t - s)
  }

  function Passes(n: nat, u: nat, v: nat): (r: (nat, nat)) {
    if n == 0 then (u, v) else var (s, t) := Passes(n - 1, u, v); Pass(s, t)
  }

  /** Some pass leaves u = 0, which is the only way out of the loop. */
  ghost predicate Ends(u: nat, v: nat) {
    exists n: nat :: n > 0 && Passes(n, u, v).0 == 0
  }

  /** From v = 0 and an odd u no number of passes changes anything. */
  lemma {:induction false} EndlessPasses(n: nat, b: nat)
    requires b % 2 == 1
    ensures Passes(n, b, 0) == (b, 0)
  {
    if n > 0 { EndlessPasses(n - 1, b); }
  }

  lemma {:induction false} PassesFirst(n: nat, u: nat, v: nat)
    ensures Passes(n + 1, u, v) == Passes(n, Pass(u, v).0, Pass(u, v).1)
  {
    if n > 0 {
      PassesFirst(n - 1, u, v);
    } else {
      assert Passes(0, u, v) == (u, v);
    }
  }

  lemma {:induction false} PassesEnd(u: nat, v: nat) returns (n: nat)
    requires u > 0 && v > 0
    ensures n > 0 && Passes(n, u, v).0 == 0
    decreases u + v
  {
    var (s, t) := Pass(u, v);
    if s == 0 {
      n := 1;
      assert Passes(0, u, v) == (u, v);
      assert Passes(1, u, v) == Pass(u, v);
    } else {
      n := PassesEnd(s, t);
      PassesFirst(n, u, v);
      n := n + 1;
    }
  }

  /** The search of fast_mp_invmod ends exactly if a is no multiple of the odd modulus. */
  lemma SearchEnds(a: int, b: nat)
    requires b % 2 == 1
    ensures Ends(b, a % b) <==> a % b != 0
  {
    if a % b == 0 {
      forall n: nat ensures Passes(n, b, 0).0 != 0 { EndlessPasses(n, b); }
    } else {
      var n := PassesEnd(b, a % b);
    }
  }

  // ----- The short form -----

  /** The coefficient when n has lost its factors two (lines 60-75). */
  function Halvings(n: nat, c: int, x: nat): (r: int)
    requires x % 2 == 1
  {
    if n > 0 && n % 2 == 0 then Halvings(n / 2, Halved(c, x), x) else c
  }

  /** The four variables of the search. */
  datatype Search = Search(u: nat, v: nat, B: int, D: int)

  function SearchPass(s: Search, x: nat): (r: Search)
    requires x % 2 == 1
  {
    var u, v, B, D := Stripped(s.u), Stripped(s.v), Halvings(s.u, s.B, x), Halvings(s.v, s.D, x);
    if u >= v then Search(u - v, v, B - D, D) else Search(u, v - u, B, D - B)
  }

  /** The variables after n passes. */
  function Searched(n: nat, x: nat, y: nat): (r: Search)
    requires x % 2 == 1
  {
    if n == 0 then Search(x, y, 0, 1) else SearchPass(Searched(n - 1, x, y), x)
  }

  lemma {:induction false} SearchedPasses(n: nat, x: nat, y: nat)
    requires x % 2 == 1
    ensures Passes(n, x, y) == (Searched(n, x, y).u, Searched(n, x, y).v)
  {
    if n > 0 {
      SearchedPasses(n - 1, x, y);
      SearchNext(n - 1, x, y);
      var s := Searched(n - 1, x, y);
      hide Searched;
      PassParts(s, x);
    }
  }

  lemma SearchNext(n: nat, x: nat, y: nat)
    requires x % 2 == 1
    ensures Searched(n + 1, x, y) == SearchPass(Searched(n, x, y), x)
  {}

  lemma PassParts(s: Search, x: nat)
    requires x % 2 == 1
    ensures Pass(s.u, s.v) == (SearchPass(s, x).u, SearchPass(s, x).v)
  {
    hide Halvings, Stripped;
  }

  /** The search ends with pass n, and not before. */
  ghost predicate EndsWith(n: nat, x: nat, y: nat)
    requires x % 2 == 1
  {
    n > 0 && Searched(n, x, y).u == 0 && forall k: nat :: k < n ==> Searched(k, x, y).u > 0
  }

  /** What adding the modulus to a negative coefficient makes of it. */
  function Lifted(D: int, b: nat): (r: nat)
    requires b > 0
  {
    if D < 0 then D % b else D
  }

  /** u, v, B and D as the loop leaves them, started from (x, y, 0, 1). */
  ghost predicate State(u: int, v: int, B: int, D: int, x: nat, y: nat) {
    u >= 0 && v > 0 && SameDivisors(u, v, x, y) && Cong(B * y, u, x) && Cong(D * y, v, x)
  }

  /** Lines 60-75 and 78-94: strip the factors two from one of the pair. */
  method StripTwos(n: nat, c: int, x: nat, ghost w: nat, ghost e: int, ghost y: nat, ghost first: bool) returns (n': nat, c': int)
    requires x % 2 == 1 && n > 0
    requires first ==> State(n, w, c, e, x, y)
    requires !first ==> State(w, n, e, c, x, y)
    ensures 0 < n' == Stripped(n) && c' == Halvings(n, c, x)
    ensures first ==> State(n', w, c', e, x, y)
    ensures !first ==> State(w, n', e, c', x, y)
  {
    hide Cong, SameDivisors;
    n', c' := n, c;
    while n' % 2 == 0
      invariant 0 < n' && Stripped(n') == Stripped(n) && Halvings(n', c', x) == Halvings(n, c, x)
      invariant first ==> State(n', w, c', e, x, y)
      invariant !first ==> State(w, n', e, c', x, y)
      decreases n'
    {
      HalvedCong(c', n', x, y);
      if first {
        HalveKeeps(n', w, x, y);
      } else {
        SymmetricDivisors(w, n', x, y);
        HalveKeeps(n', w, x, y);
        SymmetricDivisors(n' / 2, w, x, y);
      }
      n' := n' / 2;
      c' := Halved(c', x);
    }
  }

  lemma SymmetricDivisors(u: int, v: int, x: int, y: int)
    requires SameDivisors(u, v, x, y)
    ensures SameDivisors(v, u, x, y)
  {
    forall d: int | d > 0 ensures Common(d, v, u) <==> Common(d, x, y) {
      assert Common(d, u, v) <==> Common(d, x, y);
    }
  }

  /**
   * fast_mp_invmod, where SearchEnds lets it end; passes counts the rounds. The sign of a is copied
   * onto the inverse, which is right exactly for a >= 0.
   */
  method FastInvmod(a: int, b: nat) returns (r: Option<int>, ghost passes: nat)
    requires b >= 1 && (b % 2 == 1 ==> a % b != 0)
    ensures b % 2 == 0 ==> r.None?
    ensures b % 2 == 1 ==> (r.Some? <==> Coprime(b, a))
    ensures r.Some? ==> (Cong(a * r.value, 1, b) <==> a >= 0)
    ensures r.Some? ==> Cong(a * r.value, if a >= 0 then 1 else -1, b)
    ensures r.Some? ==> if a >= 0 then r.value >= 0 else r.value <= 0
    ensures b % 2 == 1 ==> EndsWith(passes, b, a % b)
    ensures r.Some? ==> Abs(r.value) == Lifted(Searched(passes, b, a % b).D, b)
  {
    passes := 0;
    if b % 2 == 0 {
      r := None;
      return;
    }
    var y: nat := a % b;
    CoprimeMod(a, b);
    hide Cong, SameDivisors, Coprime, Searched, EndsWith, State;
    var v, D;
    v, D, passes := FastSearch(b, y);
    if v != 1 {
      r := None;
      return;
    }
    ghost var D0 := D;
    while D < 0
      invariant Cong(D * y, 1, b)
      invariant Lifted(D, b) == Lifted(D0, b)
      decreases -D
    {
      ShiftInverse(D, b, y, 1);
      LiftedOnce(D, b);
      D := D + b;
    }
    Inverted(a, D, b);
    MoreThanTwo(a, b);
    if a < 0 {
      SignSpoils(a, -D, b);
    }
    r := Some(if a < 0 then -D else D);
  }

  /** Lines 49-120: v is the greatest common divisor, and D the factor that leads to it. */
  method FastSearch(b: nat, y: nat) returns (v: nat, D: int, ghost passes: nat)
    requires b % 2 == 1 && y > 0
    ensures v == 1 <==> Coprime(b, y)
    ensures Cong(D * y, v, b)
    ensures EndsWith(passes, b, y) && Searched(passes, b, y).D == D
  {
    Start(b, y);
    var u: nat, B := b, 0;
    v, D, passes := y, 1, 0;
    assert Searched(0, b, y) == Search(u, v, B, D);
    hide Cong, SameDivisors, Coprime, Searched, SearchPass, State;
    while true
      invariant u > 0 && State(u, v, B, D, b, y)
      invariant Searched(passes, b, y) == Search(u, v, B, D)
      invariant forall k: nat :: k <= passes ==> Searched(k, b, y).u > 0
      decreases u + v
    {
      SearchNext(passes, b, y);
      passes := passes + 1;
      u, v, B, D := FastPass(u, v, B, D, b, y);
      if u == 0 {
        break;
      }
    }
    StateDivisors(v, B, D, b, y);
    LastDivisor(v, b, y);
  }

  /** Lines 58-115: one pass. */
  method FastPass(u0: nat, v0: nat, B0: int, D0: int, b: nat, ghost y: nat) returns (u: nat, v: nat, B: int, D: int)
    requires b % 2 == 1 && u0 > 0 && State(u0, v0, B0, D0, b, y)
    ensures State(u, v, B, D, b, y) && u + v < u0 + v0
    ensures Search(u, v, B, D) == SearchPass(Search(u0, v0, B0, D0), b)
  {
    StateSigns(u0, v0, B0, D0, b, y);
    StrippedBelow(u0);
    StrippedBelow(v0);
    PassAgain(u0, v0, B0, D0, b);
    hide Cong, SameDivisors, Stripped, Halvings, SearchPass, State;
    u, B := StripTwos(u0, B0, b, v0, D0, y, true);
    v, D := StripTwos(v0, D0, b, u, B, y, false);
    StateSubtract(u, v, B, D, b, y);
    if u >= v {
      u, B := u - v, B - D;
    } else {
      v, D := v - u, D - B;
    }
  }

  lemma LiftedOnce(D: int, b: nat)
    requires b > 0 && D < 0
    ensures Lifted(D + b, b) == Lifted(D, b)
  {
    DivModSpec(D, b);
    var q := D / b;
    assert D + b == (q + 1) * b + D % b by { MulDist(q, 1, b); }
    DivModUnique(D + b, b, q + 1, D % b);
    if D + b >= 0 {
      DivModUnique(D + b, b, 0, D + b);
    }
  }

  lemma StrippedBelow(n: nat)
    ensures Stripped(n) <= n
  {}

  lemma StateSigns(u: int, v: int, B: int, D: int, x: nat, y: nat)
    requires State(u, v, B, D, x, y)
    ensures u >= 0 && v > 0
  {}

  lemma StateDivisors(v: int, B: int, D: int, x: nat, y: nat)
    requires State(0, v, B, D, x, y)
    ensures SameDivisors(0, v, x, y) && v > 0 && Cong(D * y, v, x)
  {}

  lemma PassAgain(u: nat, v: nat, B: int, D: int, x: nat)
    requires x % 2 == 1
    ensures var u', v', B', D' := Stripped(u), Stripped(v), Halvings(u, B, x), Halvings(v, D, x);
      SearchPass(Search(u, v, B, D), x) == if u' >= v' then Search(u' - v', v', B' - D', D') else Search(u', v' - u', B', D' - B')
  {}

  lemma StateSubtract(u: nat, v: nat, B: int, D: int, x: nat, y: nat)
    requires State(u, v, B, D, x, y)
    ensures u >= v ==> State(u - v, v, B - D, D, x, y)
    ensures u < v ==> State(u, v - u, B, D - B, x, y)
  {
    SubtractKeeps(u, v, x, y);
    hide SameDivisors;
    CongAdd(B * y, u, D * y, v, x);
    CongAdd(D * y, v, B * y, u, x);
    hide Cong;
    MulDist(B, D, y);
    MulDist(D, B, y);
  }

  lemma MoreThanTwo(a: int, b: nat)
    requires b % 2 == 1 && a % b != 0
    ensures b > 2
  {}

  /** Only the residue counts. */
  lemma CoprimeMod(a: int, b: nat)
    requires b > 0
    ensures Coprime(b, a % b) <==> Coprime(b, a)
  {
    forall d: int | d > 1 ensures Common(d, b, a % b) <==> Common(d, b, a) {
      CommonMod(a, b, d);
    }
  }

  lemma CommonMod(a: int, b: nat, d: int)
    requires b > 0 && d > 1
    ensures Common(d, b, a % b) <==> Common(d, b, a)
  {
    DivModSpec(a, b);
    var q, y := a / b, a % b;
    if Divides(d, b) {
      var k := CongWitness(b, 0, d);
      MulSwap(q, k, d);
      DividesIntro(d, q * b, q * k);
      if Divides(d, y) { CongAdd(q * b, 0, y, 0, d); }
      if Divides(d, a) { CongAdd(a, 0, q * b, 0, d); }
    }
  }

  lemma Start(b: nat, y: nat)
    requires b > 0 && y > 0
    ensures State(b, y, 0, 1, b, y)
  {
    CongIntro(0 * y, b, b, -1);
    CongRefl(y, b);
  }

  /** From the residue of a back to a. */
  lemma Inverted(a: int, D: int, b: nat)
    requires b > 0 && Cong(D * (a % b), 1, b)
    ensures Cong(a * D, 1, b) && Cong(a * -D, -1, b)
  {
    CongMod(a, b);
    CongSym(a % b, a, b);
    CongScale(D, a, a % b, b);
    hide Cong;
    CongTrans(a * D, D * (a % b), 1, b);
    CongRefl(0, b);
    CongAdd(0, 0, a * D, 1, b);
    assert a * -D == 0 - a * D;
  }

  /** For a negative a and b > 2 the copied sign makes the result a wrong inverse. */
  lemma SignSpoils(a: int, c: int, b: nat)
    requires b > 2 && Cong(a * c, -1, b)
    ensures !Cong(a * c, 1, b)
  {
    if Cong(a * c, 1, b) {
      CongSym(a * c, 1, b);
      CongTrans(1, a * c, -1, b);
      var k := CongWitness(1, -1, b);
      if k >= 1 { MulMono(1, k, b); }
      if k <= 0 { MulMono(k, 0, b); }
    }
  }

  // ----- How large the result gets -----

  /** One of the pair was just subtracted from and is even; 2 * |c| and |e| are bounded by T. */
  ghost predicate Bounded(s: Search, T: nat) {
    || (s.u % 2 == 0 && s.v % 2 == 1 && Abs(s.B) <= T && 2 * Abs(s.D) <= T)
    || (s.v % 2 == 0 && s.u % 2 == 1 && s.v > 0 && Abs(s.D) <= T && 2 * Abs(s.B) <= T)
  }

  lemma {:induction false} HalvingsBound(n: nat, c: int, x: nat, T: nat)
    requires x % 2 == 1 && T >= x && (2 * Abs(c) <= T + x || (n > 0 && n % 2 == 0 && Abs(c) <= T))
    ensures 2 * Abs(Halvings(n, c, x)) <= T + x
  {
    if n > 0 && n % 2 == 0 { HalvingsBound(n / 2, Halved(c, x), x, T); }
  }

  lemma BoundedStep(s: Search, x: nat, T: nat)
    requires x % 2 == 1 && T >= x && s.u > 0 && s.v > 0 && Bounded(s, T)
    ensures Bounded(SearchPass(s, x), T + x)
  {
    HalvingsBound(s.u, s.B, x, T);
    HalvingsBound(s.v, s.D, x, T);
    PassAgain(s.u, s.v, s.B, s.D, x);
    StrippedIsOdd(s.u);
    StrippedIsOdd(s.v);
    hide Halvings, Stripped, SearchPass;
    Subtracted(Stripped(s.u), Stripped(s.v), Halvings(s.u, s.B, x), Halvings(s.v, s.D, x), T + x);
  }

  lemma StrippedIsOdd(n: nat)
    requires n > 0
    ensures Stripped(n) % 2 == 1
  {}

  lemma Subtracted(u: nat, v: nat, B: int, D: int, T: nat)
    requires u % 2 == 1 && v % 2 == 1 && 2 * Abs(B) <= T && 2 * Abs(D) <= T
    ensures Bounded(if u >= v then Search(u - v, v, B - D, D) else Search(u, v - u, B, D - B), T)
  {}

  /** After n passes the coefficients have grown to (n + 1) / 2 times the modulus at most. */
  lemma {:induction false} SearchBound(n: nat, x: nat, y: nat)
    requires x % 2 == 1 && 0 < y < x && n > 0 && forall k: nat :: k < n ==> Searched(k, x, y).u > 0
    ensures Searched(n, x, y).v > 0 && (n + 1) * x >= x && Bounded(Searched(n, x, y), (n + 1) * x)
  {
    MulMono(1, n + 1, x);
    MulDist(n, 1, x);
    SearchNext(n - 1, x, y);
    hide Bounded, SearchPass, Halvings;
    if n == 1 {
      assert Searched(0, x, y) == Search(x, y, 0, 1);
      FirstBound(x, y);
    } else {
      SearchBound(n - 1, x, y);
      hide Searched;
      var s := Searched(n - 1, x, y);
      assert s.u > 0;
      MulMono(1, n, x);
      BoundedStep(s, x, n * x);
      PassKeeps(s, x);
    }
  }

  lemma FirstBound(x: nat, y: nat)
    requires x % 2 == 1 && 0 < y < x
    ensures SearchPass(Search(x, y, 0, 1), x).v > 0 && Bounded(SearchPass(Search(x, y, 0, 1), x), 2 * x)
  {
    HalvingsBound(y, 1, x, x);
    assert Halvings(x, 0, x) == 0;
    hide Halvings;
  }

  lemma PassKeeps(s: Search, x: nat)
    requires x % 2 == 1 && s.u > 0 && s.v > 0
    ensures SearchPass(s, x).v > 0
  {
    hide Halvings;
  }

  /** Each pass more than halves the product of the odd parts, so there are at most as many as the operands have bits. */
  lemma {:induction false} PassesFew(n: nat, x: nat, y: nat)
    requires x % 2 == 1 && y > 0 && forall k: nat :: k <= n ==> Searched(k, x, y).u > 0
    ensures Searched(n, x, y).v > 0
    ensures Pow(2, n) * (Stripped(Searched(n, x, y).u) * Stripped(Searched(n, x, y).v)) <= x * y
  {
    hide Halvings, Stripped;
    if n == 0 {
      StrippedBelow(x);
      StrippedBelow(y);
      MulMono2(Stripped(x), x, Stripped(y), y);
      assert Pow(2, 0) == 1;
    } else {
      PassesFew(n - 1, x, y);
      SearchNext(n - 1, x, y);
      hide Searched, SearchPass;
      var s, s' := Searched(n - 1, x, y), Searched(n, x, y);
      assert s.u > 0 && s'.u > 0;
      ProductHalves(s, x);
      assert Pow(2, n) == 2 * Pow(2, n - 1);
      PowPos(2, n - 1);
      hide Pow;
      TwoTimes(Pow(2, n - 1), Stripped(s'.u) * Stripped(s'.v), Stripped(s.u) * Stripped(s.v));
    }
  }

  lemma TwoTimes(p: nat, m: int, n: int)
    requires 2 * m <= n
    ensures (2 * p) * m <= p * n
  {
    MulMono(2 * m, n, p);
    MulSwap(2, m, p);
  }

  lemma ProductHalves(s: Search, x: nat)
    requires x % 2 == 1 && s.u > 0 && s.v > 0 && SearchPass(s, x).u > 0
    ensures var s' := SearchPass(s, x);
      s'.v > 0 && 2 * (Stripped(s'.u) * Stripped(s'.v)) <= Stripped(s.u) * Stripped(s.v)
  {
    PassParts(s, x);
    StrippedPositive(s.u);
    StrippedPositive(s.v);
    hide SearchPass;
    OddHalves(Stripped(s.u), Stripped(s.v));
  }

  /** The same for odd numbers. */
  lemma OddHalves(u: nat, v: nat)
    requires u % 2 == 1 && v % 2 == 1 && u != v
    ensures u > v ==> 2 * (Stripped(u - v) * Stripped(v)) <= u * v
    ensures u < v ==> 2 * (Stripped(u) * Stripped(v - u)) <= u * v
  {
    StrippedOdd(u);
    StrippedOdd(v);
    if u > v {
      StrippedEven(u - v);
      hide Stripped;
      HalfProduct(Stripped(u - v), u, v);
    } else {
      StrippedEven(v - u);
      hide Stripped;
      HalfProduct(Stripped(v - u), v, u);
    }
  }

  lemma HalfProduct(h: nat, w: nat, v: nat)
    requires 2 * h <= w
    ensures 2 * (h * v) <= w * v && 2 * (v * h) <= v * w
  {
    MulMono(2 * h, w, v);
    MulSwap(2, h, v);
  }

  lemma StrippedOdd(n: nat)
    requires n % 2 == 1
    ensures Stripped(n) == n
  {}

  lemma StrippedEven(n: nat)
    requires n > 0 && n % 2 == 0
    ensures 2 * Stripped(n) <= n
  {
    StrippedBelow(n / 2);
  }

  /** The inverse is below the modulus, or at most half of passes + 1 times as large, where 2^(passes - 1) <= b * y. */
  lemma ResultBound(n: nat, b: nat, y: nat)
    requires b % 2 == 1 && 0 < y < b && EndsWith(n, b, y)
    ensures Lifted(Searched(n, b, y).D, b) < b || 2 * Lifted(Searched(n, b, y).D, b) <= (n + 1) * b
    ensures Pow(2, n - 1) <= b * y
  {
    hide Searched, Stripped;
    SearchBound(n, b, y);
    PassesFew(n - 1, b, y);
    var s := Searched(n - 1, b, y);
    assert s.u > 0;
    StrippedPositive(s.u);
    StrippedPositive(s.v);
    MulMono2(1, Stripped(s.u), 1, Stripped(s.v));
    PowPos(2, n - 1);
    MulMono(1, Stripped(s.u) * Stripped(s.v), Pow(2, n - 1));
    DivModSpec(Searched(n, b, y).D, b);
  }

  lemma StrippedPositive(n: nat)
    requires n > 0
    ensures Stripped(n) > 0
  {}

  /** The eleven passes for 621 modulo 2233. */
  lemma ElevenPasses()
    ensures EndsWith(11, 2233, 621) && Searched(11, 2233, 621) == Search(0, 1, -6699, 3265)
  {
    assert Searched(0, 2233, 621) == Search(2233, 621, 0, 1);
    FirstPasses();
    LaterPasses();
    hide Searched, SearchPass;
    SearchNext(0, 2233, 621);
    SearchNext(1, 2233, 621);
    SearchNext(2, 2233, 621);
    SearchNext(3, 2233, 621);
    SearchNext(4, 2233, 621);
    SearchNext(5, 2233, 621);
    SearchNext(6, 2233, 621);
    SearchNext(7, 2233, 621);
    SearchNext(8, 2233, 621);
    SearchNext(9, 2233, 621);
    SearchNext(10, 2233, 621);
  }

  lemma FirstPasses()
    ensures SearchPass(Search(2233, 621, 0, 1), 2233) == Search(1612, 621, -1, 1)
    ensures SearchPass(Search(1612, 621, -1, 1), 2233) == Search(403, 218, -1675, 1676)
    ensures SearchPass(Search(403, 218, -1675, 1676), 2233) == Search(294, 109, -2513, 838)
    ensures SearchPass(Search(294, 109, -2513, 838), 2233) == Search(38, 109, -3211, 838)
    ensures SearchPass(Search(38, 109, -3211, 838), 2233) == Search(19, 90, -2722, 3560)
    ensures SearchPass(Search(19, 90, -2722, 3560), 2233) == Search(19, 26, -2722, 4502)
  {}

  lemma LaterPasses()
    ensures SearchPass(Search(19, 26, -2722, 4502), 2233) == Search(6, 13, -4973, 2251)
    ensures SearchPass(Search(6, 13, -4973, 2251), 2233) == Search(3, 10, -3603, 5854)
    ensures SearchPass(Search(3, 10, -3603, 5854), 2233) == Search(3, 2, -3603, 6530)
    ensures SearchPass(Search(3, 2, -3603, 6530), 2233) == Search(2, 1, -6868, 3265)
    ensures SearchPass(Search(2, 1, -6868, 3265), 2233) == Search(0, 1, -6699, 3265)
  {}

  /** fast_mp_invmod returns 3265 for 621 modulo 2233. */
  method InverseAboveModulus() returns (r: Option<int>)
    ensures r == Some(3265) && 3265 > 2233
  {
    ElevenPasses();
    CoprimeExample();
    hide Searched, Coprime, Cong;
    ghost var passes;
    r, passes := FastInvmod(621, 2233);
    SameEnd(passes, 11, 2233, 621);
  }

  lemma SameEnd(m: nat, n: nat, x: nat, y: nat)
    requires x % 2 == 1 && EndsWith(m, x, y) && EndsWith(n, x, y)
    ensures m == n
  {
    if m < n {
      NotYet(m, n, x, y);
      assert false;
    }
    if n < m {
      NotYet(n, m, x, y);
      assert false;
    }
  }

  lemma NotYet(k: nat, n: nat, x: nat, y: nat)
    requires x % 2 == 1 && EndsWith(n, x, y) && k < n
    ensures Searched(k, x, y).u > 0
  {}

  lemma CoprimeExample()
    ensures Coprime(2233, 621)
  {
    assert 621 * 3265 == 908 * 2233 + 1;
    FromInverse(621, 3265, 908, 2233);
  }

  lemma FromInverse(a: int, c: int, k: int, b: nat)
    requires a * c == k * b + 1
    ensures Coprime(b, a)
  {
    forall d: int | d > 1 ensures !Common(d, b, a) {
      if Common(d, b, a) {
        CongScale(c, a, 0, d);
        CongScale(k, b, 0, d);
        CongAdd(a * c, 0, k * b, 0, d);
        var e := CongWitness(1, 0, d);
        if e >= 1 { MulMono(1, e, d); }
        if e <= 0 { MulMono(e, 0, d); }
      }
    }
  }

  // ----- Any modulus -----

  /** u and v as exact combinations of x and y. */
  ghost predicate Bezout(u: int, v: int, A: int, B: int, C: int, D: int, x: int, y: int) {
    u >= 0 && v > 0 && SameDivisors(u, v, x, y) && A * x + B * y == u && C * x + D * y == v
  }

  /** mp_div_2 shifts the magnitude. */
  function Half(c: int): (h: int)
    ensures c % 2 == 0 ==> 2 * h == c
  {
    Truncated(c, 2)
  }

  /** Lines 66-82: an even combination has even coefficients, if need be after a shift by (y, -x). */
  function HalvedPair(A: int, B: int, x: nat, y: nat): (int, int) {
    if A % 2 != 0 || B % 2 != 0 then (Half(A + y), Half(B - x)) else (Half(A), Half(B))
  }

  lemma HalvedPairExact(A: int, B: int, x: nat, y: nat, u: int)
    requires (x % 2 == 1 || y % 2 == 1) && u % 2 == 0 && A * x + B * y == u
    ensures var (A', B') := HalvedPair(A, B, x, y); A' * x + B' * y == u / 2
    ensures A % 2 != 0 || B % 2 != 0 ==> (A + y) % 2 == 0 && (B - x) % 2 == 0
  {
    ParityOfCombination(A, B, x, y);
    var (A', B') := HalvedPair(A, B, x, y);
    var c := if A % 2 != 0 || B % 2 != 0 then 1 else 0;
    assert 2 * A' == A + c * y && 2 * B' == B - c * x;
    assert 2 * (A' * x) == A * x + c * (y * x) by { MulSwap(2, A', x); MulDist(A, c * y, x); MulSwap(c, y, x); }
    assert 2 * (B' * y) == B * y - c * (x * y) by { MulSwap(2, B', y); MulDist(B, c * x, y); MulSwap(c, x, y); }
    assert y * x == x * y;
  }

  lemma ParityOfCombination(A: int, B: int, x: nat, y: nat)
    requires (x % 2 == 1 || y % 2 == 1) && (A * x + B * y) % 2 == 0
    ensures A % 2 != 0 || B % 2 != 0 ==> (A + y) % 2 == 0 && (B - x) % 2 == 0
  {
    ParityOfProduct(A, x);
    ParityOfProduct(B, y);
    ParitySum(A, B, x, y, A * x, B * y);
  }

  lemma ParitySum(A: int, B: int, x: int, y: int, p: int, q: int)
    requires (x % 2 == 1 || y % 2 == 1) && (p + q) % 2 == 0
    requires p % 2 == if A % 2 == 1 && x % 2 == 1 then 1 else 0
    requires q % 2 == if B % 2 == 1 && y % 2 == 1 then 1 else 0
    ensures A % 2 != 0 || B % 2 != 0 ==> (A + y) % 2 == 0 && (B - x) % 2 == 0
  {}

  lemma ParityOfProduct(p: int, q: int)
    ensures (p * q) % 2 == if p % 2 == 1 && q % 2 == 1 then 1 else 0
  {
    var h := p / 2;
    MulSwap(2, h, q);
    MulDist(2 * h, 1, q);
    ParityLinear(p * q, h * q, p, q, h);
  }

  lemma ParityLinear(t: int, w: int, p: int, q: int, h: int)
    requires (p == 2 * h && t == 2 * w) || (p == 2 * h + 1 && t == 2 * w + q)
    ensures t % 2 == if p % 2 == 1 && q % 2 == 1 then 1 else 0
  {}

  /** The pair (v, C, D) as halving leaves it when x is zero. */
  ghost predicate ZeroState(n: nat, c: int, d: int, y: nat) {
    Stripped(n) == Stripped(y) && n > 0 && if n == y then c == 0 && d == 1 else c == n && d == 0
  }

  lemma ZeroHalf(n: nat, c: int, d: int, y: nat)
    requires n % 2 == 0 && ZeroState(n, c, d, y) && n <= y
    ensures ZeroState(n / 2, HalvedPair(c, d, 0, y).0, HalvedPair(c, d, 0, y).1, y)
  {}

  /** Lines 60-83 and 85-108. */
  method HalveAll(n: nat, c: int, d: int, x: nat, y: nat, ghost w: nat, ghost e: int, ghost f: int, ghost first: bool)
    returns (n': nat, c': int, d': int)
    requires x % 2 == 1 ==> n > 0 && if first then Bezout(n, w, c, d, e, f, x, y) else Bezout(w, n, e, f, c, d, x, y)
    requires x % 2 == 0 ==> x == 0 && if first then n == 0 else n == y && ZeroState(n, c, d, y)
    ensures n' == Stripped(n)
    ensures n' == n ==> c' == c && d' == d
    ensures x % 2 == 1 ==> if first then Bezout(n', w, c', d', e, f, x, y) else Bezout(w, n', e, f, c', d', x, y)
    ensures x == 0 && !first ==> ZeroState(n', c', d', y)
  {
    hide SameDivisors, HalvedPair, ZeroState, Bezout;
    n', c', d' := n, c, d;
    while n' > 0 && n' % 2 == 0
      invariant Stripped(n') == Stripped(n) && n' <= n && (n' == n ==> c' == c && d' == d)
      invariant x % 2 == 1 ==> if first then Bezout(n', w, c', d', e, f, x, y) else Bezout(w, n', e, f, c', d', x, y)
      invariant x == 0 && !first ==> ZeroState(n', c', d', y)
      decreases n'
    {
      if x % 2 == 1 {
        BezoutHalf(n', c', d', w, e, f, x, y, first);
      } else {
        ZeroHalf(n', c', d', y);
      }
      n' := n' / 2;
      var pair := HalvedPair(c', d', x, y);
      c', d' := pair.0, pair.1;
    }
  }

  lemma BezoutHalf(n: nat, c: int, d: int, w: nat, e: int, f: int, x: nat, y: nat, first: bool)
    requires x % 2 == 1 && n % 2 == 0 && n > 0
    requires if first then Bezout(n, w, c, d, e, f, x, y) else Bezout(w, n, e, f, c, d, x, y)
    ensures var pair := HalvedPair(c, d, x, y);
      if first then Bezout(n / 2, w, pair.0, pair.1, e, f, x, y) else Bezout(w, n / 2, e, f, pair.0, pair.1, x, y)
  {
    hide SameDivisors, HalvedPair;
    HalvedPairExact(c, d, x, y, n);
    if first {
      HalveKeeps(n, w, x, y);
    } else {
      SymmetricDivisors(w, n, x, y);
      HalveKeeps(n, w, x, y);
      SymmetricDivisors(n / 2, w, x, y);
    }
  }

  ghost predicate PowerOfTwo(b: nat) {
    exists k: nat :: b == Pow(2, k)
  }

  /** A power of two is what stripping the twos turns into 1. */
  lemma {:induction false} StrippedPower(b: nat)
    requires b > 0
    ensures Stripped(b) == 1 <==> PowerOfTwo(b)
  {
    if b % 2 == 0 {
      StrippedPower(b / 2);
      if Stripped(b / 2) == 1 {
        var k: nat :| b / 2 == Pow(2, k);
        assert b == Pow(2, k + 1);
      }
      if PowerOfTwo(b) {
        var k: nat :| b == Pow(2, k);
        assert k > 0 && b / 2 == Pow(2, k - 1);
      }
    } else {
      if b == 1 { assert b == Pow(2, 0); }
      if PowerOfTwo(b) {
        var k: nat :| b == Pow(2, k);
        if k > 0 { assert b == 2 * Pow(2, k - 1); }
      }
    }
  }

  lemma {:induction false} StrippedScaled(o: nat, k: nat)
    requires o % 2 == 1
    ensures o * Pow(2, k) > 0 && Stripped(o * Pow(2, k)) == o
  {
    if k > 0 {
      StrippedScaled(o, k - 1);
      MulSwap(2, o, Pow(2, k - 1));
      MulSwap(o, 2, Pow(2, k - 1));
      assert Pow(2, k) == 2 * Pow(2, k - 1);
      assert o * Pow(2, k) == 2 * (o * Pow(2, k - 1));
    } else {
      assert Pow(2, 0) == 1;
    }
  }

  lemma OddTimesPower(o: nat, k: nat)
    requires o % 2 == 1 && o > 1
    ensures o * Pow(2, k) > 0 && !PowerOfTwo(o * Pow(2, k))
  {
    hide Pow, Stripped, PowerOfTwo;
    StrippedScaled(o, k);
    StrippedPower(o * Pow(2, k));
  }

  /**
   * mp_invmod_slow, as mp_invmod calls it: for an even modulus. The test for two even numbers lets
   * zero pass, and then a power of two gives zero as the inverse of zero.
   */
  method SlowInvmod(a: int, b: nat) returns (r: Option<nat>)
    requires b > 0 && b % 2 == 0
    ensures r.Some? <==> Coprime(b, a) || (a % b == 0 && PowerOfTwo(b))
    ensures r.Some? ==> r.value < b && (Cong(a * r.value, 1, b) <==> Coprime(b, a))
    ensures r.Some? && a % b == 0 ==> r.value == 0
  {
    var x: nat, y: nat := a % b, b;
    CoprimeMod(a, b);
    if x % 2 == 0 { BothEven(x, b); }
    if x > 0 && x % 2 == 0 {
      return None;
    }
    StrippedPower(b);
    hide Cong, Coprime, PowerOfTwo, Stripped;
    var v, C := SlowSearch(x, b);
    if v != 1 {
      return None;
    }
    var c: nat := IntoRange(C, x, b);
    if x != 0 { Inverted(a, c, b); } else { ZeroIsNoInverse(a, b); }
    r := Some(c);
  }

  /** Lines 49-141: v is the greatest common divisor for x > 0, and the odd part of b for x = 0. */
  method SlowSearch(x: nat, b: nat) returns (v: nat, C: int)
    requires b > 0 && b % 2 == 0 && (x % 2 == 1 || x == 0)
    ensures x != 0 ==> (v == 1 <==> Coprime(b, x)) && (v == 1 ==> Cong(C * x, 1, b))
    ensures x == 0 ==> v == Stripped(b) && C == v - 1
  {
    BezoutStart(x, b);
    hide Cong, Coprime, Bezout, Stripped;
    var u, A, B, D := x, 1, 0, 1;
    v, C := b, 0;
    while true
      invariant x % 2 == 1 ==> u > 0 && Bezout(u, v, A, B, C, D, x, b)
      invariant x == 0 ==> u == 0 && v == b && A == 1 && C == 0 && D == 1
      decreases u + v
    {
      StrippedBelow(u);
      StrippedBelow(v);
      u, A, B := HalveAll(u, A, B, x, b, v, C, D, true);
      v, C, D := HalveAll(v, C, D, x, b, u, A, B, false);
      if x != 0 { BezoutSubtract(u, v, A, B, C, D, x, b); } else { StrippedFacts(b); }
      if u >= v {
        u, A, B := u - v, A - C, B - D;
      } else {
        v, C, D := v - u, C - A, D - B;
      }
      if u == 0 {
        break;
      }
    }
    if x != 0 { BezoutEnd(v, A, B, C, D, x, b); }
  }

  lemma StrippedFacts(b: nat)
    requires b > 0 && b % 2 == 0
    ensures 0 < Stripped(b) < b && Stripped(0) == 0
  {}

  /** Lines 151-163: add or subtract the modulus. */
  method IntoRange(C: int, x: nat, b: nat) returns (c: nat)
    requires b > 0
    ensures c < b
    ensures Cong(C * x, 1, b) ==> Cong(c * x, 1, b)
    ensures 0 <= C < b ==> c == C
  {
    hide Cong;
    var d := C;
    while d < 0
      invariant C >= 0 ==> d == C
      invariant Cong(C * x, 1, b) ==> Cong(d * x, 1, b)
      decreases -d
    {
      if Cong(d * x, 1, b) { ShiftInverse(d, b, x, 1); }
      d := d + b;
    }
    while d >= b
      invariant d >= 0 && (0 <= C < b ==> d == C)
      invariant Cong(C * x, 1, b) ==> Cong(d * x, 1, b)
    {
      if Cong(d * x, 1, b) { ShiftInverse(d, b, x, -1); }
      d := d - b;
    }
    c := d;
  }

  lemma ZeroIsNoInverse(a: int, b: nat)
    requires b > 1
    ensures !Cong(a * 0, 1, b)
  {
    hide Cong;
    if Cong(a * 0, 1, b) {
      NoMultiple(a * 0, b);
    }
  }

  lemma NoMultiple(z: int, b: nat)
    requires b > 1 && Cong(z, 1, b)
    ensures z != 0
  {
    var k := CongWitness(z, 1, b);
    if k >= 1 { MulMono(1, k, b); }
    if k <= -1 { MulMono(k, -1, b); }
  }

  lemma BothEven(x: nat, b: nat)
    requires x % 2 == 0 && b % 2 == 0
    ensures !Coprime(b, x)
  {
    DividesIntro(2, x, x / 2);
    DividesIntro(2, b, b / 2);
    assert Common(2, b, x);
  }

  lemma BezoutStart(x: nat, y: nat)
    requires y > 0
    ensures Bezout(x, y, 1, 0, 0, 1, x, y)
  {}

  lemma BezoutSubtract(u: int, v: int, A: int, B: int, C: int, D: int, x: int, y: int)
    requires Bezout(u, v, A, B, C, D, x, y)
    ensures u >= v ==> Bezout(u - v, v, A - C, B - D, C, D, x, y)
    ensures 0 <= u < v ==> Bezout(u, v - u, A, B, C - A, D - B, x, y)
    ensures u >= 0 && v > 0
  {
    SubtractKeeps(u, v, x, y);
    hide SameDivisors;
    MulDist(A, C, x);
    MulDist(B, D, y);
    MulDist(C, A, x);
    MulDist(D, B, y);
  }

  lemma BezoutEnd(v: int, A: int, B: int, C: int, D: int, x: nat, b: nat)
    requires Bezout(0, v, A, B, C, D, x, b)
    ensures Coprime(b, x) <==> v == 1
    ensures v == 1 ==> Cong(C * x, 1, b)
  {
    LastDivisor(v, x, b);
    CoprimeSwap(x, b);
    hide Coprime, SameDivisors;
    if v == 1 { FromBezout(C, D, x, b); }
  }

  lemma CoprimeSwap(x: int, y: int)
    ensures Coprime(x, y) <==> Coprime(y, x)
  {
    forall d: int | d > 1 ensures Common(d, x, y) <==> Common(d, y, x) {}
  }

  lemma FromBezout(C: int, D: int, x: int, b: nat)
    requires C * x + D * b == 1
    ensures Cong(C * x, 1, b)
  {
    CongIntro(C * x, 1, b, -D);
  }

  lemma ShiftInverse(C: int, b: nat, x: nat, s: int)
    requires Cong(C * x, 1, b)
    ensures Cong((C + s * b) * x, 1, b)
  {
    MulDist(C, s * b, x);
    MulSwap(s, b, x);
    CongIntro((C + s * b) * x, C * x, b, s * x);
    hide Cong;
    CongTrans((C + s * b) * x, C * x, 1, b);
  }

  /**
   * mp_invmod: coprime numbers have an inverse, right but for a negative a and an odd b; and zero is
   * returned for a multiple of an even power of two, where there is none.
   */
  method MpInvmod(a: int, b: int) returns (r: Option<int>)
    requires b > 0 && b % 2 == 1 ==> a % b != 0
    ensures b <= 0 ==> r.None?
    ensures b > 0 ==> (r.Some? <==> Coprime(b, a) || FalseInverse(a, b))
    ensures r.Some? && Coprime(b, a) ==> Cong(a * r.value, if b % 2 == 1 && a < 0 then -1 else 1, b)
    ensures r.Some? ==> (Cong(a * r.value, 1, b) <==> Coprime(b, a) && (b % 2 == 0 || a >= 0))
    ensures r.Some? && b % 2 == 0 ==> 0 <= r.value < b
    ensures r.Some? && b % 2 == 1 ==> if a >= 0 then r.value >= 0 else r.value <= 0
    ensures FalseInverse(a, b) ==> r == Some(0) && !Coprime(b, a)
  {
    if b <= 0 {
      return None;
    }
    if b % 2 == 1 {
      ghost var passes;
      r, passes := FastInvmod(a, b);
    } else {
      var s := SlowInvmod(a, b);
      BothEven(0, b);
      CoprimeMod(a, b);
      r := if s.Some? then Some(s.value) else None;
    }
  }

  /** Where mp_invmod reports zero as an inverse. */
  ghost predicate FalseInverse(a: int, b: int) {
    b > 0 && b % 2 == 0 && a % b == 0 && PowerOfTwo(b)
  }

  /** The smallest instance: zero modulo two is answered with zero. */
  method InverseOfZero() returns (r: Option<int>)
    ensures r == Some(0) && !Coprime(2, 0)
  {
    assert Pow(2, 1) == 2;
    BothEven(0, 2);
    assert FalseInverse(0, 2);
    r := MpInvmod(0, 2);
  }
}
