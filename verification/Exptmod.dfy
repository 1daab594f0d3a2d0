/** Modular exponentiation and its dispatch by the shape of the modulus (bn_mp_exptmod.c and callees). */
module Exptmod {
  import opened Arith
  import opened Digits
  import opened MontgomerySetup
  import opened Window
  import Barrett
  import Division
  import SpecialReduction
  import Invmod
  import Montgomery
  import ToomCook
  import Multiplication

  /** G^X mod P */
  function PowMod(G: int, X: nat, P: nat): (r: nat)
    requires P > 0
    ensures r < P
  {
    DivModSpec(Pow(G, X), P);
    Pow(G, X) % P
  }

  // ---- shapes of the modulus ----

  /** Digits equal to MP_MASK, as mp_reduce_is_2k_l counts them. */
  function Masks(s: seq<nat>, b: nat): (c: nat)
    ensures c <= |s|
  {
    if |s| == 0 then 0 else Masks(s[..|s| - 1], b) + (if s[|s| - 1] == b - 1 then 1 else 0)
  }

  /** mp_reduce_is_2k_l: one digit, or at least half of the digits all ones. */
  method Is2kL(P: nat, b: nat) returns (yes: bool)
    requires b >= 2
    ensures yes <==> Used(P, b) == 1 || (Used(P, b) > 1 && Masks(ToDigits(P, b), b) >= Used(P, b) / 2)
  {
    hide ToDigits;
    var s := ToDigits(P, b);
    if |s| == 0 {
      return false;
    }
    if |s| == 1 {
      return true;
    }
    var iy := 0;
    for ix := 0 to |s|
      invariant iy == Masks(s[..ix], b)
    {
      assert s[..ix + 1][..ix] == s[..ix];
      if s[ix] == b - 1 {
        iy := iy + 1;
      }
    }
    assert s[..|s|] == s;
    yes := iy >= |s| / 2;
  }

  /** mp_dr_is_modulus: at least two digits, all but the lowest all ones. */
  predicate IsDr(P: nat, b: nat)
    requires b >= 2
  {
    Used(P, b) >= 2 && forall i :: 1 <= i < Used(P, b) ==> ToDigits(P, b)[i] == b - 1
  }

  lemma {:induction false} MasksOfTail(s: seq<nat>, b: nat)
    requires forall i :: 1 <= i < |s| ==> s[i] == b - 1
    ensures Masks(s, b) >= |s| - 1
  {
    if |s| > 1 { MasksOfTail(s[..|s| - 1], b); }
  }

  /** Every diminished-radix modulus is caught by mp_reduce_is_2k_l first, so mode 1 is never dispatched. */
  lemma DrIsCaught(P: nat, b: nat)
    requires b >= 2 && IsDr(P, b)
    ensures Masks(ToDigits(P, b), b) >= Used(P, b) / 2
  {
    MasksOfTail(ToDigits(P, b), b);
  }

  /** Every bit from the second digit up is one. */
  ghost predicate OnesAbove(P: nat, db: nat)
    requires db >= 1
  {
    PowPos(2, db);
    CountBits(P) >= db && Quo(P, Pow(2, db)) + 1 == Pow(2, CountBits(P) - db)
  }

  /** mp_reduce_is_2k */
  method Is2k(P: nat, db: nat) returns (yes: bool)
    requires db >= 1 && Pow(2, db) >= 2
    ensures yes <==> Used(P, Pow(2, db)) == 1 || (Used(P, Pow(2, db)) > 1 && OnesAbove(P, db))
  {
    hide ToDigits, Pow, CountBits, Quo;
    var b := NatPow(2, db);
    var used := Used(P, b);
    if used == 0 {
      return false;
    }
    if used == 1 {
      return true;
    }
    var iy := CountBits(P);
    CountBitsInTopDigit(P, db);
    assert db < iy by { MulMono(1, used - 1, db); }
    OnesStart(P, db);
    var ix := db;
    while ix < iy
      invariant db <= ix <= iy
      invariant OnesUpTo(P, db, ix - db)
    {
      if Bit(P, ix) == 0 {
        ZeroBitFails(P, db, ix, iy);
        return false;
      }
      OneMore(P, db, ix);
      ix := ix + 1;
    }
    OnesEnd(P, db);
    return true;
  }

  function Bit(P: nat, i: nat): (y: nat)
    ensures y <= 1
  {
    PowPos(2, i);
    Quo(P, Pow(2, i)) % 2
  }

  /** The low j bits of P / 2^db are ones. */
  ghost predicate OnesUpTo(P: nat, db: nat, j: nat) {
    PowPos(2, db);
    PowPos(2, j);
    Rem(Quo(P, Pow(2, db)), Pow(2, j)) == Pow(2, j) - 1
  }

  lemma OnesStart(P: nat, db: nat)
    ensures OnesUpTo(P, db, 0)
  {
    ValEmpty([], 2);
    PowPos(2, db);
    DivModUnique(Quo(P, Pow(2, db)), 1, Quo(P, Pow(2, db)), 0);
  }

  /** Bit ix of P is bit ix - db of P / 2^db. */
  lemma BitAbove(P: nat, db: nat, ix: nat)
    requires db <= ix
    ensures Pow(2, db) > 0 && Pow(2, ix - db) > 0 && Bit(P, ix) == Quo(Quo(P, Pow(2, db)), Pow(2, ix - db)) % 2
  {
    PowPos(2, db);
    PowPos(2, ix - db);
    PowAdd(2, db, ix - db);
    DivDiv(P, Pow(2, db), Pow(2, ix - db));
  }

  /** The residue modulo 2^(j+1) is the residue modulo 2^j plus bit j. */
  lemma NextResidue(h: nat, j: nat)
    ensures Pow(2, j) > 0 && Pow(2, j + 1) == 2 * Pow(2, j)
    ensures Rem(h, 2 * Pow(2, j)) == Rem(h, Pow(2, j)) + (Quo(h, Pow(2, j)) % 2) * Pow(2, j)
  {
    PowPos(2, j);
    var p := Pow(2, j);
    var q, r := Quo(h, p), Rem(h, p);
    hide Pow, Quo, Rem;
    QuoRemSpec(h, p);
    var y, q2 := q % 2, q / 2;
    assert h == q2 * (2 * p) + (r + y * p) by { MulDist(2 * q2, y, p); MulSwap(q2, 2, p); }
    MulNonNeg(y, p);
    MulMono(y, 1, p);
    QuoRemUnique(h, 2 * p, q2, r + y * p);
  }

  lemma OneMore(P: nat, db: nat, ix: nat)
    requires db <= ix && OnesUpTo(P, db, ix - db) && Bit(P, ix) != 0
    ensures OnesUpTo(P, db, ix + 1 - db)
  {
    hide Quo, Rem;
    BitAbove(P, db, ix);
    PowPos(2, db);
    DivNonNeg(P, Pow(2, db));
    QuoRemSpec(P, Pow(2, db));
    NextResidue(Quo(P, Pow(2, db)), ix - db);
  }

  lemma ZeroBitFails(P: nat, db: nat, ix: nat, iy: nat)
    requires db <= ix < iy == CountBits(P) && db >= 1 && Bit(P, ix) == 0
    ensures !OnesAbove(P, db)
  {
    hide Quo, Rem, CountBits;
    if OnesAbove(P, db) {
      BitAbove(P, db, ix);
      QuoRemSpec(P, Pow(2, db));
      AllOnesBit(Quo(P, Pow(2, db)), ix - db, iy - db);
    }
  }

  /** Bit j of 2^n - 1 is one. */
  lemma AllOnesBit(h: nat, j: nat, n: nat)
    requires j < n && h + 1 == Pow(2, n)
    ensures Pow(2, j) > 0 && Quo(h, Pow(2, j)) % 2 == 1
  {
    hide Quo, Rem, Pow;
    PowPos(2, j);
    PowPos(2, n - j - 1);
    PowAdd(2, n - j, j);
    PowDouble(n - j - 1);
    var p, c := Pow(2, j), Pow(2, n - j - 1);
    assert h == (2 * c - 1) * p + (p - 1) by { MulDist(2 * c, 1, p); }
    QuoRemUnique(h, p, 2 * c - 1, p - 1);
  }

  lemma OnesEnd(P: nat, db: nat)
    requires db >= 1 && P > 0 && db <= CountBits(P) && OnesUpTo(P, db, CountBits(P) - db)
    ensures OnesAbove(P, db)
  {
    hide Quo, Rem, CountBits;
    var c := CountBits(P);
    SpecialReduction.CountBitsBounds(P);
    PowPos(2, db);
    PowPos(2, c - db);
    PowAdd(2, c - db, db);
    QuoRemSpec(P, Pow(2, db));
    var h, p := Quo(P, Pow(2, db)), Pow(2, c - db);
    assert h < p by {
      if h >= p { MulMono(p, h, Pow(2, db)); }
    }
    QuoRemUnique(h, p, 0, h);
  }

  // ---- the two exponentiators ----

  /** mp_mod for a positive modulus: mp_div, then one addition if the remainder is negative. */
  method Mod(a: int, P: nat, db: nat) returns (r: nat)
    requires db >= 4 && P > 0
    ensures r == a % P
  {
    var qr := Division.Div(a, P, db);
    var q, t := qr.value.0, qr.value.1;
    if t == 0 || t > 0 {
      DivModUnique(a, P, q, t);
      r := t;
    } else {
      assert a == (q - 1) * P + (t + P) by { MulDist(q, 1, P); }
      DivModUnique(a, P, q - 1, t + P);
      r := t + P;
    }
  }

  /** mp_reduce_setup: b^(2k) / P by mp_div. */
  method BarrettSetup(P: nat, m: Machine) returns (mu: nat)
    requires m.Valid() && P > 0
    ensures mu == Barrett.Reciprocal(P, m.Radix())
  {
    hide Pow, ToDigits, Quo, Rem;
    var b := m.Radix();
    var top: nat := NatPow(b, 2 * Used(P, b));
    var qr := Division.Div(top, P, m.db);
    var q := qr.value.0;
    SameQuotient(top, P, q, qr.value.1);
    mu := q;
  }

  lemma SameQuotient(a: nat, P: nat, q: int, t: int)
    requires P > 0 && a == q * P + t && Abs(t) < P && (t < 0 ==> a < 0)
    ensures q == Quo(a, P) && q >= 0
  {
    DivModUnique(a, P, q, t);
    DivNonNeg(a, P);
  }

  /** A residue standing for g^X with factor 1 is G^X mod P. */
  lemma PlainResult(y: nat, G: int, X: nat, P: nat, red: Reducer, m: Machine)
    requires m.Valid() && P > 0 && red.Montgomery? == false && Sound(red, P) && y < P && Rep(y, X, G % P, red, P, m)
    ensures y == PowMod(G, X, P)
  {
    hide Pow, Cong;
    CongMod(G, P);
    CongPow(G % P, G, X, P);
    CongTrans(y, Pow(G % P, X), Pow(G, X), P);
    CongToMod(y, Pow(G, X), P);
  }

  /** The residue of G squares to something that folding with constant zero turns into zero. */
  ghost predicate Vanishes(G: int, P: nat) {
    P > 0 && (G % P) * (G % P) >= 0 && SpecialReduction.Folded((G % P) * (G % P), P) == 0
  }

  /** The window machine over a reducer without a factor: both routines after their setup. */
  method PlainExpt(G: int, X: nat, P: nat, red: Reducer, m: Machine) returns (y: nat)
    requires m.Valid() && Fits(red, P, m) && !red.Montgomery?
    ensures y < P || (P == 1 && X == 0 && y == 1)
    ensures P > 1 || X > 0 ==> (Sound(red, P) ==> y == PowMod(G, X, P))
    ensures P == 1 && X == 0 ==> y == 1
    ensures red.TwoK? && red.d == 0 && X == 2 && Vanishes(G, P) ==> y == 0
  {
    var M1: nat := Mod(G, P, m.db);
    var w := WindowSize(CountBits(X));
    StartReps(M1, red, P, m);
    var M := BuildTable(M1, w, red, P, m, M1);
    var digits := ToDigits(X, m.Radix());
    y := Run(digits, M, 1, w, red, P, m, M1);
    ToDigitsVal(X, m.Radix());
    if X == 2 { assert w == 2 by { TwoIsShort(); } }
    hide Pow, Cong, Fits;
    if Sound(red, P) && y < P { PlainResult(y, G, X, P, red, m); }
  }

  lemma TwoIsShort()
    ensures CountBits(2) == 2
  {
    assert Pow(2, 1) == 2 && Pow(2, 2) == 4;
    UsedUnique(2, 2, 2);
  }

  lemma StartReps(M1: nat, red: Reducer, P: nat, m: Machine)
    requires m.Valid() && Fits(red, P, m) && !red.Montgomery? && M1 < P
    ensures Rep(M1, 1, M1, red, P, m) && Rep(1, 0, M1, red, P, m)
  {
    assert Pow(M1, 1) == M1 && Pow(M1, 0) == 1;
    CongRefl(M1, P);
    CongRefl(1, P);
  }

  /** R mod P, the start value of Montgomery mode. */
  function Unit(P: nat, m: Machine): (one: nat)
    requires m.Valid() && P > 0
    ensures one < P && Cong(one, Pow(m.Radix(), Used(P, m.Radix())), P)
  {
    hide Pow, Cong, Used;
    CongMod(Pow(m.Radix(), Used(P, m.Radix())), P);
    NatRem(NatPow(m.Radix(), Used(P, m.Radix())), P)
  }

  /** mp_mul of G and R mod P misses the product, and not by a multiple of P. */
  ghost predicate Slipping(G: int, P: nat, m: Machine)
    requires m.Valid()
  {
    P > 0 && !Cong(ToomCook.MulValue(G, Unit(P, m), m.Multipliers()), G * Unit(P, m), P)
  }

  /** The words that the baseline reduction reads above `used` are zero. */
  predicate TailClean(P: nat, m: Machine)
    requires m.Valid()
  {
    Guarded(P, m) || m.stray == 0
  }

  /**
   * mp_exptmod_fast in Montgomery mode: rho, R mod P, the machine, and one last reduction. The result is the
   * power of the number g that the first table entry stands for, which is G unless the first product slips.
   */
  method MontgomeryExpt(G: int, X: nat, P: nat, m: Machine) returns (r: Option<nat>, ghost g: int)
    requires m.Valid() && P > 1 && TailClean(P, m)
    ensures P % 2 == 0 <==> r.None?
    ensures r.Some? ==> r.value == PowMod(g, X, P) && (Cong(g, G, P) <==> !Slipping(G, P, m))
  {
    g := G;
    var rho := Setup(P, m.db, m.digitBits);
    if rho.None? {
      r := None;
      return;
    }
    var red := Reducer.Montgomery(rho.value);
    assert Fits(red, P, m);
    var one := CalcNormalization(P, m.db);
    UnitIs(one, P, m);
    hide Pow, Cong, Fits, Rem, ToDigits, Table, Slipping, Unit, ToomCook.MulValue, ToomCook.Sound, ToomCook.Slip, ToomCook.Covered;
    var t := Multiplication.Mul(G, one, m.Multipliers());
    var M1: nat := Mod(t, P, m.db);
    g := MontgomeryStart(M1, t, G, red, P, m);
    var w := WindowSize(CountBits(X));
    var M := BuildTable(M1, w, red, P, m, g);
    var digits := ToDigits(X, m.Radix());
    var res := Run(digits, M, one, w, red, P, m, g);
    ToDigitsVal(X, m.Radix());
    assert res < P * P by { MulMono(1, P, P); }
    var y := Redux(red, res, P, m);
    MontgomeryResult(y, res, g, X, red, P, m);
    r := Some(y);
  }

  lemma UnitIs(one: nat, P: nat, m: Machine)
    requires m.Valid() && P > 0 && one < P && Cong(one, Pow(m.Radix(), Used(P, m.Radix())), P)
    ensures one == Unit(P, m)
  {
    hide Pow, Cong, Used;
    CongToMod(one, Pow(m.Radix(), Used(P, m.Radix())), P);
  }

  /** The first entry stands for some g, and for G exactly if the product is right modulo P. */
  lemma MontgomeryStart(M1: nat, t: int, G: int, red: Reducer, P: nat, m: Machine) returns (g: int)
    requires m.Valid() && Fits(red, P, m) && red.Montgomery? && M1 == t % P
    requires t == ToomCook.MulValue(G, Unit(P, m), m.Multipliers())
    ensures Rep(M1, 1, g, red, P, m) && Rep(Unit(P, m), 0, g, red, P, m)
    ensures Cong(g, G, P) <==> !Slipping(G, P, m)
  {
    var inv := FactorInverse(red, P, m);
    g := t * inv;
    assert Pow(g, 1) == g && Pow(g, 0) == 1;
    CongMod(t, P);
    hide Pow, Cong, Fits, Used, ToomCook.MulValue;
    StandsFor(t, G, Unit(P, m), Factor(red, P, m), inv, P);
    CongSym(g * Factor(red, P, m), t, P);
    CongTrans(M1, t, g * Factor(red, P, m), P);
  }

  lemma StandsFor(t: int, G: int, one: int, R: int, inv: int, P: int)
    requires Cong(R * inv, 1, P) && Cong(one, R, P)
    ensures Cong((t * inv) * R, t, P) && (Cong(t * inv, G, P) <==> Cong(t, G * one, P))
  {
    hide Cong;
    var g := t * inv;
    CongScale(t, R * inv, 1, P);
    MulSwap(t, inv, R);
    CongScale(G, one, R, P);
    if Cong(g, G, P) {
      CongScale(R, g, G, P);
      CongSym(g * R, t, P);
      CongTrans(t, g * R, G * R, P);
      CongSym(G * one, G * R, P);
      CongTrans(t, G * R, G * one, P);
    }
    if Cong(t, G * one, P) {
      CongTrans(g * R, t, G * one, P);
      CongTrans(g * R, G * one, G * R, P);
      Montgomery.CancelFactor(g, G, R, inv, P);
    }
  }

  lemma MontgomeryResult(y: nat, res: nat, G: int, X: nat, red: Reducer, P: nat, m: Machine)
    requires m.Valid() && Fits(red, P, m) && red.Montgomery? && y < P && Rep(res, X, G, red, P, m)
    requires Cong(y * Factor(red, P, m), res, P)
    ensures y == PowMod(G, X, P)
  {
    hide Pow, Cong, Fits, Factor;
    var R := Factor(red, P, m);
    var inv := FactorInverse(red, P, m);
    CongTrans(y * R, res, Pow(G, X) * R, P);
    Montgomery.CancelFactor(y, Pow(G, X), R, inv, P);
    CongToMod(y, Pow(G, X), P);
  }

  // ---- the dispatcher ----

  /** mp_reduce_2k_setup keeps only the low digit of 2^p - P. */
  function Setup2k(P: nat, m: Machine): (d: nat)
    requires m.Valid() && P > 0
    ensures P + d <= Pow(2, CountBits(P))
  {
    SpecialReduction.CountBitsBounds(P);
    var t := Pow(2, CountBits(P)) - P;
    DivModSpec(t, m.Radix());
    DivNonNeg(t, m.Radix());
    MulNonNeg(t / m.Radix(), m.Radix());
    Rem(t, m.Radix())
  }

  /**
   * When every bit above the low digit is one, 2^p - P is b less the low digit; the constant is
   * right exactly when the low digit is not zero, and is zero otherwise.
   */
  lemma Setup2kExact(P: nat, m: Machine)
    requires m.Valid() && P > 0 && OnesAbove(P, m.db)
    ensures P + Setup2k(P, m) == Pow(2, CountBits(P)) <==> Rem(P, m.Radix()) != 0
    ensures Rem(P, m.Radix()) == 0 ==> Setup2k(P, m) == 0
  {
    hide Pow, CountBits, Rem, Quo;
    var b, c := m.Radix(), CountBits(P);
    PowAdd(2, c - m.db, m.db);
    QuoRemSpec(P, b);
    var h, low, p := Quo(P, b), Rem(P, b), Pow(2, c - m.db);
    assert Pow(2, c) - P == b - low by { MulDist(h, 1, b); }
    if low == 0 {
      QuoRemUnique(b, b, 1, 0);
    } else {
      QuoRemUnique(b - low, b, 0, b - low);
    }
  }

  /**
   * The moduli that mp_exptmod mishandles: at least two digits, low digit zero, every higher bit
   * one with at least two of them, and not taken by the digit-count test.
   */
  ghost predicate Mishandled(P: nat, m: Machine)
    requires m.Valid()
  {
    var b := m.Radix();
    Used(P, b) > 1 && Rem(P, b) == 0 && OnesAbove(P, m.db) && CountBits(P) >= m.db + 2
    && Masks(ToDigits(P, b), b) < Used(P, b) / 2
  }

  /** Which constants the dispatcher's last test can meet. */
  lemma TwoKSound(P: nat, m: Machine)
    requires m.Valid() && P > 1 && Used(P, m.Radix()) > 1 && OnesAbove(P, m.db)
    ensures Sound(TwoK(Setup2k(P, m)), P) <==> Rem(P, m.Radix()) != 0 || CountBits(P) < m.db + 2
  {
    hide Pow, CountBits, Rem, Quo, Setup2k, ToDigits;
    var b, c := m.Radix(), CountBits(P);
    Setup2kExact(P, m);
    CountBitsInTopDigit(P, m.db);
    assert c > m.db by { MulMono(1, Used(P, b) - 1, m.db); }
    QuoRemSpec(P, b);
    var h := Quo(P, b);
    PowAdd(2, c - m.db, m.db);
    if Rem(P, b) == 0 {
      assert Pow(2, c) == P + b by { MulDist(h, 1, b); }
      if c == m.db + 1 {
        PowersOfTwo();
        assert h == 1;
      } else {
        PowMono(2, 2, c - m.db);
        PowersOfTwo();
        MulMono(3, h, b);
      }
    }
  }

  /** The moduli for which mp_exptmod chooses Montgomery reduction. */
  ghost predicate ByMontgomery(P: int, m: Machine)
    requires m.Valid()
  {
    var b := m.Radix();
    P > 0 && P % 2 == 1 && Used(P, b) > 1 && Masks(ToDigits(P, b), b) < Used(P, b) / 2 && !OnesAbove(P, m.db)
  }

  /** The first table entry does not stand for G. */
  ghost predicate Misstarted(G: int, P: int, m: Machine)
    requires m.Valid()
  {
    ByMontgomery(P, m) && Slipping(G, P, m)
  }

  /** Powers of congruent numbers are the same; at the exponent 1 of no others. */
  lemma SamePower(g: int, G: int, X: nat, P: nat)
    requires P > 0
    ensures Cong(g, G, P) ==> PowMod(g, X, P) == PowMod(G, X, P)
    ensures X == 1 && PowMod(g, 1, P) == PowMod(G, 1, P) ==> Cong(g, G, P)
  {
    assert Pow(g, 1) == g && Pow(G, 1) == G;
    CongMod(Pow(g, X), P);
    CongMod(g, P);
    CongMod(G, P);
    hide Pow, Cong;
    if Cong(g, G, P) {
      CongPow(g, G, X, P);
      CongTrans(Pow(g, X) % P, Pow(g, X), Pow(G, X), P);
      CongToMod(Pow(g, X) % P, Pow(G, X), P);
    }
    if X == 1 && PowMod(g, 1, P) == PowMod(G, 1, P) {
      CongSym(g % P, g, P);
      CongTrans(g, g % P, G, P);
    }
  }

  /**
   * mp_exptmod from line 68 on, for an exponent that is not negative. Outside the mishandled moduli and the bases
   * that slip the answer is G^X mod P, except that P = 1 with X = 0 gives 1.
   */
  method ExptmodDispatch(G: int, X: nat, P: int, m: Machine) returns (r: Option<nat>)
    requires m.Valid() && (ByMontgomery(P, m) ==> TailClean(P, m))
    ensures P <= 0 <==> r.None?
    ensures P > 0 && !Mishandled(P, m) && !Misstarted(G, P, m) ==> (r.value == PowMod(G, X, P) <==> P > 1 || X > 0)
    ensures P > 0 && Misstarted(G, P, m) && X == 1 ==> r.value != PowMod(G, X, P)
    ensures P > 0 && Mishandled(P, m) && X == 2 && Vanishes(G, P) ==> r.value == 0
  {
    hide Pow, Cong, Rem, Quo, ToDigits, CountBits, Vanishes, Barrett.Reciprocal, Slipping, PowMod;
    if P < 0 {
      return None;
    }
    var b := m.Radix();
    var isL := Is2kL(P, b);
    if isL {
      SpecialReduction.CountBitsBounds(P);
      var d: nat := NatPow(2, CountBits(P)) - P;
      var y := PlainExpt(G, X, P, TwoK(d), m);
      OneHasNoOther(G, P);
      return Some(y);
    }
    if P == 0 {
      return None;  // not 2k, not odd: mp_reduce_setup divides by zero
    }
    OneIsOneDigit(b);
    if IsDr(P, b) {
      DrIsCaught(P, b);
      assert false;
    }
    var is2k := Is2k(P, m.db);
    if is2k {
      var d := Setup2k(P, m);
      TwoKSound(P, m);
      Setup2kExact(P, m);
      var y := PlainExpt(G, X, P, TwoK(d), m);
      return Some(y);
    }
    if P % 2 == 1 {
      UsedOne(P, b);
      ghost var g;
      r, g := MontgomeryExpt(G, X, P, m);
      OddIsHandled(P, m);
      SamePower(g, G, X, P);
    } else {
      var mu := BarrettSetup(P, m);
      var y := PlainExpt(G, X, P, Reducer.Barrett(mu), m);
      r := Some(y);
    }
  }

  lemma UsedOne(P: nat, b: nat)
    requires b >= 2 && P > 0
    ensures Used(P, b) >= 1
  {}

  /** What a negative exponent yields: the sign that fast_mp_invmod copies comes back with odd exponents. */
  predicate WrongSign(G: int, X: int, P: int) {
    X < 0 && G < 0 && X % 2 == 1 && P % 2 == 1
  }

  /** A base or a modulus for which the first product cannot slip, whatever its other operand. */
  ghost predicate Straight(G: int, P: int, m: Machine)
    requires m.Valid()
  {
    P > 0 && (G >= 0 || !ByMontgomery(P, m) || Used(P, m.Radix()) < m.Multipliers().toom)
  }

  lemma StraightStarts(G: int, P: int, m: Machine)
    requires m.Valid() && Straight(G, P, m)
    ensures !Misstarted(G, P, m)
  {
    hide Pow, Cong, ToDigits, Masks, ToomCook.MulValue, OnesAbove;
    if ByMontgomery(P, m) {
      var one := Unit(P, m);
      UsedBelow(one, P, m.Radix());
      ToomCook.MulExact(G, one, m.Multipliers());
      CongRefl(G * one, P);
    }
  }

  lemma UsedBelow(v: nat, w: nat, b: nat)
    requires b >= 2 && v <= w
    ensures Used(v, b) <= Used(w, b)
  {
    hide Used;
    UsedBounds(w, b);
    UsedAtMost(v, Used(w, b), b);
  }

  /**
   * mp_exptmod. A negative exponent needs an inverse, which coprime numbers have; the result is then the
   * inverse of G^|X|, or minus it exactly when G is negative and X and P are odd. A multiple of a power of two
   * gets zero for its inverse, and the search for the inverse of a multiple of an odd P does not end.
   */
  method MpExptmod(G: int, X: int, P: int, m: Machine) returns (r: Option<nat>)
    requires m.Valid() && (ByMontgomery(P, m) ==> TailClean(P, m))
    requires X < 0 && P > 0 && P % 2 == 1 ==> G % P != 0
    ensures P <= 0 ==> r.None?
    ensures P > 0 ==> (r.Some? <==> X >= 0 || Invmod.Coprime(P, G) || Invmod.FalseInverse(G, P))
    ensures P > 0 && X >= 0 && !Mishandled(P, m) && !Misstarted(G, P, m) ==> (r.value == PowMod(G, X, P) <==> P > 1 || X > 0)
    ensures P > 0 && X == 1 && Misstarted(G, P, m) ==> r.value != PowMod(G, X, P)
    ensures P > 0 && X == 2 && Mishandled(P, m) && Vanishes(G, P) ==> r.value == 0
    ensures X < 0 && Straight(G, P, m) && Invmod.Coprime(P, G) && !Mishandled(P, m) ==>
      r.value < P && (Cong(Pow(G, -X) * r.value, 1, P) <==> !WrongSign(G, X, P))
    ensures X < 0 && Straight(G, P, m) && Invmod.Coprime(P, G) && WrongSign(G, X, P) ==> Cong(Pow(G, -X) * r.value, -1, P)
    ensures X < 0 && Invmod.FalseInverse(G, P) ==> r == Some(0) && !Cong(Pow(G, -X) * r.value, 1, P)
  {
    hide Pow, Cong, Mishandled, Vanishes, Invmod.Coprime, PowMod, Slipping, Masks, OnesAbove, TailClean;
    if P < 0 {
      return None;
    }
    if X >= 0 {
      r := ExptmodDispatch(G, X, P, m);
    } else {
      r := NegativeExpt(G, -X, P, m);
    }
  }

  /** Lines 34-61: the inverse to the power n = |X|. */
  method NegativeExpt(G: int, n: nat, P: int, m: Machine) returns (r: Option<nat>)
    requires m.Valid() && (ByMontgomery(P, m) ==> TailClean(P, m)) && n > 0
    requires P > 0 && P % 2 == 1 ==> G % P != 0
    ensures P <= 0 ==> r.None?
    ensures P > 0 ==> (r.Some? <==> Invmod.Coprime(P, G) || Invmod.FalseInverse(G, P))
    ensures Straight(G, P, m) && Invmod.Coprime(P, G) && !Mishandled(P, m) ==>
      r.value < P && (Cong(Pow(G, n) * r.value, 1, P) <==> !WrongSign(G, 0 - n, P))
    ensures Straight(G, P, m) && Invmod.Coprime(P, G) && WrongSign(G, 0 - n, P) ==> Cong(Pow(G, n) * r.value, -1, P)
    ensures Invmod.FalseInverse(G, P) ==> r == Some(0) && !Cong(Pow(G, n) * 0, 1, P)
  {
    hide Pow, Cong, Mishandled, Vanishes, Invmod.Coprime, PowMod, Slipping, ByMontgomery, TailClean, Invmod.FalseInverse;
    var c := Invmod.MpInvmod(G, P);
    if c.None? {
      return None;
    }
    r := ExptmodDispatch(c.value, n, P, m);
    if Invmod.FalseInverse(G, P) {
      FalsePower(G, n, P, m);
    } else if Straight(G, P, m) {
      OddIsHandled(P, m);
      SignKept(G, c.value, P, m);
      StraightStarts(c.value, P, m);
      InversePower(G, c.value, if P % 2 == 1 && G < 0 then -1 else 1, n, P);
      if WrongSign(G, 0 - n, P) {
        NotBoth(Pow(G, n) * r.value, P);
      }
    }
  }

  lemma SignKept(G: int, c: int, P: int, m: Machine)
    requires m.Valid() && Straight(G, P, m) && (P % 2 == 0 || G < 0 || c >= 0)
    ensures Straight(c, P, m)
  {
    hide Pow, ToDigits, Masks, OnesAbove;
  }

  lemma OddIsHandled(P: int, m: Machine)
    requires m.Valid()
    ensures P > 0 && P % 2 == 1 ==> !Mishandled(P, m)
  {
    hide Pow, ToDigits, CountBits, Masks;
    var b := m.Radix();
    if P > 0 && Rem(P, b) == 0 {
      QuoRemSpec(P, b);
      EvenMultiple(Quo(P, b), b);
    }
  }

  lemma EvenMultiple(q: int, b: int)
    requires b % 2 == 0
    ensures (q * b) % 2 == 0
  {
    MulSwap(q, 2, b / 2);
  }

  /** A power of two is not mishandled, and no power of zero is one. */
  lemma FalsePower(G: int, n: nat, P: int, m: Machine)
    requires m.Valid() && n > 0 && Invmod.FalseInverse(G, P)
    ensures P > 1 && !Mishandled(P, m) && !Misstarted(0, P, m) && PowMod(0, n, P) == 0 && !Cong(Pow(G, n) * 0, 1, P)
  {
    hide Pow, Cong, Mishandled, ByMontgomery, Slipping;
    ZeroPower(n, P);
    Invmod.ZeroIsNoInverse(Pow(G, n), P);
    PowerHandled(P, m);
    EvenIsStarted(P, m);
  }

  lemma EvenIsStarted(P: int, m: Machine)
    requires m.Valid() && P % 2 == 0
    ensures !ByMontgomery(P, m)
  {
    hide Pow, ToDigits, Masks, OnesAbove;
  }

  lemma ZeroPower(n: nat, P: nat)
    requires n > 0 && P > 0
    ensures PowMod(0, n, P) == 0
  {
    assert Pow(0, n) == 0 * Pow(0, n - 1);
  }

  lemma PowerHandled(P: nat, m: Machine)
    requires m.Valid() && P > 0 && Invmod.PowerOfTwo(P)
    ensures !Mishandled(P, m)
  {
    hide Pow, Mishandled, Invmod.PowerOfTwo, CountBits;
    if Mishandled(P, m) {
      ShapeForward(P, m);
      var j := CountBits(P) - m.db;
      OnesAreOdd(j);
      Invmod.OddTimesPower(Pow(2, j) - 1, m.db);
    }
  }

  lemma OnesAreOdd(j: nat)
    requires j >= 2
    ensures (Pow(2, j) - 1) % 2 == 1 && Pow(2, j) - 1 > 1
  {
    PowDouble(j - 1);
    PowDouble(j - 2);
    PowPos(2, j - 2);
    hide Pow;
    OneLess(Pow(2, j), Pow(2, j - 1));
  }

  lemma OneLess(p: int, q: int)
    requires p == 2 * q && q >= 2
    ensures (p - 1) % 2 == 1 && p - 1 > 1
  {}

  lemma NotBoth(z: int, P: nat)
    requires P > 2 && Cong(z, -1, P)
    ensures !Cong(z, 1, P)
  {
    Invmod.SignSpoils(1, z, P);
  }

  /** If G*c is s = 1 or -1, then the power of c is the power of the inverse up to the power of s. */
  lemma InversePower(G: int, c: int, s: int, n: nat, P: nat)
    requires P > 0 && Cong(G * c, s, P) && (s == 1 || s == -1)
    ensures Cong(Pow(G, n) * PowMod(c, n, P), if s == -1 && n % 2 == 1 then -1 else 1, P)
  {
    hide Pow, Cong;
    CongPow(G * c, s, n, P);
    PowDistributes(G, c, n);
    PowOfSign(s, n);
    CongMod(Pow(c, n), P);
    CongScale(Pow(G, n), Pow(c, n) % P, Pow(c, n), P);
    CongTrans(Pow(G, n) * PowMod(c, n, P), Pow(G * c, n), Pow(s, n), P);
  }

  lemma {:induction false} PowOfSign(s: int, n: nat)
    requires s == 1 || s == -1
    ensures Pow(s, n) == if s == -1 && n % 2 == 1 then -1 else 1
  {
    if n > 0 { PowOfSign(s, n - 1); }
  }

  lemma OneIsOneDigit(b: nat)
    requires b >= 2
    ensures Used(1, b) == 1
  {
    UsedUnique(1, 1, b);
  }

  lemma OneHasNoOther(G: int, P: nat)
    requires P > 0
    ensures P == 1 ==> PowMod(G, 0, P) == 0
  {
  }

  // ---- the mishandled moduli ----

  /** 2^ceil(p/2) for p the bit count of P. */
  function VanishingBase(P: nat): (G: nat)
    ensures G == Pow(2, (CountBits(P) + 1) / 2)
  {
    NatPow(2, (CountBits(P) + 1) / 2)
  }

  /** The square of that base folds to zero for a mishandled modulus, but is no multiple of P. */
  lemma BaseVanishes(P: nat, m: Machine)
    requires m.Valid() && P > 0 && Mishandled(P, m)
    ensures Vanishes(VanishingBase(P), P) && PowMod(VanishingBase(P), 2, P) != 0
  {
    hide Pow, CountBits, Rem, Quo, ToDigits;
    var b, c := m.Radix(), CountBits(P);
    SpecialReduction.CountBitsBounds(P);
    var e := (c + 1) / 2;
    PowPos(2, e);
    var G := VanishingBase(P);
    assert G < P by {
      PowStrict(2, e, c - 1);
      PowDouble(c - 1);
    }
    DivModUnique(G, P, 0, G);
    var k := if 2 * e == c then 1 else 2;
    assert G * G == k * Pow(2, c) by {
      PowAdd(2, e, e);
      PowDouble(c);
    }
    QuoRemUnique(G * G, Pow(2, c), k, 0);
    assert PowMod(G, 2, P) == k * b by {
      QuoRemSpec(P, b);
      var h := Quo(P, b);
      PowAdd(2, c - m.db, m.db);
      assert Pow(2, c) == P + b by { MulDist(h, 1, b); }
      PowMono(2, 2, c - m.db);
      PowersOfTwo();
      MulMono(3, h, b);
      SquareIs(G);
      MulDist(P, b, k);
      DivModUnique(G * G, P, k, k * b);
    }
  }

  lemma SquareIs(G: int)
    ensures Pow(G, 2) == G * G
  {
  }

  /** For every mishandled modulus mp_exptmod returns zero for a square that is no multiple of P. */
  method MishandledSquare(P: nat, m: Machine) returns (G: nat, y: nat)
    requires m.Valid() && P > 0 && Mishandled(P, m)
    ensures y == 0 && y != PowMod(G, 2, P)
  {
    G := VanishingBase(P);
    BaseVanishes(P, m);
    hide Mishandled, Vanishes, PowMod;
    var r := MpExptmod(G, 2, P, m);
    y := r.value;
  }

  /** Prepending a digit adds its own mark to the count. */
  lemma {:induction false} MasksCons(d: nat, s: seq<nat>, b: nat)
    ensures Masks([d] + s, b) == Masks(s, b) + (if d == b - 1 then 1 else 0)
  {
    if |s| == 0 {
      assert [d] + s == [d];
      assert [d][..0] == [];
    } else {
      var n := |s| - 1;
      assert ([d] + s)[..n + 1] == [d] + s[..n];
      MasksCons(d, s[..n], b);
    }
  }

  /** The low digit of 2^j - 1. */
  lemma OnesLow(j: nat, m: Machine)
    requires m.Valid() && j >= m.db
    ensures Pow(2, j) >= 2 && Pow(2, j - m.db) >= 1
    ensures ToDigits(Pow(2, j) - 1, m.Radix()) == [m.Radix() - 1] + ToDigits(Pow(2, j - m.db) - 1, m.Radix())
  {
    hide Pow, Quo, Rem;
    var b := m.Radix();
    PowAdd(2, j - m.db, m.db);
    PowPos(2, j - m.db);
    MulMono(1, Pow(2, j - m.db), b);
    var t: nat, v: nat := Pow(2, j - m.db) - 1, Pow(2, j) - 1;
    assert v == t * b + (b - 1) by { MulDist(t, 1, b); }
    QuoRemUnique(v, b, t, b - 1);
  }

  /** 2^j - 1 is a string of all-ones digits with at most one other digit on top. */
  lemma {:induction false} OnesDigits(j: nat, m: Machine)
    requires m.Valid() && j >= 1
    ensures Pow(2, j) >= 2
    ensures var s := ToDigits(Pow(2, j) - 1, m.Radix());
            |s| <= Masks(s, m.Radix()) + 1 && (j >= m.db ==> Masks(s, m.Radix()) >= 1)
            && (j < m.db ==> s == [Pow(2, j) - 1])
    decreases j
  {
    PowMono(2, 1, j);
    PowersOfTwo();
    hide *;
    if j < m.db {
      OnesShort(j, m);
    } else if j == m.db {
      NoOnes(m);
      OnesTop(j, 0, m);
    } else {
      OnesDigits(j - m.db, m);
      OnesTop(j, j - m.db, m);
    }
  }

  lemma OnesTop(j: nat, k: nat, m: Machine)
    requires m.Valid() && j == k + m.db && Pow(2, k) >= 1
    requires var s := ToDigits(Pow(2, k) - 1, m.Radix()); |s| <= Masks(s, m.Radix()) + 1
    ensures Pow(2, j) >= 1
    ensures var s := ToDigits(Pow(2, j) - 1, m.Radix()); |s| <= Masks(s, m.Radix()) + 1 && Masks(s, m.Radix()) >= 1
  {
    hide Pow, Quo, Rem, ToDigits, Masks;
    OnesLow(j, m);
    MasksCons(m.Radix() - 1, ToDigits(Pow(2, k) - 1, m.Radix()), m.Radix());
  }

  lemma OnesShort(j: nat, m: Machine)
    requires m.Valid() && 1 <= j < m.db && Pow(2, j) >= 2
    ensures var s := ToDigits(Pow(2, j) - 1, m.Radix()); s == [Pow(2, j) - 1] && |s| <= Masks(s, m.Radix()) + 1
  {
    hide Pow, Quo, Rem;
    var b, v: nat := m.Radix(), Pow(2, j) - 1;
    PowStrict(2, j, m.db);
    QuoRemUnique(v, b, 0, v);
    assert ToDigits(0, b) == [];
    assert ToDigits(v, b) == [v] + [];
  }

  lemma NoOnes(m: Machine)
    requires m.Valid()
    ensures Pow(2, 0) == 1 && ToDigits(Pow(2, 0) - 1, m.Radix()) == [] && Masks([], m.Radix()) == 0
  {
    ValEmpty([], 2);
  }

  /** The mishandled moduli are exactly (2^j - 1) * 2^DIGIT_BIT with 2 <= j < DIGIT_BIT. */
  lemma MishandledShape(P: nat, m: Machine)
    requires m.Valid() && P > 0
    ensures Mishandled(P, m) <==> exists j: nat :: 2 <= j < m.db && P == (Pow(2, j) - 1) * m.Radix()
  {
    if Mishandled(P, m) {
      var j := CountBits(P) - m.db;
      ShapeForward(P, m);
      assert 2 <= j < m.db && P == (Pow(2, j) - 1) * m.Radix();
    }
    if j: nat :| 2 <= j < m.db && P == (Pow(2, j) - 1) * m.Radix() {
      ShapeBack(P, j, m);
    }
  }

  /** The digits of h * b are those of h behind a zero. */
  lemma DigitsOfShift(h: nat, b: nat)
    requires b >= 2 && h > 0
    ensures h * b > 0 && ToDigits(h * b, b) == [0] + ToDigits(h, b)
  {
    hide Quo, Rem;
    MulPos(h, b);
    QuoRemUnique(h * b, b, h, 0);
  }

  lemma ShapeForward(P: nat, m: Machine)
    requires m.Valid() && P > 0 && Mishandled(P, m)
    ensures var j := CountBits(P) - m.db; 2 <= j < m.db && P == (Pow(2, j) - 1) * m.Radix()
  {
    hide Pow, Quo, Rem, CountBits, ToDigits, Masks;
    var b, j := m.Radix(), CountBits(P) - m.db;
    QuoRemSpec(P, b);
    var h := Quo(P, b);
    assert P == h * b && h + 1 == Pow(2, j);
    OnesDigits(j, m);
    DigitsOfShift(h, b);
    MasksCons(0, ToDigits(h, b), b);
  }

  lemma ShapeBack(P: nat, j: nat, m: Machine)
    requires m.Valid() && 2 <= j < m.db && P == (Pow(2, j) - 1) * m.Radix()
    ensures Mishandled(P, m)
  {
    hide Pow, Quo, Rem, ToDigits, Masks;
    var b := m.Radix();
    PowMono(2, 2, j);
    PowersOfTwo();
    PowStrict(2, j, m.db);
    var h: nat := Pow(2, j) - 1;
    OnesDigits(j, m);
    DigitsOfShift(h, b);
    MasksSmall(h, b);
    QuoRemUnique(P, b, h, 0);
    assert CountBits(P) == j + m.db by {
      PowAdd(2, j, m.db);
      PowAdd(2, j - 1, m.db);
      PowDouble(j - 1);
      MulMono(Pow(2, j - 1), h, b);
      MulStrict(h, Pow(2, j), b);
      UsedUnique(P, j + m.db, 2);
    }
  }

  lemma MasksSmall(h: nat, b: nat)
    requires h != b - 1 && b > 1
    ensures Masks([0] + [h], b) == 0 && |[0] + [h]| == 2
  {
    MasksCons(0, [h], b);
    assert [h][..0] == [];
  }

  /** A concrete instance with 28-bit digits: P = 3 * 2^28, and the square of 2^15. */
  lemma MishandledExample(P: nat, G: nat, m: Machine)
    requires m.db == 28 && m.digitBits == 32 && m.wordBits == 64 && P == 0x3000_0000 && G == 0x8000
    ensures m.Valid() && Mishandled(P, m) && Vanishes(G, P) && PowMod(G, 2, P) == 0x1000_0000
  {
    hide ToDigits;
    PowersUpTo30();
    PowersOfTwo();
    ShapeBack(P, 2, m);
    assert CountBits(P) == 30 by { UsedUnique(P, 30, 2); }
    assert G % P == G;
    SquareIs(G);
    DivModUnique(G * G, 0x4000_0000, 1, 0);
  }

  lemma PowersUpTo30()
    ensures Pow(2, 28) == 0x1000_0000 && Pow(2, 29) == 0x2000_0000 && Pow(2, 30) == 0x4000_0000
  {
    assert Pow(2, 7) == 128;
    PowAdd(2, 7, 7);
    PowAdd(2, 14, 14);
    PowDouble(28);
    PowDouble(29);
  }
}
