/**
 * Where mp_exptmod goes wrong beyond the mishandled moduli: a base whose first product slips, and a word
 * that the Comba multiplier leaves uninitialised above its result.
 */
module ExptmodFaults {
  import opened Arith
  import opened Digits
  import opened MontgomerySetup
  import opened Window
  import opened Exptmod
  import Montgomery
  import Multiplication
  import ToomCook
  import ToomSlips
  import Invmod

  // ---- the first product ----

  /** Two, and so every power of the radix, has an inverse modulo an odd number. */
  lemma RadixPowerInverse(n: nat, P: nat, m: Machine) returns (inv: int)
    requires m.Valid() && P % 2 == 1
    ensures Cong(Pow(m.Radix(), n) * inv, 1, P)
  {
    var h := (P + 1) / 2;
    CongIntro(2 * h, 1, P, 1);
    hide Pow, Cong;
    var c := Pow(h, m.db);
    CongPow(2 * h, 1, m.db, P);
    PowDistributes(2, h, m.db);
    PowOne(m.db);
    CongPow(m.Radix() * c, 1, n, P);
    PowDistributes(m.Radix(), c, n);
    PowOne(n);
    inv := Pow(c, n);
  }

  /** A power of the radix times z is no multiple of an odd P unless z is. */
  lemma CancelRadix(z: int, n: nat, P: nat, m: Machine)
    requires m.Valid() && P % 2 == 1 && Cong(Pow(m.Radix(), n) * z, 0, P)
    ensures Cong(z, 0, P)
  {
    hide Pow, Cong;
    var inv := RadixPowerInverse(n, P, m);
    assert z * Pow(m.Radix(), n) == Pow(m.Radix(), n) * z && 0 * Pow(m.Radix(), n) == 0;
    Montgomery.CancelFactor(z, 0, Pow(m.Radix(), n), inv, P);
  }

  lemma SmallIsNoMultiple(z: int, P: nat)
    requires 0 < z < P
    ensures !Cong(z, 0, P)
  {
    hide Cong;
    if Cong(z, 0, P) { CongUnique(z, 0, P); }
  }

  /** A slip of the first product is no multiple of P, so the base slips exactly if the product does. */
  lemma SlippingExactly(G: int, P: nat, m: Machine)
    requires m.Valid() && P > 1 && P % 2 == 1 && ToomCook.Covered(G, Unit(P, m), m.Multipliers())
    ensures Slipping(G, P, m) <==> ToomCook.Slip(G, Unit(P, m), m.Multipliers()) > 0
  {
    var one, c := Unit(P, m), m.Multipliers();
    hide Cong, Pow, ToomCook.Slip, ToomCook.Covered, ToomCook.MulValue, Used, Unit;
    ToomCook.MulSlips(G, one, c);
    var t, s := G * one, ToomCook.Slip(G, one, c);
    CongRefl(t, P);
    if s > 0 {
      SlipIsNoMultiple(G, P, m);
      if Cong(t + s, t, P) { CongAdd(t + s, t, t, t, P); }
    }
  }

  lemma SlipIsNoMultiple(G: int, P: nat, m: Machine)
    requires m.Valid() && P > 1 && P % 2 == 1 && ToomCook.Slip(G, Unit(P, m), m.Multipliers()) > 0
    ensures !Cong(ToomCook.Slip(G, Unit(P, m), m.Multipliers()), 0, P)
  {
    hide Cong, Pow, ToomCook.Slip, Used, Unit;
    var one, c := Unit(P, m), m.Multipliers();
    ToomSlips.SlipShape(G, one, c);
    UsedBelow(one, P, m.Radix());
    WeightIsNoMultiple(ToomCook.Least(G, one, c) / 3, P, m);
  }

  lemma WeightIsNoMultiple(B: nat, P: nat, m: Machine)
    requires m.Valid() && P > 1 && P % 2 == 1 && 2 <= B && 3 * B <= Used(P, m.Radix())
    ensures var p := NatPow(m.Radix(), B); var q := NatMul(p, NatMul(p, p));
      !Cong(p, 0, P) && !Cong(q, 0, P) && !Cong(p + q, 0, P)
  {
    hide Cong, Pow, Used;
    var b, p := m.Radix(), NatPow(m.Radix(), B);
    ToomCook.ShiftWeights(B, b);
    SmallIsNoMultiple(1, P);
    SquareBelowModulus(B, P, b);
    SmallIsNoMultiple(1 + p * p, P);
    assert p + NatMul(p, NatMul(p, p)) == Pow(b, B) * (1 + p * p) by { MulDist(1, p * p, p); }
    if Cong(p, 0, P) { CancelRadix(1, B, P, m); }
    if Cong(NatMul(p, NatMul(p, p)), 0, P) { CancelRadix(1, 3 * B, P, m); }
    if Cong(p + NatMul(p, NatMul(p, p)), 0, P) { CancelRadix(1 + p * p, B, P, m); }
  }

  lemma SquareBelowModulus(B: nat, P: nat, b: nat)
    requires b >= 2 && P > 0 && 2 <= B && 3 * B <= Used(P, b)
    ensures 0 < 1 + NatPow(b, B) * NatPow(b, B) < P
  {
    hide Pow, Used;
    UsedBounds(P, b);
    PowAdd(b, B, B);
    PowPos(b, 2 * B);
    PowStep(b, 2 * B);
    PowMono(b, 2 * B + 1, Used(P, b) - 1);
    MulMono(2, b, Pow(b, 2 * B));
    PowStrict(b, 0, 2 * B);
    PowZeroIs(b);
  }

  lemma PowZeroIs(b: int)
    ensures Pow(b, 0) == 1
  {}

  // ---- a family of moduli and bases that slip ----

  function OneThird(b: nat): (t: nat)
    requires b >= 16
    ensures 5 <= t < b - 1 && (b % 3 == 1 ==> 3 * t == b - 1)
  {
    (b - 1) / 3
  }

  /** k digits (b-1)/3, the top one less by one: about b^k / 3. */
  function Thin(k: nat, b: nat): (P: nat)
    requires k >= 1 && b >= 16
  {
    if k == 1 then OneThird(b) - 1 else OneThird(b) + NatMul(b, Thin(k - 1, b))
  }

  lemma {:induction false} ThinValue(k: nat, b: nat)
    requires k >= 1 && b >= 16 && b % 3 == 1
    ensures 3 * Thin(k, b) + 1 + 3 * Pow(b, k - 1) == Pow(b, k)
  {
    if k == 1 {
      assert Pow(b, 0) == 1 && Pow(b, 1) == b;
    } else {
      ThinValue(k - 1, b);
      var q := Pow(b, k - 2);
      assert Pow(b, k - 1) == b * q && Pow(b, k) == b * Pow(b, k - 1);
      ThinStep(Thin(k - 1, b), q, Pow(b, k - 1), b);
    }
  }

  lemma ThinStep(P: nat, q: int, r: int, b: nat)
    requires b >= 16 && b % 3 == 1 && 3 * P + 1 + 3 * q == r && r == b * q
    ensures 3 * (OneThird(b) + NatMul(b, P)) + 1 + 3 * r == b * r
  {
    assert b * r == b * (3 * P) + b + b * (3 * q) by { MulDist(3 * P + 1, 3 * q, b); MulDist(3 * P, 1, b); }
    MulSwap(b, 3, P);
    MulSwap(b, 3, q);
  }

  /** Exactly k digits, none of them all ones, and odd with the last two bits 01. */
  lemma {:induction false} ThinDigits(k: nat, b: nat)
    requires k >= 1 && b >= 16 && b % 3 == 1 && b % 4 == 0
    ensures |ToDigits(Thin(k, b), b)| == k && Masks(ToDigits(Thin(k, b), b), b) == 0
    ensures k >= 2 ==> Thin(k, b) % 4 == 1 && Thin(k, b) > 3 && Quo(Thin(k, b), b) == Thin(k - 1, b)
  {
    hide Quo, Rem, ToDigits, Masks, OneThird, NatMul;
    var t := OneThird(b);
    if k == 1 {
      OneDigit(t - 1, b);
      MasksCons(t - 1, [], b);
      assert [t - 1] + [] == [t - 1];
      MasksOfNothing(b);
    } else {
      var h := Thin(k - 1, b);
      ThinDigits(k - 1, b);
      NextDigitUp(t, h, b);
      MasksCons(t, ToDigits(h, b), b);
      LastBits(b, h, t);
    }
  }

  lemma MasksOfNothing(b: nat)
    ensures Masks([], b) == 0
  {}

  lemma OneDigit(d: nat, b: nat)
    requires 0 < d < b
    ensures ToDigits(d, b) == [d]
  {
    hide Quo, Rem;
    QuoRemUnique(d, b, 0, d);
    assert ToDigits(0, b) == [];
    assert ToDigits(d, b) == [d] + [];
  }

  lemma NextDigitUp(d: nat, h: nat, b: nat)
    requires 0 < d < b
    ensures ToDigits(d + NatMul(b, h), b) == [d] + ToDigits(h, b) && Quo(d + NatMul(b, h), b) == h
  {
    hide Quo, Rem;
    QuoRemUnique(d + NatMul(b, h), b, h, d);
  }

  lemma LastBits(b: nat, h: nat, t: nat)
    requires b % 4 == 0 && b >= 16 && 3 * t == b - 1
    ensures (t + NatMul(b, h)) % 4 == 1 && t + NatMul(b, h) > 3
  {
    var c := b / 4;
    MulSwap(4, c, h);
    MulNonNeg(c, h);
    ModFour(t, c, c * h);
  }

  lemma ModFour(t: nat, c: nat, x: nat)
    requires 3 * t == 4 * c - 1 && c >= 4
    ensures (t + 4 * x) % 4 == 1 && t + 4 * x > 3
  {
    assert t + 4 * x == 4 * (t - c + x) + 1;
  }

  lemma {:induction false} EvenPowers(j: nat)
    requires j >= 1
    ensures Pow(2, 2 * j) % 3 == 1 && Pow(2, 2 * j) % 4 == 0
  {
    var p := Pow(2, 2 * j - 2);
    assert Pow(2, 2 * j) == 2 * Pow(2, 2 * j - 1) && Pow(2, 2 * j - 1) == 2 * p;
    if j > 1 {
      EvenPowers(j - 1);
      FourTimes(p);
    } else {
      assert Pow(2, 0) == 1;
    }
  }

  lemma FourTimes(p: int)
    requires p % 3 == 1
    ensures (4 * p) % 3 == 1 && (4 * p) % 4 == 0
  {
    assert 4 * p == 3 * (p + p / 3) + 1;
  }

  /** Such a modulus goes to Montgomery reduction. */
  lemma ThinIsMontgomery(k: nat, m: Machine)
    requires m.Valid() && m.db % 2 == 0 && k >= 3
    ensures ByMontgomery(Thin(k, m.Radix()), m) && Used(Thin(k, m.Radix()), m.Radix()) == k
  {
    hide Pow, ToDigits, Masks, Quo, ByMontgomery, Thin;
    var b := m.Radix();
    EvenPowers(m.db / 2);
    ThinDigits(k, b);
    ThinDigits(k - 1, b);
    GoesToMontgomery(Thin(k, b), Thin(k - 1, b), m);
  }

  lemma GoesToMontgomery(P: nat, h: nat, m: Machine)
    requires m.Valid() && P % 4 == 1 && Quo(P, m.Radix()) == h && h % 4 == 1 && h > 3
    requires |ToDigits(P, m.Radix())| >= 2 && Masks(ToDigits(P, m.Radix()), m.Radix()) == 0
    ensures ByMontgomery(P, m)
  {
    hide Pow, ToDigits, Masks, Quo, OnesAbove;
    NotAllOnes(P, h, m);
  }

  lemma NotAllOnes(P: nat, h: nat, m: Machine)
    requires m.Valid() && Quo(P, m.Radix()) == h && h % 4 == 1 && h > 3
    ensures !OnesAbove(P, m.db)
  {
    hide Pow, Quo, CountBits;
    if OnesAbove(P, m.db) {
      NoPowerOfTwo(h + 1, CountBits(P) - m.db);
    }
  }

  lemma NoPowerOfTwo(v: nat, e: nat)
    requires v % 4 == 2 && v > 2
    ensures v != Pow(2, e)
  {
    if e >= 2 { assert Pow(2, e) == 2 * Pow(2, e - 1) && Pow(2, e - 1) == 2 * Pow(2, e - 2); }
    if e == 1 { assert Pow(2, 1) == 2; }
    if e == 0 { assert Pow(2, 0) == 1; }
  }

  lemma ThinUnit(k: nat, m: Machine)
    requires m.Valid() && m.db % 2 == 0 && k >= 3
    ensures Thin(k, m.Radix()) > 1 && Unit(Thin(k, m.Radix()), m) == 3 * Pow(m.Radix(), k - 1) + 1
  {
    hide Pow, Used, Quo, Rem;
    var b, q := m.Radix(), Pow(m.Radix(), k - 1);
    EvenPowers(m.db / 2);
    ThinIsMontgomery(k, m);
    ThinValue(k, b);
    PowStep(b, k - 1);
    PowMono(b, 1, k - 1);
    PowPos(b, k - 1);
    PowOneIs(b);
    MulMono(16, b, q);
    hide Thin, ByMontgomery;
    QuoRemUnique(Pow(b, k), Thin(k, b), 3, 3 * q + 1);
  }

  lemma PowOneIs(b: int)
    ensures Pow(b, 1) == b
  {}

  /** -(b^(3B-1) + 1) modulo the thin number of 3B digits: the first product comes out b^B too large. */
  lemma ThinSlips(B: nat, m: Machine)
    requires m.Valid() && m.db % 2 == 0 && 117 <= B <= 348
    ensures Misstarted(0 - (Pow(m.Radix(), 3 * B - 1) + 1), Thin(3 * B, m.Radix()), m)
  {
    hide Pow, Used, Thin, ToomCook.MulValue, ToomCook.Slip, Cong, Unit, ByMontgomery;
    var b, P, c := m.Radix(), Thin(3 * B, m.Radix()), m.Multipliers();
    ThinIsMontgomery(3 * B, m);
    ThinUnit(3 * B, m);
    ThinSizes(B, b);
    var q: nat, h: nat := NatPow(b, 3 * B - 1), NatPow(b, B - 1);
    PowAdd(b, 2 * B, B - 1);
    MulSwap(Pow(b, 2 * B), 3, h);
    ToomSlips.SlippingProduct(q + 1, 3 * q + 1, h, 3 * h, B, c);
    ByMontgomeryOdd(P, m);
    SlippingExactly(0 - (q + 1), P, m);
  }

  lemma ByMontgomeryOdd(P: nat, m: Machine)
    requires m.Valid() && ByMontgomery(P, m)
    ensures P % 2 == 1
  {}

  lemma ThinSizes(B: nat, b: nat)
    requires b >= 16 && B >= 2
    ensures Used(NatPow(b, 3 * B - 1) + 1, b) == 3 * B && Used(3 * NatPow(b, 3 * B - 1) + 1, b) == 3 * B
    ensures Used(4 * NatPow(b, B - 1), b) == B
  {
    hide Used, Pow;
    PowStep(b, 3 * B - 1);
    PowStep(b, B - 1);
    PowPos(b, 3 * B - 1);
    PowPos(b, B - 1);
    MulMono(16, b, Pow(b, 3 * B - 1));
    MulMono(16, b, Pow(b, B - 1));
    UsedUnique(NatPow(b, 3 * B - 1) + 1, 3 * B, b);
    UsedUnique(3 * NatPow(b, 3 * B - 1) + 1, 3 * B, b);
    UsedUnique(4 * NatPow(b, B - 1), B, b);
  }

  /** mp_exptmod of that base to the power 1 is wrong. */
  method SlippingPower(B: nat, m: Machine) returns (G: int, P: nat, y: nat)
    requires m.Valid() && m.db % 2 == 0 && m.stray == 0 && 117 <= B <= 348
    ensures P == Thin(3 * B, m.Radix()) > 1 && G == 0 - (Pow(m.Radix(), 3 * B - 1) + 1)
    ensures y != PowMod(G, 1, P)
  {
    hide Pow, Thin, Misstarted, Mishandled, PowMod, ByMontgomery, Invmod.Coprime;
    P := Thin(3 * B, m.Radix());
    G := 0 - (NatPow(m.Radix(), 3 * B - 1) + 1);
    ThinSlips(B, m);
    ThinUnit(3 * B, m);
    var r := MpExptmod(G, 1, P, m);
    y := r.value;
  }

  // ---- the uninitialised word ----

  /** The word above the digits changes the residue that the baseline form works on unless it is zero. */
  lemma StrayExactly(x: nat, place: nat, junk: nat, P: nat, m: Machine)
    requires m.Valid() && P % 2 == 1 && junk < P
    ensures Cong(x + Leftover(place, junk, P, m), x, P) <==> Guarded(P, m) || junk == 0
  {
    hide Pow, Cong, Guarded;
    var l := Leftover(place, junk, P, m);
    CongRefl(x, P);
    if Cong(x + l, x, P) && !Guarded(P, m) && junk > 0 {
      CongAdd(x + l, x, x, x, P);
      CancelRadix(junk, place, P, m);
      SmallIsNoMultiple(junk, P);
    }
  }

  /** With 28-bit digits the thin modulus of 256 digits is one for which StrayCube applies. */
  lemma StrayHappens(m: Machine)
    requires m.db == 28 && m.digitBits == 32 && m.wordBits == 64
    ensures m.Valid()
    ensures var P := Thin(256, m.Radix());
      ByMontgomery(P, m) && !Guarded(P, m) && Used(P, m.Radix()) == 256 && 256 + 2 < m.WArray()
  {
    assert m.Valid();
    assert Pow(2, 8) == 256 && Pow(2, 9) == 512;
    hide Pow, ByMontgomery, Used, Thin;
    ThinIsMontgomery(256, m);
  }

  /** A base that Montgomery form turns into 1. */
  lemma StrayBase(P: nat, m: Machine) returns (G: nat)
    requires m.Valid() && P > 1 && P % 2 == 1
    ensures G < P && Cong(G * Unit(P, m), 1, P)
  {
    hide Pow, Cong, Used;
    var R, one := Pow(m.Radix(), Used(P, m.Radix())), Unit(P, m);
    var inv := RadixPowerInverse(Used(P, m.Radix()), P, m);
    G := NatRem(inv, P);
    CongMod(inv, P);
    CongMul(G, inv, one, R, P);
    CongTrans(G * one, inv * R, 1, P);
  }

  /**
   * The cube of such a base beyond the guard, step by step as mp_exptmod_fast computes it: M[3] = M[2] * 1 runs
   * through Comba, and the baseline reduction takes the word `junk` above the product for a digit. Any
   * digit but zero spoils the result, even if every other such word is zero.
   */
  method StrayCube(G: nat, P: nat, junk: nat, m: Machine) returns (y: nat)
    requires m.Valid() && m.stray == 0 && P > 1 && P % 2 == 1 && Cong(G * Unit(P, m), 1, P)
    requires !Guarded(P, m) && 3 <= Used(P, m.Radix()) && Used(P, m.Radix()) + 2 < m.WArray() && 0 < junk < m.Radix()
    ensures y != PowMod(G, 3, P)
  {
    hide Pow, Cong, Fits, Guarded, Unit, PowMod, Used, Stray, Rep, Factor;
    var rho, one := MontgomeryInit(P, m);
    var red := Reducer.Montgomery(rho);
    var M2, M3 := StrayTable(G, P, junk, one, rho, m);
    var res := SquareTimes(one, 2, red, P, m, 0, G);
    RepBelow(res, 0, G, red, P, m);
    var last := MontgomeryProduct(res, M3, 0, rho, P, m);
    assert last < P * P by { MulMono(1, P, P); }
    y := Redux(red, last, P, m);
    StraySpoils(G, 1, M2, M3, res, last, y, junk, red, P, m);
  }

  method MontgomeryInit(P: nat, m: Machine) returns (rho: nat, one: nat)
    requires m.Valid() && P > 1 && P % 2 == 1 && TailClean(P, m)
    ensures Fits(Reducer.Montgomery(rho), P, m) && one == Unit(P, m)
  {
    var setup := Setup(P, m.db, m.digitBits);
    rho := setup.value;
    one := CalcNormalization(P, m.db);
    UnitIs(one, P, m);
  }

  /** The table entries 2 and 3; entry 1 is 1. */
  method StrayTable(G: nat, P: nat, junk: nat, one: nat, rho: nat, m: Machine) returns (M2: nat, M3: nat)
    requires m.Valid() && P > 1 && one == Unit(P, m) && Fits(Reducer.Montgomery(rho), P, m) && Cong(G * one, 1, P)
    requires !Guarded(P, m) && 3 <= Used(P, m.Radix()) && Used(P, m.Radix()) + 2 < m.WArray() && 0 < junk < m.Radix()
    ensures var red := Reducer.Montgomery(rho);
      && Rep(1, 1, G, red, P, m) && Rep(one, 0, G, red, P, m) && Rep(M2, 2, G, red, P, m) && M3 < P
      && Cong(M3 * Factor(red, P, m), M2 * 1 + NatMul(junk, NatPow(m.Radix(), Used(M2, m.Radix()) + 1)), P)
  {
    hide Pow, Cong, Fits, Rem, ToDigits, Guarded, Unit, PowMod, Used, Stray, Rep, Factor, ToomCook.MulValue, ToomCook.Sound, ToomCook.Slip, ToomCook.Covered;
    var red := Reducer.Montgomery(rho);
    ToomCook.MulExact(G, one, m.Multipliers());
    var t := Multiplication.Mul(G, one, m.Multipliers());
    var M1: nat := Mod(t, P, m.db);
    FirstIsOne(M1, G, one, red, P, m);
    M2 := Square(M1, red, P, m, 1, G);
    RepBelow(M2, 2, G, red, P, m);
    StrayRoom(M2, P, junk, m);
    M3 := MontgomeryProduct(M2, M1, junk, rho, P, m);
  }

  lemma RepBelow(v: nat, e: nat, g: int, red: Reducer, P: nat, m: Machine)
    requires m.Valid() && Rep(v, e, g, red, P, m) && red.Montgomery?
    ensures v < P && Cong(v, Pow(g, e) * Factor(red, P, m), P)
  {}

  lemma FirstIsOne(M1: nat, G: nat, one: nat, red: Reducer, P: nat, m: Machine)
    requires m.Valid() && P > 1 && red.Montgomery? && one == Unit(P, m) && Cong(G * one, 1, P) && M1 == (G * one) % P
    ensures M1 == 1 && Rep(M1, 1, G, red, P, m) && Rep(one, 0, G, red, P, m)
  {
    assert Pow(G, 1) == G && Pow(G, 0) == 1;
    hide Pow, Cong, Used, Unit;
    CongSym(G * one, 1, P);
    CongToMod(1, G * one, P);
    CongScale(G, one, Factor(red, P, m), P);
    CongTrans(1, G * one, G * Factor(red, P, m), P);
  }

  /** The product by 1 is short enough for Comba and for the reduction that follows. */
  lemma StrayRoom(v: nat, P: nat, junk: nat, m: Machine)
    requires m.Valid() && v < P && !Guarded(P, m) && 3 <= Used(P, m.Radix()) && Used(P, m.Radix()) + 2 < m.WArray()
    ensures Used(1, m.Radix()) == 1 && Used(v, m.Radix()) + 3 <= 2 * Used(P, m.Radix())
    ensures Stray(v, 1, junk, P, m) == NatMul(junk, NatPow(m.Radix(), Used(v, m.Radix()) + 1))
  {
    hide Used, Guarded;
    var b := m.Radix();
    OneIsOneDigit(b);
    UsedBelow(v, P, b);
    var l, q := ToomCook.Least(v, 1, m.Multipliers()), b * b;
    MulNonNeg(b, b);
    MulMono(l, 1, q);
    assert ToomCook.Sound(m.Multipliers());
  }

  lemma StraySpoils(G: int, M1: nat, M2: nat, M3: nat, res: nat, last: nat, y: nat, junk: nat, red: Reducer, P: nat, m: Machine)
    requires m.Valid() && P > 1 && P % 2 == 1 && Fits(red, P, m) && red.Montgomery? && M1 == 1 && 0 < junk < m.Radix() && Used(P, m.Radix()) >= 3
    requires Rep(M1, 1, G, red, P, m) && Rep(M2, 2, G, red, P, m) && Rep(res, 0, G, red, P, m)
    requires var R := Factor(red, P, m);
      && Cong(M3 * R, M2 * M1 + NatMul(junk, NatPow(m.Radix(), Used(M2, m.Radix()) + 1)), P)
      && Cong(last * R, res * M3, P) && Cong(y * R, last, P)
    ensures y != PowMod(G, 3, P)
  {
    var R := Factor(red, P, m);
    var inv := FactorInverse(red, P, m);
    var n, A := Used(M2, m.Radix()) + 1, Pow(G, 3);
    assert Pow(G, 1) == G && Pow(G, 0) == 1 && A == G * Pow(G, 2);
    CongMod(A, P);
    hide Pow, Cong, Fits, Factor, Used;
    if y == PowMod(G, 3, P) {
      Unravelled(A, Pow(G, 2), G, R, M1, M2, M3, res, last, y, NatMul(junk, NatPow(m.Radix(), n)), P);
      CancelRadix(junk, n, P, m);
      RadixBelow(P, m.Radix());
      SmallIsNoMultiple(junk, P);
    }
  }

  lemma RadixBelow(P: nat, b: nat)
    requires b >= 2 && Used(P, b) >= 3
    ensures b < P
  {
    UsedBounds(P, b);
    assert Pow(b, 1) == b;
    hide Pow, Used;
    PowStrict(b, 1, Used(P, b) - 1);
  }

  /** If the cube came out right, the leftover would be a multiple of P. */
  lemma Unravelled(A: int, S: int, G: int, R: int, M1: int, M2: int, M3: int, res: int, last: int, y: int, left: int, P: int)
    requires A == G * S && Cong(y, A, P) && Cong(M1, G * R, P) && Cong(M2, S * R, P) && Cong(res, 1 * R, P)
    requires Cong(M3 * R, M2 * M1 + left, P) && Cong(last * R, res * M3, P) && Cong(y * R, last, P)
    ensures Cong(left, 0, P)
  {
    hide Cong;
    var target := (A * R) * R;
    assert Cong(last * R, target, P) by {
      CongSym(y * R, last, P);
      CongScale(R, y, A, P);
      CongTrans(last, y * R, A * R, P);
      CongScale(R, last, A * R, P);
    }
    assert Cong(M3 * R, target, P) by {
      CongScale(M3, res, R, P);
      CongTrans(last * R, res * M3, R * M3, P);
      CongSym(last * R, R * M3, P);
      CongTrans(M3 * R, last * R, target, P);
    }
    assert Cong(M2 * M1, target, P) by {
      CongMul(M2, S * R, M1, G * R, P);
      MulShuffle(S, R, G, R);
      MulSwap(A, R, R);
    }
    CongSym(M3 * R, M2 * M1 + left, P);
    CongTrans(M2 * M1 + left, M3 * R, target, P);
    CongAdd(M2 * M1 + left, target, M2 * M1, target, P);
  }
}
