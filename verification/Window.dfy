/**
 * The sliding-window exponentiation machine shared by bn_mp_exptmod_fast.c and
 * bn_s_mp_exptmod.c, over any of the library's reduction routines.
 */
module Window {
  import opened Arith
  import opened Digits
  import opened Magnitude
  import opened MontgomerySetup
  import Montgomery
  import FastMontgomery
  import Barrett
  import SpecialReduction
  import ToomCook
  import Multiplication
  import Squaring

  /** Machine parameters: DIGIT_BIT, bits of mp_digit, bits of mp_word, and the most that an uninitialised word holds. */
  datatype Machine = Machine(db: nat, digitBits: nat, wordBits: nat, stray: nat) {
    predicate Valid() {
      digitBits in {16, 32, 64} && 4 <= db < digitBits && 2 * db < wordBits
    }

    /** The radix 2^DIGIT_BIT. */
    function Radix(): (b: nat)
      requires Valid()
      ensures b == Pow(2, db) && b >= 16 && b % 2 == 0
    {
      PowMono(2, 4, db);
      assert Pow(2, 4) == 16;
      assert Pow(2, db) == 2 * Pow(2, db - 1);
      Pow(2, db)
    }

    /** MP_WARRAY */
    function WArray(): (n: nat)
      requires Valid()
    {
      NatPow(2, wordBits - 2 * db + 1)
    }

    /** The multipliers with the cutoffs of bncore.c. */
    function Multipliers(): (c: ToomCook.Config)
      requires Valid()
      ensures ToomCook.Sound(c)
    {
      PowAdd(2, db, db);
      PowMono(2, 2 * db + 1, wordBits);
      PowDouble(2 * db);
      ToomCook.Config(Radix(), NatPow(2, wordBits), WArray(), 80, 350, 120, 400)
    }
  }

  /** How a product is brought back below the modulus. */
  datatype Reducer =
    | Montgomery(rho: nat)
    | Barrett(mu: nat)
    | TwoK(d: nat)

  /** The test of mp_montgomery_reduce that leads to the Comba form, which reads no digit above `used`. */
  predicate Guarded(P: nat, m: Machine)
    requires m.Valid()
  {
    var b, k := m.Radix(), Used(P, m.Radix());
    2 * k + 1 < m.WArray() && k * (b * b) < NatPow(2, m.wordBits)
  }

  /**
   * The constant belongs to the modulus, as the setup routines compute it; and the baseline Montgomery form,
   * which reads a word that the Comba multiplier leaves uninitialised, finds a zero there.
   */
  ghost predicate Fits(red: Reducer, P: nat, m: Machine)
    requires m.Valid()
  {
    P > 0 &&
    match red
    case Montgomery(rho) => P > 1 && P % 2 == 1 && rho < m.Radix() && Rem(rho * Rem(P, m.Radix()) + 1, m.Radix()) == 0
                            && (Guarded(P, m) || m.stray == 0)
    case Barrett(mu) => P > 1 && mu == Barrett.Reciprocal(P, m.Radix())
    case TwoK(d) => P + d <= Pow(2, CountBits(P))
  }

  /**
   * The reducer computes residues. Only the two-power folding can be handed a wrong constant, and
   * a zero constant is harmless for a power of two.
   */
  predicate Sound(red: Reducer, P: nat) {
    red.TwoK? ==> P + red.d == Pow(2, CountBits(P)) || (red.d == 0 && 2 * P == Pow(2, CountBits(P)))
  }

  /** The factor R that a reduction divides out. */
  function Factor(red: Reducer, P: nat, m: Machine): (R: nat)
    requires m.Valid()
    ensures R >= 1
  {
    if red.Montgomery? then PowPos(m.Radix(), Used(P, m.Radix())); Pow(m.Radix(), Used(P, m.Radix())) else 1
  }

  /** redux(x, P, ...) for a product of two residues. */
  method Redux(red: Reducer, x: nat, P: nat, m: Machine) returns (y: nat)
    requires m.Valid() && Fits(red, P, m) && (x < P * P || red.TwoK?)
    ensures y < P
    ensures Sound(red, P) ==> Cong(y * Factor(red, P, m), x, P)
    ensures red.TwoK? && red.d == 0 ==> y == SpecialReduction.Folded(x, P)
  {
    hide Pow, Cong, Rem, Quo, ToDigits;
    var b := m.Radix();
    match red {
      case Montgomery(rho) =>
        UsedOfProduct(x, P, b);
        y := MontgomeryRedux(x, Used(x, b), 0, P, rho, m);
      case Barrett(mu) =>
        var ww := NatPow(2, m.wordBits);
        PowPos(2, m.wordBits);
        ghost var backoffs;
        y, backoffs := Barrett.Reduce(x, P, mu, b, ww, m.WArray());
        PlainResidue(y, x, P);
      case TwoK(d) =>
        y := SpecialReduction.Reduce2k(x, P, d);
        if Sound(red, P) {
          if P + d != Pow(2, CountBits(P)) { SpecialReduction.FoldedPower(x, P); }
          PlainResidue(y, x, P);
        }
    }
  }

  lemma PlainResidue(y: int, x: int, P: int)
    requires P > 0 && y == x % P
    ensures Cong(y * 1, x, P)
  {
    CongMod(x, P);
  }

  /**
   * mp_montgomery_reduce with its guard, on the digits of x in a grown buffer with a word left over at `place`.
   * The Comba form does not read that word, the baseline form takes it for a digit.
   */
  method MontgomeryRedux(x: nat, place: nat, junk: nat, P: nat, rho: nat, m: Machine) returns (y: nat)
    requires m.Valid() && Fits(Montgomery(rho), P, m) && x < P * P
    requires Used(x, m.Radix()) <= place <= 2 * Used(P, m.Radix())
    requires junk > 0 && !Guarded(P, m) ==> junk < m.Radix() && place + 2 <= 2 * Used(P, m.Radix())
    ensures y < P && Cong(y * Pow(m.Radix(), Used(P, m.Radix())), x + Leftover(place, junk, P, m), P)
  {
    hide Pow, Cong, Rem, Quo, ToDigits, Val, MachineDigit, Montgomery.Setup;
    var b := m.Radix();
    var n := ToDigits(P, b);
    var k := |n|;
    var dw: nat, ww: nat := NatPow(2, m.digitBits), NatPow(2, m.wordBits);
    SetupHolds(P, rho, m);
    WordSizesFit(m);
    ToDigitsVal(P, b);
    var buf, used := Grow(x, place, junk, P, b);
    if 2 * k + 1 < m.WArray() && k * (b * b) < ww {
      GuardGivesRoom(k, b, m);
      FastMontgomery.FastMontgomeryReduce(buf, used, n, rho, b, dw, ww, m.WArray());
      y := Val(buf[..k + 1], b);
    } else {
      LeftoverFits(x, place, junk, P, b);
      Montgomery.MontgomeryReduce(buf, n, rho, b, dw);
      y := Val(buf[..], b);
    }
  }

  /** What the word above the digits adds to the number that is reduced. */
  function Leftover(place: nat, junk: nat, P: nat, m: Machine): (r: nat)
    requires m.Valid()
    ensures junk == 0 || Guarded(P, m) ==> r == 0
  {
    if Guarded(P, m) then 0 else NatMul(junk, NatPow(m.Radix(), place))
  }

  lemma LeftoverFits(x: nat, place: nat, junk: nat, P: nat, b: nat)
    requires b >= 2 && P > 1 && x < P * P && Used(x, b) <= place
    requires junk > 0 ==> junk < b && place + 2 <= 2 * Used(P, b)
    ensures x + NatMul(junk, NatPow(b, place)) < P * Pow(b, Used(P, b))
  {
    hide Pow, ToDigits;
    var k, q := Used(P, b), NatPow(b, place);
    UsedBounds(P, b);
    if junk == 0 {
      MulStrict(P, Pow(b, k), P);
    } else {
      UsedBounds(x, b);
      PowMono(b, Used(x, b), place);
      PowStep(b, place);
      MulMono(junk + 1, b, q);
      MulDist(junk, 1, q);
      PowMono(b, place + 1, (k - 1) + k);
      PowAdd(b, k - 1, k);
      MulMono(Pow(b, k - 1), P, Pow(b, k));
    }
  }

  lemma SetupHolds(P: nat, rho: nat, m: Machine)
    requires m.Valid() && Fits(Montgomery(rho), P, m)
    ensures Montgomery.Setup(ToDigits(P, m.Radix()), rho, m.Radix())
  {
    hide Pow, Rem, Quo, Val;
    var b := m.Radix();
    var n := ToDigits(P, b);
    ToDigitsVal(P, b);
    assert n[0] == Rem(P, b);
  }

  lemma WordSizesFit(m: Machine)
    requires m.Valid()
    ensures MachineDigit(m.Radix(), Pow(2, m.digitBits)) && Pow(2, m.wordBits) > 0
  {
    hide Pow;
    var b := m.Radix();
    PowPos(2, m.digitBits);
    PowPos(2, m.wordBits);
    var c := Pow(2, m.digitBits - m.db - 1);
    PowAdd(2, m.digitBits - m.db - 1, m.db + 1);
    PowAdd(2, 1, m.db);
    PowersOfTwo();
    DivModUnique(Pow(2, m.digitBits), 2 * b, c, 0);
  }

  /** k * b^2 < 2^wordBits leaves room for one more product, because b^2 divides the word size. */
  lemma GuardGivesRoom(k: nat, b: nat, m: Machine)
    requires m.Valid() && b == m.Radix() && k * (b * b) < Pow(2, m.wordBits)
    ensures (k + 1) * (b * b) <= Pow(2, m.wordBits)
  {
    hide Pow;
    var c := Pow(2, m.wordBits - 2 * m.db);
    PowAdd(2, m.wordBits - 2 * m.db, 2 * m.db);
    PowAdd(2, m.db, m.db);
    assert Pow(2, m.wordBits) == c * (b * b);
    MulCancelLt(k, c, b * b);
    MulMono(k + 1, c, b * b);
  }

  /** The digits of x in a buffer of 2k + 1, zeros above them but for one word. */
  method Grow(x: nat, place: nat, junk: nat, P: nat, b: nat) returns (buf: array<nat>, used: nat)
    requires b >= 2 && P > 1 && x < P * P && Used(x, b) <= place <= 2 * Used(P, b)
    ensures fresh(buf) && buf.Length == 2 * Used(P, b) + 1 && used <= place
    ensures IsDigits(buf[..used], b) && Val(buf[..used], b) == x < Val(ToDigits(P, b), b) * Pow(b, Used(P, b))
    ensures junk < b ==> IsDigits(buf[..], b) && Val(buf[..], b) == x + NatMul(junk, NatPow(b, place))
  {
    hide Pow, ToDigits, Val;
    var k, xs := Used(P, b), ToDigits(x, b);
    used := |xs|;
    UsedBounds(P, b);
    MulStrict(P, Pow(b, k), P);
    buf := new nat[2 * k + 1](i => if 0 <= i < |xs| then xs[i] else 0);
    ToDigitsVal(x, b);
    ToDigitsVal(P, b);
    ghost var clean := buf[..];
    ValTrim(clean, used, b);
    assert clean[..used] == xs;
    buf[place] := junk;
    assert buf[..] == clean[place := junk] && buf[..used] == xs;
    ValUpdate(clean, place, junk, b);
  }

  lemma UsedOfProduct(x: nat, P: nat, b: nat)
    requires b >= 2 && P > 0 && x < P * P
    ensures Used(x, b) <= 2 * Used(P, b)
  {
    hide Pow, Used;
    var k := Used(P, b);
    UsedBounds(P, b);
    MulStrict(P, Pow(b, k), P);
    MulStrict(P, Pow(b, k), Pow(b, k));
    PowAdd(b, k, k);
    UsedAtMost(x, 2 * k, b);
  }

  // ---- residues of powers in the reducer's representation ----

  /**
   * v stands for g^e: v = g^e * R (mod P). It is below P, except that the start value 1 is not
   * when P is 1.
   */
  ghost predicate Rep(v: nat, e: nat, g: int, red: Reducer, P: nat, m: Machine)
    requires m.Valid()
  {
    (v < P || (P == 1 && red.TwoK? && e == 0 && v == 1))
    && (Sound(red, P) ==> Cong(v, Pow(g, e) * Factor(red, P, m), P))
  }

  lemma FactorInverse(red: Reducer, P: nat, m: Machine) returns (inv: int)
    requires m.Valid() && Fits(red, P, m)
    ensures Cong(Factor(red, P, m) * inv, 1, P)
  {
    hide Pow, Cong, Rem, ToDigits, Val, Montgomery.Setup;
    if red.Montgomery? {
      var b := m.Radix();
      var n := ToDigits(P, b);
      SetupHolds(P, red.rho, m);
      ToDigitsVal(P, b);
      var c := Montgomery.RadixInverse(n, red.rho, b);
      inv := Pow(c, |n|);
      CongPow(b * c, 1, |n|, P);
      PowDistributes(b, c, |n|);
      PowOne(|n|);
    } else {
      inv := 1;
      CongRefl(1, P);
    }
  }

  /** Reducing the product of two representatives represents the product of the powers. */
  lemma RepMul(u: nat, e: nat, v: nat, f: nat, y: nat, g: int, red: Reducer, P: nat, m: Machine)
    requires m.Valid() && Fits(red, P, m) && Rep(u, e, g, red, P, m) && Rep(v, f, g, red, P, m) && y < P
    requires Sound(red, P) ==> Cong(y * Factor(red, P, m), u * v, P)
    ensures Rep(y, e + f, g, red, P, m)
  {
    hide Pow, Cong, Factor, Fits, Sound;
    if Sound(red, P) {
      var R, a, c := Factor(red, P, m), Pow(g, e), Pow(g, f);
      var inv := FactorInverse(red, P, m);
      CongMul(u, a * R, v, c * R, P);
      CongTrans(y * R, u * v, (a * R) * (c * R), P);
      assert (a * R) * (c * R) == (Pow(g, e + f) * R) * R by {
        PowAdd(g, e, f);
        MulShuffle(a, R, c, R);
        MulSwap(a * c, R, R);
      }
      Montgomery.CancelFactor(y, Pow(g, e + f) * R, R, inv, P);
    }
  }

  /** mp_mul followed by redux. */
  method Multiply(u: nat, v: nat, red: Reducer, P: nat, m: Machine, ghost e: nat, ghost f: nat, ghost g: int) returns (y: nat)
    requires m.Valid() && Fits(red, P, m) && Rep(u, e, g, red, P, m) && Rep(v, f, g, red, P, m)
    ensures Rep(y, e + f, g, red, P, m)
    ensures red.TwoK? && red.d == 0 ==> u * v >= 0 && y == SpecialReduction.Folded(u * v, P)
  {
    hide Pow, Cong, Sound, ToomCook.Sound, ToomCook.Slip, ToomCook.Covered, ToomCook.MulValue, Used;
    if red.Montgomery? {
      var junk: nat :| junk <= m.stray;
      y := MontgomeryProduct(u, v, junk, red.rho, P, m);
    } else {
      ProductBelow(u, v, P);
      ToomCook.MulExact(u, v, m.Multipliers());
      var x := Multiplication.Mul(u, v, m.Multipliers());
      y := Redux(red, x, P, m);
    }
    hide Factor, Fits;
    RepMul(u, e, v, f, y, g, red, P, m);
  }

  /** The word that fast_s_mp_mul_digs copies from above its columns, as the reduction that follows sees it. */
  function Stray(u: nat, v: nat, junk: nat, P: nat, m: Machine): (r: nat)
    requires m.Valid()
    ensures junk == 0 || Guarded(P, m) ==> r == 0
  {
    if Multiplication.ByComba(u, v, m.Multipliers()) then Leftover(Used(u, m.Radix()) + Used(v, m.Radix()), junk, P, m) else 0
  }

  /** mp_mul and mp_montgomery_reduce, with `junk` in the uninitialised word. */
  method MontgomeryProduct(u: nat, v: nat, junk: nat, rho: nat, P: nat, m: Machine) returns (y: nat)
    requires m.Valid() && Fits(Montgomery(rho), P, m) && u < P && v < P
    requires junk > 0 && !Guarded(P, m) ==> junk < m.Radix() && Used(u, m.Radix()) + Used(v, m.Radix()) + 2 <= 2 * Used(P, m.Radix())
    ensures y < P && Cong(y * Factor(Montgomery(rho), P, m), u * v + Stray(u, v, junk, P, m), P)
  {
    hide Pow, Cong, Fits, ToomCook.Sound, ToomCook.Slip, ToomCook.Covered, ToomCook.MulValue, Used, Leftover;
    ProductBelow(u, v, P);
    ToomCook.MulExact(u, v, m.Multipliers());
    PlaceOfProduct(u, v, P, m.Radix());
    var x := Multiplication.Mul(u, v, m.Multipliers());
    var word := if Multiplication.ByComba(u, v, m.Multipliers()) then junk else 0;
    y := MontgomeryRedux(x, Used(u, m.Radix()) + Used(v, m.Radix()), word, P, rho, m);
  }

  lemma PlaceOfProduct(u: nat, v: nat, P: nat, b: nat)
    requires b >= 2 && u < P && v < P
    ensures u * v >= 0 && Used(u * v, b) <= Used(u, b) + Used(v, b) <= 2 * Used(P, b)
  {
    hide Pow, Used;
    UsedBounds(u, b);
    UsedBounds(v, b);
    UsedBounds(P, b);
    UsedAtMost(u, Used(P, b), b);
    UsedAtMost(v, Used(P, b), b);
    var i, j := Used(u, b), Used(v, b);
    PowPos(b, i);
    MulNonNeg(u, v);
    MulMono(u, Pow(b, i), v);
    MulStrict(v, Pow(b, j), Pow(b, i));
    PowAdd(b, i, j);
    UsedAtMost(u * v, i + j, b);
  }

  /** mp_sqr followed by redux. */
  method Square(u: nat, red: Reducer, P: nat, m: Machine, ghost e: nat, ghost g: int) returns (y: nat)
    requires m.Valid() && Fits(red, P, m) && Rep(u, e, g, red, P, m)
    ensures Rep(y, e + e, g, red, P, m)
    ensures red.TwoK? && red.d == 0 ==> u * u >= 0 && y == SpecialReduction.Folded(u * u, P)
  {
    hide Pow, Cong, Factor, Fits, Sound, ToomCook.Sound, Used;
    ProductBelow(u, u, P);
    var x := Squaring.MpSqr(u, m.Multipliers());
    y := Redux(red, x, P, m);
    RepMul(u, e, u, e, y, g, red, P, m);
  }

  lemma ProductBelow(u: nat, v: nat, P: int)
    ensures u * v >= 0
    ensures u < P && v < P ==> u * v < P * P
  {
    MulNonNeg(u, v);
    if u < P && v < P {
      MulMono2(u, P - 1, v, P - 1);
      assert (P - 1) * (P - 1) < P * P;
    }
  }

  method SquareTimes(v: nat, times: nat, red: Reducer, P: nat, m: Machine, ghost e: nat, ghost g: int) returns (y: nat)
    requires m.Valid() && Fits(red, P, m) && Rep(v, e, g, red, P, m)
    ensures e * Pow(2, times) >= 0 && Rep(y, e * Pow(2, times), g, red, P, m)
    ensures times == 1 && red.TwoK? && red.d == 0 ==> v * v >= 0 && y == SpecialReduction.Folded(v * v, P)
  {
    assert P > 0;
    hide Pow, Rep, Fits;
    y := v;
    ValEmpty([], 2);
    ghost var f: nat := e;
    for x := 0 to times
      invariant f == e * Pow(2, x) && Rep(y, f, g, red, P, m)
      invariant x == 0 ==> y == v
      invariant x == 1 && red.TwoK? && red.d == 0 ==> v * v >= 0 && y == SpecialReduction.Folded(v * v, P)
    {
      DoubleExponent(e, x);
      y := Square(y, red, P, m, f, g);
      f := f + f;
    }
  }

  lemma DoubleExponent(e: nat, x: nat)
    ensures e * Pow(2, x + 1) == e * Pow(2, x) + e * Pow(2, x)
  {
    assert Pow(2, x + 1) == 2 * Pow(2, x);
  }

  // ---- the table ----

  /** Window size by the bit length of the exponent (lines 44-59). */
  function WindowSize(bits: nat): (w: nat)
    ensures 2 <= w <= 8
  {
    if bits <= 7 then 2 else if bits <= 36 then 3 else if bits <= 140 then 4 else if bits <= 450 then 5
    else if bits <= 1303 then 6 else if bits <= 3529 then 7 else 8
  }

  /** Entry 1 and the upper half of the table hold the powers they are named by. */
  ghost predicate Table(M: seq<nat>, w: nat, g: int, red: Reducer, P: nat, m: Machine)
    requires m.Valid()
  {
    2 <= w <= 8 && |M| == 256 && Pow(2, w) <= 256 && Rep(M[1], 1, g, red, P, m)
    && forall j: nat {:trigger M[j]} :: Pow(2, w - 1) <= j < Pow(2, w) ==> Rep(M[j], j, g, red, P, m)
  }

  lemma TableSize(w: nat)
    requires 2 <= w <= 8
    ensures 2 <= Pow(2, w - 1) && Pow(2, w) == 2 * Pow(2, w - 1) && Pow(2, w) <= 256
    ensures w == 2 ==> Pow(2, w - 1) == 2
  {
    PowMono(2, 1, w - 1);
    PowMono(2, w, 8);
    assert Pow(2, 8) == 256;
  }

  /** Lines 166-195: M[2^(w-1)] by squaring, the rest of the upper half by multiplying. */
  method BuildTable(M1: nat, w: nat, red: Reducer, P: nat, m: Machine, ghost g: int) returns (M: array<nat>)
    requires m.Valid() && Fits(red, P, m) && 2 <= w <= 8 && Rep(M1, 1, g, red, P, m)
    ensures fresh(M) && Table(M[..], w, g, red, P, m)
    ensures w == 2 && red.TwoK? && red.d == 0 ==> M1 * M1 >= 0 && M[2] == SpecialReduction.Folded(M1 * M1, P)
  {
    hide Pow, Rep, Fits;
    M := new nat[256](_ => 0);
    TableSize(w);
    var half: nat, full: nat := NatPow(2, w - 1), NatPow(2, w);
    M[1] := M1;
    var t := SquareTimes(M1, w - 1, red, P, m, 1, g);
    M[half] := t;
    var x := half + 1;
    while x < full
      invariant half + 1 <= x <= full
      invariant M[1] == M1 && M[half] == t
      invariant forall j: nat {:trigger M[j]} :: half <= j < x ==> Rep(M[j], j, g, red, P, m)
    {
      M[x] := Multiply(M[x - 1], M[1], red, P, m, x - 1, 1, g);
      x := x + 1;
    }
  }

  // ---- the bits of the exponent ----

  /**
   * k whole digits and c bits of the digit in buf are still unread; N is the number made of the
   * bits read so far.
   */
  ghost predicate Feed(X: seq<nat>, k: nat, c: nat, low: nat, buf: nat, N: nat, m: Machine)
    requires m.Valid()
  {
    k <= |X| && c <= m.db && low < Pow(2, c)
    && Val(X[k..], m.Radix()) == N * Pow(2, c) + low
    && Rem(buf, m.Radix()) == low * Pow(2, m.db - c)
  }

  lemma FeedStart(X: seq<nat>, m: Machine)
    requires m.Valid()
    ensures Feed(X, |X|, 0, 0, 0, 0, m)
  {
    ValEmpty(X[|X|..], m.Radix());
    DivModUnique(0, m.Radix(), 0, 0);
  }

  /** Lines 207-216: an exhausted digit is replaced by the next lower one. */
  lemma FeedDigit(X: seq<nat>, k: nat, low: nat, buf: nat, N: nat, m: Machine)
    requires m.Valid() && k > 0 && IsDigits(X, m.Radix()) && Feed(X, k, 0, low, buf, N, m)
    ensures Feed(X, k - 1, m.db, X[k - 1], X[k - 1], N, m)
  {
    hide Val, Pow, Rem;
    var b := m.Radix();
    ValHead(X[k - 1..], b);
    assert X[k - 1..][1..] == X[k..];
    assert Rem(X[k - 1], b) == X[k - 1] by { RemSmall(X[k - 1], b); }
    ValEmpty([], 2);
    assert low == 0 && Val(X[k..], b) == N;
  }

  /** Lines 219-220: the top bit of the digit, and the digit shifted left in its machine word. */
  lemma FeedBit(X: seq<nat>, k: nat, c: nat, low: nat, buf: nat, N: nat, m: Machine) returns (low': nat)
    requires m.Valid() && c > 0 && Feed(X, k, c, low, buf, N, m)
    ensures Pow(2, m.db - 1) > 0 && Pow(2, m.digitBits) > 0
    ensures var y := Quo(buf, Pow(2, m.db - 1)) % 2;
            Feed(X, k, c - 1, low', Rem(2 * buf, Pow(2, m.digitBits)), 2 * N + y, m)
  {
    hide Val, Pow, Rem, Quo;
    var b, h, dw, f := m.Radix(), Pow(2, m.db - 1), Pow(2, m.digitBits), Pow(2, m.digitBits - m.db);
    PowPos(2, m.db - 1);
    PowPos(2, m.digitBits);
    var t, s := Pow(2, c - 1), Pow(2, m.db - c);
    BitPowers(c, m);
    var y: nat := if low >= t then 1 else 0;
    low' := low - y * t;
    TopBit(buf, low, y, t, s, h);
    ShiftWrap(buf, low', y, s, h, f, dw);
    TakeBit(N, low, y, t);
  }

  lemma BitPowers(c: nat, m: Machine)
    requires m.Valid() && 0 < c <= m.db
    ensures Pow(2, c) == 2 * Pow(2, c - 1) && m.Radix() == 2 * Pow(2, m.db - 1)
    ensures Pow(2, m.db - (c - 1)) == 2 * Pow(2, m.db - c)
    ensures Pow(2, c - 1) * Pow(2, m.db - c) == Pow(2, m.db - 1)
    ensures Pow(2, c - 1) >= 1 && Pow(2, m.db - c) >= 1
    ensures Pow(2, m.digitBits) == Pow(2, m.digitBits - m.db) * m.Radix()
  {
    hide Pow;
    PowDouble(c - 1);
    PowDouble(m.db - 1);
    PowDouble(m.db - c);
    PowAdd(2, c - 1, m.db - c);
    PowPos(2, c - 1);
    PowPos(2, m.db - c);
    PowAdd(2, m.digitBits - m.db, m.db);
  }

  lemma TakeBit(N: int, low: int, y: int, t: int)
    ensures N * (2 * t) + low == (2 * N + y) * t + (low - y * t)
  {
    MulDist(2 * N, y, t);
    MulSwap(N, 2, t);
  }

  lemma PowDouble(e: nat)
    ensures Pow(2, e + 1) == 2 * Pow(2, e)
  {
  }

  lemma TopBit(buf: nat, low: nat, y: nat, t: int, s: int, h: int)
    requires t >= 1 && s >= 1 && h == t * s && low < 2 * t && y == (if low >= t then 1 else 0)
    requires Rem(buf, 2 * h) == low * s
    ensures Quo(buf, h) % 2 == y
    ensures var rest := low - y * t;
            0 <= rest < t && 0 <= rest * s < h && low * s == y * h + rest * s
  {
    hide Quo, Rem;
    QuoRemSpec(buf, 2 * h);
    var q, rest := Quo(buf, 2 * h), low - y * t;
    assert low * s == y * h + rest * s by { MulDist(y * t, rest, s); MulSwap(y, t, s); }
    MulStrict(rest, t, s);
    MulNonNeg(rest, s);
    assert buf == (2 * q + y) * h + rest * s by { MulDist(2 * q, y, h); MulSwap(q, 2, h); }
    QuoRemUnique(buf, h, 2 * q + y, rest * s);
  }

  lemma ShiftWrap(buf: nat, rest: nat, y: nat, s: int, h: int, f: int, dw: int)
    requires h >= 1 && s >= 1 && dw == f * (2 * h) && dw > 0 && rest * s < h && y <= 1
    requires Rem(buf, 2 * h) == y * h + rest * s
    ensures Rem(2 * buf, dw) >= 0 && Rem(Rem(2 * buf, dw), 2 * h) == rest * (2 * s)
  {
    var b := 2 * h;
    DivModSpec(buf, b);
    DivModSpec(2 * buf, dw);
    var q, p := Quo(buf, b), Quo(2 * buf, dw);
    var w := rest * (2 * s);
    assert w == 2 * (rest * s);
    MulNonNeg(rest, s);
    assert 2 * buf == (2 * q + y) * b + w by { MulDist(2 * q, y, b); }
    assert Rem(2 * buf, dw) == (2 * q + y - p * f) * b + w by { MulSwap(p, f, b); MulDist(2 * q + y, p * f, b); }
    DivModUnique(Rem(2 * buf, dw), b, 2 * q + y - p * f, w);
  }

  // ---- the window ----

  /**
   * E is the part of the exponent already in res, v the bits of the open window; together they
   * are the bits N read so far. A window is opened only by a one bit.
   */
  ghost predicate Scan(N: nat, E: nat, v: nat, bitcpy: nat, bitbuf: nat, mode: nat, w: nat) {
    bitcpy < w && mode <= 2 && v < Pow(2, bitcpy)
    && N == E * Pow(2, bitcpy) + v && bitbuf == v * Pow(2, w - bitcpy)
    && (bitcpy > 0 ==> 2 * v >= Pow(2, bitcpy))
    && (mode == 2 <==> bitcpy > 0) && (mode == 0 <==> N == 0)
  }

  /** Adding bit y to the window (line 238): the value grows to 2v + y. */
  lemma ScanAdd(N: nat, E: nat, v: nat, bitcpy: nat, bitbuf: nat, mode: nat, w: nat, y: nat)
    requires Scan(N, E, v, bitcpy, bitbuf, mode, w) && y <= 1 && (mode < 2 ==> y == 1)
    ensures bitbuf + y * Pow(2, w - (bitcpy + 1)) == (2 * v + y) * Pow(2, w - (bitcpy + 1))
    ensures 2 * N + y == E * Pow(2, bitcpy + 1) + (2 * v + y)
    ensures Pow(2, bitcpy) <= 2 * v + y < Pow(2, bitcpy + 1)
  {
    PowDouble(bitcpy);
    PowDouble(w - bitcpy - 1);
    ValEmpty([], 2);
    hide Pow;
    var p, q := Pow(2, bitcpy), Pow(2, w - bitcpy - 1);
    assert bitbuf == (2 * v) * q by { MulSwap(v, 2, q); }
    MulDist(2 * v, y, q);
    MulSwap(E, 2, p);
  }

  /** Lines 241-262: a full window squares res w times and multiplies by the table entry it spells. */
  method CloseWindow(res: nat, M: array<nat>, bitbuf: nat, w: nat, red: Reducer, P: nat, m: Machine, ghost E: nat, ghost g: int)
    returns (r: nat)
    requires m.Valid() && Fits(red, P, m) && Table(M[..], w, g, red, P, m) && Rep(res, E, g, red, P, m)
    requires Pow(2, w - 1) <= bitbuf < Pow(2, w)
    ensures E * Pow(2, w) >= 0 && Rep(r, E * Pow(2, w) + bitbuf, g, red, P, m)
    ensures red.TwoK? && red.d == 0 && M[bitbuf] == 0 ==> r == 0
  {
    TableEntry(M[..], bitbuf, w, g, red, P, m);
    hide Pow, Rep, Cong, Fits, Table;
    r := SquareTimes(res, w, red, P, m, E, g);
    ghost var before := r;
    r := Multiply(r, M[bitbuf], red, P, m, E * Pow(2, w), bitbuf, g);
    if red.TwoK? && red.d == 0 && M[bitbuf] == 0 {
      assert before * M[bitbuf] == 0;
      FitsPositive(red, P, m);
      FoldedZero(P);
    }
  }

  lemma TableEntry(M: seq<nat>, j: nat, w: nat, g: int, red: Reducer, P: nat, m: Machine)
    requires m.Valid() && Table(M, w, g, red, P, m) && Pow(2, w - 1) <= j < Pow(2, w)
    ensures j < |M| && Rep(M[j], j, g, red, P, m)
  {
    hide Rep, Pow;
  }

  lemma FitsPositive(red: Reducer, P: nat, m: Machine)
    requires m.Valid() && Fits(red, P, m)
    ensures P > 0
  {}

  lemma FoldedZero(P: nat)
    requires P > 0
    ensures SpecialReduction.Folded(0, P) == 0
  {
    PowPos(2, CountBits(P));
    DivModUnique(0, Pow(2, CountBits(P)), 0, 0);
  }

  /** Lines 266-288: the bits left in a partly filled window, one square and maybe multiply each. */
  method FlushWindow(res: nat, M1: nat, bitbuf: nat, bitcpy: nat, w: nat, red: Reducer, P: nat, m: Machine,
                     ghost E: nat, ghost v: nat, ghost g: int) returns (r: nat)
    requires m.Valid() && Fits(red, P, m) && Rep(M1, 1, g, red, P, m) && Rep(res, E, g, red, P, m)
    requires bitcpy <= w && v < Pow(2, bitcpy) && bitbuf == v * Pow(2, w - bitcpy)
    ensures E * Pow(2, bitcpy) >= 0 && Rep(r, E * Pow(2, bitcpy) + v, g, red, P, m)
  {
    hide Pow, Rep, Fits, Quo;
    r := res;
    var buf := bitbuf;
    ghost var e := E;
    FlushStart(v, bitcpy);
    PowPos(2, w);
    for x := 0 to bitcpy
      invariant Rep(r, e, g, red, P, m) && Consumed(e, E, v, x, bitcpy)
      invariant buf == v * Pow(2, w - bitcpy + x)
    {
      r := Square(r, red, P, m, e, g);
      FlushBit(buf, v, bitcpy, x, w, e, E);
      e := e + e;
      buf := 2 * buf;
      if Quo(buf, Pow(2, w)) % 2 != 0 {
        r := Multiply(r, M1, red, P, m, e, 1, g);
        e := e + 1;
      }
    }
    FlushEnd(e, E, v, bitcpy);
  }

  /** x bits of the window value v are already part of the exponent e. */
  ghost predicate Consumed(e: int, E: int, v: nat, x: nat, bitcpy: nat)
    requires x <= bitcpy
  {
    Pow(2, bitcpy - x) > 0 && e == E * Pow(2, x) + Quo(v, Pow(2, bitcpy - x))
  }

  lemma FlushStart(v: nat, bitcpy: nat)
    requires v < Pow(2, bitcpy)
    ensures forall E: int :: Consumed(E, E, v, 0, bitcpy)
  {
    ValEmpty([], 2);
    PowPos(2, bitcpy);
    DivModUnique(v, Pow(2, bitcpy), 0, v);
  }

  lemma FlushEnd(e: int, E: int, v: nat, bitcpy: nat)
    requires Consumed(e, E, v, bitcpy, bitcpy)
    ensures e == E * Pow(2, bitcpy) + v
  {
    ValEmpty([], 2);
    DivModUnique(v, 1, v, 0);
  }

  /** The bit tested after the shift is the next lower bit of v. */
  lemma FlushBit(buf: nat, v: nat, bitcpy: nat, x: nat, w: nat, e: int, E: int)
    requires x < bitcpy <= w && buf == v * Pow(2, w - bitcpy + x) && Consumed(e, E, v, x, bitcpy)
    ensures 2 * buf == v * Pow(2, w - bitcpy + (x + 1)) && Pow(2, w) > 0
    ensures var bit := Quo(2 * buf, Pow(2, w)) % 2;
            Consumed(2 * e + bit, E, v, x + 1, bitcpy)
  {
    hide Pow, Quo;
    var s, a := Pow(2, bitcpy - x - 1), Pow(2, w - bitcpy + x + 1);
    PowDouble(w - bitcpy + x);
    PowDouble(bitcpy - x - 1);
    PowDouble(x);
    PowPos(2, bitcpy - x - 1);
    PowPos(2, w - bitcpy + x + 1);
    PowPos(2, w);
    assert Pow(2, w) == s * a by { PowAdd(2, bitcpy - x - 1, w - bitcpy + x + 1); }
    assert 2 * buf == v * a by { MulSwap(v, 2, Pow(2, w - bitcpy + x)); }
    QuoScale(v, s, a);
    QuoHalf(v, s);
    MulSwap(E, 2, Pow(2, x));
  }

  lemma QuoScale(v: nat, s: int, a: int)
    requires s > 0 && a > 0
    ensures s * a > 0 && Quo(v * a, s * a) == Quo(v, s)
  {
    MulPos(s, a);
    DivModSpec(v, s);
    var q, r := Quo(v, s), Rem(v, s);
    MulDist(q * s, r, a);
    MulSwap(q, s, a);
    MulStrict(r, s, a);
    MulNonNeg(r, a);
    DivModUnique(v * a, s * a, q, r * a);
  }

  lemma QuoHalf(v: nat, s: int)
    requires s > 0
    ensures Quo(v, s) == 2 * Quo(v, 2 * s) + Quo(v, s) % 2
  {
    DivDiv(v, s, 2);
    DivModSpec(Quo(v, s), 2);
    assert s * 2 == 2 * s;
  }

  /** The table entry 2 was spoiled by a folding with constant zero, and a first window "10" uses it. */
  ghost predicate Spoiled(red: Reducer, w: nat, M: seq<nat>) {
    red.TwoK? && red.d == 0 && w == 2 && |M| > 2 && M[2] == 0
  }

  /** What a spoiled table does to res: after the first window "10" it is zero. */
  ghost predicate ZeroTrack(red: Reducer, w: nat, M: seq<nat>, E: nat, mode: nat, res: nat) {
    Spoiled(red, w, M) ==> (mode == 1 ==> E >= 2) && (E == 0 || E >= 2) && (E == 2 ==> res == 0)
  }

  /** The window registers and res agree with the N bits read so far. */
  ghost predicate Held(N: nat, E: nat, v: nat, bitcpy: nat, bitbuf: nat, mode: nat, res: nat, one: nat,
                       w: nat, M: seq<nat>, red: Reducer, P: nat, m: Machine, g: int)
    requires m.Valid()
  {
    (N == 0 ==> res == one) && Scan(N, E, v, bitcpy, bitbuf, mode, w) && Rep(res, E, g, red, P, m) && ZeroTrack(red, w, M, E, mode, res)
  }

  /** Lines 222-263: what one exponent bit y does to res and the window. */
  method TakeExponentBit(y: nat, res0: nat, mode0: nat, bitcpy0: nat, bitbuf0: nat, M: array<nat>, w: nat,
                         red: Reducer, P: nat, m: Machine, ghost N: nat, ghost E0: nat, ghost v0: nat, ghost one: nat, ghost g: int)
    returns (res: nat, mode: nat, bitcpy: nat, bitbuf: nat, ghost E: nat, ghost v: nat)
    requires m.Valid() && Fits(red, P, m) && y <= 1 && 2 <= w <= 8 && Table(M[..], w, g, red, P, m)
    requires Held(N, E0, v0, bitcpy0, bitbuf0, mode0, res0, one, w, M[..], red, P, m, g)
    ensures Held(2 * N + y, E, v, bitcpy, bitbuf, mode, res, one, w, M[..], red, P, m, g)
  {
    hide Val, Pow, Rep, Fits, Scan, ZeroTrack, Table;
    res, mode, bitcpy, bitbuf, E, v := res0, mode0, bitcpy0, bitbuf0, E0, v0;
    ScanModes(N, E, v, bitcpy, bitbuf, mode, w);
    if mode == 0 && y == 0 {
      ScanZero(N, E, v, bitcpy, bitbuf, mode, w);
      return;
    }
    if mode == 1 && y == 0 {
      ScanZero(N, E, v, bitcpy, bitbuf, mode, w);
      res := Square(res, red, P, m, E, g);
      ZeroSquare(red, w, M[..], E, mode, res0, res);
      E := E + E;
      return;
    }
    res, mode, bitcpy, bitbuf, E, v := AddToWindow(y, res, mode, bitcpy, bitbuf, M, w, red, P, m, N, E, v, one, g);
  }

  /** Lines 237-263: put the bit into the window and close the window when it is full. */
  method AddToWindow(y: nat, res0: nat, mode0: nat, bitcpy0: nat, bitbuf0: nat, M: array<nat>, w: nat,
                     red: Reducer, P: nat, m: Machine, ghost N: nat, ghost E0: nat, ghost v0: nat, ghost one: nat, ghost g: int)
    returns (res: nat, mode: nat, bitcpy: nat, bitbuf: nat, ghost E: nat, ghost v: nat)
    requires m.Valid() && Fits(red, P, m) && y <= 1 && 2 <= w <= 8 && Table(M[..], w, g, red, P, m)
    requires Held(N, E0, v0, bitcpy0, bitbuf0, mode0, res0, one, w, M[..], red, P, m, g) && (mode0 < 2 ==> y == 1)
    ensures Held(2 * N + y, E, v, bitcpy, bitbuf, mode, res, one, w, M[..], red, P, m, g)
  {
    hide Val, Pow, Rep, Fits, Scan, ZeroTrack, Table;
    ScanModes(N, E0, v0, bitcpy0, bitbuf0, mode0, w);
    ScanAdd(N, E0, v0, bitcpy0, bitbuf0, mode0, w, y);
    ScanWindow(N, E0, v0, bitcpy0, bitbuf0, mode0, w, y);
    ZeroOpen(red, w, M[..], E0, mode0, res0);
    res, E, v, mode := res0, E0, 2 * v0 + y, 2;
    bitcpy := bitcpy0 + 1;
    bitbuf := bitbuf0 + y * NatPow(2, w - bitcpy);
    if bitcpy == w {
      TableSize(w);
      TableFirst(M[..], w, g, red, P, m);
      FullWindow(2 * N + y, E, v, bitbuf, w);
      res := CloseWindow(res, M, bitbuf, w, red, P, m, E, g);
      E := 2 * N + y;
      v := 0;
      ZeroClose(red, w, M[..], E0, E, bitbuf, res);
      bitcpy := 0;
      bitbuf := 0;
      mode := 1;
    }
  }

  lemma ScanModes(N: nat, E: nat, v: nat, bitcpy: nat, bitbuf: nat, mode: nat, w: nat)
    requires Scan(N, E, v, bitcpy, bitbuf, mode, w)
    ensures bitcpy < w && mode <= 2 && (mode == 0 <==> N == 0)
  {
  }

  /** Lines 197-289: scan the exponent from the top and leave g^X in res. */
  method Run(X: seq<nat>, M: array<nat>, one: nat, w: nat, red: Reducer, P: nat, m: Machine, ghost g: int)
    returns (res: nat)
    requires m.Valid() && Fits(red, P, m) && IsDigits(X, m.Radix())
    requires Table(M[..], w, g, red, P, m) && Rep(one, 0, g, red, P, m)
    ensures Rep(res, Val(X, m.Radix()), g, red, P, m)
    ensures Val(X, m.Radix()) == 0 ==> res == one
    ensures Spoiled(red, w, M[..]) && Val(X, m.Radix()) == 2 ==> res == 0
  {
    hide Val, Pow, Rep, Fits, Feed, Scan, Quo, Rem, ZeroTrack, Table;
    var b, half, dw := m.Radix(), NatPow(2, m.db - 1), NatPow(2, m.digitBits);
    PowPos(2, m.db - 1);
    PowPos(2, m.digitBits);
    res := one;
    var mode: nat, bitcpy: nat, bitbuf: nat := 0, 0, 0;
    var bitcnt, buf: nat, digidx := 1, 0, |X| - 1;
    ghost var N: nat, E: nat, v: nat, low: nat := 0, 0, 0, 0;
    FeedStart(X, m);
    ScanStart(w, M[..], g, red, P, m, one);
    assert Held(N, E, v, bitcpy, bitbuf, mode, res, one, w, M[..], red, P, m, g);
    hide Held;
    while true
      invariant -1 <= digidx < |X| && 1 <= bitcnt <= m.db
      invariant Feed(X, digidx + 1, bitcnt - 1, low, buf, N, m)
      invariant Held(N, E, v, bitcpy, bitbuf, mode, res, one, w, M[..], red, P, m, g)
      decreases digidx, bitcnt
    {
      bitcnt := bitcnt - 1;
      if bitcnt == 0 {
        if digidx == -1 {
          break;
        }
        FeedDigit(X, digidx + 1, low, buf, N, m);
        buf := X[digidx];
        low := buf;
        digidx := digidx - 1;
        bitcnt := m.db;
      }
      low := FeedBit(X, digidx + 1, bitcnt, low, buf, N, m);
      var y: nat := Quo(buf, half) % 2;
      buf := Shl(buf, dw);
      res, mode, bitcpy, bitbuf, E, v := TakeExponentBit(y, res, mode, bitcpy, bitbuf, M, w, red, P, m, N, E, v, one, g);
      N := 2 * N + y;
    }
    FeedEnd(X, low, buf, N, m);
    res := Finish(N, res, mode, bitcpy, bitbuf, M, w, red, P, m, E, v, one, g);
  }

  /** Lines 265-289. */
  method Finish(ghost N: nat, res0: nat, mode: nat, bitcpy: nat, bitbuf: nat, M: array<nat>, w: nat,
                red: Reducer, P: nat, m: Machine, ghost E: nat, ghost v: nat, ghost one: nat, ghost g: int) returns (res: nat)
    requires m.Valid() && Fits(red, P, m) && Table(M[..], w, g, red, P, m)
    requires Held(N, E, v, bitcpy, bitbuf, mode, res0, one, w, M[..], red, P, m, g)
    ensures Rep(res, N, g, red, P, m)
    ensures N == 0 ==> res == one
    ensures Spoiled(red, w, M[..]) && N == 2 ==> res == 0
  {
    hide Val, Pow, Rep, Fits, Scan, ZeroTrack, Table;
    res := res0;
    ScanModes(N, E, v, bitcpy, bitbuf, mode, w);
    if mode == 2 && bitcpy > 0 {
      FlushReady(N, E, v, bitcpy, bitbuf, mode, w, red, M[..], res);
      TableFirst(M[..], w, g, red, P, m);
      res := FlushWindow(res, M[1], bitbuf, bitcpy, w, red, P, m, E, v, g);
    } else {
      NothingLeft(N, E, v, bitcpy, bitbuf, mode, w, red, M[..], res);
    }
  }

  /** buf <<= 1 in a machine digit */
  function Shl(buf: nat, dw: nat): (r: nat)
    requires dw > 0
    ensures r == Rem(2 * buf, dw)
  {
    DivModSpec(2 * buf, dw);
    Rem(2 * buf, dw)
  }

  lemma ScanStart(w: nat, M: seq<nat>, g: int, red: Reducer, P: nat, m: Machine, one: nat)
    requires m.Valid() && Table(M, w, g, red, P, m)
    ensures 2 <= w <= 8 && |M| == 256 && Scan(0, 0, 0, 0, 0, 0, w) && ZeroTrack(red, w, M, 0, 0, one)
  {
    ValEmpty([], 2);
  }

  lemma ScanZero(N: nat, E: nat, v: nat, bitcpy: nat, bitbuf: nat, mode: nat, w: nat)
    requires Scan(N, E, v, bitcpy, bitbuf, mode, w) && mode < 2
    ensures N == E && bitcpy == 0 && v == 0
    ensures mode == 0 ==> N == 0 && Scan(2 * N, E, v, bitcpy, bitbuf, mode, w)
    ensures mode == 1 ==> Scan(2 * N, E + E, v, bitcpy, bitbuf, mode, w)
  {
    ValEmpty([], 2);
  }

  lemma ScanWindow(N: nat, E: nat, v: nat, bitcpy: nat, bitbuf: nat, mode: nat, w: nat, y: nat)
    requires Scan(N, E, v, bitcpy, bitbuf, mode, w) && y <= 1 && (mode < 2 ==> y == 1)
    ensures y * Pow(2, w - (bitcpy + 1)) >= 0
    ensures bitcpy + 1 < w ==> Scan(2 * N + y, E, 2 * v + y, bitcpy + 1, bitbuf + y * Pow(2, w - (bitcpy + 1)), 2, w)
    ensures bitcpy + 1 == w ==> bitbuf + y * Pow(2, w - (bitcpy + 1)) == 2 * v + y
  {
    ScanAdd(N, E, v, bitcpy, bitbuf, mode, w, y);
    PowDouble(bitcpy);
    ValEmpty([], 2);
    PowPos(2, w - (bitcpy + 1));
  }

  lemma FullWindow(N: nat, E: nat, v: nat, bitbuf: nat, w: nat)
    requires w >= 2 && N == E * Pow(2, w) + v && bitbuf == v && Pow(2, w - 1) <= v < Pow(2, w)
    ensures Scan(N, N, 0, 0, 0, 1, w)
  {
    ValEmpty([], 2);
  }

  lemma FeedEnd(X: seq<nat>, low: nat, buf: nat, N: nat, m: Machine)
    requires m.Valid() && Feed(X, 0, 0, low, buf, N, m)
    ensures Val(X, m.Radix()) == N
  {
    ValEmpty([], 2);
    assert X[0..] == X;
  }

  lemma TableFirst(M: seq<nat>, w: nat, g: int, red: Reducer, P: nat, m: Machine)
    requires m.Valid() && Table(M, w, g, red, P, m)
    ensures |M| == 256 && Rep(M[1], 1, g, red, P, m)
  {
  }

  lemma ZeroSquare(red: Reducer, w: nat, M: seq<nat>, E: nat, mode: nat, before: nat, after: nat)
    requires ZeroTrack(red, w, M, E, mode, before) && mode == 1
    ensures ZeroTrack(red, w, M, E + E, mode, after)
  {
  }

  lemma ZeroOpen(red: Reducer, w: nat, M: seq<nat>, E: nat, mode: nat, res: nat)
    requires ZeroTrack(red, w, M, E, mode, res)
    ensures ZeroTrack(red, w, M, E, 2, res)
  {
  }

  lemma ZeroClose(red: Reducer, w: nat, M: seq<nat>, E0: nat, E: nat, bitbuf: nat, res: nat)
    requires |M| == 256 && 2 <= w <= 8 && Pow(2, w - 1) <= bitbuf < 256 && E == E0 * Pow(2, w) + bitbuf
    requires red.TwoK? && red.d == 0 && M[bitbuf] == 0 ==> res == 0
    ensures ZeroTrack(red, w, M, E, 1, res)
  {
    if w == 2 {
      assert Pow(2, 1) == 2 && Pow(2, 2) == 4;
      MulNonNeg(E0, 4);
      if E == 2 && E0 > 0 { MulMono(1, E0, 4); }
    }
  }

  lemma FlushReady(N: nat, E: nat, v: nat, bitcpy: nat, bitbuf: nat, mode: nat, w: nat, red: Reducer, M: seq<nat>, res: nat)
    requires Scan(N, E, v, bitcpy, bitbuf, mode, w) && bitcpy > 0
    ensures v < Pow(2, bitcpy) && bitbuf == v * Pow(2, w - bitcpy) && N == E * Pow(2, bitcpy) + v
    ensures N > 0 && (w == 2 ==> N != 2)
  {
    if w == 2 { assert Pow(2, 1) == 2; }
  }

  lemma NothingLeft(N: nat, E: nat, v: nat, bitcpy: nat, bitbuf: nat, mode: nat, w: nat, red: Reducer, M: seq<nat>, res: nat)
    requires Scan(N, E, v, bitcpy, bitbuf, mode, w) && !(mode == 2 && bitcpy > 0) && ZeroTrack(red, w, M, E, mode, res)
    ensures N == E && (Spoiled(red, w, M) && N == 2 ==> res == 0)
  {
    ValEmpty([], 2);
  }
}
