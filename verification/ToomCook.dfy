/**
 * What mp_mul computes: the product, but for operands of opposite signs of Toom-Cook size, where the
 * additions that put the coefficients together lose a borrow (bn_mp_mul.c, bn_mp_toom_mul.c).
 */
module ToomCook {
  import opened Arith
  import opened Digits

  /** Radix b, words modulo ww, MP_WARRAY, and the cutoffs of products and squares. */
  datatype Config = Config(b: nat, ww: nat, warray: nat, karatsuba: nat, toom: nat, karatsubaSqr: nat, toomSqr: nat)

  /** The cutoffs of bncore.c are 80, 350, 120 and 400; these are the smallest with which the recursion ends. */
  predicate Sound(c: Config) {
    && c.b >= 8 && 2 * (c.b * c.b) <= c.ww
    && c.karatsuba >= 4 && c.toom >= 3 && c.karatsubaSqr >= 4 && c.toomSqr >= 3
  }

  function Size(a: int, y: int, c: Config): nat
    requires Sound(c)
  {
    Used(Abs(a), c.b) + Used(Abs(y), c.b)
  }

  /** min(used) of the operands. */
  function Least(a: int, y: int, c: Config): nat
    requires Sound(c)
  {
    var u, v := Used(Abs(a), c.b), Used(Abs(y), c.b);
    if u < v then u else v
  }

  /** One sign, or no slip inside the five products: the miss is then that of the last additions alone. */
  predicate Covered(a: int, y: int, c: Config)
    requires Sound(c)
  {
    (a < 0) == (y < 0) || Least(a, y, c) < c.toom || Least(a, y, c) - 2 * (Least(a, y, c) / 3) + 1 < c.toom
  }

  /** The low third, the middle third and the rest, cut at the weight p. */
  function Third(v: nat, p: nat, k: nat): (t: nat)
    requires p > 0
  {
    if k == 0 then NatRem(v, p) else if k == 1 then NatRem(NatQuo(v, p), p) else NatQuo(NatQuo(v, p), p)
  }

  /** Adding the unclamped zero of `shift` digits to a negative number of fewer digits goes wrong by this much. */
  function Slips(low: nat, high: nat, B: nat, weight: nat, b: nat): nat
    requires b >= 2
  {
    if high == 0 && low != 0 && Used(low, b) < B then weight else 0
  }

  /** By how much the last additions of mp_toom_mul miss the product. */
  function Slip(a: int, y: int, c: Config): nat
    requires Sound(c)
  {
    if (a < 0) == (y < 0) || Least(a, y, c) < c.toom then 0
    else
      var B := Least(a, y, c) / 3;
      var p, m, n := NatPow(c.b, B), Abs(a), Abs(y);
      var m0, m1, m2 := Third(m, p, 0), Third(m, p, 1), Third(m, p, 2);
      var n0, n1, n2 := Third(n, p, 0), Third(n, p, 1), Third(n, p, 2);
      Slips(NatMul(m0, n0), NatMul(m0, n1) + NatMul(m1, n0), B, p, c.b)
      + Slips(NatMul(m0, n2) + NatMul(m1, n1) + NatMul(m2, n0), NatMul(m1, n2) + NatMul(m2, n1), B, NatMul(p, NatMul(p, p)), c.b)
  }

  // ----- The value that comes out -----

  /** The parts put together at the five points of lines 74-162: infinity is 4. */
  function Magnitude(v: nat, p: nat, i: nat): (r: nat)
    requires p > 0
  {
    var m0, m1, m2 := Third(v, p, 0), Third(v, p, 1), Third(v, p, 2);
    if i == 0 then m0 else if i == 1 then m2 + 2 * (m1 + 2 * m0) else if i == 2 then m2 + m1 + m0
    else if i == 3 then m0 + 2 * (m1 + 2 * m2) else m2
  }

  function Point(v: int, p: nat, i: nat): (x: int)
    requires p > 0
  {
    if v < 0 then 0 - Magnitude(-v, p, i) else Magnitude(v, p, i)
  }

  /** The weight b^B at which mp_toom_mul cuts its operands. */
  function Weight(a: int, y: int, c: Config): (p: nat)
    requires Sound(c)
    ensures p > 0
  {
    NatPow(c.b, Least(a, y, c) / 3)
  }

  /** Lines 176-246, with the two halvings and thirds truncating toward zero. */
  function Interpolated(w0: int, r1: int, r2: int, r3: int, w4: int): (w: (int, int, int)) {
    var w2 := r2 - w0 - w4;
    var w1 := Truncated(r1 - w4, 2) - w2 - 8 * w0;
    var w3 := Truncated(r3 - w0, 2) - w2 - 8 * w4;
    var mid := 3 * w2 - w1 - w3;
    (Truncated(w1 - mid, 3), mid, Truncated(w3 - mid, 3))
  }

  /** Lines 248-273: mp_lshd and mp_add, which compares digit counts first. */
  function Assembled(w0: int, w1: int, w2: int, w3: int, w4: int, B: nat, b: nat): (r: int)
    requires b >= 2
  {
    var low := MpAdd(Clean(w0, b), Lshd(w1, B, b), b);
    var mid := MpAdd(Lshd(w2, 2 * B, b), Lshd(w3, 3 * B, b), b);
    MpAdd(Clean(MpAdd(Lshd(w4, 4 * B, b), Clean(mid, b), b), b), Clean(low, b), b)
  }

  /** What mp_toom_mul makes of the products at the points. */
  function Combined(w0: int, r1: int, r2: int, r3: int, w4: int, B: nat, b: nat): (r: int)
    requires b >= 2
  {
    var w := Interpolated(w0, r1, r2, r3, w4);
    Assembled(w0, w.0, w.1, w.2, w4, B, b)
  }

  /** mp_toom_mul */
  function ToomValue(a: int, y: int, c: Config): (r: int)
    requires Sound(c) && Least(a, y, c) >= c.toom
    decreases Size(a, y, c), 0
  {
    var p := Weight(a, y, c);
    PointShrinks(a, y, 0, c);
    PointShrinks(a, y, 1, c);
    PointShrinks(a, y, 2, c);
    PointShrinks(a, y, 3, c);
    PointShrinks(a, y, 4, c);
    Combined(MulValue(Point(a, p, 0), Point(y, p, 0), c), MulValue(Point(a, p, 1), Point(y, p, 1), c),
             MulValue(Point(a, p, 2), Point(y, p, 2), c), MulValue(Point(a, p, 3), Point(y, p, 3), c),
             MulValue(Point(a, p, 4), Point(y, p, 4), c), Least(a, y, c) / 3, c.b)
  }

  /** mp_mul: the sign is set after the magnitude. */
  function MulValue(a: int, y: int, c: Config): (r: int)
    requires Sound(c)
    decreases Size(a, y, c), 1
  {
    if Least(a, y, c) < c.toom then a * y
    else if (a < 0) == (y < 0) then Abs(ToomValue(a, y, c)) else 0 - Abs(ToomValue(a, y, c))
  }

  /** The product at a point is a smaller problem, and one that does not slip if the whole is covered. */
  lemma PointShrinks(a: int, y: int, i: nat, c: Config)
    requires Sound(c) && Least(a, y, c) >= c.toom
    ensures var p := Weight(a, y, c); Size(Point(a, p, i), Point(y, p, i), c) < Size(a, y, c)
    ensures var p := Weight(a, y, c); Covered(a, y, c) ==>
      Covered(Point(a, p, i), Point(y, p, i), c) && Slip(Point(a, p, i), Point(y, p, i), c) == 0
  {
    hide Used, Pow, Third, Slip, Magnitude;
    var p, B := Weight(a, y, c), Least(a, y, c) / 3;
    MagnitudeUsed(Abs(a), B, i, c.b);
    MagnitudeUsed(Abs(y), B, i, c.b);
    var x, z := Magnitude(Abs(a), p, i), Magnitude(Abs(y), p, i);
    NoDigitsOfZero(c.b);
    if Covered(a, y, c) { NoSlip(Point(a, p, i), Point(y, p, i), c); }
  }

  lemma MagnitudeUsed(v: nat, B: nat, i: nat, b: nat)
    requires b >= 8 && B >= 1 && 3 * B <= Used(v, b)
    ensures NatPow(b, B) > 0 && Used(Magnitude(v, NatPow(b, B), i), b) <= Used(v, b) - 2 * B + 1
  {
    hide Used, Pow, Third;
    PowPos(b, B);
    UsedIs(v, b);
    ThirdsOf(v, B, b);
    var p, k := NatPow(b, B), Used(v, b) - 2 * B;
    PointsUsed(Third(v, p, 0), Third(v, p, 1), Third(v, p, 2), B, k, b);
    UsedAtMost(Third(v, p, 0), B, b);
    UsedAtMost(Third(v, p, 2), k, b);
  }

  /** The thirds make up the number, and the top digit lies in the top one. */
  lemma ThirdsOf(v: nat, B: nat, b: nat)
    requires b >= 2 && B >= 1 && 3 * B <= Used(v, b)
    ensures var p := NatPow(b, B);
      && p > 0 && v == Third(v, p, 0) + p * (Third(v, p, 1) + p * Third(v, p, 2))
      && Third(v, p, 0) < p && Third(v, p, 1) < p && 0 < Third(v, p, 2) < Pow(b, Used(v, b) - 2 * B)
  {
    hide Used, Pow, Val, ToDigits, Third;
    PowPos(b, B);
    UsedIs(v, b);
    Cut3(v, B, b);
    Thirds(v, B, b);
    var s := ToDigits(v, b);
    TopThird(v, Val(s[..B], b), Val(s[B..2 * B], b), Val(s[2 * B..], b), B, b);
  }

  /** A sum has at most one digit more than the longer operand. */
  lemma SumUsed(x: nat, y: nat, k: nat, b: nat)
    requires b >= 8 && x < Pow(b, k) && y <= 6 * Pow(b, k)
    ensures Used(x + y, b) <= k + 1
  {
    hide Used;
    assert Pow(b, k + 1) == b * Pow(b, k);
    MulMono(8, b, Pow(b, k));
    hide Pow;
    UsedAtMost(x + y, k + 1, b);
  }

  lemma UsedIs(v: nat, b: nat)
    requires b >= 2
    ensures |ToDigits(v, b)| == Used(v, b)
  {}

  lemma NoDigitsOfZero(b: nat)
    requires b >= 2
    ensures Used(0, b) == 0
  {}

  /** The digits below B, from B below 2B, and from 2B. */
  lemma Cut3(v: nat, B: nat, b: nat)
    requires b >= 2 && 2 * B <= Used(v, b) == |ToDigits(v, b)|
    ensures var s := ToDigits(v, b); var v0, v1, v2, p := Val(s[..B], b), Val(s[B..2 * B], b), Val(s[2 * B..], b), Pow(b, B);
      && v == v0 + p * (v1 + p * v2)
      && v0 < p && v1 < p && v2 < Pow(b, |s| - 2 * B)
      && Used(v0, b) <= B && Used(v2, b) <= |s| - 2 * B
  {
    hide Val, Pow, ToDigits, Used;
    var s := ToDigits(v, b);
    ToDigitsVal(v, b);
    ValSplit(s, B, b);
    var h := s[B..];
    ValSplit(h, B, b);
    assert h[..B] == s[B..2 * B] && h[B..] == s[2 * B..];
    ValBound(s[..B], b);
    ValBound(s[B..2 * B], b);
    ValBound(s[2 * B..], b);
    UsedAtMost(Val(s[..B], b), B, b);
    UsedAtMost(Val(s[2 * B..], b), |s| - 2 * B, b);
  }

  /** The digits cut at B and 2B are the thirds at the weight b^B. */
  lemma Thirds(v: nat, B: nat, b: nat)
    requires b >= 2 && 2 * B <= Used(v, b) == |ToDigits(v, b)|
    ensures var s := ToDigits(v, b); var p := NatPow(b, B);
      Val(s[..B], b) == Third(v, p, 0) && Val(s[B..2 * B], b) == Third(v, p, 1) && Val(s[2 * B..], b) == Third(v, p, 2)
  {
    hide Val, Pow, ToDigits, Used, Quo, Rem;
    Cut3(v, B, b);
    var s, p := ToDigits(v, b), NatPow(b, B);
    var v0, v1, v2 := Val(s[..B], b), Val(s[B..2 * B], b), Val(s[2 * B..], b);
    QuoRemUnique(v, p, v1 + p * v2, v0);
    QuoRemUnique(v1 + p * v2, p, v2, v1);
  }

  /** The top digit lies in the top part. */
  lemma TopThird(m: nat, u0: nat, u1: nat, u2: nat, B: nat, b: nat)
    requires b >= 2 && B >= 1 && 3 * B <= Used(m, b) && m == u0 + Pow(b, B) * (u1 + Pow(b, B) * u2)
    requires u0 < Pow(b, B) && u1 < Pow(b, B)
    ensures u2 > 0
  {
    hide Pow, Used;
    UsedBounds(m, b);
    NoDigitsOfZero(b);
    var p := Pow(b, B);
    if u2 == 0 {
      MulStep(u1, p, p);
      PowAdd(b, B, B);
      PowMono(b, B + B, Used(m, b) - 1);
    }
  }

  /** The three evaluation points have one digit more than the top part at most. */
  lemma PointsUsed(v0: nat, v1: nat, v2: nat, B: nat, k: nat, b: nat)
    requires b >= 8 && B <= k && v0 < Pow(b, B) && v1 < Pow(b, B) && v2 < Pow(b, k)
    ensures Used(v2 + 2 * (v1 + 2 * v0), b) <= k + 1
    ensures Used(v0 + 2 * (v1 + 2 * v2), b) <= k + 1
    ensures Used(v2 + v1 + v0, b) <= k + 1
  {
    hide Used, Pow;
    PowMono(b, B, k);
    SumUsed(v2, 2 * (v1 + 2 * v0), k, b);
    SumUsed(v0, 2 * (v1 + 2 * v2), k, b);
    SumUsed(v2, v1 + v0, k, b);
  }

  // ----- Where it is the product -----

  /** Covered operands come out as their product and the slip of the last additions. */
  lemma {:induction false} MulSlips(a: int, y: int, c: Config)
    requires Sound(c) && Covered(a, y, c)
    ensures MulValue(a, y, c) == a * y + Slip(a, y, c)
    decreases Size(a, y, c), 1
  {
    hide ToomValue, Used, Pow, Third, Point;
    if Least(a, y, c) >= c.toom {
      ToomCovered(a, y, c);
      SlipSmall(a, y, c);
      Signs(a, y);
    } else {
      NoSlip(a, y, c);
    }
  }

  lemma {:induction false} ToomCovered(a: int, y: int, c: Config)
    requires Sound(c) && Covered(a, y, c) && Least(a, y, c) >= c.toom
    ensures ToomValue(a, y, c) == a * y + Slip(a, y, c)
    decreases Size(a, y, c), 0
  {
    hide ToomValue, Used, Pow, Third, Point;
    var p := Weight(a, y, c);
    forall i: nat | i < 5 ensures ExactAt(a, y, i, c) {
      PointShrinks(a, y, i, c);
      MulSlips(Point(a, p, i), Point(y, p, i), c);
    }
    OnlySumsSlip(a, y, c);
  }

  /** Operands of one sign, or one of them below the cutoff: mp_mul is exact. */
  lemma MulExact(a: int, y: int, c: Config)
    requires Sound(c) && ((a < 0) == (y < 0) || Least(a, y, c) < c.toom)
    ensures MulValue(a, y, c) == a * y
  {
    NoSlip(a, y, c);
    MulSlips(a, y, c);
  }

  ghost predicate ExactAt(a: int, y: int, i: nat, c: Config)
    requires Sound(c)
  {
    var p := Weight(a, y, c);
    MulValue(Point(a, p, i), Point(y, p, i), c) == Point(a, p, i) * Point(y, p, i)
  }

  /** With exact products at the points only the last additions go wrong. */
  lemma OnlySumsSlip(a: int, y: int, c: Config)
    requires Sound(c) && Least(a, y, c) >= c.toom && forall i: nat :: i < 5 ==> ExactAt(a, y, i, c)
    ensures ToomValue(a, y, c) == a * y + Slip(a, y, c)
  {
    var p, B := Weight(a, y, c), Least(a, y, c) / 3;
    assert ExactAt(a, y, 0, c) && ExactAt(a, y, 1, c) && ExactAt(a, y, 2, c) && ExactAt(a, y, 3, c) && ExactAt(a, y, 4, c);
    var w0, r1 := Point(a, p, 0) * Point(y, p, 0), Point(a, p, 1) * Point(y, p, 1);
    var r2, r3 := Point(a, p, 2) * Point(y, p, 2), Point(a, p, 3) * Point(y, p, 3);
    var w4 := Point(a, p, 4) * Point(y, p, 4);
    assert ToomValue(a, y, c) == Combined(w0, r1, r2, r3, w4, B, c.b);
    hide *;
    ToomCombines(a, y, B, c);
  }

  lemma ToomCombines(a: int, y: int, B: nat, c: Config)
    requires Sound(c) && Least(a, y, c) >= c.toom && B == Least(a, y, c) / 3
    ensures var p := Weight(a, y, c);
      Combined(Point(a, p, 0) * Point(y, p, 0), Point(a, p, 1) * Point(y, p, 1), Point(a, p, 2) * Point(y, p, 2),
               Point(a, p, 3) * Point(y, p, 3), Point(a, p, 4) * Point(y, p, 4), B, c.b) == a * y + Slip(a, y, c)
  {
    hide Used, Pow, Product, Slip, Third, CarriedSlips, Interpolated, Assembled;
    var p := Weight(a, y, c);
    var m, n := Abs(a), Abs(y);
    var s: int, t: int := if a < 0 then -1 else 1, if y < 0 then -1 else 1;
    ThirdsOf(m, B, c.b);
    ThirdsOf(n, B, c.b);
    var u0, u1, u2 := Third(m, p, 0), Third(m, p, 1), Third(m, p, 2);
    var v0, v1, v2 := Third(n, p, 0), Third(n, p, 1), Third(n, p, 2);
    PointParts(a, p);
    PointParts(y, p);
    var a0, a1, a2, b0, b1, b2 := s * u0, s * u1, s * u2, t * v0, t * v1, t * v2;
    hide Point;
    var c1, c2, c3 := Points(Point(a, p, 1), Point(y, p, 1), Point(a, p, 3), Point(y, p, 3), Point(a, p, 2), Point(y, p, 2),
                             a0, a1, a2, b0, b1, b2);
    InterpolatedExact(a0 * b0, c1, c2, c3, a2 * b2);
    SignedThirds(a, u0, u1, u2, p);
    SignedThirds(y, v0, v1, v2, p);
    AtPoint(a, y, a0, a1, a2, b0, b1, b2, a0 * b0, c1, c2, c3, a2 * b2, p);
    SlipIs(a, y, u0, u1, u2, v0, v1, v2, a0 * b0, c1, c2, c3, a2 * b2, B, c);
    AssembledIs(a0 * b0, c1, c2, c3, a2 * b2, B, c.b);
  }

  /** The points in the signed parts, as the source builds them. */
  lemma PointParts(v: int, p: nat)
    requires p > 0
    ensures var s, m := if v < 0 then -1 else 1, Abs(v);
      var a0, a1, a2 := s * Third(m, p, 0), s * Third(m, p, 1), s * Third(m, p, 2);
      && Point(v, p, 0) == a0 && Point(v, p, 4) == a2 && Point(v, p, 1) == a2 + 2 * (a1 + 2 * a0)
      && Point(v, p, 3) == a0 + 2 * (a1 + 2 * a2) && Point(v, p, 2) == a2 + a1 + a0
  {
    hide Third;
  }

  /** From the true values at the points every halving and third is exact. */
  lemma InterpolatedExact(w0: int, c1: int, c2: int, c3: int, w4: int)
    ensures Interpolated(w0, 16 * w0 + 8 * c1 + 4 * c2 + 2 * c3 + w4, w0 + c1 + c2 + c3 + w4,
                         w0 + 2 * c1 + 4 * c2 + 8 * c3 + 16 * w4, w4) == (c1, c2, c3)
  {
    TruncatedExact(8 * w0 + 4 * c1 + 2 * c2 + c3, 2);
    TruncatedExact(c1 + 2 * c2 + 4 * c3 + 8 * w4, 2);
    TruncatedExact(c1, 3);
    TruncatedExact(c3, 3);
  }

  /** The coefficients of the product of two quadratic polynomials. */
  ghost predicate Product(a0: int, a1: int, a2: int, b0: int, b1: int, b2: int, c0: int, c1: int, c2: int, c3: int, c4: int) {
    && c0 == a0 * b0 && c1 == a0 * b1 + a1 * b0 && c2 == a0 * b2 + a1 * b1 + a2 * b0
    && c3 == a1 * b2 + a2 * b1 && c4 == a2 * b2
  }

  lemma ProductOfSums(x: int, y: int, z: int, u: int, v: int, w: int)
    ensures (x + y + z) * (u + v + w) == x * u + (x * v + y * u) + (x * w + y * v + z * u) + (y * w + z * v) + z * w
  {
    MulDist(x + y, z, u + v + w);
    MulDist(x, y, u + v + w);
    MulDist(u + v, w, x);
    MulDist(u, v, x);
    MulDist(u + v, w, y);
    MulDist(u, v, y);
    MulDist(u + v, w, z);
    MulDist(u, v, z);
  }

  lemma Recombined(a0: int, a1: int, a2: int, b0: int, b1: int, b2: int, c0: int, c1: int, c2: int, c3: int, c4: int, p: int)
    requires Product(a0, a1, a2, b0, b1, b2, c0, c1, c2, c3, c4)
    ensures (a0 + p * (a1 + p * a2)) * (b0 + p * (b1 + p * b2)) ==
      c0 + c1 * p + c2 * (p * p) + c3 * (p * (p * p)) + c4 * ((p * p) * (p * p))
  {
    var q := p * p;
    MulDist(a1, p * a2, p);
    MulDist(b1, p * b2, p);
    MulSwap(p, p, a2);
    MulSwap(p, p, b2);
    assert a0 + p * (a1 + p * a2) == a0 + p * a1 + q * a2 && b0 + p * (b1 + p * b2) == b0 + p * b1 + q * b2;
    ProductOfSums(a0, p * a1, q * a2, b0, p * b1, q * b2);
    Gather(a0, b1, p);
    Gather(b0, a1, p);
    Gather(a0, b2, q);
    Gather(b0, a2, q);
    MulDist(a0 * b1, a1 * b0, p);
    Gather2(a1, b1, p, p);
    Gather2(a1, b2, p, q);
    Gather2(a2, b1, q, p);
    Gather2(a2, b2, q, q);
    MulDist(a0 * b2 + a1 * b1, a2 * b0, q);
    MulDist(a0 * b2, a1 * b1, q);
    MulDist(a1 * b2, a2 * b1, p * q);
  }

  lemma Gather(x: int, y: int, p: int)
    ensures x * (p * y) == (x * y) * p && (p * y) * x == (y * x) * p
  {}

  lemma Gather2(x: int, y: int, p: int, q: int)
    ensures (p * x) * (q * y) == (x * y) * (p * q)
  {
    Gather(p * x, y, q);
    MulSwap(p, x, y);
    MulSwap(x * y, p, q);
  }

  /** The value at the point p. */
  lemma AtPoint(x: int, y: int, a0: int, a1: int, a2: int, b0: int, b1: int, b2: int, c0: int, c1: int, c2: int, c3: int, c4: int, p: int)
    requires Product(a0, a1, a2, b0, b1, b2, c0, c1, c2, c3, c4)
    requires x == a0 + p * (a1 + p * a2) && y == b0 + p * (b1 + p * b2)
    ensures x * y == c0 + c1 * p + c2 * (p * p) + c3 * (p * (p * p)) + c4 * ((p * p) * (p * p))
  {
    hide Product;
    Recombined(a0, a1, a2, b0, b1, b2, c0, c1, c2, c3, c4, p);
  }

  /** The products at the points in terms of the coefficients. */
  lemma Points(x1: int, y1: int, x3: int, y3: int, x2: int, y2: int,
               a0: int, a1: int, a2: int, b0: int, b1: int, b2: int) returns (c1: int, c2: int, c3: int)
    requires x1 == a2 + 2 * (a1 + 2 * a0) && y1 == b2 + 2 * (b1 + 2 * b0)
    requires x3 == a0 + 2 * (a1 + 2 * a2) && y3 == b0 + 2 * (b1 + 2 * b2)
    requires x2 == a2 + a1 + a0 && y2 == b2 + b1 + b0
    ensures Product(a0, a1, a2, b0, b1, b2, a0 * b0, c1, c2, c3, a2 * b2)
    ensures x1 * y1 == 16 * (a0 * b0) + 8 * c1 + 4 * c2 + 2 * c3 + a2 * b2
    ensures x3 * y3 == a0 * b0 + 2 * c1 + 4 * c2 + 8 * c3 + 16 * (a2 * b2)
    ensures x2 * y2 == a0 * b0 + c1 + c2 + c3 + a2 * b2
  {
    c1, c2, c3 := ProductParts(a0, a1, a2, b0, b1, b2);
    hide *;
    AtPoint(x1, y1, a2, a1, a0, b2, b1, b0, a2 * b2, c3, c2, c1, a0 * b0, 2);
    AtPoint(x3, y3, a0, a1, a2, b0, b1, b2, a0 * b0, c1, c2, c3, a2 * b2, 2);
    AtPoint(x2, y2, a0, a1, a2, b0, b1, b2, a0 * b0, c1, c2, c3, a2 * b2, 1);
  }

  lemma ProductParts(a0: int, a1: int, a2: int, b0: int, b1: int, b2: int) returns (c1: int, c2: int, c3: int)
    ensures Product(a0, a1, a2, b0, b1, b2, a0 * b0, c1, c2, c3, a2 * b2)
    ensures Product(a2, a1, a0, b2, b1, b0, a2 * b2, c3, c2, c1, a0 * b0)
  {
    c1, c2, c3 := a0 * b1 + a1 * b0, a0 * b2 + a1 * b1 + a2 * b0, a1 * b2 + a2 * b1;
  }

  lemma NoSlip(a: int, y: int, c: Config)
    requires Sound(c) && ((a < 0) == (y < 0) || Least(a, y, c) < c.toom)
    ensures Covered(a, y, c) && Slip(a, y, c) == 0
  {}

  /** The parts of a number with its sign. */
  lemma SignedThirds(a: int, m0: nat, m1: nat, m2: nat, p: int)
    requires Abs(a) == m0 + p * (m1 + p * m2)
    ensures var s := if a < 0 then -1 else 1; a == s * m0 + p * (s * m1 + p * (s * m2))
  {
    if a < 0 {
      MulDist(0, m2, p);
      MulDist(0, m1 + p * m2, p);
    }
  }

  /** The signs of the coefficients, and where the additions slip. */
  lemma SlipIs(a: int, y: int, u0: nat, u1: nat, u2: nat, v0: nat, v1: nat, v2: nat,
               w0: int, w1: int, w2: int, w3: int, w4: int, B: nat, c: Config)
    requires Sound(c) && Least(a, y, c) >= c.toom && B == Least(a, y, c) / 3 && u2 > 0 && v2 > 0
    requires var s, t := if a < 0 then -1 else 1, if y < 0 then -1 else 1;
      Product(s * u0, s * u1, s * u2, t * v0, t * v1, t * v2, w0, w1, w2, w3, w4)
    requires var p := NatPow(c.b, B);
      && u0 == Third(Abs(a), p, 0) && u1 == Third(Abs(a), p, 1) && u2 == Third(Abs(a), p, 2)
      && v0 == Third(Abs(y), p, 0) && v1 == Third(Abs(y), p, 1) && v2 == Third(Abs(y), p, 2)
    ensures (a < 0) == (y < 0) ==> w0 >= 0 && w1 >= 0 && w2 >= 0 && w3 >= 0 && w4 >= 0
    ensures (a < 0) != (y < 0) ==> w0 <= 0 && w1 <= 0 && w2 <= 0 && w3 <= 0 && w4 < 0
    ensures Slip(a, y, c) == if w4 < 0 then CarriedSlips(w0, w1, w2, w3, B, c.b) else 0
  {
    hide Third, Used, Pow, Slips;
    var s, t := if a < 0 then -1 else 1, if y < 0 then -1 else 1;
    MulPos(u2, v2);
    SignedProduct(s, t, u0, v0);
    SignedProduct(s, t, u0, v1);
    SignedProduct(s, t, u1, v0);
    SignedProduct(s, t, u0, v2);
    SignedProduct(s, t, u1, v1);
    SignedProduct(s, t, u2, v0);
    SignedProduct(s, t, u1, v2);
    SignedProduct(s, t, u2, v1);
    SignedProduct(s, t, u2, v2);
  }

  lemma SignedProduct(s: int, t: int, u: nat, v: nat)
    requires (s == 1 || s == -1) && (t == 1 || t == -1)
    ensures NatMul(u, v) == u * v && (s * u) * (t * v) == if s == t then u * v else -(u * v)
  {
    MulNonNeg(u, v);
  }

  function CarriedSlips(w0: int, w1: int, w2: int, w3: int, B: nat, b: nat): nat
    requires b >= 2
  {
    var p := NatPow(b, B);
    Slips(Abs(w0), Abs(w1), B, p, b) + Slips(Abs(w2), Abs(w3), B, NatMul(p, NatMul(p, p)), b)
  }

  /** The slip is far below the product, so the sign that mp_mul sets is the one there is. */
  lemma SlipSmall(a: int, y: int, c: Config)
    requires Sound(c)
    ensures Slip(a, y, c) == 0 || Slip(a, y, c) < Abs(a) * Abs(y)
  {
    var least := Least(a, y, c);
    if (a < 0) != (y < 0) && least >= c.toom {
      var B := least / 3;
      var p := NatPow(c.b, B);
      assert Slip(a, y, c) <= p + NatMul(p, NatMul(p, p));
      hide Slip, Used, Pow;
      ShiftWeights(B, c.b);
      AtLeastWeight(Abs(a), B, c.b);
      AtLeastWeight(Abs(y), B, c.b);
      MulMono2(p * p, Abs(a), p * p, Abs(y));
      PowMono(c.b, 1, B);
      FourthBeatsThird(p, c.b);
    }
  }

  lemma AtLeastWeight(v: nat, B: nat, b: nat)
    requires b >= 2 && 1 <= B && 3 * B <= Used(v, b)
    ensures Pow(b, 2 * B) <= v
  {
    hide Used, Pow;
    UsedBounds(v, b);
    NoDigitsOfZero(b);
    PowMono(b, 2 * B, Used(v, b) - 1);
  }

  lemma FourthBeatsThird(p: nat, b: nat)
    requires p >= b >= 8
    ensures p + p * (p * p) < (p * p) * (p * p)
  {
    var q := p * p;
    MulMono(8, p, p);
    MulMono(8, p, p * q);
    MulSwap(p, p, q);
    MulMono(1, q, p);
  }

  lemma Signs(a: int, y: int)
    ensures a * y == if (a < 0) == (y < 0) then Abs(a) * Abs(y) else -(Abs(a) * Abs(y))
    ensures Abs(a) * Abs(y) >= 0
  {
    MulNonNeg(Abs(a), Abs(y));
  }

  // ----- Adding numbers that need not be clamped -----

  /** A value and its digit count, which may include leading zeros. */
  datatype Num = Num(value: int, used: nat)

  function Clean(v: int, b: nat): Num
    requires b >= 2
  {
    Num(v, Used(Abs(v), b))
  }

  /** mp_lshd does not clamp, so a shifted zero has k digits. */
  function Lshd(v: int, k: nat, b: nat): Num
    requires b >= 2
  {
    Num(v * Pow(b, k), Used(Abs(v), b) + k)
  }

  /** s_mp_sub of magnitudes: the borrow out of the last digit is lost. */
  function SubMagnitude(x: Num, y: Num, b: nat): int {
    var d := Abs(x.value) - Abs(y.value);
    if d >= 0 then d else d + Pow(b, x.used)
  }

  /** mp_add: the magnitudes are compared by their digit counts first. */
  function MpAdd(x: Num, y: Num, b: nat): int {
    if (x.value < 0) == (y.value < 0) then x.value + y.value
    else
      var less := x.used < y.used || (x.used == y.used && Abs(x.value) < Abs(y.value));
      var (g, d) := if less then (y.value, SubMagnitude(y, x, b)) else (x.value, SubMagnitude(x, y, b));
      if g < 0 then -d else d
  }

  /** The digit count is that of the value. */
  predicate Proper(x: Num, b: nat)
    requires b >= 2
  {
    x.used == Used(Abs(x.value), b)
  }

  lemma AddProper(x: Num, y: Num, b: nat)
    requires b >= 2 && Proper(x, b) && Proper(y, b)
    ensures MpAdd(x, y, b) == x.value + y.value
  {
    hide Used, Pow;
    var m, n := Abs(x.value), Abs(y.value);
    UsedBounds(m, b);
    UsedBounds(n, b);
    NoDigitsOfZero(b);
    if x.used < y.used { PowMono(b, x.used, y.used - 1); }
    if y.used < x.used { PowMono(b, y.used, x.used - 1); }
  }

  /** Where a zero of k digits meets a negative number of fewer digits, b^k too much comes out. */
  lemma AddZero(x: Num, k: nat, b: nat)
    requires b >= 2 && Proper(x, b)
    ensures MpAdd(x, Num(0, k), b) == x.value + if x.value < 0 && x.used < k then Pow(b, k) else 0
    ensures x.used > k ==> MpAdd(Num(0, k), x, b) == x.value
    ensures x.value >= 0 ==> MpAdd(Num(0, k), x, b) == x.value
  {
  }

  lemma LshdProper(v: int, k: nat, b: nat)
    requires b >= 2 && v != 0
    ensures Proper(Lshd(v, k, b), b) && Abs(v * Pow(b, k)) == Abs(v) * Pow(b, k)
  {
    hide Used, Pow;
    var m, p := Abs(v), Pow(b, k);
    PowPos(b, k);
    UsedBounds(m, b);
    var u := Used(m, b);
    PowAdd(b, u, k);
    PowAdd(b, u - 1, k);
    MulMono(Pow(b, u - 1), m, p);
    MulStrict(m, Pow(b, u), p);
    if v < 0 {
      MulDist(0, m, p);
      MulNonNeg(m, p);
    } else {
      MulNonNeg(m, p);
    }
    UsedUnique(m * p, u + k, b);
  }

  /** Two neighbouring coefficients of one sign, the higher one shifted by B digits more. */
  lemma AddShifted(lo: int, hi: int, k: nat, B: nat, b: nat)
    requires b >= 2 && B >= 1 && ((lo >= 0 && hi >= 0) || (lo <= 0 && hi <= 0))
    ensures MpAdd(Lshd(lo, k, b), Lshd(hi, k + B, b), b) ==
      lo * Pow(b, k) + hi * Pow(b, k + B) + if lo < 0 then Slips(Abs(lo), Abs(hi), B, NatPow(b, k + B), b) else 0
  {
    hide Used, Pow;
    PowPos(b, k);
    PowPos(b, k + B);
    NoDigitsOfZero(b);
    if lo != 0 {
      LshdProper(lo, k, b);
      if lo > 0 { MulPos(lo, Pow(b, k)); } else { MulDist(0, -lo, Pow(b, k)); MulPos(-lo, Pow(b, k)); }
    }
    if hi != 0 {
      LshdProper(hi, k + B, b);
      if hi > 0 { MulPos(hi, Pow(b, k + B)); } else { MulDist(0, -hi, Pow(b, k + B)); MulPos(-hi, Pow(b, k + B)); }
    }
    if lo != 0 && hi != 0 {
      AddProper(Lshd(lo, k, b), Lshd(hi, k + B, b), b);
    } else if lo != 0 {
      AddZero(Lshd(lo, k, b), k + B, b);
    } else if hi != 0 {
      AddZero(Lshd(hi, k + B, b), k, b);
    }
  }

  /** The shifted coefficients of one sign add up, but for the slips of negative ones. */
  lemma AssembledIs(w0: int, w1: int, w2: int, w3: int, w4: int, B: nat, b: nat)
    requires b >= 2 && B >= 1
    requires (w0 >= 0 && w1 >= 0 && w2 >= 0 && w3 >= 0 && w4 >= 0) || (w0 <= 0 && w1 <= 0 && w2 <= 0 && w3 <= 0 && w4 < 0)
    ensures var p := Pow(b, B);
      Assembled(w0, w1, w2, w3, w4, B, b) ==
        w0 + w1 * p + w2 * (p * p) + w3 * (p * (p * p)) + w4 * ((p * p) * (p * p))
        + if w4 < 0 then CarriedSlips(w0, w1, w2, w3, B, b) else 0
  {
    hide Used, Pow, MpAdd, Lshd, Clean, Slips, CarriedSlips;
    var low := MpAdd(Clean(w0, b), Lshd(w1, B, b), b);
    AddLow(w0, w1, B, b);
    var mid := MpAdd(Lshd(w2, 2 * B, b), Lshd(w3, 3 * B, b), b);
    AddShifted(w2, w3, 2 * B, B, b);
    if w4 >= 0 {
      MidNonNeg(w2, w3, B, b);
    }
    var high := MpAdd(Lshd(w4, 4 * B, b), Clean(mid, b), b);
    AddHigh(w4, mid, B, b);
    AddClean(high, low, b);
    AddedUp(low, mid, w0, w1, w2, w3, w4, B, b);
  }

  lemma MidNonNeg(w2: int, w3: int, B: nat, b: nat)
    requires b >= 2 && w2 >= 0 && w3 >= 0
    ensures w2 * Pow(b, 2 * B) + w3 * Pow(b, 3 * B) >= 0
  {
    PowPos(b, 2 * B);
    PowPos(b, 3 * B);
    MulNonNeg(w2, Pow(b, 2 * B));
    MulNonNeg(w3, Pow(b, 3 * B));
  }

  lemma AddedUp(low: int, mid: int, w0: int, w1: int, w2: int, w3: int, w4: int, B: nat, b: nat)
    requires b >= 2
    requires (w0 >= 0 && w2 >= 0 && w4 >= 0) || (w0 <= 0 && w2 <= 0 && w4 < 0)
    requires low == w0 + w1 * Pow(b, B) + if w0 < 0 then Slips(Abs(w0), Abs(w1), B, NatPow(b, B), b) else 0
    requires mid == w2 * Pow(b, 2 * B) + w3 * Pow(b, 3 * B) + if w2 < 0 then Slips(Abs(w2), Abs(w3), B, NatPow(b, 3 * B), b) else 0
    ensures var p := Pow(b, B);
      w4 * Pow(b, 4 * B) + mid + low ==
      w0 + w1 * p + w2 * (p * p) + w3 * (p * (p * p)) + w4 * ((p * p) * (p * p))
      + if w4 < 0 then CarriedSlips(w0, w1, w2, w3, B, b) else 0
  {
    ShiftWeights(B, b);
    NothingSlips(w1, B, NatPow(b, B), b);
    NothingSlips(w3, B, NatPow(b, 3 * B), b);
    hide Used, Pow, Slips;
  }

  lemma NothingSlips(hi: int, B: nat, weight: nat, b: nat)
    requires b >= 2
    ensures Slips(0, Abs(hi), B, weight, b) == 0
  {}

  lemma ShiftWeights(B: nat, b: nat)
    requires b >= 1
    ensures var p := NatPow(b, B);
      && Pow(b, 2 * B) == p * p && Pow(b, 3 * B) == p * (p * p) && Pow(b, 4 * B) == (p * p) * (p * p)
      && NatMul(p, NatMul(p, p)) == Pow(b, 3 * B)
  {
    hide Pow;
    PowAdd(b, B, B);
    PowAdd(b, B, 2 * B);
    PowAdd(b, 2 * B, 2 * B);
  }

  lemma AddLow(w0: int, w1: int, B: nat, b: nat)
    requires b >= 2 && B >= 1 && ((w0 >= 0 && w1 >= 0) || (w0 <= 0 && w1 <= 0))
    ensures MpAdd(Clean(w0, b), Lshd(w1, B, b), b) ==
      w0 + w1 * Pow(b, B) + if w0 < 0 then Slips(Abs(w0), Abs(w1), B, NatPow(b, B), b) else 0
  {
    AddShifted(w0, w1, 0, B, b);
    assert Lshd(w0, 0, b) == Clean(w0, b);
  }

  lemma AddClean(x: int, y: int, b: nat)
    requires b >= 2
    ensures MpAdd(Clean(x, b), Clean(y, b), b) == x + y
  {
    hide Used, MpAdd;
    AddProper(Clean(x, b), Clean(y, b), b);
  }

  lemma AddHigh(w4: int, mid: int, B: nat, b: nat)
    requires b >= 2 && (w4 != 0 || (mid >= 0 && w4 == 0))
    ensures MpAdd(Lshd(w4, 4 * B, b), Clean(mid, b), b) == w4 * Pow(b, 4 * B) + mid
  {
    hide Used, MpAdd;
    if w4 != 0 {
      LshdProper(w4, 4 * B, b);
      AddProper(Lshd(w4, 4 * B, b), Clean(mid, b), b);
    } else {
      NoDigitsOfZero(b);
      assert Lshd(w4, 4 * B, b) == Num(0, 4 * B);
      AddZero(Clean(mid, b), 4 * B, b);
    }
  }
}
