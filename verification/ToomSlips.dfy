/** Products that mp_mul gets wrong, in its last additions and in the products at the points. */
module ToomSlips {
  import opened Arith
  import opened Digits
  import opened ToomCook

  /** A slip is one of the weights b^B and b^(3B), or both, and only operands of Toom-Cook size and opposite signs slip. */
  lemma SlipShape(a: int, y: int, c: Config)
    requires Sound(c)
    ensures var p := Weight(a, y, c); Slip(a, y, c) in {0, p, NatMul(p, NatMul(p, p)), p + NatMul(p, NatMul(p, p))}
    ensures Slip(a, y, c) > 0 ==> Least(a, y, c) >= c.toom && (a < 0) != (y < 0)
  {
    hide Used, Pow, Third;
  }

  /** Numbers with little below, zeros in the middle and anything on top: only the first addition slips. */
  lemma EndsSlip(v: nat, w: nat, i: nat, j: nat, hv: nat, hw: nat, B: nat, c: Config)
    requires Sound(c) && B >= 1 && Least(v, w, c) / 3 == B && Least(v, w, c) >= c.toom && v > 0 && w > 0
    requires v == i + Pow(c.b, 2 * B) * hv && w == j + Pow(c.b, 2 * B) * hw && i < Pow(c.b, B) && j < Pow(c.b, B)
    requires Used(NatMul(i, j), c.b) < B && (NatMul(i, hw) + NatMul(hv, j) == 0 || Used(NatMul(i, hw) + NatMul(hv, j), c.b) >= B)
    ensures Slip(0 - v, w, c) == Slip(v, 0 - w, c) == if i == 0 || j == 0 then 0 else Pow(c.b, B)
  {
    hide Pow, Slips, Third, Slip, Used;
    var b, p := c.b, NatPow(c.b, B);
    PowPos(b, B);
    EndsThirds(v, i, hv, B, b);
    EndsThirds(w, j, hw, B, b);
    NoMiddle(i, j, hv, hw);
    EndsSlips(i, j, NatMul(i, hw) + NatMul(hv, j), B, p, NatMul(p, NatMul(p, p)), b);
    SlipOfOpposites(v, w, B, c);
  }

  lemma NoMiddle(i: nat, j: nat, hv: nat, hw: nat)
    ensures NatMul(i, 0) + NatMul(0, j) == 0 && NatMul(0, 0) == 0 && NatMul(0, hw) + NatMul(hv, 0) == 0
    ensures NatMul(i, j) == 0 <==> i == 0 || j == 0
  {
    if i > 0 && j > 0 { MulPos(i, j); }
  }

  lemma EndsSlips(i: nat, j: nat, low: nat, B: nat, p: nat, weight: nat, b: nat)
    requires b >= 2 && Used(NatMul(i, j), b) < B && (low == 0 || Used(low, b) >= B) && (NatMul(i, j) == 0 <==> i == 0 || j == 0)
    ensures Slips(NatMul(i, j), 0, B, p, b) == (if i == 0 || j == 0 then 0 else p) && Slips(low, 0, B, weight, b) == 0
  {
    hide Used;
  }

  /** With a one below in both, the product of opposite signs comes out b^B too large. */
  lemma SlippingProduct(v: nat, w: nat, hv: nat, hw: nat, B: nat, c: Config)
    requires Sound(c) && B >= 2 && Least(v, w, c) / 3 == B && Least(v, w, c) >= c.toom > Least(v, w, c) - 2 * B + 1
    requires v == 1 + Pow(c.b, 2 * B) * hv && w == 1 + Pow(c.b, 2 * B) * hw && Used(hv + hw, c.b) >= B
    ensures Slip(0 - v, w, c) == Slip(v, 0 - w, c) == Pow(c.b, B) > 0
    ensures MulValue(0 - v, w, c) == Pow(c.b, B) - v * w && MulValue(v, 0 - w, c) == Pow(c.b, B) - v * w
  {
    hide Pow, MulValue, Slip, Used;
    PowPos(c.b, B);
    OnesSlip(v, w, hv, hw, B, c);
    assert Least(0 - v, w, c) == Least(v, w, c) == Least(v, 0 - w, c);
    MulSlips(0 - v, w, c);
    MulSlips(v, 0 - w, c);
  }

  lemma OnesSlip(v: nat, w: nat, hv: nat, hw: nat, B: nat, c: Config)
    requires Sound(c) && B >= 2 && Least(v, w, c) / 3 == B && Least(v, w, c) >= c.toom
    requires v == 1 + Pow(c.b, 2 * B) * hv && w == 1 + Pow(c.b, 2 * B) * hw && Used(hv + hw, c.b) >= B
    ensures Slip(0 - v, w, c) == Slip(v, 0 - w, c) == Pow(c.b, B)
  {
    hide Pow, Slip, Used;
    NonZeroEnds(hv, B, c.b);
    NonZeroEnds(hw, B, c.b);
    assert NatMul(1, 1) == 1 && NatMul(1, hw) == hw && NatMul(hv, 1) == hv;
    OneIsShort(c.b, B);
    EndsSlip(v, w, 1, 1, hv, hw, B, c);
  }

  lemma OneIsShort(b: nat, B: nat)
    requires b >= 2 && B >= 1
    ensures Used(1, b) == 1 < Pow(b, B)
  {
    UsedUnique(1, 1, b);
    assert Pow(b, 1) == b;
    hide Used, Pow;
    PowMono(b, 1, B);
  }

  lemma NonZeroEnds(h: nat, B: nat, b: nat)
    requires b >= 2
    ensures 1 + Pow(b, 2 * B) * h > 0
  {
    PowPos(b, 2 * B);
    MulNonNeg(Pow(b, 2 * B), h);
  }

  /** For opposite signs the slip is that of the magnitudes. */
  lemma SlipOfOpposites(v: nat, w: nat, B: nat, c: Config)
    requires Sound(c) && v > 0 && w > 0 && B == Least(v, w, c) / 3 && Least(v, w, c) >= c.toom
    ensures var p := NatPow(c.b, B);
      && p > 0 && Slip(0 - v, w, c) == Slip(v, 0 - w, c) ==
        Slips(NatMul(Third(v, p, 0), Third(w, p, 0)), NatMul(Third(v, p, 0), Third(w, p, 1)) + NatMul(Third(v, p, 1), Third(w, p, 0)), B, p, c.b)
        + Slips(NatMul(Third(v, p, 0), Third(w, p, 2)) + NatMul(Third(v, p, 1), Third(w, p, 1)) + NatMul(Third(v, p, 2), Third(w, p, 0)),
                NatMul(Third(v, p, 1), Third(w, p, 2)) + NatMul(Third(v, p, 2), Third(w, p, 1)), B, NatMul(p, NatMul(p, p)), c.b)
  {
    hide Used, Pow, Third, Slips;
    PowPos(c.b, B);
  }

  lemma EndsThirds(v: nat, i: nat, h: nat, B: nat, b: nat)
    requires b >= 2 && v == i + Pow(b, 2 * B) * h && i < Pow(b, B)
    ensures var p := NatPow(b, B); p > 0 && Third(v, p, 0) == i && Third(v, p, 1) == 0 && Third(v, p, 2) == h
  {
    hide Pow, Rem, Quo;
    var p := NatPow(b, B);
    ShiftWeights(B, b);
    MulSwap(p, p, h);
    MulNonNeg(p, h);
    QuoRemUnique(v, p, p * h, i);
    QuoRemUnique(p * h, p, h, 0);
  }

  /** The smallest such pair: -(b^(3B-1) + 1) and b^(3B-1) + 1. */
  lemma SlippingSquare(B: nat, c: Config) returns (v: nat)
    requires Sound(c) && B >= 2 && B + 1 < c.toom <= 3 * B
    ensures v == NatPow(c.b, 3 * B - 1) + 1 && Used(v, c.b) == 3 * B
    ensures MulValue(0 - v, v, c) == Pow(c.b, B) - v * v && Pow(c.b, B) > 0
  {
    hide Used, Pow, MulValue, Slip;
    v := NatPow(c.b, 3 * B - 1) + 1;
    SlippingDigits(B, c.b);
    PowAdd(c.b, 2 * B, B - 1);
    SlippingProduct(v, v, NatPow(c.b, B - 1), NatPow(c.b, B - 1), B, c);
  }

  lemma SlippingDigits(B: nat, b: nat)
    requires b >= 8 && B >= 2
    ensures Used(NatPow(b, 3 * B - 1) + 1, b) == 3 * B && Used(1, b) == 1 && Used(2 * NatPow(b, B - 1), b) == B
  {
    hide Used;
    assert Pow(b, 3 * B) == b * Pow(b, 3 * B - 1) && Pow(b, B) == b * Pow(b, B - 1) && Pow(b, 1) == b && Pow(b, 0) == 1;
    PowPos(b, 3 * B - 1);
    PowPos(b, B - 1);
    MulMono(8, b, Pow(b, 3 * B - 1));
    MulMono(8, b, Pow(b, B - 1));
    hide Pow;
    UsedUnique(NatPow(b, 3 * B - 1) + 1, 3 * B, b);
    UsedUnique(1, 1, b);
    UsedUnique(2 * NatPow(b, B - 1), B, b);
  }

  // ----- Slips inside the five products -----

  /** The same error e in the values at 1/2, 1 and 2 spreads over the coefficients. */
  lemma InterpolatedShift(w0: int, c1: int, c2: int, c3: int, w4: int, f: int)
    ensures Interpolated(w0, 16 * w0 + 8 * c1 + 4 * c2 + 2 * c3 + w4 + 2 * f, w0 + c1 + c2 + c3 + w4 + 2 * f,
                         w0 + 2 * c1 + 4 * c2 + 8 * c3 + 16 * w4 + 2 * f, w4) == (c1 - 3 * f, c2 + 8 * f, c3 - 3 * f)
  {
    TruncatedExact(8 * w0 + 4 * c1 + 2 * c2 + c3 + f, 2);
    TruncatedExact(c1 + 2 * c2 + 4 * c3 + 8 * w4 + f, 2);
    TruncatedExact(c1 - 3 * f, 3);
    TruncatedExact(c3 - 3 * f, 3);
  }

  /** The point i of b^(9D-1) + 1, whose parts are 1, 0 and h = b^(3D-1). */
  function EndsPoint(i: nat, h: nat): nat {
    if i == 0 then 1 else if i == 1 then h + 4 else if i == 2 then h + 1 else if i == 3 then 1 + 4 * h else h
  }

  /** At every point but the two ends the product of Toom-Cook size slips by b^D. */
  lemma InnerSlip(D: nat, i: nat, c: Config)
    requires Sound(c) && D >= 3 && D + 1 < c.toom <= 3 * D && i < 5
    ensures var x := EndsPoint(i, NatPow(c.b, 3 * D - 1));
      x > 0 && MulValue(0 - x, x, c) == (if 1 <= i <= 3 then Pow(c.b, D) else 0) - x * x
  {
    hide Pow, MulValue, Slip, Used;
    var b, h, k := c.b, NatPow(c.b, 3 * D - 1), NatPow(c.b, D - 1);
    var x: int := EndsPoint(i, h);
    PowPos(b, 3 * D - 1);
    InnerSizes(D, b);
    PowAdd(b, 2 * D, D - 1);
    MulSwap(Pow(b, 2 * D), 4, k);
    if i == 0 {
      MulExact(0 - x, x, c);
    } else {
      var low, top := if i == 1 then 4 else if i == 4 then 0 else 1, if i == 3 then 4 * k else k;
      assert x == low + Pow(b, 2 * D) * top;
      InnerEnds(low, top, k, D, b);
      EndsSlip(x, x, low, low, top, top, D, c);
      assert Least(0 - x, x, c) == Least(x, x, c) == 3 * D;
      MulSlips(0 - x, x, c);
    }
    assert (0 - x) * x == 0 - x * x;
  }

  lemma InnerEnds(low: nat, top: nat, k: nat, D: nat, b: nat)
    requires b >= 8 && D >= 3 && low in {0, 1, 4} && (top == k || top == 4 * k) && k == NatPow(b, D - 1)
    ensures low < Pow(b, D) && Used(NatMul(low, low), b) < D
    ensures NatMul(low, top) + NatMul(top, low) == 0 || Used(NatMul(low, top) + NatMul(top, low), b) >= D
  {
    hide Used, Pow;
    assert NatMul(low, low) <= 16 && (low > 0 ==> NatMul(low, top) + NatMul(top, low) >= 2 * k);
    ShortSquares(b, D);
    UsedAtMost(NatMul(low, low), 2, b);
    PowPos(b, D - 1);
    if low > 0 {
      var t := NatMul(low, top) + NatMul(top, low);
      UsedBounds(t, b);
      if Used(t, b) < D { PowMono(b, Used(t, b), D - 1); }
    }
  }

  lemma ShortSquares(b: nat, D: nat)
    requires b >= 8 && D >= 3
    ensures 16 < Pow(b, 2) && 16 < Pow(b, D)
  {
    assert Pow(b, 2) == b * Pow(b, 1) && Pow(b, 1) == b;
    hide Pow;
    MulMono2(8, b, 8, b);
    PowMono(b, 2, D);
  }

  /** All points but the lowest have exactly 3D digits. */
  lemma InnerSizes(D: nat, b: nat)
    requires b >= 8 && D >= 3
    ensures var h := NatPow(b, 3 * D - 1);
      && Used(1, b) == 1 && Used(h + 4, b) == 3 * D && Used(h + 1, b) == 3 * D && Used(1 + 4 * h, b) == 3 * D && Used(h, b) == 3 * D
  {
    assert Pow(b, 1) == b && Pow(b, 0) == 1;
    hide Used, Pow;
    var h := NatPow(b, 3 * D - 1);
    PowStep(b, 3 * D - 1);
    PowMono(b, 1, 3 * D - 1);
    MulMono(8, b, h);
    UsedUnique(1, 1, b);
    UsedUnique(h + 4, 3 * D, b);
    UsedUnique(h + 1, 3 * D, b);
    UsedUnique(1 + 4 * h, 3 * D, b);
    UsedUnique(h, 3 * D, b);
  }

  lemma PointOfEnds(v: nat, h: nat, B: nat, i: nat, b: nat)
    requires b >= 2 && B >= 1 && v == 1 + Pow(b, 2 * B) * h && v > 0 && i < 5
    ensures var p := NatPow(b, B); p > 0 && Point(v, p, i) == EndsPoint(i, h) && Point(0 - v, p, i) == 0 - EndsPoint(i, h)
  {
    hide Pow, Third;
    OneIsShort(b, B);
    EndsThirds(v, 1, h, B, b);
  }

  /** What the five products of b^(9D-1) + 1 and its negative come to. */
  lemma TwiceToom(v: nat, h: nat, D: nat, c: Config)
    requires Sound(c) && D >= 3 && D + 1 < c.toom <= 3 * D && h == NatPow(c.b, 3 * D - 1)
    requires v == 1 + Pow(c.b, 6 * D) * h && Used(v, c.b) == 9 * D && v > 0
    ensures Least(0 - v, v, c) == 9 * D >= c.toom
    ensures var e := Pow(c.b, D);
      ToomValue(0 - v, v, c) == Combined(0 - 1, e - (h + 4) * (h + 4), e - (h + 1) * (h + 1), e - (1 + 4 * h) * (1 + 4 * h), 0 - h * h, 3 * D, c.b)
  {
    hide Pow, MulValue, Used, Third, Combined, Point;
    var p := NatPow(c.b, 3 * D);
    assert Least(0 - v, v, c) == 9 * D && Weight(0 - v, v, c) == p;
    forall i: nat | i < 5 ensures ProductAtEnds(v, h, D, i, c) {
      PointOfEnds(v, h, 3 * D, i, c.b);
      InnerSlip(D, i, c);
    }
    assert ProductAtEnds(v, h, D, 0, c) && ProductAtEnds(v, h, D, 1, c) && ProductAtEnds(v, h, D, 2, c)
        && ProductAtEnds(v, h, D, 3, c) && ProductAtEnds(v, h, D, 4, c);
  }

  ghost predicate ProductAtEnds(v: nat, h: nat, D: nat, i: nat, c: Config)
    requires Sound(c)
  {
    var p, x := NatPow(c.b, 3 * D), EndsPoint(i, h);
    p > 0 && MulValue(Point(0 - v, p, i), Point(v, p, i), c) == (if 1 <= i <= 3 then Pow(c.b, D) else 0) - x * x
  }

  function TwiceSum(f: nat, h: nat, p: int): int {
    0 - 1 - (3 * f) * p + (8 * f - 2 * h) * (p * p) - (3 * f) * (p * (p * p)) - (h * h) * ((p * p) * (p * p))
  }

  /** How far the product is off when the three inner products are off by 2f. */
  function TwiceMiss(f: int, p: int): int {
    (8 * f) * (p * p) - (3 * f) * p - (3 * f) * (p * (p * p))
  }

  lemma TwiceCombined(h: nat, D: nat, f: nat, b: nat)
    requires b >= 8 && D >= 3 && h == NatPow(b, 3 * D - 1) && 2 * f == Pow(b, D)
    ensures var e, p := 2 * f, Pow(b, 3 * D);
      Combined(0 - 1, e - (h + 4) * (h + 4), e - (h + 1) * (h + 1), e - (1 + 4 * h) * (1 + 4 * h), 0 - h * h, 3 * D, b) ==
      TwiceSum(f, h, p) <= 0
  {
    hide Pow, Interpolated, Assembled, CarriedSlips;
    SquareOfSum(h, 4);
    SquareOfSum(h, 1);
    assert (1 + 4 * h) * (1 + 4 * h) == 1 + 8 * h + 16 * (h * h) by { SquareOfSum(4 * h, 1); MulSwap(4, h, 4 * h); MulSwap(h, 4, h); }
    var w4 := 0 - h * h;
    InterpolatedShift(0 - 1, 0, 0 - 2 * h, 0, w4, f);
    PowPos(b, 3 * D - 1);
    PowPos(b, D);
    MulPos(h, h);
    assert 8 * f <= 2 * h by { TopBeatsError(D, b); }
    AssembledIs(0 - 1, 0 - 3 * f, 8 * f - 2 * h, 0 - 3 * f, w4, 3 * D, b);
    NothingCarried(0 - 1, 0 - 3 * f, 8 * f - 2 * h, 0 - 3 * f, 3 * D, b);
    PowPos(b, 3 * D);
    TwiceNegative(f, h, Pow(b, 3 * D));
  }

  lemma SquareOfSum(x: int, y: int)
    ensures (x + y) * (x + y) == x * x + 2 * (x * y) + y * y
  {
    MulDist(x, y, x + y);
    MulDist(x, y, x);
    MulDist(x, y, y);
  }

  lemma TopBeatsError(D: nat, b: nat)
    requires b >= 8 && D >= 3
    ensures 4 * Pow(b, D) <= 2 * Pow(b, 3 * D - 1)
  {
    hide Pow;
    PowStep(b, D);
    PowPos(b, D);
    MulMono(8, b, Pow(b, D));
    PowMono(b, D + 1, 3 * D - 1);
  }

  lemma NothingCarried(w0: int, w1: int, w2: int, w3: int, B: nat, b: nat)
    requires b >= 2 && w1 != 0 && w3 != 0
    ensures CarriedSlips(w0, w1, w2, w3, B, b) == 0
  {}

  lemma TwiceNegative(f: nat, h: nat, p: nat)
    requires f > 0 && p > 0 && 8 * f <= 2 * h
    ensures 0 - 1 - (3 * f) * p + (8 * f - 2 * h) * (p * p) - (3 * f) * (p * (p * p)) - (h * h) * ((p * p) * (p * p)) <= 0
    ensures (0 - 3 * f) * p == 0 - (3 * f) * p && (0 - 3 * f) * (p * (p * p)) == 0 - (3 * f) * (p * (p * p))
    ensures (0 - h * h) * ((p * p) * (p * p)) == 0 - (h * h) * ((p * p) * (p * p))
  {
    var q := p * p;
    MulNonNeg(p, p);
    MulNonNeg(q, q);
    MulNonNeg(p, q);
    MulNonNeg(3 * f, p);
    MulNonNeg(3 * f, p * q);
    MulNonNeg(h, h);
    MulNonNeg(h * h, q * q);
    MulNonNeg(2 * h - 8 * f, q);
    MulDist(0, 2 * h - 8 * f, q);
    MulDist(0, 3 * f, p);
    MulDist(0, 3 * f, p * q);
    MulDist(0, h * h, q * q);
  }

  /**
   * Three Toom-Cook products inside one: -(b^(9D-1) + 1) times b^(9D-1) + 1 is off by f * (8p^2 - 3p - 3p^3),
   * where p = b^(3D) and f is half of b^D.
   */
  lemma SlippingTwice(D: nat, c: Config) returns (v: nat)
    requires Sound(c) && c.b % 2 == 0 && D >= 3 && D + 1 < c.toom <= 3 * D
    ensures v == NatPow(c.b, 9 * D - 1) + 1
    ensures MulValue(0 - v, v, c) == 0 - v * v + TwiceMiss(Pow(c.b, D) / 2, Pow(c.b, 3 * D)) != 0 - v * v
  {
    assert c.b >= 8;
    hide *;
    v := EndsNumber(D, c.b);
    var f := HalfPower(D, c.b);
    TwiceValue(v, f, NatPow(c.b, 3 * D - 1), D, c);
  }

  lemma EndsNumber(D: nat, b: nat) returns (v: nat)
    requires b >= 8 && D >= 1
    ensures v == NatPow(b, 9 * D - 1) + 1 == 1 + Pow(b, 6 * D) * NatPow(b, 3 * D - 1) && Used(v, b) == 9 * D
  {
    hide Used, Pow;
    v := NatPow(b, 9 * D - 1) + 1;
    SlippingDigits(3 * D, b);
    PowAdd(b, 6 * D, 3 * D - 1);
  }

  lemma TwiceValue(v: nat, f: nat, h: nat, D: nat, c: Config)
    requires Sound(c) && D >= 3 && D + 1 < c.toom <= 3 * D && h == NatPow(c.b, 3 * D - 1) && 2 * f == Pow(c.b, D) && f > 0
    requires v == 1 + Pow(c.b, 6 * D) * h && Used(v, c.b) == 9 * D && v > 0
    ensures MulValue(0 - v, v, c) == 0 - v * v + TwiceMiss(f, Pow(c.b, 3 * D)) != 0 - v * v
  {
    hide Pow, Used, ToomValue, Combined, MulValue, TwiceSum, TwiceMiss;
    TwiceToom(v, h, D, c);
    TwiceCombined(h, D, f, c.b);
    OppositeValue(v, c);
    TwiceWeight(D, c.b);
    TwiceTotal(v, f, h, NatPow(c.b, 3 * D));
  }

  lemma TwiceWeight(D: nat, b: nat)
    requires b >= 8 && D >= 1
    ensures Pow(b, 3 * D) >= 8 && Pow(b, 6 * D) == Pow(b, 3 * D) * Pow(b, 3 * D)
  {
    assert Pow(b, 1) == b;
    hide Pow;
    PowAdd(b, 3 * D, 3 * D);
    PowMono(b, 1, 3 * D);
  }

  lemma OppositeValue(v: nat, c: Config)
    requires Sound(c) && v > 0 && Least(0 - v, v, c) >= c.toom && ToomValue(0 - v, v, c) <= 0
    ensures MulValue(0 - v, v, c) == ToomValue(0 - v, v, c)
  {
    hide ToomValue, Used;
  }

  lemma HalfPower(D: nat, b: nat) returns (f: nat)
    requires b >= 2 && b % 2 == 0 && D >= 1
    ensures 2 * f == Pow(b, D) && f == Pow(b, D) / 2 && f > 0
  {
    PowPos(b, D - 1);
    MulPos(b / 2, Pow(b, D - 1));
    MulSwap(2, b / 2, Pow(b, D - 1));
    f := b / 2 * Pow(b, D - 1);
  }

  lemma TwiceTotal(v: nat, f: nat, h: nat, p: nat)
    requires v == 1 + (p * p) * h && f > 0 && p >= 8
    ensures TwiceSum(f, h, p) == 0 - v * v + TwiceMiss(f, p) && TwiceMiss(f, p) != 0
  {
    var q := p * p;
    SquareOfSum(q * h, 1);
    assert (q * h) * (q * h) == (h * h) * (q * q) by { Gather2(h, h, q, q); }
    MulDist(8 * f, 2 * h, q);
    MulSwap(2, h, q);
    MulMono(8, p, p);
    MulMono(q, p * q, 1);
    MulMono(8, p, q);
    assert p * q >= 8 * q;
    MulMono(8 * q, p * q, 3 * f);
    MulSwap(3 * f, 8, q);
    MulSwap(8, f, q);
    MulPos(f, q);
    MulPos(3 * f, p);
    assert (8 * f) * q == 8 * (f * q) && (3 * f) * (8 * q) == 24 * (f * q) by { MulSwap(3, f, 8 * q); MulSwap(f, 8, q); }
  }
}
