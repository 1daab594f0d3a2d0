/** Integer roots by Newton iteration (bn_mp_n_root_ex.c, bn_mp_sqrt.c) and small powers (bn_mp_expt_d_ex.c). */
module Roots {
  import opened Arith
  import opened Digits
  import opened MontgomerySetup
  import opened Window
  import Division
  import ToomCook
  import ToomSlips
  import Multiplication
  import Squaring

  // ---- a^e for a single-digit exponent, in both bit orders ----

  lemma PowSquare(g: int, e: nat)
    ensures Pow(g * g, e) == Pow(g, 2 * e)
  {
    PowDistributes(g, g, e);
    PowAdd(g, e, e);
  }

  lemma SquareMultiply(c: int, g: int, e: nat)
    requires e > 0
    ensures c * Pow(g, e) == (if e % 2 == 1 then c * g else c) * (if e > 1 then Pow(g * g, e / 2) else 1)
  {
    var h := e / 2;
    PowSquare(g, h);
    if e % 2 == 1 {
      assert Pow(g, e) == g * Pow(g, 2 * h);
      MulSwap(c, g, Pow(g, 2 * h));
    }
  }

  /** Lines 56-73: the bits of e from the top, each product through mp_mul. */
  function HighPower(a: int, e: nat, c: ToomCook.Config): (r: int)
    requires ToomCook.Sound(c)
  {
    if e == 0 then 1
    else
      var h := HighPower(a, e / 2, c);
      if e % 2 == 1 then ToomCook.MulValue(h * h, a, c) else h * h
  }

  /** Lines 34-53: the bits of e from the bottom, with acc so far and g the current square. */
  function LowPower(acc: int, g: int, e: nat, c: ToomCook.Config): (r: int)
    requires ToomCook.Sound(c)
    decreases e
  {
    if e == 0 then acc else LowPower(if e % 2 == 1 then ToomCook.MulValue(acc, g, c) else acc, g * g, e / 2, c)
  }

  /** Nothing slips for a base that is not negative, or below the Toom-Cook cutoff. */
  lemma {:induction false} HighPowerExact(a: int, e: nat, c: ToomCook.Config)
    requires ToomCook.Sound(c) && (a >= 0 || Used(Abs(a), c.b) < c.toom)
    ensures HighPower(a, e, c) == Pow(a, e)
  {
    hide Used, Pow, ToomCook.MulValue;
    if e == 0 {
      PowZero(a);
    } else {
      var h := e / 2;
      HighPowerExact(a, h, c);
      PowAdd(a, h, h);
      PowAdd(a, h + h, 1);
      PowOneIs(a);
      SquareNonNeg(Pow(a, h));
      ToomCook.MulExact(Pow(a, h) * Pow(a, h), a, c);
    }
  }

  lemma SquareNonNeg(x: int)
    ensures x * x >= 0
  {}

  /** The same from the bottom, where an even exponent squares the sign away first. */
  lemma {:induction false} LowPowerExact(acc: int, g: int, e: nat, c: ToomCook.Config)
    requires ToomCook.Sound(c) && acc >= 0 && (g >= 0 || e % 2 == 0)
    ensures LowPower(acc, g, e, c) == acc * Pow(g, e)
    decreases e
  {
    hide Used, Pow, ToomCook.MulValue;
    PowZero(g);
    if e > 0 {
      SquareMultiply(acc, g, e);
      PowZero(g * g);
      SquareNonNeg(g);
      if e % 2 == 1 {
        MulNonNeg(acc, g);
        ToomCook.MulExact(acc, g, c);
        LowPowerExact(acc * g, g * g, e / 2, c);
      } else {
        LowPowerExact(acc, g * g, e / 2, c);
      }
    }
  }

  /** A result below the cutoff has only operands below it. */
  lemma {:induction false} LowPowerSmall(acc: int, g: int, e: nat, c: ToomCook.Config)
    requires ToomCook.Sound(c) && g != 0 && Used(Abs(acc * Pow(g, e)), c.b) < c.toom
    ensures LowPower(acc, g, e, c) == acc * Pow(g, e)
    decreases e
  {
    hide Used, Pow, ToomCook.MulValue;
    PowZero(g);
    if e > 0 {
      SquareMultiply(acc, g, e);
      PowZero(g * g);
      SquareNonZero(g);
      FactorIsSmall(acc, g, e, c);
      if e % 2 == 1 {
        ToomCook.MulExact(acc, g, c);
        LowPowerSmall(acc * g, g * g, e / 2, c);
      } else {
        LowPowerSmall(acc, g * g, e / 2, c);
      }
    }
  }

  lemma SquareNonZero(g: int)
    requires g != 0
    ensures g * g != 0
  {}

  lemma FactorIsSmall(acc: int, g: int, e: nat, c: ToomCook.Config)
    requires ToomCook.Sound(c) && g != 0 && Used(Abs(acc * Pow(g, e)), c.b) < c.toom
    ensures ToomCook.Least(acc, g, c) < c.toom
  {
    hide Used, Pow;
    PowNonZero(g, e);
    AbsProduct(acc, Pow(g, e));
    UsedBounds(Abs(acc * Pow(g, e)), c.b);
    UsedAtMost(Abs(acc), Used(Abs(acc * Pow(g, e)), c.b), c.b);
  }

  lemma {:induction false} PowNonZero(g: int, e: nat)
    requires g != 0
    ensures Pow(g, e) != 0
  {
    if e > 0 { PowNonZero(g, e - 1); }
  }

  lemma AbsProduct(x: int, z: int)
    requires z != 0
    ensures Abs(x) <= Abs(x * z)
  {
    assert Abs(x * z) == Abs(x) * Abs(z);
    MulMono(1, Abs(z), Abs(x));
  }

  /** Where mp_expt_d_ex gives the power whatever the sizes of its products. */
  predicate PowerSafe(a: int, e: nat, fast: bool, c: ToomCook.Config)
    requires ToomCook.Sound(c)
  {
    a >= 0 || if fast then e % 2 == 0 || Used(Abs(Pow(a, e)), c.b) < c.toom else Used(Abs(a), c.b) < c.toom
  }

  /**
   * mp_expt_d_ex: low bits first when fast, high bits first otherwise, where only DIGIT_BIT bits of e are
   * looked at. The products of a negative base can slip.
   */
  method ExptD(a: int, e: nat, fast: bool, m: Machine) returns (c: int)
    requires m.Valid()
    ensures fast ==> c == LowPower(1, a, e, m.Multipliers())
    ensures !fast ==> c == HighPower(a, NatRem(e, m.Radix()), m.Multipliers())
    ensures PowerSafe(a, if fast then e else NatRem(e, m.Radix()), fast, m.Multipliers()) ==>
      c == Pow(a, if fast then e else NatRem(e, m.Radix()))
  {
    hide Pow, Used, ToomCook.MulValue, ToomCook.Slip, ToomCook.Covered;
    ghost var k := m.Multipliers();
    if fast {
      if PowerSafe(a, e, true, k) {
        if a >= 0 || e % 2 == 0 { LowPowerExact(1, a, e, k); } else { LowPowerSmall(1, a, e, k); }
      }
      c := LowBitsFirst(a, e, m);
    } else {
      if PowerSafe(a, NatRem(e, m.Radix()), false, k) { HighPowerExact(a, NatRem(e, m.Radix()), k); }
      c := HighBitsFirst(a, e, m);
    }
  }

  /** A base that is not negative, as the root finder needs it. */
  method Power(a: nat, e: nat, fast: bool, m: Machine) returns (c: int)
    requires m.Valid() && e < m.Radix()
    ensures c == Pow(a, e)
  {
    hide Pow, Rem, HighPower, LowPower, Used;
    RemSmall(e, m.Radix());
    c := ExptD(a, e, fast, m);
  }

  lemma PowZero(g: int)
    ensures Pow(g, 0) == 1
  {
  }

  method LowBitsFirst(a: int, e: nat, m: Machine) returns (c: int)
    requires m.Valid()
    ensures c == LowPower(1, a, e, m.Multipliers())
  {
    hide Pow, Used, ToomCook.MulValue, ToomCook.Slip, ToomCook.Covered, ToomCook.Sound;
    c := 1;
    var g, b := a, e;
    while b > 0
      invariant 0 <= b && LowPower(c, g, b, m.Multipliers()) == LowPower(1, a, e, m.Multipliers())
      decreases b
    {
      if b % 2 != 0 {
        c := Multiplication.Mul(c, g, m.Multipliers());
      }
      if b > 1 {
        g := Squaring.MpSqr(g, m.Multipliers());
      } else {
        LastSquare(c, g, g * g, m.Multipliers());
      }
      b := b / 2;
    }
  }

  /** The square after the last bit is not used. */
  lemma LastSquare(acc: int, g: int, h: int, c: ToomCook.Config)
    requires ToomCook.Sound(c)
    ensures LowPower(acc, g, 0, c) == LowPower(acc, h, 0, c)
  {}

  method HighBitsFirst(a: int, e: nat, m: Machine) returns (c: int)
    requires m.Valid()
    ensures c == HighPower(a, NatRem(e, m.Radix()), m.Multipliers())
  {
    hide Pow, Feed, Val, Quo, Rem, Used, ToomCook.MulValue, ToomCook.Slip, ToomCook.Covered, ToomCook.Sound;
    var half, dw := NatPow(2, m.db - 1), NatPow(2, m.digitBits);
    PowPos(2, m.db - 1);
    PowPos(2, m.digitBits);
    c := 1;
    var b: nat := e;
    ghost var d: nat := NatRem(e, m.Radix());
    ghost var N: nat, low: nat := 0, d;
    FeedStart([d], m);
    FeedDigit([d], 1, 0, 0, 0, m);
    RemSmall(d, m.Radix());
    FeedSame([d], 0, m.db, d, d, e, 0, m);
    var x := 0;
    while x < m.db
      invariant 0 <= x <= m.db && c == HighPower(a, N, m.Multipliers())
      invariant Feed([d], 0, m.db - x, low, b, N, m)
    {
      low := FeedBit([d], 0, m.db - x, low, b, N, m);
      var y: nat := Quo(b, half) % 2;
      HighStep(a, N, y, m.Multipliers());
      c := Squaring.MpSqr(c, m.Multipliers());
      if y != 0 {
        c := Multiplication.Mul(c, a, m.Multipliers());
      }
      b := Shl(b, dw);
      N := 2 * N + y;
      x := x + 1;
    }
    FeedEnd([d], low, b, N, m);
    ValEmpty([], m.Radix());
    ValSnoc([], d, m.Radix());
    assert [] + [d] == [d];
  }

  lemma HighStep(a: int, N: nat, y: nat, c: ToomCook.Config)
    requires ToomCook.Sound(c) && y <= 1
    ensures var h := HighPower(a, N, c);
      HighPower(a, 2 * N + y, c) == if y == 1 then ToomCook.MulValue(h * h, a, c) else h * h
  {
    hide ToomCook.MulValue;
  }

  /** Only the low digit of the buffer is looked at. */
  lemma FeedSame(X: seq<nat>, k: nat, c: nat, low: nat, buf: nat, buf': nat, N: nat, m: Machine)
    requires m.Valid() && Feed(X, k, c, low, buf, N, m) && Rem(buf', m.Radix()) == Rem(buf, m.Radix())
    ensures Feed(X, k, c, low, buf', N, m)
  {}

  /** The cube of -(b^(3B-1) + 1) comes out b^B too large, in either order of the bits. */
  method SlippingCube(B: nat, fast: bool, m: Machine) returns (a: int, c: int)
    requires m.Valid() && 117 <= B <= 348
    ensures a == 0 - (Pow(m.Radix(), 3 * B - 1) + 1) && c == Pow(a, 3) + Pow(m.Radix(), B) && Pow(m.Radix(), B) > 0
  {
    hide Pow, Used, ToomCook.MulValue, PowerSafe, HighPower, LowPower;
    a := 0 - (NatPow(m.Radix(), 3 * B - 1) + 1);
    CubeSlips(B, m.Multipliers());
    CubeSteps(a, m.Multipliers());
    ThreeIsDigit(m);
    c := ExptD(a, 3, fast, m);
  }

  lemma ThreeIsDigit(m: Machine)
    requires m.Valid()
    ensures NatRem(3, m.Radix()) == 3
  {
    hide Pow;
    RemSmall(3, m.Radix());
  }

  lemma CubeSteps(a: int, c: ToomCook.Config)
    requires ToomCook.Sound(c)
    ensures HighPower(a, 3, c) == ToomCook.MulValue(a * a, a, c)
    ensures LowPower(1, a, 3, c) == ToomCook.MulValue(a, a * a, c)
    ensures Pow(a, 3) == a * (a * a)
  {
    assert Pow(a, 3) == a * Pow(a, 2) && Pow(a, 2) == a * Pow(a, 1);
    UsedUnique1(c.b);
    hide ToomCook.MulValue, Used, Pow;
    ToomCook.MulExact(1, a, c);
    assert HighPower(a, 0, c) == 1;
    assert HighPower(a, 1, c) == ToomCook.MulValue(1, a, c);
    assert LowPower(a, a * a, 1, c) == ToomCook.MulValue(a, a * a, c);
    PowOneIs(a);
  }

  /** A cube is right exactly if its last product does not slip. */
  lemma CubeExactly(a: int, c: ToomCook.Config)
    requires ToomCook.Sound(c) && ToomCook.Covered(a * a, a, c) && ToomCook.Covered(a, a * a, c)
    ensures HighPower(a, 3, c) == Pow(a, 3) <==> ToomCook.Slip(a * a, a, c) == 0
    ensures LowPower(1, a, 3, c) == Pow(a, 3) <==> ToomCook.Slip(a, a * a, c) == 0
  {
    hide ToomCook.MulValue, ToomCook.Slip, ToomCook.Covered, HighPower, LowPower, Pow;
    CubeSteps(a, c);
    ToomCook.MulSlips(a * a, a, c);
    ToomCook.MulSlips(a, a * a, c);
    assert (a * a) * a == a * (a * a);
  }

  lemma UsedUnique1(b: nat)
    requires b >= 2
    ensures Used(1, b) == 1
  {
    UsedUnique(1, 1, b);
  }

  lemma CubeSlips(B: nat, c: ToomCook.Config)
    requires ToomCook.Sound(c) && B >= 2 && B + 1 < c.toom <= 3 * B
    ensures var v := NatPow(c.b, 3 * B - 1) + 1; var a := 0 - v;
      && ToomCook.MulValue(a, a * a, c) == Pow(c.b, B) + a * (a * a)
      && ToomCook.MulValue(a * a, a, c) == Pow(c.b, B) + a * (a * a)
      && Pow(c.b, B) > 0
  {
    hide Used, Pow, ToomCook.MulValue, ToomCook.Slip;
    var b, h, q := c.b, NatPow(c.b, B - 1), NatPow(c.b, 3 * B - 1);
    var v: int := q + 1;
    var g: nat := q * h + 2 * h;
    assert q * h >= 0 by { MulNonNeg(q, h); }
    PowAdd(b, 2 * B, B - 1);
    assert v * v == 1 + Pow(b, 2 * B) * g by { SquareEnds(Pow(b, 2 * B), h, q); }
    CubeSizes(B, q, h, g, c);
    ToomSlips.SlippingProduct(v, v * v, h, g, B, c);
    ToomSlips.SlippingProduct(v * v, v, g, h, B, c);
    var a: int := 0 - v;
    assert a * a == v * v && a * (v * v) == 0 - v * (v * v);
    assert (v * v) * v == v * (v * v);
  }

  lemma SquareEnds(p: int, h: int, q: int)
    requires q == p * h
    ensures (q + 1) * (q + 1) == 1 + p * (q * h + 2 * h)
  {
    MulDist(q, 1, q + 1);
    MulDist(q * h, 2 * h, p);
    MulSwap(p, h, q);
    MulSwap(p, 2, h);
  }

  lemma CubeSizes(B: nat, q: nat, h: nat, g: nat, c: ToomCook.Config)
    requires ToomCook.Sound(c) && B >= 2 && q == NatPow(c.b, 3 * B - 1) && h == NatPow(c.b, B - 1) && g == q * h + 2 * h
    ensures (q + 1) * (q + 1) >= 0
    ensures ToomCook.Least(q + 1, (q + 1) * (q + 1), c) == 3 * B == ToomCook.Least((q + 1) * (q + 1), q + 1, c)
    ensures Used(h + g, c.b) >= B && Used(g + h, c.b) >= B
  {
    hide Used, Pow;
    var b := c.b;
    ToomSlips.SlippingDigits(B, b);
    MulMono(1, q + 1, q + 1);
    UsedAtLeast(q + 1, (q + 1) * (q + 1), b);
    MulNonNeg(q, h);
    UsedAtLeast(2 * h, h + g, b);
  }

  lemma UsedAtLeast(v: nat, w: nat, b: nat)
    requires b >= 2 && v <= w
    ensures Used(v, b) <= Used(w, b)
  {
    hide Used;
    UsedBounds(w, b);
    UsedAtMost(v, Used(w, b), b);
  }

  lemma PowOneIs(a: int)
    ensures Pow(a, 1) == a
  {
  }

  // ---- the tangent of x^b lies below its graph ----

  /** y^b >= t^b + b * t^(b-1) * (y - t) */
  lemma {:induction false} Tangent(y: nat, t: nat, b: nat)
    requires b >= 1
    ensures Pow(y, b) >= Pow(t, b) + b * Pow(t, b - 1) * (y - t)
  {
    PowPos0(t, b - 1);
    if b == 1 {
      PowOneIs(y);
      PowOneIs(t);
      PowZero(t);
    } else {
      Tangent(y, t, b - 1);
      PowPos0(t, b - 2);
      var p, q := Pow(t, b - 1), Pow(t, b - 2);
      assert Pow(y, b) == y * Pow(y, b - 1) && Pow(t, b) == t * p && p == t * q;
      hide Pow;
      TangentAlgebra(y, t, b - 1, p, q, Pow(y, b - 1));
    }
  }

  lemma PowPos0(t: nat, e: nat)
    ensures Pow(t, e) >= 0
  {
    PowNat(t, e);
  }

  lemma TangentAlgebra(y: nat, t: nat, c: nat, p: nat, q: nat, z: int)
    requires p == t * q && z >= p + c * q * (y - t)
    ensures y * z >= t * p + (c + 1) * p * (y - t)
  {
    var d := y - t;
    var w := c * q * d;
    MulMono(p + w, z, y);
    assert y * (p + w) == t * p + d * p + t * w + d * w by {
      assert y == t + d;
      MulDist(t, d, p + w);
      MulDist(p, w, t);
      MulDist(p, w, d);
    }
    assert t * w == c * p * d by {
      MulSwap(t, c * q, d);
      MulSwap(t, c, q);
    }
    assert d * w >= 0 by {
      MulNonNeg(c, q);
      MulSwap(d, c * q, d);
      assert d * d >= 0;
      MulNonNeg(c * q, d * d);
    }
    assert (c + 1) * p * d == c * p * d + p * d by { MulDist(c, 1, p); MulDist(c * p, p, d); }
  }

  // ---- n-th root ----

  /** What the two halves of a Newton step promise. */
  lemma NewtonDown(t: nat, a: nat, b: nat, e: nat)
    requires b >= 1 && t >= 1 && Pow(t, b) >= a && e * (b * Pow(t, b - 1)) <= Pow(t, b) - a
    ensures e <= t && Pow(t - e, b) >= a && (b >= 2 ==> t - e >= 1)
  {
    var p := Pow(t, b - 1);
    PowPos(t, b - 1);
    assert Pow(t, b) == t * p;
    assert e * b <= t by {
      hide Pow;
      MulSwap(e, b, p);
      if e * b > t { MulStrict(t, e * b, p); }
    }
    assert e <= t by { MulMono(1, b, e); }
    if b >= 2 { MulMono(2, b, e); }
    Tangent(t - e, t, b);
    hide Pow;
    assert b * p * ((t - e) - t) == -(e * (b * p)) by { MulSwap(e, b, p); }
  }

  lemma StoppedBelow(t: nat, a: nat, b: nat)
    requires b >= 1 && Pow(t, b) <= a < Pow(t, b) + b * Pow(t, b - 1)
    ensures a < Pow(t + 1, b)
  {
    Tangent(t + 1, t, b);
  }

  lemma BelowArgument(t: nat, a: nat, b: nat)
    requires b >= 1 && t >= 1 && Pow(t, b) < a
    ensures t < a
  {
    PowPos(t, b - 1);
    MulPos(t, Pow(t, b - 1));
  }

  /** One Newton step, t - (t^b - a) / (b * t^(b-1)) with the quotient truncated toward zero. */
  method NewtonStep(t: nat, a: nat, b: nat, fast: bool, m: Machine) returns (r: nat)
    requires m.Valid() && 1 <= b < m.Radix() && (t >= 1 || b == 1)
    ensures r >= 1 || b == 1
    ensures Pow(t, b) >= a ==> r <= t && Pow(r, b) >= a
    ensures Pow(t, b) < a ==> r >= t
    ensures r == t ==> Pow(t, b) > a || a < Pow(t + 1, b)
  {
    var p := Power(t, b - 1, fast, m);
    assert Pow(t, b) == p * t && p >= 0 && (t >= 1 || b == 1 ==> p >= 1) by {
      PowNat(t, b - 1);
      if t >= 1 { PowPos(t, b - 1); }
    }
    var num, den := p * t - a, p * b;
    hide Pow, Quo;
    assert den >= 1 by { MulPos(p, b); }
    var qr := Division.Div(num, den, m.db);
    var q, rest := qr.value.0, qr.value.1;
    assert den == b * p;
    SignOfQuotient(num, den, q, rest);
    if num >= 0 {
      if t >= 1 {
        NewtonDown(t, a, b, q);
      } else {
        ZeroRoot(a, b, num, den, q);
      }
    }
    if q == 0 && num <= 0 { StoppedBelow(t, a, b); }
    r := t - q;
  }

  lemma SignOfQuotient(num: int, den: int, q: int, rest: int)
    requires den >= 1 && num == q * den + rest && Abs(rest) < den
    requires (rest > 0 ==> num > 0) && (rest < 0 ==> num < 0)
    ensures num >= 0 ==> q >= 0 && q * den <= num
    ensures num < 0 ==> q <= 0
    ensures q == 0 ==> Abs(num) < den
  {
    if num >= 0 && q < 0 { MulMono(q, -1, den); }
    if num < 0 && q > 0 { MulMono(1, q, den); }
  }

  /** From t = 0 the root of degree one is already found. */
  lemma ZeroRoot(a: nat, b: nat, num: int, den: int, q: int)
    requires b == 1 && num == 0 - a && num >= 0 && den >= 1 && q * den <= num && q >= 0
    ensures a == 0 && q == 0 && Pow(0, b) >= a
  {
    if q > 0 { MulMono(1, q, den); }
    PowOneIs(0);
  }

  /** mp_n_root_ex on a magnitude: the truncated b-th root. */
  method NRootMagnitude(a: nat, b: nat, fast: bool, m: Machine) returns (c: nat)
    requires m.Valid() && 1 <= b < m.Radix()
    ensures Pow(c, b) <= a < Pow(c + 1, b)
  {
    hide Pow;
    var t1: nat, t2: nat := 2, 2;
    while true
      invariant t2 >= 1 || b == 1
      decreases if Pow(t2, b) < a then 1 else 0, if Pow(t2, b) < a then a - t2 else t2
    {
      t1 := t2;
      t2 := NewtonStep(t1, a, b, fast, m);
      if t1 == t2 {
        break;
      }
      if Pow(t1, b) < a && t1 >= 1 { BelowArgument(t1, a, b); }
      if Pow(t2, b) < a && t2 >= 1 { BelowArgument(t2, a, b); }
    }
    c := t1;
    while true
      invariant Pow(c, b) > a || a < Pow(c + 1, b)
      decreases c
    {
      var p := Power(c, b, fast, m);
      if p <= a {
        break;
      }
      ZeroPower(c, b);
      c := c - 1;
    }
  }

  lemma ZeroPower(c: nat, b: nat)
    requires b >= 1
    ensures c == 0 ==> Pow(c, b) == 0
  {
  }

  /** mp_n_root_ex: an error exactly for an even root of a negative number. */
  method NRoot(a: int, b: nat, fast: bool, m: Machine) returns (r: Option<int>)
    requires m.Valid() && b < m.Radix()
    ensures r.None? <==> b == 0 || (b % 2 == 0 && a < 0)
    ensures r.Some? ==> Pow(Abs(r.value), b) <= Abs(a) < Pow(Abs(r.value) + 1, b)
    ensures r.Some? ==> (a >= 0 ==> r.value >= 0) && (a < 0 ==> r.value <= 0)
  {
    if b % 2 == 0 && a < 0 {
      return None;
    }
    if b == 0 {
      return None;  // the first denominator b * t1^(b - 1) is zero, and mp_div refuses it
    }
    var c := NRootMagnitude(Abs(a), b, fast, m);
    r := Some(if a < 0 then -(c as int) else c as int);
  }

  // ---- square root ----

  lemma DifferenceOfSquares(s: int, d: int)
    ensures (s + d) * (s - d) == s * s - d * d
  {
  }

  /** Dividing by t and averaging never falls below the root. */
  lemma AverageAbove(n: nat, t: nat, q: nat, s: nat)
    requires t >= 1 && q * t <= n < (q + 1) * t && s * s <= n
    ensures (t + q) / 2 >= s
  {
    var d := s - t;
    assert (s + d) * t == s * s - d * d by { DifferenceOfSquares(s, d); }
    assert d * d >= 0;
    if q + 1 <= s + d { MulMono(q + 1, s + d, t); }
  }

  /** From above the root the next value is smaller, or equals the quotient and is the root. */
  lemma AverageStep(n: nat, t: nat, q: nat, s: nat)
    requires t >= 1 && q * t <= n < (q + 1) * t && s * s <= n < (s + 1) * (s + 1) && t > s
    ensures q < t && (t + q) / 2 < t && ((t + q) / 2 <= q ==> (t + q) / 2 == s)
  {
    assert q <= s by {
      if q > s { MulMono2(s + 1, q, s + 1, t); }
    }
    AverageAbove(n, t, q, s);
  }

  /** The one bad case: iterating once more from the root itself when n = s^2 + 2s. */
  lemma AverageAtRoot(n: nat, q: nat, s: nat)
    requires s >= 1 && q * s <= n < (q + 1) * s && s * s <= n < (s + 1) * (s + 1)
    ensures s <= q <= s + 2 && (q == s + 2 <==> n == s * s + 2 * s)
    ensures q < s + 2 ==> (s + q) / 2 == s
  {
    assert q >= s by { if q < s { MulMono(q + 1, s, s); } }
    assert (s + 3) * s == s * s + 3 * s;
    assert q <= s + 2 by { if q >= s + 3 { MulMono(s + 3, q, s); } }
    assert (s + 1) * (s + 1) == s * s + 2 * s + 1;
    assert (s + 2) * s == s * s + 2 * s;
    if q < s + 2 { MulMono(q + 1, s + 2, s); }
  }

  /** Averaging reaches the root from n = s^2 + 2s only out of t = s + 1. */
  lemma OnlyFromNext(n: nat, t: nat, q: nat, s: nat)
    requires t >= 1 && q * t <= n < (q + 1) * t && n == s * s + 2 * s && (t + q) / 2 == s
    ensures t == s + 1
  {
    assert q + 1 <= 2 * s + 2 - t;
    MulMono(q + 1, 2 * s + 2 - t, t);
    DifferenceOfSquares(s + 1, s + 1 - t);
    assert (s + 1) * (s + 1) == n + 1;
    SquareBelowOne(s + 1 - t);
  }

  lemma SquareBelowOne(d: int)
    requires d * d < 1
    ensures d == 0
  {
    if d >= 1 { MulMono(1, d, d); }
    if d <= -1 { MulMono(1, -d, -d); }
  }

  /** A digit shift of (u-1)(u+1) never yields u, so the start value avoids the bad case. */
  lemma ShiftAvoids(u: nat, D: nat)
    requires u >= 1 && D >= 1
    ensures (u * u - 1) / D != u
  {
    var n := u * u - 1;
    if n / D == u {
      DivModSpec(n, D);
      assert u * D <= n < (u + 1) * D by { MulDist(u, 1, D); }
      assert n == (u - 1) * (u + 1);
      if u <= D { MulMono(u, D, u); }
      if u > D { MulMono(D + 1, u, u + 1); MulMono(D, u - 1, u + 1); }
    }
  }

  ghost predicate IsRoot(s: nat, n: nat) {
    s * s <= n < (s + 1) * (s + 1)
  }

  lemma {:induction false} RootExists(n: nat) returns (s: nat)
    ensures IsRoot(s, n)
  {
    if n == 0 {
      s := 0;
    } else {
      s := RootExists(n - 1);
      if (s + 1) * (s + 1) <= n {
        s := s + 1;
        MulMono2(s, s + 1, s, s + 1);
        assert (s + 1) * (s + 1) == s * s + 2 * s + 1;
      }
    }
  }

  /** t can start a round of the loop: not below the root, and not the one bad pair. */
  ghost predicate MayIterate(t: nat, n: nat, s: nat) {
    t >= 1 && t >= s && !(t == s && n == s * s + 2 * s)
  }

  lemma Round(n: nat, t: nat, q: nat, s: nat)
    requires n >= 1 && IsRoot(s, n) && MayIterate(t, n, s) && q * t <= n < (q + 1) * t
    ensures var h := (t + q) / 2;
            (h <= q ==> h == s) && (h > q ==> h < t && MayIterate(h, n, s))
  {
    var h := (t + q) / 2;
    assert s >= 1;
    assert (s + 1) * s == s * s + s;
    AverageAbove(n, t, q, s);
    if t > s {
      AverageStep(n, t, q, s);
      if h > q && h == s && n == s * s + 2 * s {
        OnlyFromNext(n, t, q, s);
        if q < s { MulMono(q + 1, s, s + 1); }
      }
    } else {
      AverageAtRoot(n, q, s);
    }
  }

  lemma FirstRound(n: nat, D: nat, t: nat, q: nat, s: nat)
    requires n >= 1 && IsRoot(s, n) && D >= 1 && t == n / D && t >= 1 && q * t <= n < (q + 1) * t
    ensures MayIterate((t + q) / 2, n, s)
  {
    AverageAbove(n, t, q, s);
    if (t + q) / 2 == s && n == s * s + 2 * s {
      OnlyFromNext(n, t, q, s);
      assert n == (s + 1) * (s + 1) - 1;
      ShiftAvoids(s + 1, D);
    }
  }

  /** mp_sqrt: floor of the square root; an error exactly for a negative argument. */
  method Sqrt(arg: int, m: Machine) returns (r: Option<nat>)
    requires m.Valid()
    ensures r.None? <==> arg < 0
    ensures r.Some? ==> IsRoot(r.value, arg)
  {
    hide Pow, ToDigits, Quo, Rem, MayIterate, IsRoot;
    if arg < 0 {
      return None;
    }
    if arg == 0 {
      ZeroIsRoot();
      return Some(0);
    }
    var n: nat, b := arg, m.Radix();
    ghost var s := RootExists(n);
    var D: nat, t := StartValue(n, b);
    var q, rest := Division.DivMagnitude(n, t, m.db);
    MulDist(q, 1, t);
    FirstRound(n, D, t, q, s);
    t := (t + q) / 2;
    while true
      invariant MayIterate(t, n, s)
      decreases t
    {
      Positive(t, n, s);
      q, rest := Division.DivMagnitude(n, t, m.db);
      MulDist(q, 1, t);
      Round(n, t, q, s);
      t := (t + q) / 2;
      if t <= q {
        break;
      }
    }
    r := Some(t);
  }

  lemma ZeroIsRoot()
    ensures IsRoot(0, 0)
  {
  }

  lemma Positive(t: nat, n: nat, s: nat)
    requires MayIterate(t, n, s)
    ensures t >= 1
  {
  }

  /** Lines 43-44: drop half of the digits; what is left is not zero. */
  method StartValue(n: nat, b: nat) returns (D: nat, t: nat)
    requires b >= 2 && n >= 1
    ensures D >= 1 && t == n / D && t >= 1
  {
    hide Pow, ToDigits;
    var u := Used(n, b);
    UsedBounds(n, b);
    PowPos(b, u / 2);
    PowMono(b, u / 2, u - 1);
    D := Pow(b, u / 2);
    DivLt(n, D, 1);
    t := n / D;
  }
}
