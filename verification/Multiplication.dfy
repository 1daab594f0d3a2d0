/**
 * Multiplication of any size: Karatsuba, Toom-Cook and the dispatch between them and the digit
 * multipliers (bn_mp_karatsuba_mul.c, bn_mp_toom_mul.c, bn_mp_mul.c).
 */
module Multiplication {
  import opened Arith
  import opened Digits
  import opened ToomCook
  import Comba
  import Schoolbook

  /**
   * mp_mul: every branch gives the product, and the recursion through it ends; Toom-Cook on operands of
   * opposite signs misses it.
   */
  method Mul(a: int, y: int, c: Config) returns (p: int)
    requires Sound(c)
    ensures p == MulValue(a, y, c)
    ensures Covered(a, y, c) ==> p == a * y + Slip(a, y, c)
    decreases Size(a, y, c), 1
  {
    hide Used, Pow, Val, Rem, ToomValue, Slip;
    var m, n := Abs(a), Abs(y);
    var least := Least(a, y, c);
    var r: nat;
    Signs(a, y);
    if Covered(a, y, c) { MulSlips(a, y, c); }
    if least >= c.toom {
      var t := Toom(a, y, c);
      r := Abs(t);
    } else if least >= c.karatsuba {
      r := Karatsuba(m, n, c);
    } else {
      r := MulDigits(m, n, c);
    }
    p := if (a < 0) == (y < 0) then r else if r > 0 then 0 - r else 0;
  }

  /** The branch of mp_mul that ends in fast_s_mp_mul_digs. */
  predicate ByComba(m: nat, n: nat, c: Config)
    requires Sound(c)
  {
    && Least(m, n, c) < c.karatsuba && Least(m, n, c) < c.toom
    && Used(m, c.b) + Used(n, c.b) + 1 < c.warray && Least(m, n, c) * (c.b * c.b) <= c.ww
  }

  /** Comba if the columns fit a word and the product fits the array, the schoolbook otherwise. */
  method MulDigits(m: nat, n: nat, c: Config) returns (r: nat)
    requires Sound(c)
    ensures r == m * n
  {
    hide Val, Pow, Rem, ToDigits;
    var x, y := ToDigits(m, c.b), ToDigits(n, c.b);
    ToDigitsVal(m, c.b);
    ToDigitsVal(n, c.b);
    var digs := |x| + |y| + 1;
    var out;
    if digs < c.warray && Min(|x|, |y|) * (c.b * c.b) <= c.ww {
      out := Comba.FastMulDigs(x, y, digs, c.b, c.ww, c.warray);
    } else {
      out := Schoolbook.MulDigs(x, y, digs, c.b);
    }
    WholeProduct(x, y, digs, c.b);
    r := Val(out, c.b);
  }

  lemma WholeProduct(x: seq<nat>, y: seq<nat>, digs: nat, b: nat)
    requires b >= 2 && IsDigits(x, b) && IsDigits(y, b) && digs > |x| + |y|
    ensures Pow(b, digs) > 0 && Rem(Val(x, b) * Val(y, b), Pow(b, digs)) == Val(x, b) * Val(y, b)
  {
    hide Val, Pow;
    ValBound(x, b);
    ValBound(y, b);
    PowPos(b, |x|);
    PowPos(b, digs);
    MulMono(Val(x, b), Pow(b, |x|), Val(y, b));
    MulStrict(Val(y, b), Pow(b, |y|), Pow(b, |x|));
    PowAdd(b, |x|, |y|);
    PowMono(b, |x| + |y|, digs);
    MulNonNeg(Val(x, b), Val(y, b));
    DivModUnique(Val(x, b) * Val(y, b), Pow(b, digs), 0, Val(x, b) * Val(y, b));
  }

  /** The digits below and from place k. */
  lemma Cut(v: nat, k: nat, b: nat) returns (lo: nat, hi: nat)
    requires b >= 2 && k <= Used(v, b)
    ensures lo == Val(ToDigits(v, b)[..k], b) && hi == Val(ToDigits(v, b)[k..], b)
    ensures v == lo + Pow(b, k) * hi && lo < Pow(b, k) && hi < Pow(b, Used(v, b) - k)
    ensures Used(lo, b) <= k && Used(hi, b) <= Used(v, b) - k
  {
    hide Val, Pow, ToDigits;
    var s := ToDigits(v, b);
    lo, hi := Val(s[..k], b), Val(s[k..], b);
    ToDigitsVal(v, b);
    ValSplit(s, k, b);
    ValBound(s[..k], b);
    ValBound(s[k..], b);
    UsedAtMost(lo, k, b);
    UsedAtMost(hi, |s| - k, b);
  }

  /** mp_karatsuba_mul on magnitudes. */
  method Karatsuba(m: nat, n: nat, c: Config) returns (r: nat)
    requires Sound(c) && Min(Used(m, c.b), Used(n, c.b)) >= 4
    ensures r == m * n
    decreases Size(m, n, c), 0
  {
    hide Used, Pow, Val, ToDigits, Slip, MulValue, Covered;
    var B := Min(Used(m, c.b), Used(n, c.b)) / 2;
    var dm, dn := ToDigits(m, c.b), ToDigits(n, c.b);
    ghost var x0', x1' := Cut(m, B, c.b);
    ghost var y0', y1' := Cut(n, B, c.b);
    UsedIs(m, c.b);
    UsedIs(n, c.b);
    var x0, x1 := Val(dm[..B], c.b), Val(dm[B..], c.b);
    var y0, y1 := Val(dn[..B], c.b), Val(dn[B..], c.b);
    HalvesShrink(m, n, x0, x1, y0, y1, B, c);
    MulExact(x0, y0, c);
    MulExact(x1, y1, c);
    MulExact(x1 + x0, y1 + y0, c);
    var x0y0 := Mul(x0, y0, c);
    var x1y1 := Mul(x1, y1, c);
    var t1 := Mul(x1 + x0, y1 + y0, c);
    var shift := Pow(c.b, B);
    KaratsubaIdentity(x0, x1, y0, y1, shift);
    var t2 := x0y0 + x1y1;
    // s_mp_sub needs the larger operand first.
    assert t1 >= t2;
    t1 := t1 - t2;
    r := x0y0 + t1 * shift + x1y1 * (shift * shift);
  }

  lemma KaratsubaIdentity(x0: nat, x1: nat, y0: nat, y1: nat, p: int)
    ensures (x1 + x0) * (y1 + y0) - (x0 * y0 + x1 * y1) == x1 * y0 + x0 * y1 >= 0
    ensures (x0 + p * x1) * (y0 + p * y1) == x0 * y0 + (x1 * y0 + x0 * y1) * p + (x1 * y1) * (p * p)
  {
    MulNonNeg(x1, y0);
    MulNonNeg(x0, y1);
    MulDist(x1, x0, y1 + y0);
    MulDist(x0, p * x1, y0 + p * y1);
    MulDist(y0, p * y1, x0);
    MulDist(y0, p * y1, p * x1);
    assert x0 * (p * y1) == (x0 * y1) * p;
    assert (p * x1) * y0 == (x1 * y0) * p;
    assert (p * x1) * (p * y1) == (x1 * y1) * (p * p);
    MulDist(x1 * y0, x0 * y1, p);
  }

  /** All three products of the halves are smaller problems. */
  lemma HalvesShrink(m: nat, n: nat, x0: nat, x1: nat, y0: nat, y1: nat, B: nat, c: Config)
    requires Sound(c) && B >= 2 && 2 * B <= Used(m, c.b) && 2 * B <= Used(n, c.b)
    requires Used(x0, c.b) <= B && Used(x1, c.b) <= Used(m, c.b) - B && x0 < Pow(c.b, B) && x1 < Pow(c.b, Used(m, c.b) - B)
    requires Used(y0, c.b) <= B && Used(y1, c.b) <= Used(n, c.b) - B && y0 < Pow(c.b, B) && y1 < Pow(c.b, Used(n, c.b) - B)
    ensures Size(x0, y0, c) < Size(m, n, c) && Size(x1, y1, c) < Size(m, n, c) && Size(x1 + x0, y1 + y0, c) < Size(m, n, c)
  {
    hide Used, Pow;
    PowMono(c.b, B, Used(m, c.b) - B);
    PowMono(c.b, B, Used(n, c.b) - B);
    SumUsed(x1, x0, Used(m, c.b) - B, c.b);
    SumUsed(y1, y0, Used(n, c.b) - B, c.b);
  }

  /** Lines 40-72: v = u2 * b^(2B) + u1 * b^B + u0. */
  method SplitThirds(v: nat, B: nat, b: nat) returns (u0: nat, u1: nat, u2: nat)
    requires b >= 2 && B >= 1 && 3 * B <= Used(v, b)
    ensures var p := NatPow(b, B);
      && u0 == Third(v, p, 0) && u1 == Third(v, p, 1) && u2 == Third(v, p, 2)
      && v == u0 + p * (u1 + p * u2) && u0 < p && u1 < p && 0 < u2 < Pow(b, Used(v, b) - 2 * B)
  {
    hide Used, Pow, Val, ToDigits, Third;
    var s := ToDigits(v, b);
    UsedIs(v, b);
    ThirdsOf(v, B, b);
    Thirds(v, B, b);
    u0, u1, u2 := Val(s[..B], b), Val(s[B..2 * B], b), Val(s[2 * B..], b);
  }

  /** mp_toom_mul: five products, interpolation and the shifted sum. */
  method Toom(a: int, y: int, c: Config) returns (r: int)
    requires Sound(c) && Least(a, y, c) >= c.toom
    ensures r == ToomValue(a, y, c)
    ensures Covered(a, y, c) ==> r == a * y + Slip(a, y, c)
    decreases Size(a, y, c), 0
  {
    hide Used, Pow, Third, MulValue, Interpolated, Assembled, Point, Slip, Covered;
    if Covered(a, y, c) { ToomCovered(a, y, c); }
    var s: int, t: int := if a < 0 then -1 else 1, if y < 0 then -1 else 1;
    var B := Least(a, y, c) / 3;
    var u0, u1, u2 := SplitThirds(Abs(a), B, c.b);
    var v0, v1, v2 := SplitThirds(Abs(y), B, c.b);
    var a0, a1, a2, b0, b1, b2 := s * u0, s * u1, s * u2, t * v0, t * v1, t * v2;
    ghost var p := Weight(a, y, c);
    PointParts(a, p);
    PointParts(y, p);
    forall i: nat ensures Size(Point(a, p, i), Point(y, p, i), c) < Size(a, y, c) { PointShrinks(a, y, i, c); }
    var w0 := Mul(a0, b0, c);
    var w4 := Mul(a2, b2, c);
    var w1 := Mul(a2 + 2 * (a1 + 2 * a0), b2 + 2 * (b1 + 2 * b0), c);
    var w3 := Mul(a0 + 2 * (a1 + 2 * a2), b0 + 2 * (b1 + 2 * b2), c);
    var w2 := Mul(a2 + a1 + a0, b2 + b1 + b0, c);
    w1, w2, w3 := Interpolate(w0, w1, w2, w3, w4);
    r := Assemble(w0, w1, w2, w3, w4, B, c.b);
  }

  /** Lines 248-273: the shifted coefficients are added up. */
  method Assemble(w0: int, w1: int, w2: int, w3: int, w4: int, B: nat, b: nat) returns (r: int)
    requires b >= 2
    ensures r == Assembled(w0, w1, w2, w3, w4, B, b)
  {
    var sum := MpAdd(Clean(w0, b), Lshd(w1, B, b), b);
    var tmp := MpAdd(Lshd(w2, 2 * B, b), Lshd(w3, 3 * B, b), b);
    tmp := MpAdd(Lshd(w4, 4 * B, b), Clean(tmp, b), b);
    r := MpAdd(Clean(tmp, b), Clean(sum, b), b);
  }

  /** Lines 176-246: the coefficients from the values at the points. */
  method Interpolate(w0: int, r1: int, r2: int, r3: int, w4: int) returns (w1: int, w2: int, w3: int)
    ensures (w1, w2, w3) == Interpolated(w0, r1, r2, r3, w4)
  {
    hide Truncated;
    w1 := r1 - w4;
    w3 := r3 - w0;
    w1 := Truncated(w1, 2);
    w3 := Truncated(w3, 2);
    w2 := r2 - w0;
    w2 := w2 - w4;
    w1 := w1 - w2;
    w3 := w3 - w2;
    w1 := w1 - 8 * w0;
    w3 := w3 - 8 * w4;
    w2 := 3 * w2;
    w2 := w2 - w1;
    w2 := w2 - w3;
    w1 := w1 - w2;
    w3 := w3 - w2;
    w1 := Truncated(w1, 3);
    w3 := Truncated(w3, 3);
  }
}
