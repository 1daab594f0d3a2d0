/** Barrett reduction with truncated products (bn_mp_reduce.c, bn_mp_reduce_setup.c). */
module Barrett {
  import opened Arith
  import opened Digits
  import opened Comba
  import Schoolbook

  /** mp_reduce_setup: floor(b^(2k) / m) for a modulus of k digits. */
  function Reciprocal(m: nat, b: nat): (mu: nat)
    requires b >= 2 && m > 0
  {
    PowPos(b, 2 * Used(m, b));
    DivNonNeg(Pow(b, 2 * Used(m, b)), m);
    Quo(Pow(b, 2 * Used(m, b)), m)
  }

  /**
   * The estimate q3 of x/m from a product short by L < err*B2 is never too big and
   * short by at most err + 2.
   */
  lemma EstimateBounds(x: nat, m: nat, q1: nat, x0: nat, B1: nat, B2: nat, mu: nat, r0: nat, q3: nat, s: nat, L: nat, err: nat)
    requires x == q1 * B1 + x0 && x0 < B1 <= m
    requires B1 * B2 == mu * m + r0 && r0 < m && q1 < B2
    requires q1 * mu - L == q3 * B2 + s && s < B2 && L <= err * B2
    ensures q3 * m <= x < (q3 + err + 3) * m
  {
    var prod := q1 * mu;
    assert x * B2 == prod * m + q1 * r0 + x0 * B2 by {
      MulDist(q1 * B1, x0, B2);
      MulSwap(q1, B1, B2);
      MulDist(mu * m, r0, q1);
      MulSwap(q1, mu, m);
    }
    assert (q3 * m) * B2 <= x * B2 by {
      assert q3 * B2 <= prod;
      MulMono(q3 * B2, prod, m);
      MulSwap(q3, B2, m);
      MulSwap(q3, m, B2);
      MulNonNeg(q1, r0);
      MulNonNeg(x0, B2);
    }
    assert x * B2 < ((q3 + err + 3) * m) * B2 by {
      var e := q3 + err + 1;
      assert prod < e * B2 by { MulDist(q3 + err, 1, B2); MulDist(q3, err, B2); }
      MulMono(prod, e * B2, m);
      assert q1 * r0 <= B2 * m by { MulMono2(q1, B2, r0, m); }
      assert x0 * B2 < m * B2 by { MulStrict(x0, m, B2); }
      assert (e * B2) * m == e * (m * B2) by { MulSwap(e, B2, m); }
      MulDist(e, 2, m * B2);
      MulSwap(e + 2, m, B2);
    }
    if q3 * m > x { MulStrict(x, q3 * m, B2); }
    MulCancelLt(x, (q3 + err + 3) * m, B2);
  }

  /** Shifting down k+1 digits ignores whatever lies below column k. */
  lemma HighShift(g: nat, h: nat, k: nat, b: nat)
    requires b >= 2 && g < Pow(b, k)
    ensures Pow(b, k + 1) > 0 && Quo(g + Pow(b, k) * h, Pow(b, k + 1)) == Quo(h, b)
    ensures Pow(b, k) * h == Quo(h, b) * Pow(b, k + 1) + Rem(h, b) * Pow(b, k)
    ensures 0 <= Rem(h, b) * Pow(b, k) < Pow(b, k + 1)
  {
    var p, q, r := Pow(b, k), Quo(h, b), Rem(h, b);
    assert Pow(b, k + 1) == b * p;
    assert h == q * b + r && 0 <= r < b by { DivModSpec(h, b); }
    PowPos(b, k);
    hide Pow, Quo, Rem;
    MulDist(q * b, r, p);
    MulSwap(q, b, p);
    MulStep(r, b, p);
    MulNonNeg(r, p);
    assert g + p * h == q * (b * p) + (r * p + g);
    MulPos(b, p);
    QuoRemUnique(g + p * h, b * p, q, r * p + g);
  }

  /** The high columns of q1*mu from k up miss less than k*b^(k+1). */
  lemma HighColumnsLoss(a: seq<nat>, y: seq<nat>, k: nat, b: nat)
    requires b >= 2 && IsDigits(a, b) && IsDigits(y, b) && k <= |a| + |y|
    ensures var L := Val(a, b) * Val(y, b) - Pow(b, k) * ColVal(a, y, k, |a| + |y|, b);
            0 <= L <= k * Pow(b, k + 1)
  {
    var hi, low := |a| + |y|, ColVal(a, y, 0, k, b);
    ColSplit(a, y, k, hi, b);
    ColProduct(a, y, hi, b);
    LowColumnsBound(a, y, k, k, b);
    PowPos(b, k);
    assert Pow(b, k + 1) == b * Pow(b, k);
    hide Pow, ColVal, Val;
    var p := Pow(b, k);
    MulMono2(k * (b - 1), k * b, p - 1, p);
    MulMono(b - 1, b, k);
    MulSwap(k, b, p);
  }

  /** What `Used` and `Reciprocal` say about a modulus of k digits. */
  lemma ModulusFacts(x: nat, m: nat, b: nat)
    requires b >= 2 && m > 0 && x < m * m
    ensures var k, mu := Used(m, b), Reciprocal(m, b);
            k >= 1 && 0 < Pow(b, k - 1) <= m < Pow(b, k)
            && Quo(x, Pow(b, k - 1)) < Pow(b, k + 1)
            && Pow(b, k - 1) * Pow(b, k + 1) == mu * m + Rem(Pow(b, 2 * k), m)
            && Used(mu, b) >= k + 1
  {
    hide Pow, ToDigits, Quo, Rem;
    var k := Used(m, b);
    UsedBounds(m, b);
    PowPos(b, k - 1);
    var B1, B2, R, P := Pow(b, k - 1), Pow(b, k + 1), Pow(b, 2 * k), Pow(b, k);
    assert B1 * B2 == R by { PowAdd(b, k - 1, k + 1); }
    assert P * P == R by { PowAdd(b, k, k); }
    assert x < B2 * B1 by { MulMono2(m, P, m, P); }
    QuoLess(x, B1, B2);
    var mu := Reciprocal(m, b);
    assert R == mu * m + Rem(R, m) && 0 <= Rem(R, m) < m by { QuoRemSpec(R, m); }
    assert mu >= P by {
      if mu < P {
        MulStep(mu, P, m);
        MulMono(m, P, P);
      }
    }
    UsedBounds(mu, b);
    if Used(mu, b) <= k { PowMono(b, Used(mu, b), k); }
  }

  lemma QuoLess(x: int, m: int, q: int)
    requires m > 0 && x < q * m
    ensures Quo(x, m) < q
  {
    DivLt(x, m, q);
  }

  /**
   * s_mp_mul_high_digs written over its first operand: the columns from k up, with the low k
   * places holding leftovers g. Either multiplier may be picked by the word-size guard.
   */
  method MulHighOver(q: nat, mu: nat, k: nat, b: nat, ww: nat, warray: nat) returns (r: nat, ghost g: nat)
    requires b >= 2 && ww > 0 && Used(q, b) <= k + 1 && Used(mu, b) >= k
    ensures g < Pow(b, k)
    ensures r == g + Pow(b, k) * ColVal(ToDigits(q, b), ToDigits(mu, b), k, Used(q, b) + Used(mu, b), b)
  {
    hide Val, Pow, ColVal, ToDigits;
    var a, y := ToDigits(q, b), ToDigits(mu, b);
    if |a| + |y| + 1 < warray && Min(|a|, |y|) * (b * b) < ww {
      var out := FastMulHigh(a, y, k, b, ww, warray);
      var left := seq(k, i requires 0 <= i < k => if i < |a| then a[i] else 0);
      ValConcat(left, out, b);
      ValBound(left, b);
      g := Val(left, b);
      r := Val(left + out, b);
    } else {
      var out := Schoolbook.MulHigh(a, y, k, b);
      PowPos(b, k);
      g := 0;
      r := Val(out, b);
    }
  }

  /** s_mp_mul_digs: a product modulo b^digs by whichever multiplier the guard picks. */
  method MulLow(q: nat, m: nat, digs: nat, b: nat, ww: nat, warray: nat) returns (r: nat)
    requires b >= 2 && ww > 0
    ensures Pow(b, digs) > 0 && r == Rem(q * m, Pow(b, digs))
  {
    hide Val, Pow, ToDigits, Rem;
    var a, y := ToDigits(q, b), ToDigits(m, b);
    ToDigitsVal(q, b);
    ToDigitsVal(m, b);
    var out;
    if digs < warray && Min(|a|, |y|) * (b * b) < ww {
      out := FastMulDigs(a, y, digs, b, ww, warray);
    } else {
      out := Schoolbook.MulDigs(a, y, digs, b);
    }
    r := Val(out, b);
  }

  /** The quotient estimate of mp_reduce (lines 27-57). */
  method Estimate(x: nat, m: nat, mu: nat, k: nat, b: nat, ww: nat, warray: nat) returns (q: nat, ghost err: nat)
    requires b >= 6 && b % 2 == 0 && ww > 0 && m > 0 && x < m * m
    requires k == Used(m, b) && mu == Reciprocal(m, b)
    ensures q * m <= x < (q + err + 3) * m
    ensures err + 3 <= b && err <= k
  {
    hide Val, Pow, ColVal, ToDigits, Quo, Rem, Reciprocal;
    ModulusFacts(x, m, b);
    ghost var B1, B2, r0 := Pow(b, k - 1), Pow(b, k + 1), Rem(Pow(b, 2 * k), m);
    QuoRemSpec(x, B1);
    QuoRemSpec(Pow(b, 2 * k), m);
    PowPos(b, k + 1);
    var q1: nat := Shift(x, k - 1, b);
    if k > b / 2 {
      var prod: nat := q1 * mu;
      q := Shift(prod, k + 1, b);
      QuoRemSpec(prod, B2);
      err := 0;
      EstimateBounds(x, m, q1, Rem(x, B1), B1, B2, mu, r0, q, Rem(prod, B2), 0, 0);
    } else {
      UsedAtMost(q1, k + 1, b);
      var prod: nat, g: nat := MulHighOver(q1, mu, k, b, ww, warray);
      q := Shift(prod, k + 1, b);
      err := k;
      ghost var h := ColVal(ToDigits(q1, b), ToDigits(mu, b), k, Used(q1, b) + Used(mu, b), b);
      TruncatedEstimate(x, m, q1, mu, g, h, k, b, q);
    }
  }

  function Shift(x: nat, digs: nat, b: nat): (r: nat)
    requires b >= 2
    ensures Pow(b, digs) > 0 && r == Quo(x, Pow(b, digs))
  {
    PowPos(b, digs);
    DivNonNeg(x, Pow(b, digs));
    Quo(x, Pow(b, digs))
  }

  lemma TruncatedEstimate(x: nat, m: nat, q1: nat, mu: nat, g: nat, h: nat, k: nat, b: nat, q: nat)
    requires b >= 2 && m > 0 && x < m * m && k >= 1 && k == Used(m, b) && mu == Reciprocal(m, b)
    requires Pow(b, k - 1) > 0 && q1 == Quo(x, Pow(b, k - 1)) && g < Pow(b, k) && Pow(b, k + 1) > 0
    requires k <= Used(mu, b) && h == ColVal(ToDigits(q1, b), ToDigits(mu, b), k, Used(q1, b) + Used(mu, b), b)
    requires q == Quo(g + Pow(b, k) * h, Pow(b, k + 1))
    ensures q * m <= x < (q + k + 3) * m
  {
    hide Val, Pow, ColVal, ToDigits, Quo, Rem, Reciprocal;
    ModulusFacts(x, m, b);
    var B1, B2 := Pow(b, k - 1), Pow(b, k + 1);
    QuoRemSpec(x, B1);
    QuoRemSpec(Pow(b, 2 * k), m);
    var a, y := ToDigits(q1, b), ToDigits(mu, b);
    ToDigitsVal(q1, b);
    ToDigitsVal(mu, b);
    HighColumnsLoss(a, y, k, b);
    HighShift(g, h, k, b);
    var L := q1 * mu - Pow(b, k) * h;
    EstimateBounds(x, m, q1, Rem(x, B1), B1, B2, mu, Rem(Pow(b, 2 * k), m), q, Rem(h, b) * Pow(b, k), L, k);
  }

  /**
   * mp_reduce: exactly x mod m for every 0 <= x < m^2. The back-off loop runs at most k + 2 times.
   */
  method Reduce(x: nat, m: nat, mu: nat, b: nat, ww: nat, warray: nat) returns (r: nat, ghost backoffs: nat)
    requires b >= 6 && b % 2 == 0 && ww > 0 && m > 0 && x < m * m && mu == Reciprocal(m, b)
    ensures r == x % m
    ensures backoffs <= Used(m, b) + 2
  {
    hide Pow, ToDigits, Quo, Rem, Reciprocal;
    var k := Used(m, b);
    var q, err := Estimate(x, m, mu, k, b, ww, warray);
    var B2: nat := NatPow(b, k + 1);
    var low: nat := NatRem(x, B2);
    var qm := MulLow(q, m, k + 1, b, ww, warray);
    var t: int := low - qm;
    if t < 0 {
      t := t + B2;
    }
    ModularDifference(x, q, m, low, qm, t, B2, k, b, err);
    ghost var t0 := t;
    backoffs := 0;
    while t >= m
      invariant 0 <= t && t == t0 - backoffs * m
      decreases t
    {
      MulDist(backoffs, 1, m);
      t := t - m;
      backoffs := backoffs + 1;
    }
    if backoffs > err + 2 { MulMono(err + 3, backoffs, m); }
    MulDist(q, backoffs, m);
    DivModUnique(x, m, q + backoffs, t);
    r := t;
  }

  /** x - q*m is recovered from both operands modulo b^(k+1). */
  lemma ModularDifference(x: nat, q: nat, m: nat, low: nat, qm: nat, t: int, B2: nat, k: nat, b: nat, err: nat)
    requires b >= 2 && m > 0 && k == Used(m, b) && B2 == Pow(b, k + 1) && B2 > 0 && err + 3 <= b
    requires q * m <= x < (q + err + 3) * m
    requires low == Rem(x, B2) && qm == Rem(q * m, B2)
    requires t == if low - qm < 0 then low - qm + B2 else low - qm
    ensures t == x - q * m && t < (err + 3) * m
  {
    UsedBounds(m, b);
    assert B2 == b * Pow(b, k);
    hide Pow, ToDigits, Rem;
    MulDist(q, err + 3, m);
    assert (err + 3) * m <= B2 by {
      MulMono2(err + 3, b, m, Pow(b, k));
    }
    RemCong(x, B2);
    RemCong(q * m, B2);
    CongAdd(low, x, qm, q * m, B2);
    CongIntro(low - qm + B2, low - qm, B2, 1);
    CongTrans(low - qm + B2, low - qm, x - q * m, B2);
    CongUnique(t, x - q * m, B2);
  }

  lemma RemCong(x: int, m: int)
    requires m > 0
    ensures Cong(Rem(x, m), x, m) && 0 <= Rem(x, m) < m
  {
    CongMod(x, m);
  }
}
