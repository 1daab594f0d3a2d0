/**
 * Products by columns: the Comba multiplier and its two truncated forms
 * (bn_fast_s_mp_mul_digs.c, bn_fast_s_mp_mul_high_digs.c).
 */
module Comba {
  import opened Arith
  import opened Digits

  /** y[j], zero outside the digits of y. */
  function At(y: seq<nat>, j: int): nat {
    if 0 <= j < |y| then y[j] else 0
  }

  /** Column c of the product: the sum of a[i] * y[c - i]. */
  function Col(a: seq<nat>, y: seq<nat>, c: int): nat {
    if |a| == 0 then 0
    else
      var m := |a| - 1;
      MulNonNeg(a[m], At(y, c - m));
      Col(a[..m], y, c) + a[m] * At(y, c - m)
  }

  /** Columns lo..hi as a number, column lo at place 0. */
  function ColVal(a: seq<nat>, y: seq<nat>, lo: nat, hi: nat, b: nat): nat
    requires lo <= hi
    decreases hi
  {
    if hi == lo then 0
    else
      PowNat(b, hi - 1 - lo);
      MulNonNeg(Col(a, y, hi - 1), Pow(b, hi - 1 - lo));
      ColVal(a, y, lo, hi - 1, b) + Col(a, y, hi - 1) * Pow(b, hi - 1 - lo)
  }

  // ---- columns add up to the product ----

  lemma {:induction false} ColEmpty(y: seq<nat>, lo: nat, hi: nat, b: nat)
    requires lo <= hi
    ensures ColVal([], y, lo, hi, b) == 0
    decreases hi
  {
    if lo < hi { ColEmpty(y, lo, hi - 1, b); }
  }

  /** The entries of y placed at column m, seen through the columns lo..hi. */
  function Shifted(y: seq<nat>, m: nat, lo: nat, hi: nat, b: nat): nat
    requires lo <= hi
    decreases hi
  {
    if hi == lo then 0
    else
      PowNat(b, hi - 1 - lo);
      MulNonNeg(At(y, hi - 1 - m), Pow(b, hi - 1 - lo));
      Shifted(y, m, lo, hi - 1, b) + At(y, hi - 1 - m) * Pow(b, hi - 1 - lo)
  }

  lemma {:induction false} ShiftedVal(y: seq<nat>, m: nat, hi: nat, b: nat)
    ensures Shifted(y, m, 0, hi, b) ==
            if hi <= m then 0 else Pow(b, m) * Val(y[..Min(hi - m, |y|)], b)
    decreases hi
  {
    if hi > 0 {
      ShiftedVal(y, m, hi - 1, b);
      if hi <= m {
      } else if hi - 1 - m < |y| {
        var j := hi - 1 - m;
        ValPrefix(y, j, b);
        PowAdd(b, m, j);
        ValEmpty(y[..0], b);
        hide Val, Pow;
        FactorOut(Pow(b, m), Val(y[..j], b), y[j], Pow(b, j));
      }
    }
  }

  /** Seen from column lo >= m, the shifted digits of y lose their low lo - m entries. */
  lemma {:induction false} ShiftedTail(y: seq<nat>, m: nat, lo: nat, hi: nat, b: nat)
    requires m <= lo <= hi
    ensures Shifted(y, m, lo, hi, b) ==
            if lo - m >= |y| then 0 else Val(y[lo - m..Min(hi - m, |y|)], b)
    decreases hi
  {
    hide Val, Pow, Shifted;
    ShiftedUnfold(y, m, lo, hi, b);
    if lo == hi {
      if lo - m < |y| { ValEmpty(y[lo - m..lo - m], b); }
    } else {
      ShiftedTail(y, m, lo, hi - 1, b);
      var j := hi - 1 - m;
      if j < |y| {
        var s := y[lo - m..j];
        assert y[lo - m..j + 1] == s + [y[j]];
        ValSnoc(s, y[j], b);
        assert |s| == hi - 1 - lo;
      }
    }
  }

  lemma ShiftedUnfold(y: seq<nat>, m: nat, lo: nat, hi: nat, b: nat)
    requires lo <= hi
    ensures lo == hi ==> Shifted(y, m, lo, hi, b) == 0
    ensures lo < hi ==> Shifted(y, m, lo, hi, b) ==
                        Shifted(y, m, lo, hi - 1, b) + At(y, hi - 1 - m) * Pow(b, hi - 1 - lo)
  {
  }

  /** Adding one digit d to a adds d times the shifted multiplicand. */
  lemma {:induction false} ColSnoc(a: seq<nat>, d: nat, y: seq<nat>, lo: nat, hi: nat, b: nat)
    requires lo <= hi
    ensures ColVal(a + [d], y, lo, hi, b) == ColVal(a, y, lo, hi, b) + d * Shifted(y, |a|, lo, hi, b)
    decreases hi
  {
    if hi > lo {
      ColSnoc(a, d, y, lo, hi - 1, b);
      assert (a + [d])[..|a|] == a;
      var c := hi - 1;
      assert Col(a + [d], y, c) == Col(a, y, c) + d * At(y, c - |a|);
      hide Pow, Col, At;
      SnocAlgebra(Col(a, y, c), d, At(y, c - |a|), Pow(b, c - lo), Shifted(y, |a|, lo, c, b));
    }
  }

  lemma SnocAlgebra(s: int, d: int, t: int, p: int, w: int)
    ensures (s + d * t) * p + d * w == s * p + d * (w + t * p)
  {
    MulDist(s, d * t, p);
    MulSwap(d, t, p);
    MulDist(w, t * p, d);
  }

  /** All columns together are the product. */
  lemma {:induction false} ColProduct(a: seq<nat>, y: seq<nat>, hi: nat, b: nat)
    requires hi >= |a| + |y|
    ensures ColVal(a, y, 0, hi, b) == Val(a, b) * Val(y, b)
    decreases |a|
  {
    if |a| == 0 {
      assert a == [];
      ColEmpty(y, 0, hi, b);
    } else {
      var m := |a| - 1;
      ColProduct(a[..m], y, hi, b);
      ShiftedVal(y, m, hi, b);
      assert y[..Min(hi - m, |y|)] == y;
      assert a == a[..m] + [a[m]];
      ColSnoc(a[..m], a[m], y, 0, hi, b);
      assert Val(a, b) == Val(a[..m], b) + a[m] * Pow(b, m);
      hide Val, Pow, ColVal, Shifted;
      MulDist(Val(a[..m], b), a[m] * Pow(b, m), Val(y, b));
      MulSwap(a[m], Pow(b, m), Val(y, b));
    }
  }

  /** Cutting the columns at k. */
  lemma {:induction false} ColSplit(a: seq<nat>, y: seq<nat>, k: nat, hi: nat, b: nat)
    requires k <= hi
    ensures ColVal(a, y, 0, hi, b) == ColVal(a, y, 0, k, b) + Pow(b, k) * ColVal(a, y, k, hi, b)
    decreases hi
  {
    if k < hi {
      ColSplit(a, y, k, hi - 1, b);
      PowAdd(b, k, hi - 1 - k);
      var c := Col(a, y, hi - 1);
      assert ColVal(a, y, 0, hi, b) == ColVal(a, y, 0, hi - 1, b) + c * Pow(b, hi - 1);
      assert ColVal(a, y, k, hi, b) == ColVal(a, y, k, hi - 1, b) + c * Pow(b, hi - 1 - k);
      hide Pow, ColVal, Col;
      FactorOut(Pow(b, k), ColVal(a, y, k, hi - 1, b), c, Pow(b, hi - 1 - k));
    }
  }

  // ---- bounds ----

  /** A column over the first i digits of a has at most min(i, c + 1) terms. */
  lemma {:induction false} ColBound(a: seq<nat>, y: seq<nat>, c: nat, b: nat)
    requires b >= 1 && IsDigits(a, b) && IsDigits(y, b)
    ensures Col(a, y, c) <= Min(|a|, c + 1) * ((b - 1) * (b - 1))
  {
    var t := (b - 1) * (b - 1);
    if |a| == 0 {
      MulNonNeg(0, t);
    } else {
      var m := |a| - 1;
      ColBound(a[..m], y, c, b);
      assert Col(a, y, c) == Col(a[..m], y, c) + a[m] * At(y, c - m);
      ColBoundStep(Col(a[..m], y, c), a[m], At(y, c - m), m, c, b);
      hide Col;
    }
  }

  lemma ColBoundStep(prev: nat, x: nat, z: nat, m: nat, c: nat, b: nat)
    requires x < b && z < b && (m > c ==> z == 0) && prev <= Min(m, c + 1) * ((b - 1) * (b - 1))
    ensures prev + x * z <= Min(m + 1, c + 1) * ((b - 1) * (b - 1))
  {
    if m <= c {
      MulMono2(x, b - 1, z, b - 1);
      MulDist(m, 1, (b - 1) * (b - 1));
    }
  }

  /** What the columns below k weigh: less than k * b^(k+1). */
  lemma {:induction false} LowColumnsBound(a: seq<nat>, y: seq<nat>, h: nat, k: nat, b: nat)
    requires b >= 1 && IsDigits(a, b) && IsDigits(y, b) && h <= k
    ensures ColVal(a, y, 0, h, b) <= (k * (b - 1)) * (Pow(b, h) - 1)
    decreases h
  {
    if h > 0 {
      LowColumnsBound(a, y, h - 1, k, b);
      ColBound(a, y, h - 1, b);
      PowPos(b, h - 1);
      var t, p, c := (b - 1) * (b - 1), Pow(b, h - 1), Col(a, y, h - 1);
      assert Pow(b, h) == b * p;
      assert c <= k * t by { MulMono(Min(|a|, h), k, t); }
      hide Pow, Col;
      LowStepAlgebra(k, b, p, c, ColVal(a, y, 0, h - 1, b));
    }
  }

  lemma LowStepAlgebra(k: int, b: int, p: int, c: int, v: int)
    requires p >= 0 && c <= k * ((b - 1) * (b - 1)) && v <= (k * (b - 1)) * (p - 1)
    ensures v + c * p <= (k * (b - 1)) * (b * p - 1)
  {
    var e := k * (b - 1);
    assert k * ((b - 1) * (b - 1)) == e * (b - 1) by { MulSwap(k, b - 1, b - 1); }
    MulMono(c, e * (b - 1), p);
    MulSwap(e, b - 1, p);
    MulDist(p - 1, (b - 1) * p, e);
    MulDist(b, 1, p);
  }

  // ---- the machine ----

  /** Column c restricted to i < lim, as the inner loop accumulates it. */
  lemma {:induction false} ColFromStart(a: seq<nat>, y: seq<nat>, c: nat, i: nat)
    requires i <= |a| && (i > 0 ==> c - (i - 1) >= |y|)
    ensures Col(a[..i], y, c) == 0
  {
    if i > 0 {
      ColFromStart(a, y, c, i - 1);
      assert a[..i][..i - 1] == a[..i - 1];
    }
  }

  lemma {:induction false} ColToEnd(a: seq<nat>, y: seq<nat>, c: nat, i: nat)
    requires i <= |a| && (i < |a| ==> i > c)
    ensures Col(a, y, c) == Col(a[..i], y, c)
    decreases |a|
  {
    if i == |a| {
      assert a[..i] == a;
    } else {
      var m := |a| - 1;
      ColToEnd(a[..m], y, c, i);
      assert a[..m][..i] == a[..i];
    }
  }

  lemma ColStep(a: seq<nat>, y: seq<nat>, c: int, i: nat)
    requires i < |a| && 0 <= c - i < |y|
    ensures Col(a[..i + 1], y, c) == Col(a[..i], y, c) + a[i] * y[c - i]
  {
    assert a[..i + 1][..i] == a[..i];
  }

  /** Word bound: terms products on top of a carry of at most N*(b-1) stay below N*b^2. */
  lemma AccumulatorFits(N: nat, terms: nat, b: nat, ww: nat)
    requires b >= 2 && terms <= N && N * (b * b) <= ww && ww > 0
    ensures N * (b - 1) + terms * ((b - 1) * (b - 1)) < ww
    ensures N * (b - 1) + N * ((b - 1) * (b - 1)) == (N * (b - 1)) * b
  {
    var t, u := (b - 1) * (b - 1), N * (b - 1);
    assert N * t == u * (b - 1) by { MulSwap(N, b - 1, b - 1); }
    assert u + u * (b - 1) == u * b;
    assert terms * t <= N * t by { MulMono(terms, N, t); }
    assert u * b == N * (b * b) - N * b by {
      assert (b - 1) * b == b * b - b;
      MulSwap(N, b - 1, b);
      MulDist(b * b, b, N);
    }
    assert N > 0 ==> N * b > 0 by { if N > 0 { MulPos(N, b); } }
  }

  /**
   * Digits of the columns lo..hi with the carry c out of the last one. Every partial sum is
   * taken modulo the word size ww and every column digit goes to W[ix].
   */
  method Columns(a: seq<nat>, y: seq<nat>, lo: nat, hi: nat, b: nat, ww: nat, warray: nat)
    returns (out: seq<nat>, carry: nat)
    requires b >= 2 && ww > 0 && IsDigits(a, b) && IsDigits(y, b)
    requires lo <= hi <= warray
    requires Min(|a|, |y|) * (b * b) <= ww
    ensures |out| == hi - lo && IsDigits(out, b)
    ensures Val(out, b) + carry * Pow(b, hi - lo) == ColVal(a, y, lo, hi, b)
  {
    hide Val, Pow, ColVal, Col, Quo, Rem;
    var W := new nat[warray];
    ghost var N: nat := Min(|a|, |y|);
    ghost var cap := N * (b - 1);
    carry := 0;
    var ix := lo;
    ValEmpty(W[lo..lo], b);
    ColValEmpty(a, y, lo, b);
    while ix < hi
      invariant lo <= ix <= hi
      invariant carry <= cap
      invariant IsDigits(W[lo..ix], b)
      invariant Val(W[lo..ix], b) + carry * Pow(b, ix - lo) == ColVal(a, y, lo, ix, b)
    {
      ghost var before := W[lo..ix];
      var acc := SumColumn(a, y, ix, carry, b, ww);
      ColumnCarry(acc, N, b);
      var d: nat, c: nat := Rem(acc, b), Quo(acc, b);
      W[ix] := d;
      assert W[lo..ix + 1] == before + [d];
      ColumnOut(before, d, c, carry, a, y, lo, ix, b);
      carry := c;
      ix := ix + 1;
    }
    out := W[lo..hi];
  }

  lemma ColValEmpty(a: seq<nat>, y: seq<nat>, lo: nat, b: nat)
    ensures ColVal(a, y, lo, lo, b) == 0
  {
  }

  lemma ColumnCarry(acc: nat, N: nat, b: nat)
    requires b >= 2 && acc <= (N * (b - 1)) * b
    ensures 0 <= Quo(acc, b) <= N * (b - 1) && 0 <= Rem(acc, b) < b
    ensures acc == Quo(acc, b) * b + Rem(acc, b)
  {
    DivModSpec(acc, b);
    DivNonNeg(acc, b);
    var cap := N * (b - 1);
    if Quo(acc, b) > cap { MulStep(cap, Quo(acc, b), b); }
  }

  lemma ColumnOut(s: seq<nat>, d: nat, c: nat, carry: nat, a: seq<nat>, y: seq<nat>, lo: nat, ix: nat, b: nat)
    requires lo <= ix && |s| == ix - lo
    requires Val(s, b) + carry * Pow(b, ix - lo) == ColVal(a, y, lo, ix, b)
    requires c * b + d == carry + Col(a, y, ix)
    ensures Val(s + [d], b) + c * Pow(b, ix + 1 - lo) == ColVal(a, y, lo, ix + 1, b)
  {
    var p, col := Pow(b, ix - lo), Col(a, y, ix);
    ValSnoc(s, d, b);
    assert Pow(b, ix + 1 - lo) == b * p;
    assert ColVal(a, y, lo, ix + 1, b) == ColVal(a, y, lo, ix, b) + col * p;
    hide Val, Pow, ColVal, Col;
    assert (c * b + d) * p == (carry + col) * p;
    MulDist(c * b, d, p);
    MulDist(carry, col, p);
    MulSwap(c, b, p);
  }

  /** The inner loop over one column (lines 57-74): carry plus column ix in a machine word. */
  method SumColumn(a: seq<nat>, y: seq<nat>, ix: nat, carry: nat, b: nat, ww: nat) returns (acc: nat)
    requires b >= 2 && ww > 0 && IsDigits(a, b) && IsDigits(y, b)
    requires Min(|a|, |y|) * (b * b) <= ww
    requires carry <= Min(|a|, |y|) * (b - 1)
    ensures acc == carry + Col(a, y, ix)
    ensures acc <= (Min(|a|, |y|) * (b - 1)) * b
  {
    hide Rem, Col, AccState;
    ghost var N: nat := Min(|a|, |y|);
    var ty := Min(|y| - 1, ix);
    var tx := ix - ty;
    var iy := Min(|a| - tx, ty + 1);
    acc := carry;
    AccStart(acc, N, b);
    if iy <= 0 {
      NoTerms(a, y, ix);
      AccEnd(acc, N, 0, b);
      return;
    }
    ColFromStart(a, y, ix, tx);
    var iz := 0;
    while iz < iy
      invariant 0 <= iz <= iy
      invariant acc == carry + Col(a[..tx + iz], y, ix)
      invariant AccState(acc, N, iz, b)
    {
      ColStep(a, y, ix, tx + iz);
      AccStep(acc, N, iz, a[tx + iz], y[ty - iz], b, ww);
      acc := Rem(acc + a[tx + iz] * y[ty - iz], ww);
      iz := iz + 1;
    }
    AccEnd(acc, N, iy, b);
    ColToEnd(a, y, ix, tx + iy);
  }

  /** The accumulator holds a carry of at most N*(b-1) and `terms` products. */
  ghost predicate AccState(acc: nat, N: nat, terms: nat, b: nat) {
    acc <= N * (b - 1) + terms * ((b - 1) * (b - 1))
  }

  lemma AccStart(acc: nat, N: nat, b: nat)
    requires acc <= N * (b - 1)
    ensures AccState(acc, N, 0, b)
  {
    MulNonNeg(0, (b - 1) * (b - 1));
  }

  lemma AccStep(acc: nat, N: nat, terms: nat, x: nat, z: nat, b: nat, ww: nat)
    requires b >= 2 && ww > 0 && N * (b * b) <= ww && terms < N && x < b && z < b && AccState(acc, N, terms, b)
    ensures x * z >= 0 && Rem(acc + x * z, ww) == acc + x * z && AccState(acc + x * z, N, terms + 1, b)
  {
    hide Rem;
    var t, v := (b - 1) * (b - 1), x * z;
    assert 0 <= v <= t by { MulMono2(x, b - 1, z, b - 1); }
    assert (terms + 1) * t == terms * t + t by { MulDist(terms, 1, t); }
    AccumulatorFits(N, terms + 1, b, ww);
    DivModUnique(acc + v, ww, 0, acc + v);
    assert Rem(acc + v, ww) == (acc + v) % ww by { RemIs(acc + v, ww); }
  }

  lemma RemIs(x: int, m: int)
    requires m > 0
    ensures Rem(x, m) == x % m
  {
  }

  lemma AccEnd(acc: nat, N: nat, terms: nat, b: nat)
    requires b >= 2 && terms <= N && AccState(acc, N, terms, b)
    ensures acc <= (N * (b - 1)) * b
  {
    AccumulatorFits(N, terms, b, N * (b * b) + 1);
    MulMono(terms, N, (b - 1) * (b - 1));
  }

  lemma {:induction false} NoTerms(a: seq<nat>, y: seq<nat>, c: nat)
    requires Min(|a| - (c - Min(|y| - 1, c)), Min(|y| - 1, c) + 1) <= 0
    ensures Col(a, y, c) == 0
    decreases |a|
  {
    if |a| > 0 { NoTerms(a[..|a| - 1], y, c); }
  }

  /** No carry leaves the last column of a whole product, wherever the columns start. */
  lemma NoCarryOut(out: seq<nat>, carry: nat, a: seq<nat>, y: seq<nat>, lo: nat, b: nat)
    requires b >= 2 && IsDigits(a, b) && IsDigits(y, b) && lo <= |a| + |y|
    requires Val(out, b) + carry * Pow(b, |a| + |y| - lo) == ColVal(a, y, lo, |a| + |y|, b)
    ensures carry == 0
  {
    hide Val, Pow, ColVal;
    var hi := |a| + |y|;
    var p, q, v := Pow(b, lo), Pow(b, hi - lo), ColVal(a, y, lo, hi, b);
    assert p * v <= Val(a, b) * Val(y, b) by {
      ColSplit(a, y, lo, hi, b);
      ColProduct(a, y, hi, b);
    }
    assert Val(a, b) * Val(y, b) < p * q by {
      ValBound(a, b);
      ValBound(y, b);
      MulMono(Val(a, b), Pow(b, |a|), Val(y, b));
      PowPos(b, |a|);
      MulStrict(Val(y, b), Pow(b, |y|), Pow(b, |a|));
      PowAdd(b, |a|, |y|);
      PowAdd(b, lo, hi - lo);
    }
    PowPos(b, lo);
    MulCancelLt(v, q, p);
    if carry >= 1 { MulMono(1, carry, q); }
  }

  /** fast_s_mp_mul_digs: |a|*|b| modulo b^digs. */
  method FastMulDigs(a: seq<nat>, y: seq<nat>, digs: nat, b: nat, ww: nat, warray: nat) returns (out: seq<nat>)
    requires b >= 2 && ww > 0 && IsDigits(a, b) && IsDigits(y, b)
    requires digs <= warray && Min(|a|, |y|) * (b * b) <= ww
    ensures IsDigits(out, b) && |out| == Min(digs, |a| + |y|)
    ensures Pow(b, digs) > 0 && Val(out, b) == Rem(Val(a, b) * Val(y, b), Pow(b, digs))
  {
    hide Val, Pow, ColVal, Rem;
    var pa := Min(digs, |a| + |y|);
    var carry;
    out, carry := Columns(a, y, 0, pa, b, ww, warray);
    TruncatedProduct(out, carry, a, y, digs, b);
  }

  lemma TruncatedProduct(out: seq<nat>, carry: nat, a: seq<nat>, y: seq<nat>, digs: nat, b: nat)
    requires b >= 2 && IsDigits(a, b) && IsDigits(y, b) && IsDigits(out, b) && |out| == Min(digs, |a| + |y|)
    requires Val(out, b) + carry * Pow(b, |out|) == ColVal(a, y, 0, |out|, b)
    ensures Pow(b, digs) > 0 && Val(out, b) == Rem(Val(a, b) * Val(y, b), Pow(b, digs))
  {
    hide Val, Pow, ColVal;
    var hi, pa, p := |a| + |y|, |out|, Pow(b, |out|);
    PowPos(b, digs);
    ColSplit(a, y, pa, hi, b);
    ColProduct(a, y, hi, b);
    ValBound(out, b);
    var rest := ColVal(a, y, pa, hi, b);
    assert Val(a, b) * Val(y, b) == (carry + rest) * p + Val(out, b) by { MulDist(carry, rest, p); }
    if digs <= hi {
      DivModUnique(Val(a, b) * Val(y, b), p, carry + rest, Val(out, b));
    } else {
      NoCarryOut(out, carry, a, y, 0, b);
      ColValEmpty(a, y, hi, b);
      PowMono(b, hi, digs);
      DivModUnique(Val(a, b) * Val(y, b), Pow(b, digs), 0, Val(out, b));
    }
  }

  /** fast_s_mp_mul_high_digs: the columns from digs up, without the carries from below them. */
  method FastMulHigh(a: seq<nat>, y: seq<nat>, digs: nat, b: nat, ww: nat, warray: nat) returns (out: seq<nat>)
    requires b >= 2 && ww > 0 && IsDigits(a, b) && IsDigits(y, b)
    requires digs <= |a| + |y| <= warray && Min(|a|, |y|) * (b * b) <= ww
    ensures IsDigits(out, b) && Val(out, b) == ColVal(a, y, digs, |a| + |y|, b)
  {
    hide Val, Pow, ColVal;
    var carry;
    out, carry := Columns(a, y, digs, |a| + |y|, b, ww, warray);
    NoCarryOut(out, carry, a, y, digs, b);
  }
}
