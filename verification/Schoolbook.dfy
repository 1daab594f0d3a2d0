/** Row-by-row multipliers (bn_s_mp_mul_digs.c, bn_s_mp_mul_high_digs.c). */
module Schoolbook {
  import opened Arith
  import opened Digits
  import opened Rows
  import opened Comba

  /** Storing the outgoing carry in the zero entry above a row completes the row. */
  lemma StoreCarry(x: seq<nat>, u: nat, n: seq<nat>, v0: nat, mu: nat, ix: nat, b: nat)
    requires ix + |n| < |x| && x[ix + |n|] == 0 && RowState(x, u, |n|, v0, n, mu, ix, b)
    ensures Val(x[ix + |n| := u], b) == v0 + mu * Val(n, b) * Pow(b, ix)
  {
    assert n[..|n|] == n;
    ValUpdate(x, ix + |n|, u, b);
  }

  // ---- the high half ----

  /** Rows 0..ix have been added from column digs up. */
  ghost predicate HighState(t: seq<nat>, a: seq<nat>, ix: nat, y: seq<nat>, digs: nat, b: nat)
    requires ix <= |a| && digs <= |a| + |y|
  {
    Val(t, b) == Pow(b, digs) * ColVal(a[..ix], y, digs, |a| + |y|, b)
  }

  lemma HighStep(t: seq<nat>, t': seq<nat>, a: seq<nat>, ix: nat, y: seq<nat>, digs: nat, b: nat)
    requires ix < |a| && ix <= digs <= |a| + |y| && HighState(t, a, ix, y, digs, b)
    requires if digs - ix >= |y| then t' == t
             else Val(t', b) == Val(t, b) + a[ix] * Val(y[digs - ix..], b) * Pow(b, digs)
    ensures HighState(t', a, ix + 1, y, digs, b)
  {
    hide Val, Pow, ColVal, Shifted;
    var hi := |a| + |y|;
    assert a[..ix + 1] == a[..ix] + [a[ix]];
    ColSnoc(a[..ix], a[ix], y, digs, hi, b);
    ShiftedTail(y, ix, digs, hi, b);
    var v := ColVal(a[..ix], y, digs, hi, b);
    if digs - ix < |y| {
      var w := Val(y[digs - ix..], b);
      assert y[digs - ix..Min(hi - ix, |y|)] == y[digs - ix..];
      assert ColVal(a[..ix + 1], y, digs, hi, b) == v + a[ix] * w;
      MulDist(v, a[ix] * w, Pow(b, digs));
    } else {
      assert ColVal(a[..ix + 1], y, digs, hi, b) == v;
    }
  }

  /** s_mp_mul_high_digs: each row starts at the first column that reaches digs. */
  method MulHigh(a: seq<nat>, y: seq<nat>, digs: nat, b: nat) returns (out: seq<nat>)
    requires b >= 2 && IsDigits(a, b) && IsDigits(y, b)
    requires |a| <= digs + 1 && digs <= |a| + |y|
    ensures IsDigits(out, b)
    ensures Val(out, b) == Pow(b, digs) * ColVal(a, y, digs, |a| + |y|, b)
  {
    var t := new nat[|a| + |y| + 1](_ => 0);
    var ix := 0;
    ValZeros(t[..], b);
    ColEmpty(y, digs, |a| + |y|, b);
    assert a[..0] == [];
    assert HighState(t[..], a, 0, y, digs, b);
    hide Val, Pow, ColVal, HighState, Rem;
    while ix < |a|
      invariant 0 <= ix <= |a|
      invariant IsDigits(t[..], b)
      invariant forall j :: digs <= j < t.Length && ix + |y| <= j ==> t[j] == 0
      invariant HighState(t[..], a, ix, y, digs, b)
    {
      ghost var t0 := t[..];
      if digs - ix < |y| {
        var row := y[digs - ix..];
        var u: nat := MulAddRow(t, row, a[ix], digs, b);
        ghost var before := t[..];
        StoreCarry(before, u, row, Val(t0, b), a[ix], digs, b);
        t[ix + |y|] := u;
        assert t[..] == before[digs + |row| := u];
      } else {
        t[digs] := 0;
        assert t[..] == t0;
      }
      HighStep(t0, t[..], a, ix, y, digs, b);
      ix := ix + 1;
    }
    assert a[..|a|] == a;
    HighDone(t[..], a, y, digs, b);
    out := t[..];
  }

  lemma HighDone(t: seq<nat>, a: seq<nat>, y: seq<nat>, digs: nat, b: nat)
    requires digs <= |a| + |y| && HighState(t, a, |a|, y, digs, b)
    ensures Val(t, b) == Pow(b, digs) * ColVal(a, y, digs, |a| + |y|, b)
  {
    assert a[..|a|] == a;
  }

  // ---- the low half ----

  /** Rows 0..ix have been added modulo b^digs. */
  ghost predicate LowState(t: seq<nat>, a: seq<nat>, ix: nat, y: seq<nat>, digs: nat, b: nat)
    requires ix <= |a|
  {
    Cong(Val(t, b), Val(a[..ix], b) * Val(y, b), Pow(b, digs))
  }

  /** A row cut at column digs differs from the whole row by a multiple of b^digs. */
  lemma CutRow(d: nat, y: seq<nat>, pb: nat, u: nat, ix: nat, digs: nat, b: nat)
    requires pb <= |y| && ix + pb >= digs
    ensures Cong(d * Val(y[..pb], b) * Pow(b, ix) - u * Pow(b, ix + pb), d * Val(y, b) * Pow(b, ix), Pow(b, digs))
  {
    hide Val, Pow, Cong;
    var P, E, F := Pow(b, ix + pb), Pow(b, digs), Pow(b, ix + pb - digs);
    var lo, hi, p := Val(y[..pb], b), Val(y[pb..], b), Pow(b, ix);
    var k := -(u + d * hi);
    assert d * lo * p - u * P - d * Val(y, b) * p == k * P by {
      ValSplit(y, pb, b);
      PowAdd(b, ix, pb);
      CutAlgebra(d, lo, hi, Pow(b, pb), p, u);
    }
    assert k * P == (k * F) * E by {
      PowAdd(b, digs, ix + pb - digs);
      MulSwap(k, F, E);
    }
    CongIntro(d * lo * p - u * P, d * Val(y, b) * p, E, k * F);
  }

  lemma CutAlgebra(d: int, lo: int, hi: int, q: int, p: int, u: int)
    ensures d * lo * p - u * (p * q) - d * (lo + q * hi) * p == (-(u + d * hi)) * (p * q)
  {
    MulDist(lo, q * hi, d);
    MulDist(d * lo, d * (q * hi), p);
    MulSwap(d, q, hi);
    MulSwap(q, d * hi, p);
    MulSwap(d * hi, q, p);
    MulDist(-u, d * hi, p * q);
    assert (d * (q * hi)) * p == (d * hi) * (p * q);
  }

  lemma LowStep(t: seq<nat>, t': seq<nat>, change: int, a: seq<nat>, ix: nat, y: seq<nat>, digs: nat, b: nat)
    requires ix < |a| && LowState(t, a, ix, y, digs, b)
    requires Val(t', b) == Val(t, b) + change
    requires Cong(change, a[ix] * Val(y, b) * Pow(b, ix), Pow(b, digs))
    ensures LowState(t', a, ix + 1, y, digs, b)
  {
    ValPrefix(a, ix, b);
    hide Val, Pow, Cong;
    var v, w, p := Val(a[..ix], b), Val(y, b), Pow(b, ix);
    assert (v + a[ix] * p) * w == v * w + a[ix] * w * p by {
      MulDist(v, a[ix] * p, w);
      MulSwap(a[ix], p, w);
      MulSwap(a[ix], w, p);
    }
    CongAdd(Val(t, b), v * w, change, a[ix] * w * p, Pow(b, digs));
  }

  /** s_mp_mul_digs: |a|*|b| modulo b^digs, carries past digs dropped row by row. */
  method MulDigs(a: seq<nat>, y: seq<nat>, digs: nat, b: nat) returns (out: seq<nat>)
    requires b >= 2 && IsDigits(a, b) && IsDigits(y, b)
    ensures IsDigits(out, b) && |out| == digs
    ensures Pow(b, digs) > 0 && Val(out, b) == Rem(Val(a, b) * Val(y, b), Pow(b, digs))
  {
    hide Val, Pow, LowState, RowState, Rem, Cong;
    var t := new nat[digs](_ => 0);
    var ix := 0;
    LowStart(t[..], a, y, digs, b);
    while ix < |a|
      invariant 0 <= ix <= |a|
      invariant IsDigits(t[..], b)
      invariant forall j :: ix + |y| <= j < digs ==> t[j] == 0
      invariant LowState(t[..], a, ix, y, digs, b)
    {
      ghost var t0 := t[..];
      var pb := Min(|y|, digs - ix);
      if pb <= 0 {
        EmptyRow(a[ix], y, ix, digs, b);
        if |y| == 0 && ix < digs {
          t[ix] := 0;
        }
        assert t[..] == t0;
        LowStep(t0, t[..], 0, a, ix, y, digs, b);
      } else {
        var row := y[..pb];
        var u: nat := MulAddRow(t, row, a[ix], ix, b);
        ghost var before := t[..];
        if ix + pb < digs {
          assert row == y;
          StoreCarry(before, u, row, Val(t0, b), a[ix], ix, b);
          t[ix + pb] := u;
          assert t[..] == before[ix + pb := u];
          CongRefl(a[ix] * Val(y, b) * Pow(b, ix), Pow(b, digs));
          LowStep(t0, t[..], a[ix] * Val(y, b) * Pow(b, ix), a, ix, y, digs, b);
        } else {
          RowTaken(before, u, row, Val(t0, b), a[ix], ix, b);
          CutRow(a[ix], y, pb, u, ix, digs, b);
          LowStep(t0, t[..], a[ix] * Val(row, b) * Pow(b, ix) - u * Pow(b, ix + pb), a, ix, y, digs, b);
        }
      }
      ix := ix + 1;
    }
    out := t[..];
    LowDone(out, a, y, digs, b);
  }

  lemma LowStart(t: seq<nat>, a: seq<nat>, y: seq<nat>, digs: nat, b: nat)
    requires forall i :: 0 <= i < |t| ==> t[i] == 0
    ensures LowState(t, a, 0, y, digs, b)
  {
    ValZeros(t, b);
    ValEmpty(a[..0], b);
    CongRefl(0, Pow(b, digs));
  }

  lemma EmptyRow(d: nat, y: seq<nat>, ix: nat, digs: nat, b: nat)
    requires |y| == 0 || ix >= digs
    ensures Cong(0, d * Val(y, b) * Pow(b, ix), Pow(b, digs))
  {
    ValEmpty(y[..0], b);
    if ix >= digs {
      CutRow(d, y, 0, 0, ix, digs, b);
    } else {
      ValEmpty(y, b);
      CongRefl(0, Pow(b, digs));
    }
  }

  lemma RowTaken(x: seq<nat>, u: nat, n: seq<nat>, v0: nat, mu: nat, ix: nat, b: nat)
    requires RowState(x, u, |n|, v0, n, mu, ix, b)
    ensures Val(x, b) == v0 + (mu * Val(n, b) * Pow(b, ix) - u * Pow(b, ix + |n|))
  {
    assert n[..|n|] == n;
  }

  lemma LowDone(t: seq<nat>, a: seq<nat>, y: seq<nat>, digs: nat, b: nat)
    requires b >= 2 && IsDigits(t, b) && |t| == digs && LowState(t, a, |a|, y, digs, b)
    ensures Pow(b, digs) > 0 && Val(t, b) == Rem(Val(a, b) * Val(y, b), Pow(b, digs))
  {
    assert a[..|a|] == a;
    ValBound(t, b);
    PowPos(b, digs);
    hide Val, Pow, Cong;
    CongToMod(Val(t, b), Val(a, b) * Val(y, b), Pow(b, digs));
  }
}
