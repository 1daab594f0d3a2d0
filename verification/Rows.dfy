/** One row x += mu * n * b^ix of a schoolbook product or Montgomery step, carry included. */
module Rows {
  import opened Arith
  import opened Digits

  lemma AddCarryValue(x: seq<nat>, i: nat, d: nat, add: nat, u: nat, u': nat, b: nat)
    requires i < |x| && d + u' * b == x[i] + add + u
    ensures Val(x[i := d], b) + u' * Pow(b, i + 1) == Val(x, b) + add * Pow(b, i) + u * Pow(b, i)
  {
    ValUpdate(x, i, d, b);
    var p, e := Pow(b, i), u' * b;
    assert (d - x[i]) * p == (add + u - e) * p;
    MulDist(add + u, e, p);
    MulDist(add, u, p);
    MulSwap(u', b, p);
  }

  lemma CarryStep(r: nat, b: nat)
    requires b >= 2 && r < b * b
    ensures 0 <= Quo(r, b) < b && 0 <= Rem(r, b) < b && Rem(r, b) + Quo(r, b) * b == r
  {
    DivModSpec(r, b);
    DivLt(r, b, b);
    DivNonNeg(r, b);
  }

  /** iy columns of the row mu * n * b^ix have been added, with carry u outstanding. */
  ghost predicate RowState(x: seq<nat>, u: nat, iy: nat, v0: nat, n: seq<nat>, mu: nat, ix: nat, b: nat)
    requires iy <= |n|
  {
    Val(x, b) + u * Pow(b, ix + iy) == v0 + mu * Val(n[..iy], b) * Pow(b, ix)
  }

  lemma RowStep(x: seq<nat>, u: nat, iy: nat, v0: nat, n: seq<nat>, mu: nat, ix: nat, b: nat, d: nat, u': nat)
    requires iy < |n| && ix + iy < |x|
    requires RowState(x, u, iy, v0, n, mu, ix, b)
    requires d + u' * b == x[ix + iy] + mu * n[iy] + u
    ensures RowState(x[ix + iy := d], u', iy + 1, v0, n, mu, ix, b)
  {
    hide Val, Pow;
    AddCarryValue(x, ix + iy, d, mu * n[iy], u, u', b);
    RowValue(n, iy, mu, ix, b);
    assert ix + (iy + 1) == ix + iy + 1;
  }

  /** The multiply-add loop of one row: all but the outgoing carry u of x + mu * n * b^ix. */
  method MulAddRow(x: array<nat>, n: seq<nat>, mu: nat, ix: nat, b: nat) returns (u: nat)
    requires b >= 2 && mu < b && |n| > 0
    requires IsDigits(x[..], b) && IsDigits(n, b)
    requires ix + |n| <= x.Length
    modifies x
    ensures u < b && IsDigits(x[..], b)
    ensures RowState(x[..], u, |n|, old(Val(x[..], b)), n, mu, ix, b)
    ensures forall j :: 0 <= j < ix || ix + |n| <= j < x.Length ==> x[j] == old(x[j])
    ensures x[ix] == Rem(old(x[ix]) + mu * n[0], b)
  {
    ghost var v0 := Val(x[..], b);
    u := 0;
    var iy := 0;
    ValEmpty(n[..0], b);
    assert RowState(x[..], u, 0, v0, n, mu, ix, b);
    hide RowState, Val, Pow, Quo, Rem;
    while iy < |n|
      invariant 0 <= iy <= |n| && 0 <= u < b
      invariant IsDigits(x[..], b)
      invariant RowState(x[..], u, iy, v0, n, mu, ix, b)
      invariant forall j :: 0 <= j < ix || ix + iy <= j < x.Length ==> x[j] == old(x[j])
      invariant iy == 0 ==> u == 0
      invariant iy > 0 ==> x[ix] == Rem(old(x[ix]) + mu * n[0], b)
    {
      ghost var before := x[..];
      var r := mu * n[iy] + u + x[ix + iy];
      ColumnFits(mu, n[iy], u, x[ix + iy], b);
      CarryStep(r, b);
      var d: nat, u': nat := Rem(r, b), Quo(r, b);
      RowStep(before, u, iy, v0, n, mu, ix, b, d, u');
      x[ix + iy] := d;
      assert x[..] == before[ix + iy := d];
      u := u';
      iy := iy + 1;
    }
  }

  lemma ColumnFits(mu: nat, d: nat, u: nat, x: nat, b: nat)
    requires b >= 2 && mu < b && d < b && u < b && x < b
    ensures mu * d + u + x < b * b
  {
    MulMono2(mu, b - 1, d, b - 1);
    assert (b - 1) * (b - 1) == b * b - 2 * b + 1;
  }

  lemma RowValue(n: seq<nat>, iy: nat, mu: nat, ix: nat, b: nat)
    requires iy < |n|
    ensures mu * Val(n[..iy + 1], b) * Pow(b, ix)
         == mu * Val(n[..iy], b) * Pow(b, ix) + mu * n[iy] * Pow(b, ix + iy)
  {
    ValPrefix(n, iy, b);
    PowAdd(b, ix, iy);
    hide Val, Pow;
    var p, q, v := Pow(b, ix), Pow(b, iy), Val(n[..iy], b);
    calc {
      mu * (v + n[iy] * q) * p;
      { MulDist(v, n[iy] * q, mu); MulDist(mu * v, mu * (n[iy] * q), p); }
      mu * v * p + mu * (n[iy] * q) * p;
      { MulSwap(mu, n[iy], q); MulSwap(mu * n[iy], q, p); }
      mu * v * p + mu * n[iy] * (q * p);
    }
  }

  /** Push a carry into x from place `start` upward until it is absorbed. */
  method Propagate(x: array<nat>, start: nat, carry: nat, b: nat)
    requires b >= 2 && start <= x.Length && IsDigits(x[..], b)
    requires Val(x[..], b) + carry * Pow(b, start) < Pow(b, x.Length)
    modifies x
    ensures IsDigits(x[..], b)
    ensures Val(x[..], b) == old(Val(x[..], b)) + carry * Pow(b, start)
    ensures forall j :: 0 <= j < start ==> x[j] == old(x[j])
  {
    hide Val, Pow, Quo, Rem;
    ghost var target := Val(x[..], b) + carry * Pow(b, start);
    var u, pos := carry, start;
    while u != 0
      invariant start <= pos <= x.Length && 0 <= u
      invariant IsDigits(x[..], b)
      invariant Val(x[..], b) + u * Pow(b, pos) == target
      invariant forall j :: 0 <= j < start ==> x[j] == old(x[j])
      decreases x.Length - pos
    {
      ghost var before := x[..];
      assert pos < x.Length by {
        PowPos(b, pos);
        MulMono(1, u, Pow(b, pos));
      }
      var t := x[pos] + u;
      QuoRemSpec(t, b);
      var d: nat, u': nat := Rem(t, b), Quo(t, b);
      AddCarryValue(before, pos, d, 0, u, u', b);
      x[pos] := d;
      assert x[..] == before[pos := d];
      u := u';
      pos := pos + 1;
    }
  }
}
