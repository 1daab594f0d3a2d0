/** Magnitude subtraction and addition on digits (bn_s_mp_sub.c, bn_s_mp_add.c). */
module Magnitude {
  import opened Arith
  import opened Digits

  /** `dw` is the modulus of an unsigned machine digit that holds at least one bit more than a radix-b digit. */
  ghost predicate MachineDigit(b: int, dw: int) {
    b >= 2 && dw > 0 && dw % (2 * b) == 0
  }

  /** One borrow step: subtract modulo dw, read the borrow from the top bit, mask to a digit. */
  lemma BorrowStep(a: nat, n: nat, u: nat, b: int, dw: int)
    requires MachineDigit(b, dw) && a < b && n < b && u <= 1
    ensures dw / 2 > 0
    ensures var t := Rem(a - n - u, dw);
            var borrow := Quo(t, dw / 2);
            0 <= borrow <= 1 && 0 <= Rem(t, b) < b && Rem(t, b) - borrow * b == a - n - u
  {
    var c := dw / (2 * b);
    assert dw == c * (2 * b) by { DivModSpec(dw, 2 * b); }
    assert c >= 1 by { if c <= 0 { MulMono(c, 0, 2 * b); } }
    var h := c * b;
    assert h >= b by { MulMono(1, c, b); }
    assert dw == 2 * h;
    var s := a - n - u;
    if s >= 0 {
      DivModUnique(s, dw, 0, s);
      DivModUnique(s, h, 0, s);
      DivModUnique(s, b, 0, s);
    } else {
      DivModUnique(s, dw, -1, s + dw);
      DivModUnique(s + dw, h, 1, s + h);
      assert s + dw == (2 * c - 1) * b + (s + b);
      DivModUnique(s + dw, b, 2 * c - 1, s + b);
    }
  }

  /** Carrying one subtraction step through the value of the buffer. */
  lemma SubValue(x: seq<nat>, i: nat, d: nat, n: nat, u: nat, u': nat, b: nat)
    requires i < |x| && d - u' * b == x[i] - n - u
    ensures Val(x[i := d], b) - u' * Pow(b, i + 1) == Val(x, b) - n * Pow(b, i) - u * Pow(b, i)
  {
    ValUpdate(x, i, d, b);
    var p, e := Pow(b, i), u' * b;
    MulDistSub(e, n, u, p);
    MulSwap(u', b, p);
  }

  /**
   * s_mp_sub with the difference written over the minuend, the lowest `used` digits of x: x := x - n.
   * The borrow is the top bit of a wrapped machine digit.
   */
  method SubInPlace(x: array<nat>, used: nat, n: seq<nat>, b: nat, dw: nat)
    requires MachineDigit(b, dw)
    requires |n| <= used <= x.Length && IsDigits(x[..used], b) && IsDigits(n, b)
    requires Val(n, b) <= Val(x[..used], b)
    modifies x
    ensures IsDigits(x[..used], b) && x[used..] == old(x[used..])
    ensures Val(x[..used], b) == old(Val(x[..used], b)) - Val(n, b)
  {
    ghost var v0, rest := Val(x[..used], b), x[used..];
    var u, i := 0, 0;
    ValEmpty(n[..0], b);
    hide Val, Pow, Quo, Rem;
    while i < |n|
      invariant 0 <= i <= |n| && 0 <= u <= 1
      invariant IsDigits(x[..used], b) && x[used..] == rest
      invariant Val(x[..used], b) - u * Pow(b, i) == v0 - Val(n[..i], b)
    {
      u := SubDigit(x, used, i, n[i], u, b, dw);
      ValPrefix(n, i, b);
      i := i + 1;
    }
    assert n[..|n|] == n;
    while i < used
      invariant |n| <= i <= used && 0 <= u <= 1
      invariant IsDigits(x[..used], b) && x[used..] == rest
      invariant Val(x[..used], b) - u * Pow(b, i) == v0 - Val(n, b)
    {
      u := SubDigit(x, used, i, 0, u, b, dw);
      i := i + 1;
    }
    ValBound(x[..used], b);
  }

  /** Lines 49-60 and 65-72: one digit less, and the borrow out of it. */
  method SubDigit(x: array<nat>, used: nat, i: nat, d: nat, u: nat, b: nat, dw: nat) returns (u': nat)
    requires MachineDigit(b, dw) && i < used <= x.Length && IsDigits(x[..used], b) && d < b && u <= 1
    modifies x
    ensures u' <= 1 && IsDigits(x[..used], b) && x[used..] == old(x[used..])
    ensures Val(x[..used], b) - u' * Pow(b, i + 1) == old(Val(x[..used], b)) - d * Pow(b, i) - u * Pow(b, i)
  {
    hide Val, Pow, Quo, Rem;
    ghost var before := x[..used];
    BorrowStep(x[i], d, u, b, dw);
    var t := Rem(x[i] - d - u, dw);
    u' := Quo(t, dw / 2);
    var digit: nat := Rem(t, b);
    SubValue(before, i, digit, d, u, u', b);
    x[i] := digit;
    assert x[..used] == before[i := digit];
  }

  /** i digits of a sum with carry u out of them. */
  ghost predicate Summed(c: seq<nat>, u: nat, b: nat, v: nat) {
    IsDigits(c, b) && u <= 1 && Val(c, b) + u * Pow(b, |c|) == v
  }

  lemma SumStep(c: seq<nat>, u: nat, b: nat, v: nat, t: nat, w: nat)
    requires b >= 2 && Summed(c, u, b, v) && t <= 2 * b - 1 && w + u == t && w <= 2 * (b - 1)
    ensures 0 <= Quo(t, b) && 0 <= Rem(t, b) && v + w * Pow(b, |c|) >= 0
    ensures Summed(c + [Rem(t, b)], Quo(t, b), b, v + w * Pow(b, |c|))
  {
    QuoRemSpec(t, b);
    hide Val, Quo, Rem;
    var d, k, p := Rem(t, b), Quo(t, b), Pow(b, |c|);
    if k >= 2 { MulMono(2, k, b); }
    ValSnoc(c, d, b);
    assert Pow(b, |c| + 1) == b * p;
    hide Pow;
    PowNat(b, |c|);
    MulNonNeg(w, p);
    MulSwap(k, b, p);
    assert (k * b + d) * p == (w + u) * p;
    MulDist(k * b, d, p);
    MulDist(w, u, p);
  }

  /** s_mp_add: one digit more than the longer operand. */
  method AddDigits(a: seq<nat>, y: seq<nat>, b: nat) returns (c: seq<nat>)
    requires b >= 2 && IsDigits(a, b) && IsDigits(y, b)
    ensures IsDigits(c, b) && |c| == (if |a| > |y| then |a| else |y|) + 1
    ensures Val(c, b) == Val(a, b) + Val(y, b)
  {
    hide Val, Pow, Quo, Rem, Summed;
    var min, max, x := |a|, |y|, y;
    if |a| > |y| {
      min, max, x := |y|, |a|, a;
    }
    var u, i := 0, 0;
    c := [];
    ValEmpty(a[..0], b);
    ValEmpty(y[..0], b);
    SummedNothing(b);
    while i < min
      invariant 0 <= i <= min && |c| == i && 0 <= u
      invariant Summed(c, u, b, Val(a[..i], b) + Val(y[..i], b))
    {
      CarryBit(c, u, b, Val(a[..i], b) + Val(y[..i], b));
      var t := a[i] + y[i] + u;
      SumStep(c, u, b, Val(a[..i], b) + Val(y[..i], b), t, a[i] + y[i]);
      BothPrefix(a, y, i, b);
      c, u := c + [Rem(t, b)], Quo(t, b);
      i := i + 1;
    }
    ghost var low := if |a| > |y| then Val(y, b) else Val(a, b);
    assert a[..|a|] == a && y[..|y|] == y;
    while i < max
      invariant min <= i <= max && |c| == i && 0 <= u
      invariant Summed(c, u, b, Val(x[..i], b) + low)
    {
      CarryBit(c, u, b, Val(x[..i], b) + low);
      var t := x[i] + u;
      SumStep(c, u, b, Val(x[..i], b) + low, t, x[i]);
      ValPrefix(x, i, b);
      c, u := c + [Rem(t, b)], Quo(t, b);
      i := i + 1;
    }
    assert x[..|x|] == x;
    LastCarry(c, u, b, Val(x, b) + low);
    c := c + [u];
  }

  lemma BothPrefix(a: seq<nat>, y: seq<nat>, i: nat, b: nat)
    requires i < |a| && i < |y|
    ensures Val(a[..i + 1], b) + Val(y[..i + 1], b) == Val(a[..i], b) + Val(y[..i], b) + (a[i] + y[i]) * Pow(b, i)
  {
    hide Val, Pow;
    ValPrefix(a, i, b);
    ValPrefix(y, i, b);
    MulDist(a[i], y[i], Pow(b, i));
  }

  lemma SummedNothing(b: nat)
    ensures Summed([], 0, b, 0)
  {}

  lemma CarryBit(c: seq<nat>, u: nat, b: nat, v: nat)
    requires Summed(c, u, b, v)
    ensures u <= 1
  {}

  lemma LastCarry(c: seq<nat>, u: nat, b: nat, v: nat)
    requires b >= 2 && Summed(c, u, b, v)
    ensures IsDigits(c + [u], b) && Val(c + [u], b) == v
  {
    ValSnoc(c, u, b);
  }
}
