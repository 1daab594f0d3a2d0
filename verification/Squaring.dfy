/**
 * Squares: the Comba and the schoolbook squarer, which take each cross product once and double it,
 * Karatsuba, Toom-Cook and the dispatch (bn_fast_s_mp_sqr.c, bn_s_mp_sqr.c, bn_mp_karatsuba_sqr.c,
 * bn_mp_toom_sqr.c, bn_mp_sqr.c).
 */
module Squaring {
  import opened Arith
  import opened Digits
  import opened Comba
  import opened Rows
  import opened ToomCook
  import Multiplication

  /** The first k products that fall into column c of a square. */
  function PairSum(a: seq<nat>, c: nat, k: nat): nat {
    if k == 0 then 0
    else
      MulNonNeg(At(a, k - 1), At(a, c - (k - 1)));
      PairSum(a, c, k - 1) + At(a, k - 1) * At(a, c - (k - 1))
  }

  lemma {:induction false} ColIsPairSum(a: seq<nat>, c: nat, k: nat)
    requires k <= |a|
    ensures Col(a[..k], a, c) == PairSum(a, c, k)
  {
    if k > 0 {
      ColIsPairSum(a, c, k - 1);
      assert a[..k][..k - 1] == a[..k - 1];
    }
  }

  /** Past the digits of a, and past the column number, nothing is added. */
  lemma {:induction false} PairsEnd(a: seq<nat>, c: nat, k: nat, n: nat)
    requires k <= n && (k >= |a| || k >= c + 1)
    ensures PairSum(a, c, n) == PairSum(a, c, k)
    decreases n
  {
    if k < n {
      PairsEnd(a, c, k, n - 1);
      assert At(a, n - 1) == 0 || At(a, c - (n - 1)) == 0;
    }
  }

  lemma SquareColumn(a: seq<nat>, c: nat)
    ensures Col(a, a, c) == PairSum(a, c, c + 1)
  {
    assert a[..|a|] == a;
    ColIsPairSum(a, c, |a|);
    if |a| <= c + 1 { PairsEnd(a, c, |a|, c + 1); } else { PairsEnd(a, c, c + 1, |a|); }
  }

  /** Before the first digit that has a partner nothing is added. */
  lemma {:induction false} PairsStart(a: seq<nat>, c: nat, k: nat)
    requires k > 0 ==> c - (k - 1) >= |a|
    ensures PairSum(a, c, k) == 0
  {
    if k > 0 { PairsStart(a, c, k - 1); }
  }

  /** The last k products of a column are the first k in reverse. */
  lemma {:induction false} PairsMirror(a: seq<nat>, c: nat, k: nat)
    requires k <= c + 1
    ensures PairSum(a, c, c + 1) == PairSum(a, c, c + 1 - k) + PairSum(a, c, k)
  {
    if k > 0 {
      PairsMirror(a, c, k - 1);
      var i: nat := c + 1 - k;
      assert PairSum(a, c, i + 1) == PairSum(a, c, i) + At(a, i) * At(a, c - i);
      assert c - i == k - 1 && c - (k - 1) == i;
      MulCommutes(At(a, i), At(a, k - 1));
    }
  }

  lemma MulCommutes(x: int, y: int)
    ensures x * y == y * x
  {}

  /** So a column is twice its first half, and the square of the middle digit in even columns. */
  lemma ColumnByHalves(a: seq<nat>, c: nat)
    requires c < 2 * |a|
    ensures Col(a, a, c) == 2 * PairSum(a, c, (c + 1) / 2) + if c % 2 == 0 then a[c / 2] * a[c / 2] else 0
  {
    SquareColumn(a, c);
    var m := (c + 1) / 2;
    PairsMirror(a, c, m);
    if c % 2 == 0 {
      assert c + 1 - m == m + 1 && m == c / 2 && c - m == m;
    }
  }

  lemma {:induction false} PairsMono(a: seq<nat>, c: nat, k: nat, n: nat)
    requires k <= n
    ensures PairSum(a, c, k) <= PairSum(a, c, n)
    decreases n
  {
    if k < n {
      PairsMono(a, c, k, n - 1);
      MulNonNeg(At(a, n - 1), At(a, c - (n - 1)));
    }
  }

  /** The inner loop (lines 53-82), in words modulo ww. */
  method SquareAt(a: seq<nat>, ix: nat, carry: nat, b: nat, ww: nat) returns (acc: nat)
    requires ww > 0 && ix < 2 * |a| && carry + Col(a, a, ix) < ww
    ensures acc == carry + Col(a, a, ix)
  {
    hide Col, PairSum, Rem;
    var ty := Min(|a| - 1, ix);
    var tx := ix - ty;
    var iy := Min(Min(|a| - tx, ty + 1), (ty - tx + 1) / 2);
    assert tx + iy == (ix + 1) / 2;
    ghost var m := (ix + 1) / 2;
    ColumnByHalves(a, ix);
    PairsStart(a, ix, tx);
    acc := 0;
    var iz := 0;
    while iz < iy
      invariant 0 <= iz <= iy
      invariant acc == PairSum(a, ix, tx + iz)
    {
      PairNext(a, ix, tx + iz);
      PairsMono(a, ix, tx + iz + 1, m);
      MulNonNeg(a[tx + iz], a[ty - iz]);
      RemSmall(acc + a[tx + iz] * a[ty - iz], ww);
      acc := Rem(acc + a[tx + iz] * a[ty - iz], ww);
      iz := iz + 1;
    }
    RemSmall(acc + acc + carry, ww);
    acc := Rem(acc + acc + carry, ww);
    if ix % 2 == 0 {
      MulNonNeg(a[ix / 2], a[ix / 2]);
      RemSmall(acc + a[ix / 2] * a[ix / 2], ww);
      acc := Rem(acc + a[ix / 2] * a[ix / 2], ww);
    }
  }

  lemma PairNext(a: seq<nat>, c: nat, i: nat)
    requires i < |a| && 0 <= c - i < |a|
    ensures PairSum(a, c, i + 1) == PairSum(a, c, i) + a[i] * a[c - i]
  {}

  /** Carry and column together stay within a word. */
  lemma ColumnFits(a: seq<nat>, ix: nat, carry: nat, b: nat, ww: nat)
    requires b >= 2 && ww > 0 && IsDigits(a, b) && |a| * (b * b) <= ww && carry <= |a| * (b - 1)
    ensures carry + Col(a, a, ix) < ww && carry + Col(a, a, ix) <= (|a| * (b - 1)) * b
  {
    hide Col;
    ColBound(a, a, ix, b);
    var t := (b - 1) * (b - 1);
    MulMono(Min(|a|, ix + 1), |a|, t);
    AccumulatorFits(|a|, |a|, b, ww);
  }

  /** fast_s_mp_sqr. The guard of mp_sqr, 2 * used < ww / b^2, is more than the accumulator needs. */
  method FastSqr(a: seq<nat>, b: nat, ww: nat, warray: nat) returns (out: seq<nat>)
    requires b >= 2 && ww > 0 && IsDigits(a, b)
    requires 2 * |a| <= warray && |a| * (b * b) <= ww
    ensures IsDigits(out, b) && |out| == 2 * |a| && Val(out, b) == Val(a, b) * Val(a, b)
  {
    hide Val, Pow, ColVal, Col, Quo, Rem;
    var W := new nat[warray];
    var pa, ix, W1 := |a| + |a|, 0, 0;
    ValEmpty(W[0..0], b);
    ColValEmpty(a, a, 0, b);
    while ix < pa
      invariant 0 <= ix <= pa && 0 <= W1 <= |a| * (b - 1)
      invariant IsDigits(W[0..ix], b)
      invariant Val(W[0..ix], b) + W1 * Pow(b, ix - 0) == ColVal(a, a, 0, ix, b)
    {
      ghost var before := W[0..ix];
      ColumnFits(a, ix, W1, b, ww);
      var acc := SquareAt(a, ix, W1, b, ww);
      ColumnCarry(acc, |a|, b);
      var d: nat, c: nat := Rem(acc, b), Quo(acc, b);
      W[ix] := d;
      assert W[0..ix + 1] == before + [d];
      ColumnOut(before, d, c, W1, a, a, 0, ix, b);
      W1 := c;
      ix := ix + 1;
    }
    NoCarryOut(W[0..pa], W1, a, a, 0, b);
    ColProduct(a, a, pa, b);
    out := W[0..pa];
  }

  // ----- The schoolbook squarer -----

  /** One doubled product, digit and carry stay within two squares of the radix. */
  lemma DoubleFits(x: nat, p: nat, q: nat, u: nat, b: nat, ww: nat)
    requires b >= 2 && x < b && p < b && q < b && u <= 2 * (b - 1) && 2 * (b * b) <= ww
    ensures p * q >= 0 && 0 <= x + p * q + p * q + u < ww
    ensures Quo(x + p * q + p * q + u, b) <= 2 * (b - 1)
  {
    MulNonNeg(p, q);
    MulMono2(p, b - 1, q, b - 1);
    MulDist(b, 1, b - 1);
    MulDist(b, 1, b);
    DoubleBound(x + p * q + p * q + u, b, b * b, ww);
  }

  lemma DoubleBound(r: int, b: nat, sq: int, ww: nat)
    requires b >= 2 && sq == b * b && 0 <= r <= 2 * sq - b - 1 && 2 * sq <= ww
    ensures r < ww && Quo(r, b) <= 2 * (b - 1)
  {
    QuoRemSpec(r, b);
    hide Quo, Rem;
    MulDist(2 * b, 1, b);
    MulSwap(2, b, b);
    if Quo(r, b) > 2 * (b - 1) { MulMono(2 * b - 1, Quo(r, b), b); }
  }

  /** Lines 52-66: twice d times n is added at place `at`, with the carry of the square. */
  method SquareRow(x: array<nat>, n: seq<nat>, d: nat, at: nat, u0: nat, b: nat, ww: nat) returns (u: nat)
    requires b >= 2 && d < b && u0 <= 2 * (b - 1) && 2 * (b * b) <= ww
    requires IsDigits(x[..], b) && IsDigits(n, b) && at + |n| <= x.Length
    modifies x
    ensures IsDigits(x[..], b)
    ensures RowState(x[..], u, |n|, RowBase(old(x[..]), u0, at, b), n, 2 * d, at, b)
  {
    hide Val, Pow, Quo, Rem, RowState;
    ghost var v0: nat := RowBase(x[..], u0, at, b);
    u := u0;
    var iy := 0;
    RowBegins(x[..], u0, n, d, at, b);
    while iy < |n|
      invariant 0 <= iy <= |n| && 0 <= u <= 2 * (b - 1)
      invariant IsDigits(x[..], b)
      invariant RowState(x[..], u, iy, v0, n, 2 * d, at, b)
    {
      ghost var before := x[..];
      DoubleFits(x[at + iy], d, n[iy], u, b, ww);
      var p := d * n[iy];
      var r := x[at + iy] + p + p + u;
      RemSmall(r, ww);
      r := Rem(r, ww);
      QuoRemSpec(r, b);
      var digit: nat, u': nat := Rem(r, b), Quo(r, b);
      MulSwap(2, d, n[iy]);
      RowStep(before, u, iy, v0, n, 2 * d, at, b, digit, u');
      x[at + iy] := digit;
      assert x[..] == before[at + iy := digit];
      u := u';
      iy := iy + 1;
    }
  }

  ghost function RowBase(x: seq<nat>, u: nat, at: nat, b: nat): (v: nat)
    requires b >= 1
    ensures v == Val(x, b) + u * Pow(b, at)
  {
    PowPos(b, at);
    MulNonNeg(u, Pow(b, at));
    Val(x, b) + u * Pow(b, at)
  }

  lemma RowBegins(x: seq<nat>, u: nat, n: seq<nat>, d: nat, at: nat, b: nat)
    requires b >= 1
    ensures RowState(x, u, 0, RowBase(x, u, at, b), n, 2 * d, at, b)
  {
    ValEmpty(n[..0], b);
  }

  /** The rows still to come make up the square of the digits from ix on. */
  ghost predicate SquareState(v: nat, a: seq<nat>, ix: nat, b: nat)
    requires ix <= |a|
  {
    v + Pow(b, 2 * ix) * (Val(a[ix..], b) * Val(a[ix..], b)) == Val(a, b) * Val(a, b)
  }

  /** One row takes the square of the digit and twice its products with the digits above. */
  lemma SquareStep(v: nat, v': nat, a: seq<nat>, ix: nat, b: nat)
    requires ix < |a| && SquareState(v, a, ix, b)
    requires v' == v + (a[ix] * a[ix]) * Pow(b, 2 * ix) + (2 * a[ix]) * Val(a[ix + 1..], b) * Pow(b, 2 * ix + 1)
    ensures SquareState(v', a, ix + 1, b)
  {
    var p, d, h := Pow(b, 2 * ix), a[ix], Val(a[ix + 1..], b);
    assert Pow(b, 2 * ix + 1) == b * p && Pow(b, 2 * (ix + 1)) == b * (b * p);
    assert a[ix..][0] == d && a[ix..][1..] == a[ix + 1..];
    ValHead(a[ix..], b);
    hide Val, Pow;
    SplitSquare(p, d, h, b);
  }

  lemma SplitSquare(p: int, d: int, h: int, b: int)
    ensures p * ((d + b * h) * (d + b * h)) == (d * d) * p + (2 * d) * h * (b * p) + b * (b * p) * (h * h)
  {
    var c := b * h;
    MulDist(d, c, d + c);
    MulDist(d, c, d);
    MulDist(d, c, c);
    assert (d + c) * (d + c) == d * d + 2 * (d * c) + c * c;
    MulDist(d * d + 2 * (d * c), c * c, p);
    MulDist(d * d, 2 * (d * c), p);
    assert (2 * d) * h * (b * p) == 2 * (d * c) * p;
    assert b * (b * p) * (h * h) == c * c * p;
  }

  lemma SquareBelow(v: nat, a: seq<nat>, ix: nat, len: nat, b: nat)
    requires b >= 2 && IsDigits(a, b) && ix <= |a| && SquareState(v, a, ix, b) && 2 * |a| <= len
    ensures v < Pow(b, len)
  {
    hide Val, Pow;
    PowPos(b, 2 * ix);
    var h := Val(a[ix..], b);
    MulNonNeg(h, h);
    MulNonNeg(Pow(b, 2 * ix), h * h);
    ValBound(a, b);
    PowPos(b, |a|);
    MulMono(Val(a, b), Pow(b, |a|), Val(a, b));
    MulStrict(Val(a, b), Pow(b, |a|), Pow(b, |a|));
    PowAdd(b, |a|, |a|);
    PowMono(b, 2 * |a|, len);
  }

  /** s_mp_sqr, in words that hold two squares of the radix. */
  method SchoolSqr(a: seq<nat>, b: nat, ww: nat) returns (out: seq<nat>)
    requires b >= 2 && IsDigits(a, b) && 2 * (b * b) <= ww
    ensures IsDigits(out, b) && Val(out, b) == Val(a, b) * Val(a, b)
  {
    hide Val, Pow, Quo, Rem, SquareState, RowState;
    var t := new nat[2 * |a| + 1](_ => 0);
    var ix := 0;
    ValZeros(t[..], b);
    SquareStart(a, b);
    while ix < |a|
      invariant 0 <= ix <= |a| && IsDigits(t[..], b)
      invariant SquareState(Val(t[..], b), a, ix, b)
    {
      ghost var v: nat := Val(t[..], b);
      var u := SquareDigit(t, a[ix], 2 * ix, b, ww);
      ghost var t1 := t[..];
      var u1 := SquareRow(t, a[ix + 1..], a[ix], 2 * ix + 1, u, b, ww);
      ghost var v' := RowTotal(v, t1, t[..], u, u1, a, ix, b);
      SquareStep(v, v', a, ix, b);
      SquareBelow(v', a, ix + 1, t.Length, b);
      Propagate(t, ix + |a|, u1, b);
      ix := ix + 1;
    }
    SquareEnd(Val(t[..], b), a, b);
    out := t[..];
  }

  lemma SquareStart(a: seq<nat>, b: nat)
    ensures SquareState(0, a, 0, b)
  {
    assert a[0..] == a;
  }

  lemma SquareEnd(v: nat, a: seq<nat>, b: nat)
    requires SquareState(v, a, |a|, b)
    ensures v == Val(a, b) * Val(a, b)
  {
    ValEmpty(a[|a|..], b);
  }

  /** Lines 37-44. */
  method SquareDigit(t: array<nat>, d: nat, at: nat, b: nat, ww: nat) returns (u: nat)
    requires b >= 2 && d < b && at < t.Length && IsDigits(t[..], b) && 2 * (b * b) <= ww
    modifies t
    ensures IsDigits(t[..], b) && u <= 2 * (b - 1)
    ensures Val(t[..], b) + u * Pow(b, at + 1) == old(Val(t[..], b)) + (d * d) * Pow(b, at)
  {
    hide Val, Pow, Quo, Rem;
    ghost var before := t[..];
    MulMono2(d, b - 1, d, b - 1);
    assert (b - 1) * (b - 1) == b * b - 2 * b + 1;
    var r := t[at] + d * d;
    RemSmall(r, ww);
    CarryStep(r, b);
    r := Rem(r, ww);
    var digit: nat := Rem(r, b);
    u := Quo(r, b);
    AddCarryValue(before, at, digit, d * d, 0, u, b);
    t[at] := digit;
    assert t[..] == before[at := digit];
  }

  lemma RowTotal(v: nat, t1: seq<nat>, t2: seq<nat>, u: nat, u1: nat, a: seq<nat>, ix: nat, b: nat) returns (v': nat)
    requires b >= 1 && ix < |a| && Val(t1, b) + u * Pow(b, 2 * ix + 1) == v + (a[ix] * a[ix]) * Pow(b, 2 * ix)
    requires RowState(t2, u1, |a[ix + 1..]|, RowBase(t1, u, 2 * ix + 1, b), a[ix + 1..], 2 * a[ix], 2 * ix + 1, b)
    ensures v' == Val(t2, b) + u1 * Pow(b, ix + |a|)
    ensures v' == v + (a[ix] * a[ix]) * Pow(b, 2 * ix) + (2 * a[ix]) * Val(a[ix + 1..], b) * Pow(b, 2 * ix + 1)
  {
    hide Val, Pow;
    var n := a[ix + 1..];
    assert n[..|n|] == n && 2 * ix + 1 + |n| == ix + |a|;
    PowPos(b, ix + |a|);
    MulNonNeg(u1, Pow(b, ix + |a|));
    v' := Val(t2, b) + u1 * Pow(b, ix + |a|);
  }

  // ----- Squares of any size -----

  /** mp_sqr */
  method MpSqr(a: int, c: Config) returns (p: nat)
    requires Sound(c)
    ensures p == a * a
    decreases Used(Abs(a), c.b), 1
  {
    hide Used, Pow, Val;
    var n := Abs(a);
    var used := Used(n, c.b);
    assert a * a == n * n;
    if used >= c.toomSqr {
      p := ToomSqr(n, c);
    } else if used >= c.karatsubaSqr {
      p := KaratsubaSqr(n, c);
    } else {
      p := SqrDigits(n, c);
    }
  }

  method SqrDigits(n: nat, c: Config) returns (p: nat)
    requires Sound(c)
    ensures p == n * n
  {
    hide Val, Pow, ToDigits;
    var x := ToDigits(n, c.b);
    ToDigitsVal(n, c.b);
    var out;
    if 2 * |x| + 1 < c.warray && 2 * |x| * (c.b * c.b) < c.ww {
      GuardHalved(|x|, c.b * c.b);
      out := FastSqr(x, c.b, c.ww, c.warray);
    } else {
      out := SchoolSqr(x, c.b, c.ww);
    }
    p := Val(out, c.b);
  }

  lemma GuardHalved(n: nat, q: int)
    requires q >= 0
    ensures n * q <= 2 * n * q
  {
    MulNonNeg(n, q);
    MulSwap(2, n, q);
  }

  /** mp_karatsuba_sqr */
  method KaratsubaSqr(n: nat, c: Config) returns (r: nat)
    requires Sound(c) && Used(n, c.b) >= 4
    ensures r == n * n
    decreases Used(n, c.b), 0
  {
    hide Used, Pow, Val, ToDigits;
    var B := Used(n, c.b) / 2;
    var s := ToDigits(n, c.b);
    ghost var lo, hi := Multiplication.Cut(n, B, c.b);
    UsedIs(n, c.b);
    var x0, x1 := Val(s[..B], c.b), Val(s[B..], c.b);
    PowMono(c.b, B, Used(n, c.b) - B);
    SumUsed(x1, x0, Used(n, c.b) - B, c.b);
    var x0x0 := MpSqr(x0, c);
    var x1x1 := MpSqr(x1, c);
    var t1 := MpSqr(x1 + x0, c);
    var shift := NatPow(c.b, B);
    Multiplication.KaratsubaIdentity(x0, x1, x0, x1, shift);
    var t2 := x0x0 + x1x1;
    // s_mp_sub needs the larger operand first.
    assert t1 >= t2;
    t1 := t1 - t2;
    r := x0x0 + t1 * shift + x1x1 * (shift * shift);
  }

  /** mp_toom_sqr */
  method ToomSqr(n: nat, c: Config) returns (r: nat)
    requires Sound(c) && Used(n, c.b) >= 3
    ensures r == n * n
    decreases Used(n, c.b), 0
  {
    hide Used, Pow, Val, ToDigits, Product, Interpolated;
    var B := Used(n, c.b) / 3;
    var s := ToDigits(n, c.b);
    UsedIs(n, c.b);
    Cut3(n, B, c.b);
    var a0, a1, a2 := Val(s[..B], c.b), Val(s[B..2 * B], c.b), Val(s[2 * B..], c.b);
    PointsUsed(a0, a1, a2, B, |s| - 2 * B, c.b);
    var x1, x3, x2 := a2 + 2 * (a1 + 2 * a0), a0 + 2 * (a1 + 2 * a2), a2 + a1 + a0;
    var w0 := MpSqr(a0, c);
    var w4 := MpSqr(a2, c);
    var r1 := MpSqr(x1, c);
    var r3 := MpSqr(x3, c);
    var r2 := MpSqr(x2, c);
    ghost var c1, c2, c3 := Points(x1, x1, x3, x3, x2, x2, a0, a1, a2, a0, a1, a2);
    InterpolatedExact(w0, c1, c2, c3, w4);
    var w1, w2, w3 := Multiplication.Interpolate(w0, r1, r2, r3, w4);
    var p := Pow(c.b, B);
    AtPoint(n, n, a0, a1, a2, a0, a1, a2, w0, w1, w2, w3, w4, p);
    r := w0 + w1 * p + w2 * (p * p) + w3 * (p * (p * p)) + w4 * ((p * p) * (p * p));
  }
}
