/**
 * Reductions for moduli close to a power of the radix or of two
 * (bn_mp_dr_reduce.c, bn_mp_reduce_2k.c, bn_mp_reduce_2k_l.c and their setup files).
 */
module SpecialReduction {
  import opened Arith
  import opened Digits
  import opened Magnitude
  import opened Rows
  import opened MontgomerySetup

  // ---- diminished radix: n = b^m - k ----

  /** Folding the upper half keeps the residue and never increases the value. */
  lemma FoldKeeps(v: nat, lo: nat, hi: nat, R: nat, N: nat, k: nat)
    requires v == lo + R * hi && R == N + k && N > 0
    ensures 0 <= lo + k * hi <= v && Cong(lo + k * hi, v, N)
  {
    MulNonNeg(N, hi);
    MulNonNeg(k, hi);
    assert v - (lo + k * hi) == N * hi by { MulDist(N, k, hi); }
    CongIntro(lo + k * hi, v, N, 0 - hi);
  }

  /** Lines 58-76 in place: x := (x mod b^m) + k * (x / b^m). */
  method Fold(x: array<nat>, m: nat, k: nat, b: nat)
    requires b >= 2 && m >= 1 && k < b && x.Length >= 2 * m && IsDigits(x[..], b)
    requires forall j :: 2 * m <= j < x.Length ==> x[j] == 0
    modifies x
    ensures IsDigits(x[..], b) && forall j :: m < j < x.Length ==> x[j] == 0
    ensures Val(x[..], b) == old(Val(x[..m], b)) + k * old(Val(x[m..2 * m], b))
  {
    hide Val, Pow, Rem;
    ghost var before := x[..];
    var upper := x[m..2 * m];
    var u: nat := MulAddRow(x, upper, k, 0, b);
    ghost var mid := x[..];
    x[m] := u;
    for i := m + 1 to x.Length
      invariant forall j :: 0 <= j < m ==> x[j] == mid[j]
      invariant x[m] == u
      invariant forall j :: m < j < i ==> x[j] == 0
    {
      x[i] := 0;
    }
    FoldValue(before, mid, x[..], m, k, u, b);
  }

  lemma FoldValue(before: seq<nat>, mid: seq<nat>, after: seq<nat>, m: nat, k: nat, u: nat, b: nat)
    requires 1 <= m && 2 * m <= |before| == |mid| == |after|
    requires RowState(mid, u, m, Val(before, b), before[m..2 * m], k, 0, b)
    requires mid[m..] == before[m..]
    requires after[..m] == mid[..m] && after[m] == u && forall j :: m < j < |after| ==> after[j] == 0
    ensures Val(after, b) == Val(before[..m], b) + k * Val(before[m..2 * m], b)
  {
    var up := before[m..2 * m];
    assert up[..m] == up;
    ValEmpty([], b);
    ValSplit(mid, m, b);
    ValSplit(before, m, b);
    ValTrim(after, m + 1, b);
    ValPrefix(after, m, b);
    hide Val, Pow;
    assert Val(mid, b) + u * Pow(b, 0 + m) == Val(before, b) + k * Val(up, b) * 1;
  }

  /** mp_dr_reduce: exactly x mod n for n = b^m - k, 0 < k < b and x < b^(2m). */
  method DrReduce(x: array<nat>, n: seq<nat>, k: nat, b: nat, dw: nat)
    requires MachineDigit(b, dw) && |n| >= 1 && IsDigits(n, b) && 0 < k < b
    requires Val(n, b) + k == Pow(b, |n|) && Val(n, b) > 0
    requires x.Length >= 2 * |n| && IsDigits(x[..], b) && Val(x[..], b) < Pow(b, 2 * |n|)
    modifies x
    ensures IsDigits(x[..], b)
    ensures Val(x[..], b) == old(Val(x[..], b)) % Val(n, b)
  {
    hide Val, Pow, Cong, MachineDigit;
    var m := |n|;
    ghost var v0, N := Val(x[..], b), Val(n, b);
    HighZero(x[..], 2 * m, b);
    CongRefl(v0, N);
    while true
      invariant IsDigits(x[..], b)
      invariant forall j :: 2 * m <= j < x.Length ==> x[j] == 0
      invariant Cong(Val(x[..], b), v0, N)
      decreases Val(x[..], b)
    {
      ghost var v := Val(x[..], b);
      assert v == Val(x[..m], b) + Pow(b, m) * Val(x[m..2 * m], b) by { HalfSplit(x[..], m, b); }
      FoldKeeps(v, Val(x[..m], b), Val(x[m..2 * m], b), Pow(b, m), N, k);
      Fold(x, m, k, b);
      CongTrans(Val(x[..], b), v, v0, N);
      if Val(x[..], b) < Val(n, b) {
        break;
      }
      ghost var w := Val(x[..], b);
      TailBound(x[..], m, b);
      assert x[..x.Length] == x[..];
      SubInPlace(x, x.Length, n, b, dw);
      assert x[..x.Length] == x[..];
      CongIntro(w - N, w, N, -1);
      CongTrans(w - N, w, v0, N);
      HighZero(x[..], 2 * m, b);
    }
    CongToMod(Val(x[..], b), v0, N);
  }

  lemma HalfSplit(s: seq<nat>, m: nat, b: nat)
    requires 2 * m <= |s| && forall j :: 2 * m <= j < |s| ==> s[j] == 0
    ensures Val(s, b) == Val(s[..m], b) + Pow(b, m) * Val(s[m..2 * m], b)
  {
    ValTrim(s, 2 * m, b);
    ValSplit(s[..2 * m], m, b);
    assert s[..2 * m][..m] == s[..m] && s[..2 * m][m..] == s[m..2 * m];
  }

  lemma TailBound(s: seq<nat>, m: nat, b: nat)
    requires b >= 2 && 1 <= m < |s| && IsDigits(s, b) && forall j :: m < j < |s| ==> s[j] == 0
    ensures Val(s, b) < Pow(b, 2 * m)
  {
    ValTrim(s, m + 1, b);
    ValBound(s[..m + 1], b);
    PowMono(b, m + 1, 2 * m);
  }

  // ---- n = 2^p - d ----

  /** What mp_reduce_2k leaves when its constant d is zero: x mod 2^p, less n if that is not below n. */
  function Folded(x: nat, n: nat): (r: nat)
    requires n > 0
  {
    var p := NatPow(2, CountBits(n));
    PowPos(2, CountBits(n));
    DivModSpec(x, p);
    if Rem(x, p) < n then Rem(x, p) else Rem(x, p) - n
  }

  lemma CountBitsBounds(n: nat)
    requires n > 0
    ensures n < Pow(2, CountBits(n)) <= 2 * n
  {
    UsedBounds(n, 2);
    var c := CountBits(n);
    assert Pow(2, c) == 2 * Pow(2, c - 1);
  }

  /**
   * mp_reduce_2k and mp_reduce_2k_l share this loop: fold a = (a mod 2^p) + d * (a / 2^p) until it
   * is below n. With d = 2^p - n the result is a mod n; with d = 0 it is only `Folded`.
   */
  method Reduce2k(x: nat, n: nat, d: nat) returns (a: nat)
    requires n > 0 && n + d <= Pow(2, CountBits(n))
    ensures a < n
    ensures n + d == Pow(2, CountBits(n)) ==> a == x % n
    ensures d == 0 ==> a == Folded(x, n)
  {
    hide CountBits, Cong, Quo, Rem;
    var p: nat := NatPow(2, CountBits(n));
    PowPos(2, CountBits(n));
    CountBitsBounds(n);
    a := x;
    CongRefl(x, n);
    ghost var first := true;
    while true
      invariant n + d == p ==> Cong(a, x, n)
      invariant first ==> a == x
      invariant !first && d == 0 ==> a < n && a == Folded(x, n)
      decreases a
    {
      ghost var a0 := a;
      SplitAt(a, p);
      var q: nat, lo: nat := Quo(a, p), Rem(a, p);
      if d != 1 {
        q := NatMul(q, d);
      }
      a := lo + q;
      FoldStep(a0, x, Quo(a0, p), lo, p, n, d);
      FoldedStep(a0, x, n, d, first);
      if a < n {
        break;
      }
      CongShift(a, x, n);
      a := a - n;
      first := false;
    }
    if n + d == p { CongToMod(a, x, n); }
  }

  lemma SplitAt(a: nat, p: nat)
    requires p > 0
    ensures Quo(a, p) >= 0 && 0 <= Rem(a, p) < p && a == Quo(a, p) * p + Rem(a, p)
  {
    DivModSpec(a, p);
    DivNonNeg(a, p);
  }

  lemma FoldStep(a0: nat, x: nat, q: nat, lo: nat, p: nat, n: nat, d: nat)
    requires n > 0 && n + d <= p && a0 == q * p + lo && (n + d == p ==> Cong(a0, x, n))
    ensures lo + q * d <= a0
    ensures n + d == p ==> Cong(lo + q * d, x, n)
  {
    MulMono(d, p, q);
    if n + d == p {
      FoldKeeps(a0, lo, q, p, n, d);
      CongTrans(lo + q * d, a0, x, n);
    }
  }

  /** With d = 0 the first pass takes x mod 2^p and a second pass changes nothing. */
  lemma FoldedStep(a0: nat, x: nat, n: nat, d: nat, first: bool)
    requires n > 0 && Pow(2, CountBits(n)) > 0 && n < Pow(2, CountBits(n)) <= 2 * n
    requires first ==> a0 == x
    requires !first && d == 0 ==> a0 < n && a0 == Folded(x, n)
    ensures d == 0 ==> var lo := Rem(a0, Pow(2, CountBits(n)));
                       if lo < n then lo == Folded(x, n) else lo - n == Folded(x, n)
  {
    hide CountBits, Pow;
    if d == 0 && !first { DivModUnique(a0, Pow(2, CountBits(n)), 0, a0); }
  }

  lemma CongShift(a: nat, x: nat, n: nat)
    ensures Cong(a, x, n) ==> Cong(a - n, x, n)
  {
    if Cong(a, x, n) {
      CongIntro(a - n, a, n, -1);
      CongTrans(a - n, a, x, n);
    }
  }

  /** For a power of two the zero constant does no harm: n divides 2^p. */
  lemma FoldedPower(x: nat, n: nat)
    requires n > 0 && 2 * n == Pow(2, CountBits(n))
    ensures Folded(x, n) == x % n
  {
    var p := Pow(2, CountBits(n));
    hide Pow, CountBits, Quo, Rem;
    QuoRemSpec(x, p);
    var q, r := Quo(x, p), Rem(x, p);
    assert x == (2 * q) * n + r by { MulSwap(q, 2, n); }
    if r < n {
      DivModUnique(x, n, 2 * q, r);
    } else {
      MulDist(2 * q, 1, n);
      DivModUnique(x, n, 2 * q + 1, r - n);
    }
  }
}
