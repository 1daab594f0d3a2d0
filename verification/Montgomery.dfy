/** Montgomery reduction, digit by digit and in place (bn_mp_montgomery_reduce.c). */
module Montgomery {
  import opened Arith
  import opened Digits
  import opened Magnitude
  import opened Rows

  /** y is the Montgomery reduction of v modulo N with factor R: y*R = v (mod N), y in [0, N). */
  ghost predicate Reduced(y: int, v: int, N: int, R: int) {
    0 <= y < N && Cong(y * R, v, N)
  }

  /** What `mp_montgomery_reduce` asks of the modulus and of rho: rho = -1/n[0] (mod b). */
  ghost predicate Setup(n: seq<nat>, rho: nat, b: nat) {
    b >= 2 && |n| > 0 && IsDigits(n, b) && Val(n, b) > 0 && rho < b && Rem(rho * n[0] + 1, b) == 0
  }

  /** Setup makes b invertible modulo the modulus. */
  lemma RadixInverse(n: seq<nat>, rho: nat, b: nat) returns (c: int)
    requires Setup(n, rho, b)
    ensures Cong(b * c, 1, Val(n, b))
  {
    hide Val, Cong;
    var hi, q := Val(n[1..], b), (rho * n[0] + 1) / b;
    assert rho * n[0] + 1 == q * b by { DivModSpec(rho * n[0] + 1, b); }
    ValHead(n, b);
    c := q + rho * hi;
    InverseAlgebra(rho, n[0], hi, q, b);
    CongIntro(b * c, 1, Val(n, b), rho);
  }

  lemma InverseAlgebra(rho: int, n0: int, hi: int, q: int, b: int)
    requires rho * n0 + 1 == q * b
    ensures b * (q + rho * hi) - 1 == rho * (n0 + b * hi)
  {
    MulDist(q, rho * hi, b);
    MulDist(n0, b * hi, rho);
    MulSwap(b, rho, hi);
  }

  /** The reduction is unique, so any two algorithms that meet `Reduced` return the same number. */
  lemma ReductionUnique(y: int, z: int, v: int, n: seq<nat>, rho: nat, b: nat, k: nat)
    requires Setup(n, rho, b)
    requires Reduced(y, v, Val(n, b), Pow(b, k)) && Reduced(z, v, Val(n, b), Pow(b, k))
    ensures y == z
  {
    var N, R := Val(n, b), Pow(b, k);
    var c := RadixInverse(n, rho, b);
    var ck := Pow(c, k);
    assert Cong(R * ck, 1, N) by {
      CongPow(b * c, 1, k, N);
      PowDistributes(b, c, k);
      PowOne(k);
    }
    CongSym(z * R, v, N);
    CongTrans(y * R, v, z * R, N);
    CancelFactor(y, z, R, ck, N);
    CongUnique(y, z, N);
  }

  /** A factor with an inverse can be cancelled from a congruence. */
  lemma CancelFactor(y: int, z: int, R: int, inv: int, N: int)
    requires Cong(R * inv, 1, N) && Cong(y * R, z * R, N)
    ensures Cong(y, z, N)
  {
    CongScale(inv, y * R, z * R, N);
    CongScale(y, R * inv, 1, N);
    CongScale(z, R * inv, 1, N);
    MulSwap(y, R, inv);
    MulSwap(z, R, inv);
    CongSym(y * (R * inv), y * 1, N);
    CongTrans(y, y * R * inv, z * R * inv, N);
    CongTrans(y, z * R * inv, z, N);
  }

  /** The chosen multiplier clears the digit it is chosen for. */
  lemma MuClears(a: nat, rho: nat, n0: nat, b: nat)
    requires b >= 2 && Rem(rho * n0 + 1, b) == 0
    ensures Rem(a + Rem(a * rho, b) * n0, b) == 0
  {
    var mu, q, c := (a * rho) % b, (a * rho) / b, (rho * n0 + 1) / b;
    assert a * rho == q * b + mu by { DivModSpec(a * rho, b); }
    assert rho * n0 + 1 == c * b by { DivModSpec(rho * n0 + 1, b); }
    calc {
      a + mu * n0;
      a + (a * rho - q * b) * n0;
      { MulDist(a * rho, q * b, n0); }
      a + a * rho * n0 - (q * b) * n0;
      { MulSwap(a, rho, n0); MulSwap(q, b, n0); MulSwap(q, n0, b); }
      a + a * (rho * n0) - (q * n0) * b;
      { MulDist(1, rho * n0, a); }
      a * (c * b) - (q * n0) * b;
      { MulSwap(a, c, b); MulDist(a * c, q * n0, b); }
      (a * c - q * n0) * b;
    }
    DivModUnique(a + mu * n0, b, a * c - q * n0, 0);
  }

  // ---- the digit-by-digit form ----

  /** mp_rshd: drop the low k entries. */
  method ShiftDown(x: array<nat>, k: nat)
    requires k <= x.Length
    modifies x
    ensures x[..] == old(x[k..]) + seq(k, _ => 0)
  {
    var len := x.Length - k;
    for i := 0 to len
      invariant forall j :: 0 <= j < i ==> x[j] == old(x[j + k])
      invariant forall j :: i <= j < x.Length ==> x[j] == old(x[j])
    {
      x[i] := x[i + k];
    }
    for i := len to x.Length
      invariant forall j :: 0 <= j < len ==> x[j] == old(x[j + k])
      invariant forall j :: len <= j < i ==> x[j] == 0
    {
      x[i] := 0;
    }
    assert forall j :: 0 <= j < len ==> old(x[k..])[j] == old(x[j + k]);
  }

  /** After all rows: v0 + M*N is below 2*N*b^k and fits the buffer of 2k+1 digits. */
  lemma RowsBound(v0: nat, M: nat, N: nat, b: nat, k: nat)
    requires b >= 2 && 0 < N < Pow(b, k) && v0 < N * Pow(b, k) && M < Pow(b, k)
    ensures v0 + M * N < 2 * N * Pow(b, k)
    ensures v0 + M * N < Pow(b, 2 * k + 1)
  {
    var R := Pow(b, k);
    MulStrict(M, R, N);
    PowAdd(b, k, k);
    MulMono(N, R, R);
    MulMono(2, b, R * R);
    assert Pow(b, 2 * k + 1) == b * Pow(b, 2 * k);
    assert 2 * N * R == 2 * (N * R);
  }

  /** One row advances the multiplier M by mu*b^ix. */
  lemma RowAdvance(M: nat, mu: nat, N: nat, ix: nat, b: nat)
    requires b >= 2 && mu < b && M < Pow(b, ix)
    ensures var M' := M + mu * Pow(b, ix);
            0 <= M' < Pow(b, ix + 1) && M' * N == M * N + mu * N * Pow(b, ix)
  {
    var p := Pow(b, ix);
    MulStep(mu, b, p);
    MulNonNeg(mu, p);
    MulDist(M, mu * p, N);
    MulSwap(mu, p, N);
    MulSwap(mu, N, p);
  }

  /** A conditional subtraction of N finishes the reduction of y*R = v0 + M*N with y < 2N. */
  lemma LastSubtraction(y: nat, v0: nat, M: nat, N: nat, b: nat, k: nat)
    requires b >= 2 && 0 < N < Pow(b, k) && v0 < N * Pow(b, k) && M < Pow(b, k)
    requires y * Pow(b, k) == v0 + M * N
    ensures y < 2 * N
    ensures Reduced(if y >= N then y - N else y, v0, N, Pow(b, k))
  {
    var R := Pow(b, k);
    RowsBound(v0, M, N, b, k);
    MulCancelLt(y, 2 * N, R);
    if y >= N {
      MulDist(y, N, R);
      MulDist(M, R, N);
      CongIntro((y - N) * R, v0, N, M - R);
    } else {
      CongIntro(y * R, v0, N, M);
    }
  }

  /** mp_montgomery_reduce, the baseline path (lines 46-110). */
  method MontgomeryReduce(x: array<nat>, n: seq<nat>, rho: nat, b: nat, dw: nat)
    requires MachineDigit(b, dw) && Setup(n, rho, b)
    requires x.Length >= 2 * |n| + 1 && IsDigits(x[..], b)
    requires Val(x[..], b) < Val(n, b) * Pow(b, |n|)
    modifies x
    ensures IsDigits(x[..], b)
    ensures Reduced(Val(x[..], b), old(Val(x[..], b)), Val(n, b), Pow(b, |n|))
  {
    hide Pow, Val, Cong, Quo;
    var k := |n|;
    ghost var v0, N := Val(x[..], b), Val(n, b);
    ghost var M: nat := 0;
    ValBound(n, b);
    PowMono(b, 2 * k + 1, x.Length);
    var ix := 0;
    ValEmpty([], b);
    while ix < k
      invariant 0 <= ix <= k
      invariant IsDigits(x[..], b)
      invariant M < Pow(b, ix)
      invariant Val(x[..], b) == v0 + M * N
      invariant forall j :: 0 <= j < ix ==> x[j] == 0
    {
      var mu: nat := Rem(x[ix] * rho, b);
      MuClears(x[ix], rho, n[0], b);
      RowAdvance(M, mu, N, ix, b);
      M := M + mu * Pow(b, ix);
      PowMono(b, ix + 1, k);
      RowsBound(v0, M, N, b, k);
      var u := MulAddRow(x, n, mu, ix, b);
      assert n[..k] == n;
      Propagate(x, ix + k, u, b);
      ix := ix + 1;
    }
    ghost var full := x[..];
    ghost var y := Val(full[k..], b);
    assert y * Pow(b, k) == v0 + M * N by {
      ValSplit(full, k, b);
      ValZeros(full[..k], b);
    }
    LastSubtraction(y, v0, M, N, b, k);
    ShiftDown(x, k);
    ValTrim(x[..], x.Length - k, b);
    assert x[..][..x.Length - k] == full[k..];
    if Val(x[..], b) >= Val(n, b) {
      assert x[..x.Length] == x[..];
      SubInPlace(x, x.Length, n, b, dw);
      assert x[..x.Length] == x[..];
    }
  }
}
