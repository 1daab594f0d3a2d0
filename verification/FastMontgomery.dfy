/** The column form of Montgomery reduction with delayed carries (bn_fast_mp_montgomery_reduce.c). */
module FastMontgomery {
  import opened Arith
  import opened Digits
  import opened Magnitude
  import opened Montgomery

  /** A column holds at most one digit and `rows` products before its carry arrives. */
  ghost function ColumnBound(rows: nat, b: nat): int {
    (b - 1) + rows * ((b - 1) * (b - 1))
  }

  /** Within the guard k * b^2 < ww a full column with its incoming carry fits a machine word. */
  lemma ColumnFitsWord(rows: nat, k: nat, b: nat, ww: nat)
    requires b >= 2 && rows <= k && (k + 1) * (b * b) <= ww
    ensures ColumnBound(rows, b) + (k + 1) * b < ww
  {
    var s := (b - 1) * (b - 1);
    MulMono(rows, k, s);
    assert s == b * b - 2 * b + 1;
    assert (k + 1) * (b * b) == k * (b * b) + b * b;
    assert k * s == k * (b * b) - 2 * (k * b) + k;
    assert (k + 1) * b == k * b + b;
    MulMono(1, b, k);
    assert b * b >= 2 * b;
  }

  lemma ColumnBoundStep(rows: nat, b: nat)
    ensures ColumnBound(rows + 1, b) == ColumnBound(rows, b) + (b - 1) * (b - 1)
  {
    MulDist(rows, 1, (b - 1) * (b - 1));
  }

  /** The carry out of a full column is at most (k+1)*b. */
  lemma CarryBound(w: nat, rows: nat, k: nat, b: nat)
    requires b >= 2 && rows <= k && w <= ColumnBound(rows, b) + (k + 1) * b
    ensures 0 <= Quo(w, b) <= (k + 1) * b
  {
    hide ColumnBound;
    var lim := (k + 1) * b;
    assert w < lim * b by {
      ColumnFitsWord(rows, k, b, (k + 1) * (b * b));
      MulSwap(k + 1, b, b);
    }
    DivLt(w, b, lim);
    DivNonNeg(w, b);
  }

  /** iy products of mu with the digits of n have been added to the columns from ix up. */
  ghost predicate ColumnsState(t: seq<nat>, t0: nat, n: seq<nat>, iy: nat, mu: nat, b: nat)
    requires iy <= |n|
  {
    Val(t, b) == t0 + mu * Val(n[..iy], b)
  }

  lemma ColumnsStep(t: seq<nat>, t0: nat, n: seq<nat>, iy: nat, mu: nat, b: nat, w: nat)
    requires iy < |n| && iy < |t| && ColumnsState(t, t0, n, iy, mu, b) && w == t[iy] + mu * n[iy]
    ensures ColumnsState(t[iy := w], t0, n, iy + 1, mu, b)
  {
    ValUpdate(t, iy, w, b);
    ValPrefix(n, iy, b);
    hide Val, Pow;
    var q, v := Pow(b, iy), Val(n[..iy], b);
    MulDist(v, n[iy] * q, mu);
    MulSwap(mu, n[iy], q);
    assert w - t[iy] == mu * n[iy];
  }

  lemma ProductBound(mu: nat, d: nat, b: nat)
    requires b >= 2 && mu < b && d < b
    ensures 0 <= mu * d <= (b - 1) * (b - 1)
  {
    MulMono2(mu, b - 1, d, b - 1);
  }

  /** Lines 104-110: W[ix..] += mu * n, columns only, each sum taken modulo the word size ww. */
  method AddColumns(W: array<nat>, n: seq<nat>, mu: nat, ix: nat, b: nat, ww: nat, ghost top: nat)
    requires b >= 2 && mu < b && IsDigits(n, b) && ix < |n|
    requires W.Length >= 2 * |n| + 1
    requires top == (b - 1) * (b - 1)
    requires forall j :: ix <= j < ix + |n| ==> W[j] + top < ww
    modifies W
    ensures Val(W[ix..2 * |n| + 1], b) == old(Val(W[ix..2 * |n| + 1], b)) + mu * Val(n, b)
    ensures forall j :: ix <= j <= 2 * |n| ==> W[j] <= old(W[j]) + top
    ensures W[ix] == old(W[ix]) + mu * n[0]
    ensures forall j :: 2 * |n| < j < W.Length ==> W[j] == old(W[j])
  {
    var k := |n|;
    ghost var t0 := Val(W[ix..2 * k + 1], b);
    var iy := 0;
    ValEmpty(n[..0], b);
    assert ColumnsState(W[ix..2 * k + 1], t0, n, 0, mu, b);
    hide Val, Pow, ColumnsState, Rem;
    while iy < k
      invariant 0 <= iy <= k
      invariant ColumnsState(W[ix..2 * k + 1], t0, n, iy, mu, b)
      invariant forall j :: ix <= j < ix + iy ==> W[j] <= old(W[j]) + top
      invariant forall j :: ix + iy <= j < W.Length ==> W[j] == old(W[j])
      invariant iy > 0 ==> W[ix] == old(W[ix]) + mu * n[0]
    {
      ghost var before := W[ix..2 * k + 1];
      var c := ix + iy;
      ProductBound(mu, n[iy], b);
      RemSmall(W[c] + mu * n[iy], ww);
      var w: nat := Rem(W[c] + mu * n[iy], ww);
      ColumnsStep(before, t0, n, iy, mu, b, w);
      W[c] := w;
      assert W[ix..2 * k + 1] == before[iy := w];
      iy := iy + 1;
    }
    ColumnsDone(W[ix..2 * k + 1], t0, n, mu, b);
  }

  lemma ColumnsDone(t: seq<nat>, t0: nat, n: seq<nat>, mu: nat, b: nat)
    requires ColumnsState(t, t0, n, |n|, mu, b)
    ensures Val(t, b) == t0 + mu * Val(n, b)
  {
    assert n[..|n|] == n;
  }

  /** mu is chosen from the masked column, yet clears the whole column modulo b. */
  lemma MaskedMuClears(w: nat, rho: nat, n0: nat, b: nat)
    requires b >= 2 && Rem(rho * n0 + 1, b) == 0
    ensures Rem(w + Rem(Rem(w, b) * rho, b) * n0, b) == 0
  {
    var a, q := Rem(w, b), Quo(w, b);
    var mu := Rem(a * rho, b);
    assert w == q * b + a && 0 <= a < b by { DivModSpec(w, b); }
    MuClears(a, rho, n0, b);
    var c := Quo(a + mu * n0, b);
    assert a + mu * n0 == c * b by { DivModSpec(a + mu * n0, b); }
    MulDist(q, c, b);
    DivModUnique(w + mu * n0, b, q + c, 0);
  }

  /** Moving an exact carry c*b from the lowest column to the next divides the rest by b. */
  lemma CarryUp(t: seq<nat>, c: nat, b: nat)
    requires |t| >= 2 && t[0] == c * b
    ensures Val(t, b) == b * Val(t[1..][0 := t[1] + c], b)
  {
    ValHead(t, b);
    ValUpdate(t[1..], 0, t[1] + c, b);
    ValEmpty([], b);
    hide Val, Pow;
    MulDist(Val(t[1..], b), c, b);
  }

  /** Rows 0..ix have been cleared: the columns from ix up, shifted, are v0 + M*N. */
  ghost predicate TailState(t: seq<nat>, ix: nat, v0: nat, M: nat, N: nat, b: nat) {
    Pow(b, ix) * Val(t, b) == v0 + M * N
  }

  lemma TailStep(t: seq<nat>, sum: nat, t': seq<nat>, ix: nat, v0: nat, M: nat, mu: nat, N: nat, b: nat)
    requires b >= 2 && mu < b && M < Pow(b, ix)
    requires TailState(t, ix, v0, M, N, b)
    requires sum == Val(t, b) + mu * N && sum == b * Val(t', b)
    ensures 0 <= M + mu * Pow(b, ix) < Pow(b, ix + 1)
    ensures TailState(t', ix + 1, v0, M + mu * Pow(b, ix), N, b)
  {
    RowAdvance(M, mu, N, ix, b);
    assert Pow(b, ix + 1) == b * Pow(b, ix);
    hide Val, Pow;
    var p := Pow(b, ix);
    MulDist(Val(t, b), mu * N, p);
    MulSwap(p, b, Val(t', b));
    MulSwap(mu, N, p);
    MulSwap(p, mu, N);
  }

  /** Every column from ix to 2k is within `bound`, except that ix also holds a carry up to `cap`. */
  ghost predicate Columns(W: seq<nat>, ix: nat, k: nat, bound: int, cap: int) {
    |W| >= 2 * k + 1 && ix <= k
    && W[ix] <= bound + cap
    && forall j :: ix < j <= 2 * k ==> W[j] <= bound
  }

  /** The carry fixed after a row (line 112): W[ix+1] += W[ix] / b. */
  method FixCarry(W: array<nat>, ix: nat, k: nat, b: nat, ww: nat, ghost bound: int, ghost cap: int)
    requires b >= 2 && ix < k && W.Length >= 2 * k + 1 && bound + cap < ww
    requires Rem(W[ix], b) == 0 && Quo(W[ix], b) <= cap
    requires forall j :: ix < j <= 2 * k ==> W[j] <= bound
    modifies W
    ensures old(Val(W[ix..2 * k + 1], b)) == b * Val(W[ix + 1..2 * k + 1], b)
    ensures Columns(W[..], ix + 1, k, bound, cap)
    ensures forall j :: 2 * k < j < W.Length ==> W[j] == old(W[j])
  {
    hide Val, Pow, Quo, Rem;
    ghost var s := W[ix..2 * k + 1];
    ExactQuo(W[ix], b);
    var c: nat := Quo(W[ix], b);
    CarryUp(s, c, b);
    var w: nat := W[ix + 1] + c;
    RemSmall(w, ww);
    W[ix + 1] := Rem(w, ww);
    assert W[ix + 1..2 * k + 1] == s[1..][0 := s[1] + c];
  }

  /** One row: add mu * n to the columns from ix up, then fix the carry into W[ix+1]. */
  method ClearColumn(W: array<nat>, n: seq<nat>, rho: nat, ix: nat, b: nat, ww: nat, ghost cap: nat) returns (mu: nat)
    requires Setup(n, rho, b) && (|n| + 1) * (b * b) <= ww && ix < |n| && cap == (|n| + 1) * b
    requires Columns(W[..], ix, |n|, ColumnBound(ix, b), cap)
    modifies W
    ensures mu < b
    ensures old(Val(W[ix..2 * |n| + 1], b)) + mu * Val(n, b) == b * Val(W[ix + 1..2 * |n| + 1], b)
    ensures Columns(W[..], ix + 1, |n|, ColumnBound(ix + 1, b), cap)
    ensures forall j :: 2 * |n| < j < W.Length ==> W[j] == old(W[j])
  {
    var k := |n|;
    ghost var top := (b - 1) * (b - 1);
    hide Val, Pow, ColumnBound, Quo, Rem;
    mu := MaskedMu(W[ix], rho, b);
    assert Rem(W[ix] + mu * n[0], b) == 0 by { MaskedMuClears(W[ix], rho, n[0], b); }
    ghost var bound, bound' := ColumnBound(ix, b), ColumnBound(ix + 1, b);
    assert bound' == bound + top by { ColumnBoundStep(ix, b); }
    assert bound' + cap < ww by { ColumnFitsWord(ix + 1, k, b, ww); }
    AddColumns(W, n, mu, ix, b, ww, top);
    assert Quo(W[ix], b) <= cap by { CarryBound(W[ix], ix + 1, k, b); }
    FixCarry(W, ix, k, b, ww, bound', cap);
  }

  /** Lines 69-112: clear the low k columns one by one. */
  method ClearColumns(W: array<nat>, n: seq<nat>, rho: nat, b: nat, ww: nat) returns (ghost M: nat)
    requires Setup(n, rho, b) && (|n| + 1) * (b * b) <= ww
    requires W.Length >= 2 * |n| + 1
    requires forall j :: 0 <= j <= 2 * |n| ==> W[j] < b
    modifies W
    ensures M < Pow(b, |n|)
    ensures TailState(W[|n|..2 * |n| + 1], |n|, old(Val(W[..2 * |n| + 1], b)), M, Val(n, b), b)
    ensures Columns(W[..], |n|, |n|, ColumnBound(|n|, b), (|n| + 1) * b)
    ensures forall j :: 2 * |n| < j < W.Length ==> W[j] == old(W[j])
  {
    var k := |n|;
    ghost var v0, N := Val(W[..2 * k + 1], b), Val(n, b);
    M := 0;
    var ix := 0;
    assert W[0..2 * k + 1] == W[..2 * k + 1];
    ValEmpty([], b);
    assert TailState(W[0..2 * k + 1], 0, v0, 0, N, b);
    ghost var cap := (k + 1) * b;
    assert Columns(W[..], 0, k, ColumnBound(0, b), cap);
    hide Val, Pow, TailState, Columns, Setup, ColumnBound;
    while ix < k
      invariant 0 <= ix <= k
      invariant M < Pow(b, ix)
      invariant TailState(W[ix..2 * k + 1], ix, v0, M, N, b)
      invariant Columns(W[..], ix, k, ColumnBound(ix, b), cap)
      invariant forall j :: 2 * k < j < W.Length ==> W[j] == old(W[j])
    {
      ghost var t := W[ix..2 * k + 1];
      var mu := ClearColumn(W, n, rho, ix, b, ww, cap);
      TailStep(t, Val(t, b) + mu * N, W[ix + 1..2 * k + 1], ix, v0, M, mu, N, b);
      M := M + mu * Pow(b, ix);
      ix := ix + 1;
    }
  }

  /** mu = ((W & MASK) * rho) & MASK */
  function MaskedMu(w: nat, rho: nat, b: nat): (mu: nat)
    requires b >= 2
    ensures mu == Rem(Rem(w, b) * rho, b) && mu < b
  {
    Rem(Rem(w, b) * rho, b)
  }

  lemma ExactQuo(w: nat, b: nat)
    requires b >= 2 && Rem(w, b) == 0
    ensures Quo(w, b) >= 0 && w == Quo(w, b) * b
  {
    DivModSpec(w, b);
    DivNonNeg(w, b);
  }

  /** Digits D are final; the columns t above them still hold carries. */
  ghost predicate OutState(T: nat, D: seq<nat>, t: seq<nat>, b: nat) {
    T == Val(D, b) + Pow(b, |D|) * Val(t, b)
  }

  lemma OutStep(T: nat, D: seq<nat>, t: seq<nat>, b: nat, d: nat, c: nat)
    requires |t| >= 2 && t[0] == c * b + d && OutState(T, D, t, b)
    ensures OutState(T, D + [d], t[1..][0 := t[1] + c], b)
  {
    ValHead(t, b);
    ValUpdate(t[1..], 0, t[1] + c, b);
    ValEmpty([], b);
    ValSnoc(D, d, b);
    assert Pow(b, |D + [d]|) == b * Pow(b, |D|);
    hide Val, Pow;
    OutAlgebra(Pow(b, |D|), d, c, b, Val(t[1..], b));
  }

  lemma OutAlgebra(p: int, d: int, c: int, b: int, v: int)
    ensures p * (c * b + d + b * v) == d * p + (b * p) * (v + c)
  {
    MulDist(c * b + b * v, d, p);
    MulDist(c, v, b);
    MulSwap(p, b, v + c);
  }

  /** Lines 131-133: push the remaining carries through the columns k..2k. */
  method FinalCarries(W: array<nat>, k: nat, b: nat, ww: nat, ghost bound: int, ghost cap: int) returns (ghost D: seq<nat>)
    requires b >= 2 && k > 0 && W.Length >= 2 * k + 1
    requires bound == ColumnBound(k, b) && cap == (k + 1) * b && bound + cap < ww
    requires Columns(W[..], k, k, bound, cap)
    modifies W
    ensures |D| == k && IsDigits(D, b)
    ensures forall i :: 0 <= i < k ==> D[i] == Rem(W[k + i], b)
    ensures OutState(old(Val(W[k..2 * k + 1], b)), D, [W[2 * k]], b)
  {
    ghost var T := Val(W[k..2 * k + 1], b);
    D := [];
    ValEmpty(D, b);
    assert OutState(T, D, W[k..2 * k + 1], b);
    hide Val, Pow, OutState, ColumnBound, Quo, Rem;
    var j := k + 1;
    while j <= 2 * k
      invariant k + 1 <= j <= 2 * k + 1
      invariant |D| == j - 1 - k && IsDigits(D, b)
      invariant forall i :: 0 <= i < |D| ==> D[i] == Rem(W[k + i], b)
      invariant OutState(T, D, W[j - 1..2 * k + 1], b)
      invariant W[j - 1] <= bound + cap
      invariant forall i :: j <= i <= 2 * k ==> W[i] <= bound
    {
      ghost var t := W[j - 1..2 * k + 1];
      var c: nat := NatQuo(W[j - 1], b);
      assert c <= cap by { CarryBound(W[j - 1], k, k, b); }
      ghost var d: nat := NatRem(W[j - 1], b);
      OutStep(T, D, t, b, d, c);
      var w: nat := W[j] + c;
      RemSmall(w, ww);
      W[j] := Rem(w, ww);
      D := D + [d];
      assert W[j..2 * k + 1] == t[1..][0 := t[1] + c];
      j := j + 1;
    }
    assert W[2 * k..2 * k + 1] == [W[2 * k]];
  }

  /** The columns k..2k spell the quotient y with y*b^k = v0 + M*N; the top column is a digit. */
  lemma TopColumn(D: seq<nat>, w: nat, y: nat, v0: nat, M: nat, N: nat, k: nat, b: nat)
    requires b >= 2 && k > 0 && |D| == k && 0 < N < Pow(b, k) && v0 < N * Pow(b, k) && M < Pow(b, k)
    requires OutState(y, D, [w], b) && Pow(b, k) * y == v0 + M * N
    ensures w < b && Val(D + [w], b) == y
  {
    hide Val, Pow, Cong;
    assert Val([w], b) == w by {
      assert [] + [w] == [w];
      ValSnoc([], w, b);
      ValEmpty([], b);
    }
    assert Val(D + [w], b) == Val(D, b) + w * Pow(b, k) by { ValSnoc(D, w, b); }
    assert y < 2 * N by { LastSubtraction(y, v0, M, N, b, k); }
    TopDigitSmall(y, Val(D, b), w, Pow(b, k), N, b);
  }

  lemma TopDigitSmall(y: int, low: int, w: int, R: int, N: int, b: int)
    requires y == low + R * w && low >= 0 && y < 2 * N && 0 < N < R && b >= 2
    ensures w < b
  {
    if w >= b {
      MulMono(2, w, R);
    }
  }

  /** All of fast_mp_montgomery_reduce but its final subtraction: x := (x + M*n) / b^k. */
  method Columnwise(x: array<nat>, used: nat, n: seq<nat>, rho: nat, b: nat, ww: nat, warray: nat)
    returns (ghost M: nat)
    requires Setup(n, rho, b)
    requires 2 * |n| + 1 < warray && (|n| + 1) * (b * b) <= ww
    requires |n| + 1 <= x.Length && used <= x.Length && used <= 2 * |n| + 1
    requires IsDigits(x[..used], b) && Val(x[..used], b) < Val(n, b) * Pow(b, |n|)
    modifies x
    ensures IsDigits(x[..|n| + 1], b) && M < Pow(b, |n|)
    ensures Pow(b, |n|) * Val(x[..|n| + 1], b) == old(Val(x[..used], b)) + M * Val(n, b)
  {
    hide Val, Pow, OutState, ColumnBound, Quo, Rem;
    var k := |n|;
    ghost var v0, N := Val(x[..used], b), Val(n, b);
    var W := CopyIn(x, used, k, b, warray);
    M := ClearColumns(W, n, rho, b, ww);
    ghost var y, bound, cap := Val(W[k..2 * k + 1], b), ColumnBound(k, b), (k + 1) * b;
    assert bound + cap < ww by { ColumnFitsWord(k, k, b, ww); }
    ghost var D := FinalCarries(W, k, b, ww, bound, cap);
    ValBound(n, b);
    TopColumn(D, W[2 * k], y, v0, M, N, k, b);
    // the last carry goes into the uninitialised word above the result and is never read
    W[2 * k + 1] := NatRem(W[2 * k + 1] + NatQuo(W[2 * k], b), ww);
    CopyOut(x, used, W, k, b, D);
  }

  /**
   * fast_mp_montgomery_reduce on the digits x[..used] (lines 26-167); what lies above them is not read.
   * The result stands in the lowest |n| + 1 digits.
   */
  method FastMontgomeryReduce(x: array<nat>, used: nat, n: seq<nat>, rho: nat, b: nat, dw: nat, ww: nat, warray: nat)
    requires MachineDigit(b, dw) && Setup(n, rho, b)
    requires 2 * |n| + 1 < warray && (|n| + 1) * (b * b) <= ww
    requires |n| + 1 <= x.Length && used <= x.Length && used <= 2 * |n| + 1
    requires IsDigits(x[..used], b) && Val(x[..used], b) < Val(n, b) * Pow(b, |n|)
    modifies x
    ensures IsDigits(x[..|n| + 1], b)
    ensures Reduced(Val(x[..|n| + 1], b), old(Val(x[..used], b)), Val(n, b), Pow(b, |n|))
  {
    hide Val, Pow, Cong, Rem;
    ghost var v0 := Val(x[..used], b);
    ghost var M := Columnwise(x, used, n, rho, b, ww, warray);
    ValBound(n, b);
    LastSubtraction(Val(x[..|n| + 1], b), v0, M, Val(n, b), b, |n|);
    if Val(x[..|n| + 1], b) >= Val(n, b) {
      SubInPlace(x, |n| + 1, n, b, dw);
    }
  }

  /** Lines 41-66: the digits of x widened to words, zeros up to column 2k. */
  method CopyIn(x: array<nat>, used: nat, k: nat, b: nat, warray: nat) returns (W: array<nat>)
    requires b >= 2 && 2 * k + 1 < warray && used <= x.Length && used <= 2 * k + 1 && IsDigits(x[..used], b)
    ensures fresh(W) && W.Length == warray
    ensures forall j :: 0 <= j <= 2 * k ==> W[j] < b
    ensures Val(W[..2 * k + 1], b) == Val(x[..used], b)
  {
    W := new nat[warray];
    for i := 0 to used
      invariant forall j :: 0 <= j < i ==> W[j] == x[j]
    {
      W[i] := x[i];
    }
    for i := used to 2 * k + 1
      invariant forall j :: 0 <= j < used ==> W[j] == x[j]
      invariant forall j :: used <= j < i ==> W[j] == 0
    {
      W[i] := 0;
    }
    ValTrim(W[..2 * k + 1], used, b);
    assert W[..2 * k + 1][..used] == x[..used];
    assert forall j :: 0 <= j < used ==> x[j] == x[..used][j];
  }

  /** Lines 140-153: digits from the columns k..2k, zeros over what was left of the old value. */
  method CopyOut(x: array<nat>, used: nat, W: array<nat>, k: nat, b: nat, ghost D: seq<nat>)
    requires b >= 2 && W.Length >= 2 * k + 1 && x != W && k + 1 <= x.Length && used <= x.Length
    requires |D| == k && IsDigits(D, b) && W[2 * k] < b
    requires forall i :: 0 <= i < k ==> D[i] == Rem(W[k + i], b)
    modifies x
    ensures x[..k + 1] == D + [W[2 * k]]
    ensures forall j :: k + 1 <= j < used ==> x[j] == 0
  {
    hide Rem, Quo;
    ghost var out := D + [W[2 * k]];
    RemSmall(W[2 * k], b);
    for i := 0 to k + 1
      invariant forall j :: 0 <= j < i ==> x[j] == out[j]
      invariant forall j :: i <= j < x.Length ==> x[j] == old(x[j])
    {
      x[i] := NatRem(W[k + i], b);
    }
    var i := k + 1;
    while i < used
      invariant k + 1 <= i
      invariant forall j :: 0 <= j < k + 1 ==> x[j] == out[j]
      invariant forall j :: k + 1 <= j < i && j < x.Length ==> x[j] == 0
      invariant forall j :: i <= j < x.Length ==> x[j] == old(x[j])
    {
      x[i] := 0;
      i := i + 1;
    }
    assert x[..k + 1] == out;
  }
}
