/** Little-endian digit strings and the natural numbers they stand for. */
module Digits {
  import opened Arith

  ghost predicate IsDigits(s: seq<nat>, b: int) {
    forall i :: 0 <= i < |s| ==> s[i] < b
  }

  /** The number written by `s` in radix b; entries may exceed b - 1 while carries are delayed. */
  function Val(s: seq<nat>, b: nat): nat {
    if |s| == 0 then 0
    else
      PowNat(b, |s| - 1);
      MulNonNeg(s[|s| - 1], Pow(b, |s| - 1));
      Val(s[..|s| - 1], b) + s[|s| - 1] * Pow(b, |s| - 1)
  }

  lemma PowNat(b: nat, e: nat)
    ensures Pow(b, e) >= 0
  {
    if e > 0 {
      PowNat(b, e - 1);
      MulNonNeg(b, Pow(b, e - 1));
    }
  }

  lemma ValEmpty(s: seq<nat>, b: nat)
    requires |s| == 0
    ensures Val(s, b) == 0 && Pow(b, 0) == 1
  {
  }

  lemma ValSnoc(s: seq<nat>, d: nat, b: nat)
    ensures Val(s + [d], b) == Val(s, b) + d * Pow(b, |s|)
  {
    assert (s + [d])[..|s|] == s;
  }

  lemma ValPrefix(s: seq<nat>, i: nat, b: nat)
    requires i < |s|
    ensures Val(s[..i + 1], b) == Val(s[..i], b) + s[i] * Pow(b, i)
  {
    assert s[..i + 1] == s[..i] + [s[i]];
    ValSnoc(s[..i], s[i], b);
  }

  lemma {:induction false} ValConcat(s: seq<nat>, t: seq<nat>, b: nat)
    ensures Val(s + t, b) == Val(s, b) + Pow(b, |s|) * Val(t, b)
    decreases |t|
  {
    if |t| == 0 {
      assert s + t == s;
    } else {
      var n := |t| - 1;
      assert Val(t, b) == Val(t[..n], b) + t[n] * Pow(b, n);
      hide Val, Pow;
      ValConcat(s, t[..n], b);
      assert s + t == (s + t[..n]) + [t[n]];
      ValSnoc(s + t[..n], t[n], b);
      PowAdd(b, |s|, n);
      FactorOut(Pow(b, |s|), Val(t[..n], b), t[n], Pow(b, n));
    }
  }

  lemma FactorOut(p: int, v: int, d: int, q: int)
    ensures p * v + d * (p * q) == p * (v + d * q)
  {
    MulDist(v, d * q, p);
    MulSwap(d, p, q);
  }

  lemma ValSplit(s: seq<nat>, i: nat, b: nat)
    requires i <= |s|
    ensures Val(s, b) == Val(s[..i], b) + Pow(b, i) * Val(s[i..], b)
  {
    assert s == s[..i] + s[i..];
    ValConcat(s[..i], s[i..], b);
  }

  lemma ValHead(s: seq<nat>, b: nat)
    requires |s| > 0
    ensures Val(s, b) == s[0] + b * Val(s[1..], b)
  {
    ValSplit(s, 1, b);
    assert s[..1] == [] + [s[0]];
    ValSnoc([], s[0], b);
  }

  lemma {:induction false} ValBound(s: seq<nat>, b: nat)
    requires IsDigits(s, b) && b >= 1
    ensures Val(s, b) < Pow(b, |s|)
  {
    if |s| > 0 {
      var n := |s| - 1;
      ValBound(s[..n], b);
      PowPos(b, n);
      MulStep(s[n], b, Pow(b, n));
    }
  }

  /** Writing one entry moves the value by the change at that place. */
  lemma {:induction false} ValUpdate(s: seq<nat>, i: nat, d: nat, b: nat)
    requires i < |s|
    ensures Val(s[i := d], b) == Val(s, b) + (d - s[i]) * Pow(b, i)
  {
    var n := |s| - 1;
    if i == n {
      assert s[i := d][..n] == s[..n];
      assert d * Pow(b, i) - s[i] * Pow(b, i) == (d - s[i]) * Pow(b, i);
    } else {
      assert s[i := d][..n] == s[..n][i := d];
      ValUpdate(s[..n], i, d, b);
    }
  }

  /** The entry at i contributes at most the whole value. */
  lemma ValAtLeast(s: seq<nat>, i: nat, b: nat)
    requires i < |s|
    ensures Val(s, b) >= s[i] * Pow(b, i)
  {
    ValSplit(s, i + 1, b);
    ValPrefix(s, i, b);
    PowNat(b, i + 1);
    MulNonNeg(Pow(b, i + 1), Val(s[i + 1..], b));
  }

  lemma {:induction false} ValZeros(s: seq<nat>, b: nat)
    requires forall i :: 0 <= i < |s| ==> s[i] == 0
    ensures Val(s, b) == 0
  {
    if |s| > 0 { ValZeros(s[..|s| - 1], b); }
  }

  /** A digit string bounded by b^k has only zeros from place k up. */
  lemma {:induction false} HighZero(s: seq<nat>, k: nat, b: nat)
    requires b >= 1 && Val(s, b) < Pow(b, k)
    ensures forall i :: k <= i < |s| ==> s[i] == 0
  {
    forall i | k <= i < |s| ensures s[i] == 0 {
      ValAtLeast(s, i, b);
      PowMono(b, k, i);
      if s[i] >= 1 { MulMono(1, s[i], Pow(b, i)); }
    }
  }

  /** Value of a string whose upper part is zero. */
  lemma ValTrim(s: seq<nat>, k: nat, b: nat)
    requires k <= |s| && forall i :: k <= i < |s| ==> s[i] == 0
    ensures Val(s, b) == Val(s[..k], b)
  {
    ValSplit(s, k, b);
    ValZeros(s[k..], b);
  }

  // ---- canonical digits of a number ----

  /** The clamped digit string of v: no leading zero, empty for zero (`mp_clamp`). */
  function ToDigits(v: nat, b: nat): (s: seq<nat>)
    requires b >= 2
    ensures IsDigits(s, b)
    ensures |s| > 0 ==> s[|s| - 1] > 0
    ensures |s| == 0 <==> v == 0
  {
    if v == 0 then []
    else
      DivStep(v, b);
      [Rem(v, b)] + ToDigits(Quo(v, b), b)
  }

  lemma DivStep(v: nat, b: nat)
    requires b >= 2 && v > 0
    ensures 0 <= Quo(v, b) < v && 0 <= Rem(v, b) < b
    ensures Quo(v, b) == 0 ==> Rem(v, b) > 0
    ensures v == Quo(v, b) * b + Rem(v, b)
  {
    DivModSpec(v, b);
    DivNonNeg(v, b);
    if v / b == v { MulMono(2, b, v); }
    assert v / b == 0 ==> v % b == v;
  }

  lemma {:induction false} ToDigitsVal(v: nat, b: nat)
    requires b >= 2
    ensures Val(ToDigits(v, b), b) == v
  {
    hide Val, Pow, Quo, Rem;
    if v == 0 {
      ValEmpty([], b);
    } else {
      DivStep(v, b);
      var s, t := ToDigits(v, b), ToDigits(Quo(v, b), b);
      assert s[1..] == t && s[0] == Rem(v, b);
      ToDigitsVal(Quo(v, b), b);
      ValHead(s, b);
    }
  }

  /** The number of digits of v (`used`). */
  function Used(v: nat, b: nat): nat
    requires b >= 2
  {
    |ToDigits(v, b)|
  }

  lemma UsedBounds(v: nat, b: nat)
    requires b >= 2
    ensures v < Pow(b, Used(v, b))
    ensures v > 0 ==> Used(v, b) > 0 && Pow(b, Used(v, b) - 1) <= v
  {
    var s := ToDigits(v, b);
    ToDigitsVal(v, b);
    ValBound(s, b);
    if v > 0 {
      ValAtLeast(s, |s| - 1, b);
      PowPos(b, |s| - 1);
      MulMono(1, s[|s| - 1], Pow(b, |s| - 1));
    }
  }

  lemma UsedUnique(v: nat, k: nat, b: nat)
    requires b >= 2 && k > 0 && Pow(b, k - 1) <= v < Pow(b, k)
    ensures Used(v, b) == k
  {
    var u := Used(v, b);
    UsedBounds(v, b);
    PowPos(b, k - 1);
    if u < k { PowMono(b, u, k - 1); }
    if k < u { PowMono(b, k, u - 1); }
  }

  lemma UsedAtMost(v: nat, k: nat, b: nat)
    requires b >= 2 && v < Pow(b, k)
    ensures Used(v, b) <= k
  {
    UsedBounds(v, b);
    var u := Used(v, b);
    if u > k { PowMono(b, k, u - 1); }
  }

  /** Digit i of v, zero beyond the top (`dp[i]` with its zero tail). */
  function Digit(v: nat, i: nat, b: nat): (d: nat)
    requires b >= 2
    ensures d < b
  {
    PowPos(b, i);
    DivModSpec(v / Pow(b, i), b);
    (v / Pow(b, i)) % b
  }

  /** Cut v above and below digit i. */
  lemma DigitSplit(v: nat, i: nat, b: nat)
    requires b >= 2
    ensures Pow(b, i) > 0 && Pow(b, i + 1) > 0
    ensures v / Pow(b, i) == (v / Pow(b, i + 1)) * b + Digit(v, i, b)
  {
    PowPos(b, i);
    PowPos(b, i + 1);
    DivModSpec(v / Pow(b, i), b);
    DivDiv(v, Pow(b, i), b);
    assert Pow(b, i) * b == Pow(b, i + 1);
  }
}
