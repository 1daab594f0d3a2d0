/** Signed multi-digit division with quotient-digit estimation and one add-back (bn_mp_div.c). */
module Division {
  import opened Arith
  import opened Digits
  import opened MontgomerySetup

  // ---- the top digits as truncations ----

  /** Three digits of x from i down, and two of y from t down, as scaled quotients. */
  ghost predicate Leading(v: int, head: int, P: int, b: int) {
    head * P <= v * b < (head + 1) * P
  }

  /** Digits i, i-1 and i-2 of x as one number; the missing digit below the units is zero (lines 224-226). */
  function TopThree(x: nat, i: nat, b: nat): (r: nat)
    requires b >= 2 && i >= 1
  {
    Join(Join(Digit(x, i, b), Digit(x, i - 1, b), b), if i >= 2 then Digit(x, i - 2, b) else 0, b)
  }

  function Join(hi: nat, lo: nat, b: nat): (r: nat)
    ensures r == hi * b + lo
  {
    MulNonNeg(hi, b);
    hi * b + lo
  }

  /** Digits t and t-1 of y (lines 216-217). */
  function TopTwo(y: nat, t: nat, b: nat): (r: nat)
    requires b >= 2
  {
    Join(Digit(y, t, b), if t >= 1 then Digit(y, t - 1, b) else 0, b)
  }

  lemma LeadingThree(x: nat, i: nat, b: nat)
    requires b >= 2 && i >= 1 && x < Pow(b, i + 1)
    ensures Leading(x, TopThree(x, i, b), Pow(b, i - 1), b)
  {
    hide Pow, Digit, Quo, Rem, Leading;
    var P := Pow(b, i - 1);
    TwoDigits(x, i, b);
    var X2 := Quo(x, P);
    if i == 1 {
      assert P == 1 by { ValEmpty([], b); }
      assert X2 == x by { QuoRemSpec(x, 1); }
      LeadingUnit(x, b);
    } else {
      var d, p := Digit(x, i - 2, b), Pow(b, i - 2);
      NextDigit(x, i - 2, b);
      QuoRemSpec(x, p);
      assert P == p * b by { PowStep(b, i - 2); }
      LeadingScale(x, X2 * b + d, p, Rem(x, p), b);
    }
  }

  lemma LeadingUnit(x: int, b: int)
    ensures Leading(x, x * b, 1, b)
  {
  }

  lemma LeadingScale(x: int, h: int, p: int, r: int, b: int)
    requires x == h * p + r && 0 <= r < p && b >= 2
    ensures Leading(x, h, p * b, b)
  {
    MulDist(h * p, r, b);
    MulSwap(h, p, b);
    MulStrict(r, p, b);
    MulNonNeg(r, b);
    MulDist(h, 1, p * b);
  }

  lemma NextDigit(x: nat, i: nat, b: nat)
    requires b >= 2
    ensures Pow(b, i) > 0 && Pow(b, i + 1) > 0
    ensures Quo(x, Pow(b, i)) == Quo(x, Pow(b, i + 1)) * b + Digit(x, i, b)
  {
    DigitSplit(x, i, b);
  }

  lemma TwoDigits(x: nat, i: nat, b: nat)
    requires b >= 2 && i >= 1 && x < Pow(b, i + 1)
    ensures Pow(b, i - 1) > 0 && Digit(x, i, b) * b + Digit(x, i - 1, b) == Quo(x, Pow(b, i - 1))
  {
    hide Pow, Digit, Quo;
    NextDigit(x, i - 1, b);
    NextDigit(x, i, b);
    TopIsZero(x, Pow(b, i + 1));
  }

  lemma TopIsZero(x: nat, p: int)
    requires x < p
    ensures Quo(x, p) == 0
  {
    DivModUnique(x, p, 0, x);
  }

  lemma LeadingTwo(y: nat, t: nat, b: nat)
    requires b >= 2 && y < Pow(b, t + 1)
    ensures Leading(y, TopTwo(y, t, b), Pow(b, t), b)
  {
    hide Pow, Digit, Quo, Rem, Leading;
    NextDigit(y, t, b);
    TopIsZero(y, Pow(b, t + 1));
    if t == 0 {
      assert Pow(b, t) == 1 by { ValEmpty([], b); }
      QuoRemSpec(y, 1);
      LeadingUnit(y, b);
    } else {
      var P := Pow(b, t - 1);
      TwoDigits(y, t, b);
      QuoRemSpec(y, P);
      PowStep(b, t - 1);
      LeadingScale(y, Digit(y, t, b) * b + Digit(y, t - 1, b), P, Rem(y, P), b);
    }
  }

  // ---- the estimate ----

  /** q is not below the true quotient digit of x by Y = y * b^s. */
  lemma EstimateStart(x: nat, X2: nat, Y: nat, Y2: nat, yt: nat, yt1: nat, q: nat, P: nat, b: nat)
    requires b >= 2 && x < (X2 + 1) * P && Y2 == yt * b + yt1 && X2 < (q + 1) * yt
    requires Y2 * P <= Y * b && P > 0
    ensures x < (q + 1) * Y
  {
    assert x * b < (q + 1) * (Y * b) by {
      MulStrict(x, (X2 + 1) * P, b);
      MulMono(X2 + 1, (q + 1) * yt, P * b);
      MulSwap(X2 + 1, P, b);
      MulSwap((q + 1) * yt, P, b);
      assert ((q + 1) * yt) * (P * b) == (q + 1) * ((yt * b) * P) by {
        MulSwap(q + 1, yt, P * b);
        MulSwap(yt, b, P);
      }
      MulMono(yt * b, Y2, P);
      MulMono((yt * b) * P, Y * b, q + 1);
    }
    MulSwap(q + 1, Y, b);
    MulCancelLt(x, (q + 1) * Y, b);
  }

  /** A failed three-digit test proves that q is too big. */
  lemma EstimateDown(x: nat, X3: nat, Y: nat, Y2: nat, q: nat, P: nat, b: nat)
    requires b >= 2 && P > 0 && Leading(x, X3, P, b) && Y2 * P <= Y * b && q * Y2 > X3
    ensures q >= 1 && x < q * Y
  {
    assert q >= 1 by { if q < 1 { MulMono(q, 0, Y2); } }
    MulMono(X3 + 1, q * Y2, P);
    MulSwap(q, Y2, P);
    MulMono(Y2 * P, Y * b, q);
    MulSwap(q, Y, b);
    MulCancelLt(x, q * Y, b);
  }

  /** A passed three-digit test leaves q at most one too big. */
  lemma EstimatePassed(x: nat, X3: nat, Y: nat, Y2: nat, q: nat, P: nat, b: nat)
    requires b >= 2 && P > 0 && Leading(x, X3, P, b) && Y * b < (Y2 + 1) * P && b * P <= Y * b
    requires q < b && q * Y2 <= X3
    ensures q > 0 ==> (q - 1) * Y <= x
  {
    if q > 0 {
      assert q * (Y * b) <= x * b + q * P by {
        MulMono(Y * b, (Y2 + 1) * P, q);
        MulSwap(q, Y2 + 1, P);
        MulDist(Y2, 1, q);
        MulDist(q * Y2, q, P);
        MulMono(q * Y2, X3, P);
      }
      MulMono(q, b, P);
      MulDist(q, 1, Y * b);
      MulSwap(q - 1, Y, b);
      if (q - 1) * Y > x { MulStrict(x, (q - 1) * Y, b); }
    }
  }

  /** The unclamped comparison may stop early only when x has no digit i; q is then tiny and still at most one too big. */
  lemma EstimateEarly(x: nat, X2: nat, Y: nat, Y2: nat, yt: nat, yt1: nat, q: nat, P: nat, b: nat)
    requires b >= 16 && P > 0 && X2 * P <= x && X2 < b && 4 * yt >= b && yt1 < b
    requires Y2 == yt * b + yt1 && Y * b < (Y2 + 1) * P && q * yt <= X2
    ensures q > 0 ==> (q - 1) * Y <= x
  {
    assert q <= 3 by { if q >= 4 { MulMono(4, q, yt); } }
    if q > 0 {
      assert Y2 + 1 <= (yt + 1) * b by { MulDist(yt, 1, b); }
      assert (q - 1) * (yt + 1) <= X2 by {
        MulDist(q, 1, yt + 1);
        MulDist(yt, 1, q);
      }
      assert ((q - 1) * Y) * b <= x * b by {
        MulMono(Y * b, ((yt + 1) * b) * P, q - 1);
        MulMono(Y2 + 1, (yt + 1) * b, P);
        MulSwap(q - 1, Y, b);
        assert (q - 1) * (((yt + 1) * b) * P) == ((q - 1) * (yt + 1)) * (b * P) by {
          MulSwap(yt + 1, b, P);
          MulSwap(q - 1, yt + 1, b * P);
        }
        MulMono((q - 1) * (yt + 1), X2, b * P);
        MulSwap(X2, P, b);
        MulMono(X2 * P, x, b);
      }
      if (q - 1) * Y > x { MulStrict(x, (q - 1) * Y, b); }
    }
  }

  /** mp_cmp_mag(t1, t2) == MP_GT for a clamped t1 and the three-digit t2 that is never clamped. */
  predicate ExceedsUnclamped(t1: nat, t2: nat, b: nat)
    requires b >= 2
  {
    Used(t1, b) > 3 || (Used(t1, b) == 3 && t1 > t2)
  }

  lemma ExceedsMeans(t1: nat, t2: nat, b: nat)
    requires b >= 2 && t2 < b * b * b
    ensures ExceedsUnclamped(t1, t2, b) <==> t1 >= b * b && t1 > t2
  {
    hide Pow, ToDigits;
    UsedBounds(t1, b);
    assert Pow(b, 2) == b * b && Pow(b, 3) == b * b * b by { SmallPowers(b); }
    var u := Used(t1, b);
    if u >= 3 { PowMono(b, 2, u - 1); } else { PowMono(b, u, 2); }
    if u > 3 { PowMono(b, 3, u - 1); }
  }

  lemma SmallPowers(b: int)
    ensures Pow(b, 2) == b * b && Pow(b, 3) == b * b * b
  {
  }

  /**
   * Setting of one quotient digit: x and y by their top digits at i and t, Y = y * b^(i-t-1),
   * P = b^(i-1).
   */
  ghost predicate Scaled(x: nat, y: nat, i: nat, t: nat, Y: int, P: int, b: nat)
    requires b >= 2 && i >= 1
  {
    P > 0 && Leading(x, TopThree(x, i, b), P, b)
    && TopTwo(y, t, b) * P <= Y * b < (TopTwo(y, t, b) + 1) * P
    && b * P <= Y * b && x < Y * b
    && Join(Digit(x, i, b), Digit(x, i - 1, b), b) * P <= x < (Join(Digit(x, i, b), Digit(x, i - 1, b), b) + 1) * P
  }

  /** The scale facts of one digit position follow from x < y * b^(i-t). */
  lemma ScaledHolds(x: nat, y: nat, i: nat, t: nat, b: nat)
    requires b >= 2 && t < i && Pow(b, t) <= y < Pow(b, t + 1) && x < y * Pow(b, i - t)
    ensures Scaled(x, y, i, t, y * Pow(b, i - t - 1), Pow(b, i - 1), b)
  {
    hide Pow, Digit, Quo, Rem, TopTwo, TopThree, Join;
    var s := i - t - 1;
    var p, P, pt := Pow(b, s), Pow(b, i - 1), Pow(b, t);
    var Y := y * p;
    PowPos(b, i - 1);
    PowPos(b, s);
    assert P == pt * p by { PowAdd(b, t, s); }
    assert y * Pow(b, i - t) == Y * b by { PowStep(b, s); MulSwap(y, p, b); }
    assert x < Pow(b, i + 1) by {
      PowAdd(b, t + 1, i - t);
      PowPos(b, i - t);
      MulMono(y, Pow(b, t + 1), Pow(b, i - t));
    }
    LeadingThree(x, i, b);
    TwoDigits(x, i, b);
    QuoRemSpec(x, P);
    JoinIs(Digit(x, i, b), Digit(x, i - 1, b), b);
    MulDist(Join(Digit(x, i, b), Digit(x, i - 1, b), b), 1, P);
    LeadingTwo(y, t, b);
    var h := TopTwo(y, t, b);
    assert h * P <= Y * b < (h + 1) * P by {
      MulMono(h * pt, y * b, p);
      MulStrict(y * b, (h + 1) * pt, p);
      MulSwap(h, pt, p);
      MulSwap(h + 1, pt, p);
      MulSwap(y, b, p);
      MulSwap(y, p, b);
    }
    assert b * P <= Y * b by { MulMono(pt, y, p); MulMono(P, Y, b); }
  }

  lemma JoinIs(hi: nat, lo: nat, b: nat)
    ensures Join(hi, lo, b) == hi * b + lo
  {
  }

  /** q is not below the true digit, and not above the two-digit quotient when that was used. */
  ghost predicate GuessState(q: nat, x: nat, Y: nat, xi: nat, yt: nat, X2: nat, b: nat) {
    q < b && x < (q + 1) * Y && (xi < yt ==> q * yt <= X2)
  }

  lemma GuessDown(q: nat, x: nat, Y: nat, xi: nat, yt: nat, X2: nat, X3: nat, Y2: nat, P: nat, b: nat)
    requires b >= 2 && P > 0 && Leading(x, X3, P, b) && Y2 * P <= Y * b && q * Y2 > X3
    requires GuessState(q, x, Y, xi, yt, X2, b)
    ensures q >= 1 && GuessState(q - 1, x, Y, xi, yt, X2, b)
  {
    hide Leading;
    EstimateDown(x, X3, Y, Y2, q, P, b);
    MulMono(q - 1, q, yt);
  }

  /** Lines 210-228: step the guess down while it fails the three-digit test. */
  method StepDown(guess: nat, X3: nat, Y2: nat, b: nat,
                  ghost x: nat, ghost Y: nat, ghost xi: nat, ghost yt: nat, ghost X2: nat, ghost P: nat)
    returns (q: nat)
    requires b >= 2 && P > 0 && X3 < b * b * b && Leading(x, X3, P, b) && Y2 * P <= Y * b
    requires GuessState(guess, x, Y, xi, yt, X2, b)
    ensures GuessState(q, x, Y, xi, yt, X2, b)
    ensures q * Y2 <= X3 || X3 < b * b
  {
    hide Leading, ExceedsUnclamped, Pow;
    assert guess < b;
    // line 210 adds one and the loop head takes it away again, both modulo b
    q := MaskedAdd(guess, 1, b);
    q := MaskedAdd(q, -1, b);
    assert q == guess;
    hide GuessState;
    var t1: nat := NatMul(q, Y2);
    while ExceedsUnclamped(t1, X3, b)
      invariant q < b && t1 == q * Y2
      invariant GuessState(q, x, Y, xi, yt, X2, b)
      decreases q
    {
      ExceedsMeans(t1, X3, b);
      GuessDown(q, x, Y, xi, yt, X2, X3, Y2, P, b);
      q := MaskedAdd(q, -1, b);
      t1 := NatMul(q, Y2);
    }
    ExceedsMeans(t1, X3, b);
  }

  /** Lines 192-228: estimate one quotient digit; it is the true digit or one more. */
  method EstimateDigit(x: nat, y: nat, i: nat, t: nat, b: nat, ghost Y: nat, ghost P: nat) returns (q: nat)
    requires b >= 16 && i >= 1 && 4 * Digit(y, t, b) >= b
    requires Scaled(x, y, i, t, Y, P, b)
    ensures q < b && x < (q + 1) * Y
    ensures q > 0 ==> (q - 1) * Y <= x
  {
    hide Digit, Quo, Rem, Leading, Pow;
    var xi, xi1, yt := Digit(x, i, b), Digit(x, i - 1, b), Digit(y, t, b);
    var X2, X3, Y2 := Join(xi, xi1, b), TopThree(x, i, b), TopTwo(y, t, b);
    ghost var yt1: nat := if t >= 1 then Digit(y, t - 1, b) else 0;
    ghost var xi2: nat := if i >= 2 then Digit(x, i - 2, b) else 0;
    assert Y2 == yt * b + yt1 && X3 == Join(X2, xi2, b) && X3 == X2 * b + xi2;
    ThreeDigitBound(xi, xi1, xi2, b);
    hide TopTwo, TopThree, FirstGuess;
    q := FirstGuess(xi, yt, X2, b);
    FirstGuessBounds(x, X2, Y, Y2, xi, xi1, yt, yt1, q, P, b);
    q := StepDown(q, X3, Y2, b, x, Y, xi, yt, X2, P);
    if q * Y2 <= X3 {
      EstimatePassed(x, X3, Y, Y2, q, P, b);
    } else {
      NoTopDigit(xi, xi1, X3, b);
      EstimateEarly(x, X2, Y, Y2, yt, yt1, q, P, b);
    }
  }

  /** (d + c) & MP_MASK */
  function MaskedAdd(d: nat, c: int, b: nat): (r: nat)
    requires b >= 2 && d < b && -1 <= c <= 1
    ensures r < b
    ensures 0 <= d + c < b ==> r == d + c
    ensures d + c == -1 ==> r == b - 1
    ensures d + c == b ==> r == 0
  {
    DivModSpec(d + c, b);
    if 0 <= d + c < b then DivModUnique(d + c, b, 0, d + c); (d + c) % b
    else if d + c < 0 then DivModUnique(d + c, b, -1, d + c + b); (d + c) % b
    else DivModUnique(d + c, b, 1, d + c - b); (d + c) % b
  }

  /** Lines 192-203. */
  function FirstGuess(xi: nat, yt: nat, X2: nat, b: nat): (q: nat)
    requires yt > 0 && b >= 2
  {
    if xi == yt then b - 1
    else
      DivNonNeg(X2, yt);
      var tmp := Quo(X2, yt);
      if tmp > b - 1 then b - 1 else tmp
  }

  lemma FirstGuessBounds(x: nat, X2: nat, Y: nat, Y2: nat, xi: nat, xi1: nat, yt: nat, yt1: nat, q: nat, P: nat, b: nat)
    requires b >= 2 && yt > 0 && P > 0 && xi1 < b && q == FirstGuess(xi, yt, X2, b)
    requires X2 == xi * b + xi1 && Y2 == yt * b + yt1 && Y2 * P <= Y * b
    requires x < (X2 + 1) * P && x < Y * b
    ensures q < b && x < (q + 1) * Y && (xi < yt ==> q * yt <= X2)
  {
    hide Quo;
    QuoRemSpec(X2, yt);
    var tmp := Quo(X2, yt);
    if q == tmp {
      MulDist(q, 1, yt);
      EstimateStart(x, X2, Y, Y2, yt, yt1, q, P, b);
    } else {
      assert q == b - 1;
      if xi < yt { MulMono(q, tmp, yt); }
    }
  }

  lemma ThreeDigitBound(d2: nat, d1: nat, d0: nat, b: nat)
    requires b >= 2 && d2 < b && d1 < b && d0 < b
    ensures Join(Join(d2, d1, b), d0, b) < b * b * b
  {
    MulStep(d2, b, b);
    MulStep(Join(d2, d1, b), b * b, b);
  }

  /** A three-digit number below b^2 has no top digit. */
  lemma NoTopDigit(xi: nat, xi1: nat, X3: nat, b: nat)
    requires b >= 2 && xi1 < b && X3 < b * b && X3 >= Join(xi, xi1, b) * b
    ensures xi == 0 && Join(xi, xi1, b) < b
  {
    MulCancelLt(Join(xi, xi1, b), b, b);
    if xi >= 1 { MulMono(1, xi, b); }
  }

  // ---- the long division ----

  /** The quotient digits in qd and what is left of x still make up x0. */
  ghost predicate Partial(x0: int, x: int, y: int, qd: seq<nat>, b: nat) {
    x0 == x + y * Val(qd, b)
  }

  lemma PartialStep(x0: int, x: int, y: int, qd: seq<nat>, s: nat, q: nat, b: nat)
    requires s < |qd| && Partial(x0, x, y, qd, b)
    ensures Partial(x0, x - (q - qd[s]) * (y * Pow(b, s)), y, qd[s := q], b)
  {
    ValUpdate(qd, s, q, b);
    hide Val, Pow;
    var d, p := q - qd[s], Pow(b, s);
    MulDist(Val(qd, b), d * p, y);
    MulSwap(y, d, p);
  }

  /** A position above the digits of x gets quotient digit zero (line 186). */
  lemma SkippedDigit(x: nat, y: nat, i: nat, t: nat, b: nat)
    requires b >= 2 && t < i && i > Used(x, b) && Pow(b, t) <= y
    ensures x < y * Pow(b, i - t - 1)
  {
    hide Pow, ToDigits;
    UsedBounds(x, b);
    PowMono(b, Used(x, b), i - 1);
    PowAdd(b, t, i - t - 1);
    PowPos(b, i - t - 1);
    MulMono(Pow(b, t), y, Pow(b, i - t - 1));
  }

  /** Lines 174-179: subtract y * b^(n-t) while it fits. */
  method TopDigit(x0: nat, y: nat, n: nat, t: nat, qd: array<nat>, b: nat) returns (x: nat)
    requires b >= 2 && t <= n && Pow(b, t) <= y && x0 < Pow(b, n + 1)
    requires n - t < qd.Length && forall j :: 0 <= j < qd.Length ==> qd[j] == 0
    modifies qd
    ensures x < y * Pow(b, n - t) && IsDigits(qd[..], b)
    ensures Partial(x0, x, y, qd[..], b)
    ensures forall j :: 0 <= j < qd.Length && j != n - t ==> qd[j] == 0
  {
    hide Val, Pow, Partial;
    var s := n - t;
    var Y: nat := Place(y, s, b);
    x := x0;
    PartialStart(x0, y, qd[..], b);
    while x >= Y
      invariant 0 <= qd[s] < b
      invariant Partial(x0, x, y, qd[..], b)
      invariant x + qd[s] * Y == x0
      invariant forall j :: 0 <= j < qd.Length && j != s ==> qd[j] == 0
      decreases x
    {
      ghost var before := qd[..];
      TopDigitSmall(x0, y, n, t, qd[s] + 1, Y, b);
      PartialStep(x0, x, y, before, s, qd[s] + 1, b);
      MulDist(qd[s], 1, Y);
      qd[s] := qd[s] + 1;
      assert qd[..] == before[s := before[s] + 1];
      x := x - Y;
    }
  }

  lemma PartialStart(x0: int, y: int, qd: seq<nat>, b: nat)
    requires forall j :: 0 <= j < |qd| ==> qd[j] == 0
    ensures Partial(x0, x0, y, qd, b)
  {
    ValZeros(qd, b);
  }

  lemma TopDigitSmall(x0: nat, y: nat, n: nat, t: nat, c: nat, Y: nat, b: nat)
    requires b >= 2 && t <= n && Pow(b, t) <= y && x0 < Pow(b, n + 1) && Y == y * Pow(b, n - t)
    requires (c - 1) * Y + Y <= x0
    ensures c < b && Y > 0
  {
    PowAdd(b, t, n - t);
    PowPos(b, n - t);
    PowPos(b, n);
    assert Pow(b, n + 1) == b * Pow(b, n);
    hide Pow;
    assert Pow(b, n) <= Y by { MulMono(Pow(b, t), y, Pow(b, n - t)); }
    MulDist(c - 1, 1, Y);
    if c >= b { MulMono2(b, c, Pow(b, n), Y); }
  }

  /** y * b^s (mp_lshd) */
  function Place(y: nat, s: nat, b: nat): (r: nat)
    requires b >= 1
    ensures r == y * Pow(b, s) && (y > 0 ==> r > 0)
  {
    PowPos(b, s);
    if y > 0 then MulPos(y, Pow(b, s)); y * Pow(b, s) else y * Pow(b, s)
  }

  /** Lines 166-257 on normalised operands: the quotient digits and the remainder. */
  method DivNormalized(x0: nat, y: nat, b: nat, size: nat) returns (q: nat, x: nat)
    requires b >= 16 && y > 0 && Used(y, b) <= Used(x0, b) <= size
    requires 4 * Digit(y, Used(y, b) - 1, b) >= b
    ensures x0 == q * y + x && x < y
  {
    hide Val, Pow, Partial, Digit, ToDigits;
    UsedBounds(x0, b);
    UsedBounds(y, b);
    var n, t := Used(x0, b) - 1, Used(y, b) - 1;
    var qd := new nat[size](_ => 0);
    x := TopDigit(x0, y, n, t, qd, b);
    var i := n;
    while i > t
      invariant t <= i <= n
      invariant x < y * Pow(b, i - t)
      invariant IsDigits(qd[..], b)
      invariant Partial(x0, x, y, qd[..], b)
      invariant forall j :: 0 <= j < i - t ==> qd[j] == 0
    {
      if i > Used(x, b) {
        SkippedDigit(x, y, i, t, b);
      } else {
        var s := i - t - 1;
        var Y: nat := Place(y, s, b);
        ScaledHolds(x, y, i, t, b);
        PowPos(b, i - 1);
        var d := EstimateDigit(x, y, i, t, b, Y, Pow(b, i - 1));
        ghost var before := qd[..];
        qd[s] := d;
        var rest: int := x - d * Y;
        MulDist(d, 1, Y);
        if rest < 0 {
          rest := rest + Y;
          AddBack(d, Y, x);
          qd[s] := MaskedAdd(d, -1, b);
        }
        assert qd[..] == before[s := qd[s]];
        PartialStep(x0, x, y, before, s, qd[s], b);
        assert rest == x - qd[s] * Y;
        x := rest;
      }
      i := i - 1;
    }
    q := Val(qd[..], b);
    ValEmpty([], b);
    PartialEnd(x0, x, y, qd[..], b);
  }

  lemma AddBack(d: nat, Y: nat, x: nat)
    requires x < d * Y && (d > 0 ==> (d - 1) * Y <= x)
    ensures d > 0 && 0 <= x - d * Y + Y < Y && x - d * Y + Y == x - (d - 1) * Y
  {
    if d < 1 { MulMono(d, 0, Y); }
    MulDist(d, 1, Y);
  }

  lemma PartialEnd(x0: int, x: int, y: int, qd: seq<nat>, b: nat)
    requires Partial(x0, x, y, qd, b)
    ensures x0 == Val(qd, b) * y + x
  {
  }

  // ---- normalisation and signs ----

  /** Lines 152-163: the shift that leaves exactly DIGIT_BIT-1 bits in the divisor's top digit. */
  function Norm(y: nat, db: nat): (norm: nat)
    requires db >= 1
    ensures norm < db
  {
    var r := CountBits(y) % db;
    if r < db - 1 then db - 1 - r else 0
  }

  lemma NormBits(c: nat, db: nat) returns (j: nat)
    requires db >= 1
    ensures c + (if c % db < db - 1 then db - 1 - c % db else 0) == j * db + (db - 1)
  {
    DivModSpec(c, db);
    DivNonNeg(c, db);
    j := c / db;
  }

  lemma ShiftedBits(y: nat, e: nat)
    requires y > 0
    ensures Pow(2, e) > 0 && y * Pow(2, e) > 0 && CountBits(y * Pow(2, e)) == CountBits(y) + e
  {
    hide Pow, ToDigits;
    var c, p := CountBits(y), Pow(2, e);
    UsedBounds(y, 2);
    PowPos(2, e);
    MulPos(y, p);
    MulMono(Pow(2, c - 1), y, p);
    MulStrict(y, Pow(2, c), p);
    PowAdd(2, c - 1, e);
    PowAdd(2, c, e);
    UsedUnique(y * p, c + e, 2);
  }

  /** A divisor whose bit count is j*db + (db-1) has a top digit of at least b/4. */
  lemma TopDigitQuarter(y: nat, j: nat, db: nat)
    requires db >= 4 && y > 0 && CountBits(y) == j * db + (db - 1)
    ensures Pow(2, db) >= 16
    ensures Used(y, Pow(2, db)) == j + 1 && 4 * Digit(y, j, Pow(2, db)) >= Pow(2, db)
  {
    hide Pow, ToDigits, Digit;
    assert Pow(2, db) >= 16 by { PowMono(2, 4, db); PowersOfTwo(); }
    var b, c, h := Pow(2, db), CountBits(y), Pow(2, db - 2);
    UsedBounds(y, 2);
    QuarterPowers(j, db);
    PowMono(2, c, c + 1);
    PowPos(2, db - 2);
    PowPos(b, j);
    MulMono(1, h, Pow(b, j));
    UsedUnique(y, j + 1, b);
    TopDigitAtLeast(y, j, b, h);
  }

  lemma QuarterPowers(j: nat, db: nat)
    requires db >= 4
    ensures j * db >= 0 && 4 * Pow(2, db - 2) == Pow(2, db)
    ensures Pow(2, db - 2) * Pow(Pow(2, db), j) == Pow(2, j * db + (db - 2))
    ensures Pow(Pow(2, db), j + 1) == Pow(2, j * db + db)
  {
    hide Pow;
    PowMul(2, db, j);
    var e := j * db;
    assert e == db * j && e >= 0;
    PowAdd(2, 2, db - 2);
    PowersOfTwo();
    PowAdd(2, db - 2, e);
    PowAdd(2, e, db);
    PowStep(Pow(2, db), j);
  }

  lemma TopDigitAtLeast(y: nat, j: nat, b: nat, h: int)
    requires b >= 2 && y < Pow(b, j + 1) && h * Pow(b, j) <= y
    ensures Digit(y, j, b) >= h
  {
    hide Pow, Quo, Digit;
    NextDigit(y, j, b);
    TopIsZero(y, Pow(b, j + 1));
    QuoRemSpec(y, Pow(b, j));
    if Quo(y, Pow(b, j)) < h { MulStep(Quo(y, Pow(b, j)), h, Pow(b, j)); }
  }

  /** The magnitudes: normalise, divide, shift the remainder back (lines 113-124, 147-277). */
  method DivMagnitude(a: nat, d: nat, db: nat) returns (q: nat, r: nat)
    requires db >= 4 && d > 0
    ensures a == q * d + r && r < d
  {
    if a < d {
      return 0, a;
    }
    hide Pow, ToDigits, Digit, CountBits;
    var norm := Norm(d, db);
    var j := NormBits(CountBits(d), db);
    ShiftedBits(d, norm);
    var p: nat := NatPow(2, norm);
    var x, y: nat := NatMul(a, p), NatMul(d, p);
    TopDigitQuarter(y, j, db);
    var b: nat := NatPow(2, db);
    UsedMono(y, x, b, d, a, p);
    NormGrows(a, norm, db);
    var rest;
    q, rest := DivNormalized(x, y, b, Used(a, b) + 2);
    RemainderShift(a, d, q, rest, p);
    r := NatQuo(rest, p);
  }

  lemma UsedMono(y: nat, x: nat, b: nat, d: nat, a: nat, p: nat)
    requires b >= 2 && d <= a && y == d * p && x == a * p
    ensures Used(y, b) <= Used(x, b)
  {
    hide Pow, ToDigits;
    MulMono(d, a, p);
    UsedBounds(x, b);
    UsedAtMost(y, Used(x, b), b);
  }

  lemma NormGrows(a: nat, norm: nat, db: nat)
    requires db >= 4 && norm < db && Pow(2, db) >= 16 && Pow(2, norm) > 0
    ensures a * Pow(2, norm) >= 0 && Used(a * Pow(2, norm), Pow(2, db)) <= Used(a, Pow(2, db)) + 2
  {
    hide Pow, ToDigits;
    var b, u := Pow(2, db), Used(a, Pow(2, db));
    UsedBounds(a, b);
    PowMono(2, norm, db);
    PowStep(b, u);
    MulMono2(a, Pow(b, u), Pow(2, norm), b);
    assert a * Pow(2, norm) < Pow(b, u + 1) by { MulStrict(a, Pow(b, u), Pow(2, norm)); MulMono(Pow(2, norm), b, Pow(b, u)); }
    UsedAtMost(a * Pow(2, norm), u + 1, b);
  }

  lemma RemainderShift(a: nat, d: nat, q: nat, rest: nat, p: nat)
    requires p > 0 && a * p == q * (d * p) + rest && rest < d * p
    ensures Quo(rest, p) == a - q * d && 0 <= a - q * d < d
  {
    MulSwap(q, d, p);
    MulDist(a, q * d, p);
    var r := a - q * d;
    assert rest == r * p;
    assert r < d by { MulCancelLt(r, d, p); }
    if r < 0 { MulMono(r, -1, p); }
    DivModUnique(rest, p, r, 0);
  }

  /**
   * mp_div: the quotient truncated toward zero and the remainder with the sign of a, or an
   * error exactly for a zero divisor.
   */
  method Div(a: int, d: int, db: nat) returns (r: Option<(int, int)>)
    requires db >= 4
    ensures r.None? <==> d == 0
    ensures r.Some? ==> a == r.value.0 * d + r.value.1 && Abs(r.value.1) < Abs(d)
    ensures r.Some? ==> (r.value.1 > 0 ==> a > 0) && (r.value.1 < 0 ==> a < 0)
    ensures r.Some? ==> Abs(r.value.0) == Quo(Abs(a), Abs(d))
  {
    if d == 0 {
      return None;
    }
    var q, m := DivMagnitude(Abs(a), Abs(d), db);
    DivModUnique(Abs(a), Abs(d), q, m);
    var c: int := if (a < 0) == (d < 0) then q as int else -(q as int);
    var e: int := if a < 0 then -(m as int) else m as int;
    assert c * d + e == a;
    r := Some((c, e));
  }
}
