/** Powers, congruences and quotient facts shared by the big-number modules. */
module Arith {

  datatype Option<+T> = None | Some(value: T)

  function Min(a: int, b: int): int { if a < b then a else b }

  function Abs(a: int): nat { if a < 0 then -a else a }

  /** Division that truncates toward zero, as the shifts and digit divisions of magnitudes do. */
  function Truncated(n: int, d: nat): (q: int)
    requires d > 0
  {
    if n >= 0 then n / d else -(-n / d)
  }

  /** b^e */
  function Pow(b: int, e: nat): int
    decreases e
  {
    if e == 0 then 1 else b * Pow(b, e - 1)
  }

  lemma PowPos(b: int, e: nat)
    requires b >= 1
    ensures Pow(b, e) >= 1
  {
    if e > 0 {
      PowPos(b, e - 1);
      MulPos(b, Pow(b, e - 1));
    }
  }

  lemma PowersOfTwo()
    ensures Pow(2, 1) == 2 && Pow(2, 2) == 4 && Pow(2, 4) == 16
  {
    assert Pow(2, 3) == 8;
  }

  lemma PowStep(b: int, e: nat)
    ensures Pow(b, e + 1) == Pow(b, e) * b
  {
  }

  lemma {:induction false} PowAdd(b: int, m: nat, n: nat)
    ensures Pow(b, m + n) == Pow(b, m) * Pow(b, n)
    decreases m
  {
    if m > 0 {
      PowAdd(b, m - 1, n);
      calc {
        Pow(b, m + n);
        b * (Pow(b, m - 1) * Pow(b, n));
        (b * Pow(b, m - 1)) * Pow(b, n);
      }
    }
  }

  lemma {:induction false} PowMul(b: int, m: nat, n: nat)
    ensures m * n >= 0
    ensures Pow(Pow(b, m), n) == Pow(b, m * n)
    decreases n
  {
    if n > 0 {
      PowMul(b, m, n - 1);
      assert m * n == m + m * (n - 1);
      PowAdd(b, m, m * (n - 1));
    } else {
      assert m * n == 0;
    }
  }

  lemma {:induction false} PowDistributes(a: int, b: int, e: nat)
    ensures Pow(a * b, e) == Pow(a, e) * Pow(b, e)
  {
    if e > 0 {
      PowDistributes(a, b, e - 1);
      var x, y := Pow(a, e - 1), Pow(b, e - 1);
      assert (a * b) * (x * y) == (a * x) * (b * y) by { MulShuffle(a, b, x, y); }
    }
  }

  lemma {:induction false} PowOne(e: nat)
    ensures Pow(1, e) == 1
  {
    if e > 0 { PowOne(e - 1); }
  }

  lemma {:induction false} PowMono(b: int, m: nat, n: nat)
    requires b >= 1 && m <= n
    ensures 1 <= Pow(b, m) <= Pow(b, n)
    decreases n
  {
    PowPos(b, m);
    if m < n {
      PowMono(b, m, n - 1);
      MulMono(1, b, Pow(b, n - 1));
    }
  }

  lemma {:induction false} PowStrict(b: int, m: nat, n: nat)
    requires b >= 2 && m < n
    ensures 1 <= Pow(b, m) < Pow(b, n)
  {
    PowMono(b, m, n - 1);
    MulMono(2, b, Pow(b, n - 1));
  }

  lemma {:induction false} PowBaseMono(a: int, b: int, e: nat)
    requires 0 <= a <= b
    ensures 0 <= Pow(a, e) <= Pow(b, e)
  {
    if e > 0 {
      PowBaseMono(a, b, e - 1);
      MulMono2(a, b, Pow(a, e - 1), Pow(b, e - 1));
    }
  }

  // ---- multiplication facts, stated one instance at a time ----

  lemma MulPos(a: int, b: int)
    requires a >= 1 && b >= 1
    ensures a * b >= 1 && a * b >= a && a * b >= b
  {
    assert a * b - b == (a - 1) * b;
    assert a * b - a == a * (b - 1);
  }

  lemma MulNonNeg(a: int, b: int)
    requires a >= 0 && b >= 0
    ensures a * b >= 0
  {
  }

  lemma MulMono(a: int, b: int, c: int)
    requires a <= b && c >= 0
    ensures a * c <= b * c && c * a <= c * b
  {
    assert (b - a) * c >= 0;
  }

  lemma MulMono2(a: int, b: int, c: int, d: int)
    requires 0 <= a <= b && 0 <= c <= d
    ensures 0 <= a * c <= b * d
  {
    MulMono(a, b, c);
    MulMono(c, d, b);
    MulNonNeg(a, c);
  }

  /** a < b gives a*c + c <= b*c. */
  lemma MulStep(a: int, b: int, c: int)
    requires a < b && c >= 0
    ensures a * c + c <= b * c
  {
    MulMono(a + 1, b, c);
    assert (a + 1) * c == a * c + c;
  }

  lemma MulStrict(a: int, b: int, c: int)
    requires a < b && c > 0
    ensures a * c < b * c && c * a < c * b
  {
    MulStep(a, b, c);
  }

  lemma MulCancelLt(a: int, b: int, c: int)
    requires a * c < b * c && c >= 0
    ensures a < b
  {
    if a >= b { MulMono(b, a, c); }
  }

  lemma MulShuffle(a: int, b: int, x: int, y: int)
    ensures (a * b) * (x * y) == (a * x) * (b * y)
  {
    calc {
      (a * b) * (x * y);
      a * (b * (x * y));
      { MulSwap(b, x, y); }
      a * (x * (b * y));
      (a * x) * (b * y);
    }
  }

  lemma MulSwap(a: int, b: int, c: int)
    ensures a * (b * c) == b * (a * c)
    ensures a * (b * c) == (a * b) * c
  {
  }

  lemma MulDistSub(a: int, b: int, c: int, p: int)
    ensures (a - b - c) * p == a * p - b * p - c * p
  {
  }

  lemma MulDist(a: int, b: int, p: int)
    ensures (a + b) * p == a * p + b * p && (a - b) * p == a * p - b * p
    ensures p * (a + b) == p * a + p * b && p * (a - b) == p * a - p * b
  {
  }

  // ---- quotient and remainder ----

  function Quo(a: int, m: int): int
    requires m > 0
  {
    a / m
  }

  function Rem(a: int, m: int): int
    requires m > 0
  {
    a % m
  }

  lemma DivModUnique(a: int, m: int, q: int, r: int)
    requires m > 0 && a == q * m + r && 0 <= r < m
    ensures a / m == q && a % m == r
  {
    var q', r' := a / m, a % m;
    assert a == m * q' + r' && 0 <= r' < m;
    if q < q' { MulStep(q, q', m); }
    if q' < q { MulStep(q', q, m); }
  }

  lemma DivModSpec(a: int, m: int)
    requires m > 0
    ensures a == (a / m) * m + a % m && 0 <= a % m < m
  {
  }

  lemma QuoRemUnique(a: int, m: int, q: int, r: int)
    requires m > 0 && a == q * m + r && 0 <= r < m
    ensures Quo(a, m) == q && Rem(a, m) == r
  {
    DivModUnique(a, m, q, r);
  }

  lemma RemSmall(x: int, m: int)
    requires 0 <= x < m
    ensures Rem(x, m) == x
  {
    DivModUnique(x, m, 0, x);
  }

  lemma QuoRemSpec(a: int, m: int)
    requires m > 0
    ensures a == Quo(a, m) * m + Rem(a, m) && 0 <= Rem(a, m) < m
    ensures a >= 0 ==> Quo(a, m) >= 0
  {
    DivModSpec(a, m);
    if a >= 0 { DivNonNeg(a, m); }
  }

  // ---- the same on natural numbers, for variables that must not be negative ----

  function NatMul(x: nat, y: nat): (r: nat)
    ensures r == x * y
  {
    MulNonNeg(x, y);
    x * y
  }

  function NatPow(b: nat, e: nat): (p: nat)
    requires b >= 1
    ensures p == Pow(b, e) && p > 0
  {
    PowPos(b, e);
    Pow(b, e)
  }

  function NatRem(x: int, m: nat): (r: nat)
    requires m > 0
    ensures r == Rem(x, m) && r < m
  {
    DivModSpec(x, m);
    Rem(x, m)
  }

  function NatQuo(x: nat, m: nat): (q: nat)
    requires m > 0
    ensures q == Quo(x, m) && x == q * m + Rem(x, m)
  {
    DivModSpec(x, m);
    DivNonNeg(x, m);
    Quo(x, m)
  }

  lemma DivNonNeg(a: int, m: int)
    requires m > 0 && a >= 0
    ensures 0 <= a / m <= a
  {
    var q := a / m;
    DivModSpec(a, m);
    if q < 0 { MulMono(q, -1, m); }
    if q > a { MulMono(1, m, q); }
  }

  /** a < q*m exactly when a/m < q. */
  lemma DivLt(a: int, m: int, q: int)
    requires m > 0
    ensures a / m < q <==> a < q * m
  {
    DivModSpec(a, m);
    if a / m < q { MulStep(a / m, q, m); }
    if q <= a / m { MulMono(q, a / m, m); }
  }

  /** (a / m) / n == a / (m * n) */
  lemma DivDiv(a: int, m: int, n: int)
    requires m > 0 && n > 0
    ensures m * n > 0 && (a / m) / n == a / (m * n)
  {
    MulPos(m, n);
    DivModSpec(a, m);
    var q := a / m;
    DivModSpec(q, n);
    var q2, r1, r2 := q / n, a % m, q % n;
    MulStep(r2, n, m);
    MulNonNeg(r2, m);
    calc {
      a;
      (q2 * n + r2) * m + r1;
      (q2 * n) * m + r2 * m + r1;
      { MulSwap(q2, n, m); }
      q2 * (m * n) + (r2 * m + r1);
    }
    DivModUnique(a, m * n, q2, r2 * m + r1);
  }

  // ---- congruence ----

  function Times(k: int, m: int): int { k * m }

  /** a and b leave the same residue modulo m. */
  ghost predicate Cong(a: int, b: int, m: int) {
    exists k: int :: a - b == Times(k, m)
  }

  lemma CongIntro(a: int, b: int, m: int, k: int)
    requires a - b == k * m
    ensures Cong(a, b, m)
  {
    assert a - b == Times(k, m);
  }

  ghost function CongWitness(a: int, b: int, m: int): (k: int)
    requires Cong(a, b, m)
    ensures a - b == k * m
  {
    var k: int :| a - b == Times(k, m);
    k
  }

  lemma CongRefl(a: int, m: int)
    ensures Cong(a, a, m)
  {
    CongIntro(a, a, m, 0);
  }

  lemma CongSym(a: int, b: int, m: int)
    requires Cong(a, b, m)
    ensures Cong(b, a, m)
  {
    var k := CongWitness(a, b, m);
    assert b - a == (-k) * m;
    CongIntro(b, a, m, -k);
  }

  lemma CongTrans(a: int, b: int, c: int, m: int)
    requires Cong(a, b, m) && Cong(b, c, m)
    ensures Cong(a, c, m)
  {
    var k, l := CongWitness(a, b, m), CongWitness(b, c, m);
    assert a - c == (k + l) * m;
    CongIntro(a, c, m, k + l);
  }

  lemma CongAdd(a: int, b: int, c: int, d: int, m: int)
    requires Cong(a, b, m) && Cong(c, d, m)
    ensures Cong(a + c, b + d, m) && Cong(a - c, b - d, m)
  {
    var k, l := CongWitness(a, b, m), CongWitness(c, d, m);
    assert (a + c) - (b + d) == (k + l) * m;
    assert (a - c) - (b - d) == (k - l) * m;
    CongIntro(a + c, b + d, m, k + l);
    CongIntro(a - c, b - d, m, k - l);
  }

  lemma CongScale(c: int, a: int, b: int, m: int)
    requires Cong(a, b, m)
    ensures Cong(c * a, c * b, m) && Cong(a * c, b * c, m)
  {
    var k := CongWitness(a, b, m);
    assert c * a - c * b == c * (a - b) == c * (k * m) == (c * k) * m;
    CongIntro(c * a, c * b, m, c * k);
  }

  lemma CongMul(a: int, b: int, c: int, d: int, m: int)
    requires Cong(a, b, m) && Cong(c, d, m)
    ensures Cong(a * c, b * d, m)
  {
    CongScale(c, a, b, m);
    CongScale(b, c, d, m);
    CongTrans(a * c, b * c, b * d, m);
  }

  lemma {:induction false} CongPow(a: int, b: int, e: nat, m: int)
    requires Cong(a, b, m)
    ensures Cong(Pow(a, e), Pow(b, e), m)
  {
    if e == 0 {
      CongRefl(1, m);
    } else {
      CongPow(a, b, e - 1, m);
      CongMul(a, b, Pow(a, e - 1), Pow(b, e - 1), m);
    }
  }

  lemma CongMod(a: int, m: int)
    requires m > 0
    ensures Cong(a % m, a, m)
  {
    DivModSpec(a, m);
    assert a % m - a == (-(a / m)) * m;
    CongIntro(a % m, a, m, -(a / m));
  }

  /** Two residues in [0, m) that are congruent are equal. */
  lemma CongUnique(a: int, b: int, m: int)
    requires Cong(a, b, m) && 0 <= a < m && 0 <= b < m
    ensures a == b
  {
    var k := CongWitness(a, b, m);
    if k >= 1 { MulMono(1, k, m); }
    if k <= -1 { MulMono(k, -1, m); }
  }

  lemma CongToMod(a: int, b: int, m: int)
    requires m > 0 && Cong(a, b, m) && 0 <= a < m
    ensures a == b % m
  {
    CongMod(b, m);
    CongSym(b % m, b, m);
    CongTrans(a, b, b % m, m);
    CongUnique(a, b % m, m);
  }

  lemma {:induction false} SubsetSize<T>(a: set<T>, b: set<T>)
    requires a <= b
    ensures |a| <= |b|
  {
    if a != {} {
      var x :| x in a;
      SubsetSize(a - {x}, b - {x});
    }
  }

  function RemoveAt<T>(s: seq<T>, i: nat): (r: seq<T>)
    requires i < |s|
    ensures |r| == |s| - 1
    ensures forall j :: 0 <= j < |r| ==> r[j] == s[if j < i then j else j + 1]
  {
    s[..i] + s[i + 1..]
  }

  lemma TruncatedExact(k: int, d: nat)
    requires d > 0
    ensures Truncated(d * k, d) == k
  {
    if d * k >= 0 {
      DivModUnique(d * k, d, k, 0);
    } else {
      MulDist(0, k, d);
      DivModUnique(-(d * k), d, -k, 0);
    }
  }
}
