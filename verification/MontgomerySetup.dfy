/** Constants of Montgomery reduction (bn_mp_montgomery_setup.c, bn_mp_montgomery_calc_normalization.c). */
module MontgomerySetup {
  import opened Arith
  import opened Digits

  // ---- Hensel inversion of the low digit ----

  /** If x*a = 1 modulo E then x*(2 - a*x) inverts a modulo E^2. */
  lemma HenselStep(x: int, a: int, E: int)
    requires Cong(x * a, 1, E)
    ensures Cong((x * (2 - a * x)) * a, 1, E * E)
  {
    var t := CongWitness(x * a, 1, E);
    hide Cong;
    var y := x * a;
    assert (x * (2 - a * x)) * a == y * (2 - y) by {
      assert a * x == y;
      MulSwap(x, 2 - y, a);
      MulSwap(a, x, 2 - y);
    }
    assert y == 1 + t * E;
    assert y * (2 - y) - 1 == -((y - 1) * (y - 1));
    assert (y - 1) * (y - 1) == (t * t) * (E * E) by { MulShuffle(t, E, t, E); MulShuffle(t, t, E, E); }
    assert -((t * t) * (E * E)) == (-(t * t)) * (E * E);
    CongIntro((x * (2 - a * x)) * a, 1, E * E, -(t * t));
  }

  /** Reducing modulo a multiple of E keeps the residue modulo E. */
  lemma WrapKeeps(x: int, y: int, m: int, E: int, c: int)
    requires m > 0 && m == c * E && y == Rem(x, m)
    ensures Cong(y, x, E)
  {
    DivModSpec(x, m);
    var q := Quo(x, m);
    assert y - x == (-q) * m;
    MulSwap(-q, c, E);
    CongIntro(y, x, E, (-q) * c);
  }

  /** One line `x *= 2 - (b * x)` on a machine digit doubles the number of correct bits. */
  lemma NewtonLine(x: nat, a: nat, dw: nat, E: nat, c: nat)
    requires dw > 0 && dw == c * (E * E) && Cong(x * a, 1, E)
    ensures Cong(Rem(x * (2 - a * x), dw) * a, 1, E * E)
  {
    hide Cong, Rem;
    var z := x * (2 - a * x);
    HenselStep(x, a, E);
    WrapKeeps(z, Rem(z, dw), dw, E * E, c);
    CongScale(a, Rem(z, dw), z, E * E);
    CongTrans(Rem(z, dw) * a, z * a, 1, E * E);
  }

  /** The start value (((b + 2) & 4) << 1) + b inverts an odd b modulo 16. */
  lemma StartValue(a: nat)
    requires a % 2 == 1
    ensures Cong(((a + 2) / 4 % 2 * 8 + a) * a, 1, 16)
  {
    hide Cong;
    var q, r := a / 16, a % 16;
    var f := (a + 2) / 4 % 2 * 8;
    assert f == (r + 2) / 4 % 2 * 8 by { assert (a + 2) / 4 == 4 * q + (r + 2) / 4; }
    var w := StartResidue(r);
    StartAlgebra(q, r, f, w);
    CongIntro((f + a) * a, 1, 16, q * (16 * q + r) + (f + r) * q + w);
  }

  lemma StartResidue(r: nat) returns (w: int)
    requires r < 16 && r % 2 == 1
    ensures ((r + 2) / 4 % 2 * 8 + r) * r == 16 * w + 1
  {
    if r == 1 { w := 0; } else if r == 3 { w := 2; } else if r == 5 { w := 4; } else if r == 7 { w := 3; }
    else if r == 9 { w := 5; } else if r == 11 { w := 13; } else if r == 13 { w := 17; } else { w := 14; }
  }

  lemma StartAlgebra(q: int, r: int, f: int, w: int)
    requires (f + r) * r == 16 * w + 1
    ensures (f + (16 * q + r)) * (16 * q + r) - 1 == (q * (16 * q + r) + (f + r) * q + w) * 16
  {
    var x, a := f + r, 16 * q + r;
    MulDist(16 * q, x, a);
    MulDist(16 * q, r, x);
  }

  /** rho = -x (mod b) when x inverts n modulo a multiple of b. */
  lemma NegatedInverse(x: int, n0: int, b: nat, dw: nat, c: nat)
    requires b >= 2 && dw == c * b && Cong(x * n0, 1, dw)
    ensures Rem(Rem(b - x, b) * n0 + 1, b) == 0
  {
    var t := CongWitness(x * n0, 1, dw);
    hide Cong;
    var rho, q := Rem(b - x, b), Quo(b - x, b);
    assert b - x == q * b + rho by { DivModSpec(b - x, b); }
    var e := n0 - t * c - q * n0;
    calc {
      rho * n0 + 1;
      (b - x - q * b) * n0 + 1;
      { MulDistSub(b, x, q * b, n0); }
      b * n0 - x * n0 - (q * b) * n0 + 1;
      { MulSwap(t, c, b); MulSwap(q, b, n0); MulSwap(q, n0, b); }
      b * n0 - (t * c) * b - (q * n0) * b;
      { MulDistSub(n0, t * c, q * n0, b); }
      e * b;
    }
    DivModUnique(rho * n0 + 1, b, e, 0);
  }

  /**
   * mp_montgomery_setup on a machine digit of `bits` bits holding radix-2^db digits: rho with
   * rho * n = -1 (mod 2^db), or an error exactly for an even modulus.
   */
  method Setup(n: nat, db: nat, bits: nat) returns (r: Option<nat>)
    requires bits in {16, 32, 64} && 1 <= db < bits
    ensures r.None? <==> n % 2 == 0
    ensures r.Some? ==> Pow(2, db) >= 2 && r.value < Pow(2, db)
                        && Rem(r.value * Rem(n, Pow(2, db)) + 1, Pow(2, db)) == 0
  {
    PowMono(2, 1, db);
    var b, dw := Pow(2, db), Pow(2, bits);
    PowPos(2, bits);
    var a: nat := LowDigit(n, db);
    if a % 2 == 0 {
      return None;
    }
    StartValue(a);
    WordSizes();
    hide Pow, Cong, Rem;
    var x: nat := (a + 2) / 4 % 2 * 8 + a;
    // What remains of the digit width above the bits that are already right.
    ghost var c := if bits == 16 then 1 else if bits == 32 then 0x1_0000 else 0x1_0000_0000_0000;
    x := NewtonStep(x, a, dw, 0x10, 0x100 * c);
    x := NewtonStep(x, a, dw, 0x100, c);
    if bits >= 32 {
      x := NewtonStep(x, a, dw, 0x1_0000, if bits == 32 then 1 else 0x1_0000_0000);
    }
    if bits == 64 {
      x := NewtonStep(x, a, dw, 0x1_0000_0000, 1);
    }
    PowAdd(2, bits - db, db);
    PowPos(2, bits - db);
    NegatedInverse(x, a, b, dw, Pow(2, bits - db));
    r := Some(NatRem(b - x, b));
  }

  lemma WordSizes()
    ensures Pow(2, 16) == 0x1_0000 && Pow(2, 32) == 0x1_0000_0000 && Pow(2, 64) == 0x1_0000_0000_0000_0000
  {
    assert Pow(2, 8) == 256;
    PowAdd(2, 8, 8);
    PowAdd(2, 16, 16);
    PowAdd(2, 32, 32);
  }

  method NewtonStep(x: nat, a: nat, dw: nat, ghost E: nat, ghost c: nat) returns (y: nat)
    requires dw > 0 && dw == c * (E * E) && Cong(x * a, 1, E)
    ensures Cong(y * a, 1, E * E)
  {
    NewtonLine(x, a, dw, E, c);
    hide Cong, Rem;
    y := NatRem(x * (2 - a * x), dw);
  }

  /** The low digit of n (`dp[0]`) has n's parity. */
  function LowDigit(n: nat, db: nat): (d: nat)
    requires db >= 1
    ensures Pow(2, db) >= 2 && d == Rem(n, Pow(2, db)) && d % 2 == n % 2
  {
    PowMono(2, 1, db);
    var b := Pow(2, db);
    assert b == 2 * Pow(2, db - 1);
    ParityOfRem(n, Pow(2, db - 1));
    NatRem(n, b)
  }

  lemma ParityOfRem(n: nat, h: int)
    requires h > 0
    ensures Rem(n, 2 * h) % 2 == n % 2
  {
    DivModSpec(n, 2 * h);
    var q := Quo(n, 2 * h);
    assert n == 2 * (q * h) + Rem(n, 2 * h);
  }

  // ---- R mod n by doubling ----

  /** mp_count_bits */
  function CountBits(n: nat): nat { Used(n, 2) }

  /** The bit count lies in the top digit. */
  lemma CountBitsInTopDigit(n: nat, db: nat)
    requires db >= 1 && n > 0
    ensures Pow(2, db) >= 2
    ensures var k := Used(n, Pow(2, db)); k > 0 && (k - 1) * db < CountBits(n) <= k * db
  {
    hide Pow, ToDigits;
    assert Pow(2, db) >= 2 by { RadixAtLeastTwo(db); }
    var b, c := Pow(2, db), Used(n, 2);
    var k := Used(n, b);
    UsedBounds(n, 2);
    UsedBounds(n, b);
    var hi, lo := db * k, db * (k - 1);
    assert Pow(b, k) == Pow(2, hi) by { PowMul(2, db, k); }
    assert Pow(b, k - 1) == Pow(2, lo) by { PowMul(2, db, k - 1); }
    if c > hi { PowMono(2, hi, c - 1); }
    if c <= lo { PowMono(2, c, lo); }
  }

  lemma RadixAtLeastTwo(db: nat)
    requires db >= 1
    ensures Pow(2, db) >= 2
  {
    PowMono(2, 1, db);
  }

  /** An odd number above 1 is not a power of two. */
  lemma OddNotPower(n: nat, e: nat)
    requires n % 2 == 1 && n > 1
    ensures n != Pow(2, e)
  {
    if e > 0 { assert Pow(2, e) == 2 * Pow(2, e - 1); }
  }

  /**
   * mp_montgomery_calc_normalization: b^k mod n by doubling, starting just below the top bit of n.
   */
  method CalcNormalization(n: nat, db: nat) returns (a: nat)
    requires db >= 1 && n > 1 && n % 2 == 1
    ensures Pow(2, db) >= 2 && a < n && Cong(a, Pow(Pow(2, db), Used(n, Pow(2, db))), n)
  {
    CountBitsInTopDigit(n, db);
    UsedBounds(n, 2);
    var b, c := Pow(2, db), CountBits(n);
    var k := Used(n, b);
    var bits := c % db;
    ghost var e: nat;
    if k > 1 {
      MulMono(1, k - 1, db);
      var start := (k - 1) * db + bits - 1;
      a := NatPow(2, start);
      e := start;
      assert start <= c - 1 by { BitsOfTop(c, k, db); }
      PowMono(2, start, c - 1);
      OddNotPower(n, start);
    } else {
      a := 1;
      bits := 1;
      e := 0;
    }
    assert a == Pow(2, e);
    CongRefl(a, n);
    hide Pow, Cong, CountBits;
    var x := bits - 1;
    while x < db
      invariant -1 <= x <= db && e == (k - 1) * db + x
      invariant a < n && Cong(a, Pow(2, e), n)
    {
      Doubling(a, e, n);
      a := 2 * a;
      if a >= n {
        a := a - n;
      }
      e := e + 1;
      x := x + 1;
    }
    MulDist(k, 1, db);
    PowMul(2, db, k);
  }

  lemma BitsOfTop(c: nat, k: nat, db: nat)
    requires db >= 1 && k >= 1 && (k - 1) * db < c <= k * db
    ensures (k - 1) * db + c % db <= c
  {
    var r := c - (k - 1) * db;
    assert r <= db by { MulDist(k, 1, db); }
    if r < db {
      DivModUnique(c, db, k - 1, r);
    } else {
      MulDist(k, 1, db);
      DivModUnique(c, db, k, 0);
    }
  }

  lemma Doubling(a: nat, e: nat, n: nat)
    requires n > 0 && a < n && Cong(a, Pow(2, e), n)
    ensures Cong(if 2 * a >= n then 2 * a - n else 2 * a, Pow(2, e + 1), n)
  {
    CongScale(2, a, Pow(2, e), n);
    assert Pow(2, e + 1) == 2 * Pow(2, e);
    CongIntro(2 * a - n, 2 * a, n, -1);
    if 2 * a >= n { CongTrans(2 * a - n, 2 * a, Pow(2, e + 1), n); }
  }
}
