/** Greatest common divisor and modular inverse over the naturals, as in the
    arithmetic prelude of the full implementation (app.py), together with the
    small facts about Euclidean remainder that the cipher proofs rely on. */
module Modular {
  import opened Wrappers

  /** `d` divides `n`; zero divides only zero. */
  predicate Divides(d: nat, n: int)
  {
    if d == 0 then n == 0 else n % d == 0
  }

  /** `g` is a greatest common divisor of `x` and `y`: a common divisor that
      every common divisor divides. */
  ghost predicate IsGcd(g: nat, x: nat, y: nat)
  {
    && Divides(g, x)
    && Divides(g, y)
    && forall d: nat :: Divides(d, x) && Divides(d, y) ==> Divides(d, g)
  }

  /** `j` is a multiplicative inverse of `a` modulo `m`. */
  predicate IsInverse(a: int, m: nat, j: int)
  {
    m > 0 && (a * j) % m == 1 % m
  }

  // ---------------------------------------------------------------------
  // Euclidean remainder

  lemma ModUnique(n: int, m: int, q: int, r: int)
    requires m > 0 && 0 <= r < m
    requires n == m * q + r
    ensures n % m == r && n / m == q
  {
    var q0, r0 := n / m, n % m;
    assert n == m * q0 + r0;
    if q0 < q {
      MulMonotone(m, q - q0);
    } else if q < q0 {
      MulMonotone(m, q0 - q);
    }
  }

  lemma MulMonotone(m: int, k: int)
    requires m > 0 && k >= 1
    ensures m * k >= m
  {
  }

  lemma ModAddMultiple(z: int, k: int, m: int)
    requires m > 0
    ensures (z + m * k) % m == z % m
  {
    assert z == m * (z / m) + z % m;
    assert z + m * k == m * (z / m + k) + z % m;
    ModUnique(z + m * k, m, z / m + k, z % m);
  }

  lemma ModMulRight(k: int, p: int, m: int)
    requires m > 0
    ensures (k * (p % m)) % m == (k * p) % m
  {
    var q := p / m;
    assert p == m * q + p % m;
    assert k * p == k * (p % m) + m * (k * q);
    ModAddMultiple(k * (p % m), k * q, m);
  }

  lemma ModAddLeft(x: int, y: int, m: int)
    requires m > 0
    ensures (x % m + y) % m == (x + y) % m
  {
    assert x == m * (x / m) + x % m;
    ModAddMultiple(x % m + y, x / m, m);
  }

  lemma DividesMultiple(d: nat, v: int, k: int)
    requires Divides(d, v)
    ensures Divides(d, v * k)
  {
    if d > 0 {
      var kv := v / d;
      assert v == d * kv;
      assert v * k == d * (kv * k);
      ModUnique(v * k, d, kv * k, 0);
    }
  }

  lemma DividesSum(d: nat, u: int, v: int)
    requires Divides(d, u) && Divides(d, v)
    ensures Divides(d, u + v)
  {
    if d > 0 {
      var ku, kv := u / d, v / d;
      assert u + v == d * (ku + kv);
      ModUnique(u + v, d, ku + kv, 0);
    }
  }

  lemma DividesCombination(d: nat, u: int, v: int, s: int, t: int)
    requires Divides(d, u) && Divides(d, v)
    ensures Divides(d, u * s + v * t)
  {
    DividesMultiple(d, u, s);
    DividesMultiple(d, v, t);
    DividesSum(d, u * s, v * t);
  }

  lemma DividesAntisymmetric(d: nat, e: nat)
    requires Divides(d, e) && Divides(e, d)
    ensures d == e
  {
    if d > 0 && e > 0 {
      DividesBound(d, e);
      DividesBound(e, d);
    }
  }

  lemma DividesBound(d: nat, n: nat)
    requires d > 0 && n > 0 && Divides(d, n)
    ensures d <= n
  {
    var q := n / d;
    assert n == d * q;
    assert q >= 1;
    MulMonotone(d, q);
  }

  /** Common divisors of `x` and `y` are exactly those of `y` and `x % y`. */
  lemma CommonDivisorsStep(x: nat, y: nat, d: nat)
    requires y > 0
    ensures Divides(d, x) && Divides(d, y) <==> Divides(d, y) && Divides(d, x % y)
  {
    var q, r := x / y, x % y;
    assert x == y * q + r;
    if Divides(d, x) && Divides(d, y) {
      DividesCombination(d, x, y, 1, -q);
      assert x * 1 + y * (-q) == r;
    }
    if Divides(d, y) && Divides(d, r) {
      DividesCombination(d, y, r, q, 1);
      assert y * q + r * 1 == x;
    }
  }

  lemma IsGcdUnique(g: nat, h: nat, x: nat, y: nat)
    requires IsGcd(g, x, y) && IsGcd(h, x, y)
    ensures g == h
  {
    DividesAntisymmetric(g, h);
  }

  // ---------------------------------------------------------------------
  // gcd (app.py and main.py share the same loop)

  /** The Euclidean loop `while b: a, b = b, a % b`, one iteration per call. */
  function Gcd(x: nat, y: nat): (g: nat)
    decreases y
    ensures y == 0 ==> g == x
    ensures IsGcd(g, x, y)
  {
    if y == 0 then
      x
    else
      var g := Gcd(y, x % y);
      GcdStep(x, y, g);
      g
  }

  lemma GcdStep(x: nat, y: nat, g: nat)
    requires y > 0 && IsGcd(g, y, x % y)
    ensures IsGcd(g, x, y)
  {
    CommonDivisorsStep(x, y, g);
    forall d: nat | Divides(d, x) && Divides(d, y)
      ensures Divides(d, g)
    {
      CommonDivisorsStep(x, y, d);
    }
  }

  lemma CommonDivisorDividesGcd(d: nat, x: nat, y: nat)
    ensures Divides(d, x) && Divides(d, y) ==> Divides(d, Gcd(x, y))
  {
  }

  /** Any greatest common divisor equals the one the loop computes. */
  lemma GcdCharacterization(g: nat, x: nat, y: nat)
    requires IsGcd(g, x, y)
    ensures g == Gcd(x, y)
  {
    IsGcdUnique(g, Gcd(x, y), x, y);
  }

  // ---------------------------------------------------------------------
  // Extended Euclid and the inverse of app.py

  /** The nested `extended_gcd(a, b)`: returns `(g, x, y)` with Bezout's
      identity `a * x + b * y == g` for the greatest common divisor `g`. */
  function ExtendedGcd(a: nat, b: nat): (r: (nat, int, int))
    decreases a
    ensures r.0 == Gcd(a, b)
    ensures a * r.1 + b * r.2 == r.0
  {
    if a == 0 then
      (b, 0, 1)
    else
      var (g, x1, y1) := ExtendedGcd(b % a, a);
      BezoutStep(a, b, g, x1, y1);
      (g, y1 - (b / a) * x1, x1)
  }

  lemma BezoutStep(a: nat, b: nat, g: nat, x1: int, y1: int)
    requires a > 0
    requires g == Gcd(b % a, a)
    requires (b % a) * x1 + a * y1 == g
    ensures g == Gcd(a, b)
    ensures a * (y1 - (b / a) * x1) + b * x1 == g
  {
    BezoutAlgebra(a, b, x1, y1);
    GcdSwap(a, b);
  }

  lemma BezoutAlgebra(a: nat, b: nat, x1: int, y1: int)
    requires a > 0
    ensures a * (y1 - (b / a) * x1) + b * x1 == (b % a) * x1 + a * y1
  {
    var q, r := b / a, b % a;
    assert b == a * q + r;
    assert a * (y1 - q * x1) == a * y1 - (a * q) * x1;
    assert b * x1 == (a * q) * x1 + r * x1;
  }

  /** One step of the extended algorithm keeps the greatest common divisor. */
  lemma GcdSwap(a: nat, b: nat)
    requires a > 0
    ensures Gcd(b % a, a) == Gcd(a, b)
  {
    var g := Gcd(b % a, a);
    CommonDivisorsStep(b, a, g);
    forall d: nat | Divides(d, a) && Divides(d, b)
      ensures Divides(d, g)
    {
      CommonDivisorsStep(b, a, d);
    }
    GcdCharacterization(g, a, b);
  }

  /** A common divisor of `a` and `m` other than one rules out every inverse. */
  lemma NoInverseWithoutCoprime(a: nat, m: nat, j: int)
    requires m >= 1 && Gcd(a, m) != 1
    ensures !IsInverse(a, m, j)
  {
    var g := Gcd(a, m);
    if IsInverse(a, m, j) && m > 1 {
      ModUnique(1, m, 0, 1);
      var q := (a * j) / m;
      assert a * j + m * (-q) == 1;
      DividesCombination(g, a, m, j, -q);
    }
  }

  /** Two inverses modulo `m` are congruent modulo `m`. */
  lemma InverseUnique(a: int, m: nat, j: int, k: int)
    requires IsInverse(a, m, j) && IsInverse(a, m, k)
    ensures j % m == k % m
  {
    // j == j * 1 == j * (a * k) == k * (a * j) == k * 1 == k   (mod m)
    calc {
      j % m;
      { ModMulRight(j, 1, m); }
      (j * (1 % m)) % m;
      { assert 1 % m == (a * k) % m; ModMulRight(j, a * k, m); }
      (j * (a * k)) % m;
      { assert j * (a * k) == k * (a * j); }
      (k * (a * j)) % m;
      { ModMulRight(k, a * j, m); }
      (k * (1 % m)) % m;
      { ModMulRight(k, 1, m); }
      k % m;
    }
  }

  /** `mod_inverse(a, m)` of app.py: `None` when `gcd(a, m) != 1`, otherwise
      the Bezout coefficient of `a` normalised by `(x % m + m) % m`. */
  function ModInverse(a: nat, m: nat): (r: Option<nat>)
    requires m >= 1
    ensures r.None? <==> Gcd(a, m) != 1
    ensures r.None? ==> forall j: int :: !IsInverse(a, m, j)
    ensures r.Some? ==> r.value < m && IsInverse(a, m, r.value)
    ensures r.Some? ==> forall j: int :: 0 <= j < m && IsInverse(a, m, j) ==> j == r.value
  {
    if Gcd(a, m) != 1 then
      NoInverseEver(a, m);
      None
    else
      var (g, x, y) := ExtendedGcd(a, m);
      var i := (x % m + m) % m;
      NormalisedIsInverse(a, m, x, y, i);
      Some(i)
  }

  lemma NoInverseEver(a: nat, m: nat)
    requires m >= 1 && Gcd(a, m) != 1
    ensures forall j: int :: !IsInverse(a, m, j)
  {
    forall j: int
      ensures !IsInverse(a, m, j)
    {
      NoInverseWithoutCoprime(a, m, j);
    }
  }

  lemma NormalisedIsInverse(a: nat, m: nat, x: int, y: int, i: int)
    requires m >= 1 && a * x + m * y == 1
    requires i == (x % m + m) % m
    ensures 0 <= i < m && IsInverse(a, m, i)
    ensures forall j: int :: 0 <= j < m && IsInverse(a, m, j) ==> j == i
  {
    ModAddMultiple(x % m, 1, m);
    assert i == x % m;
    ModMulRight(a, x, m);
    ModAddMultiple(a * x, y, m);
    assert IsInverse(a, m, i);
    forall j: int | 0 <= j < m && IsInverse(a, m, j)
      ensures j == i
    {
      InverseUnique(a, m, j, i);
      ModUnique(j, m, 0, j);
      ModUnique(i, m, 0, i);
    }
  }
}
