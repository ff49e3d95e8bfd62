/** Integers modulo m: congruence, divisibility by combination, inverses and powers.

    Above the limb layer an element of F_q is represented by any integer of its
    residue class, and two integers are the same element when they are congruent.
    Additions and multiplications of elements are then those of the integers. */
module Modular {

  // Congruence: a and b are the same element of Z/m.
  predicate Eq(a: int, b: int, m: int)
    requires m > 0
  {
    (a - b) % m == 0
  }

  ghost function Times(a: int, b: int): int { a * b }

  ghost predicate Divides(d: int, a: int) { exists k :: a == Times(d, k) }

  lemma DividesIntro(d: int, k: int, a: int)
    requires a == d * k
    ensures Divides(d, a)
  {
    assert a == Times(d, k);
  }

  lemma MulMono(a: int, b: int, c: int)
    requires a <= b && c >= 0
    ensures a * c <= b * c
  {}

  lemma SquareMono(a: int, b: int)
    requires 0 <= a <= b
    ensures a * a <= b * b
  {
    MulMono(a, b, a);
    MulMono(a, b, b);
  }

  lemma SmallMultiple(q: int, m: int)
    requires m > 0 && -m < q * m < m
    ensures q == 0
  {
    if q >= 1 { MulMono(1, q, m); }
    if q <= -1 { MulMono(q, -1, m); }
  }

  lemma ModZero(a: int, k: int, m: int)
    requires m > 0 && a == k * m
    ensures a % m == 0
  {
    var q, r := a / m, a % m;
    assert a == m * q + r;
    assert r == (k - q) * m;
    SmallMultiple(k - q, m);
  }

  lemma ModWitness(a: int, m: int) returns (k: int)
    requires m > 0 && a % m == 0
    ensures a == k * m
  {
    k := a / m;
  }

  lemma EqIntro(a: int, b: int, k: int, m: int)
    requires m > 0 && a == b + k * m
    ensures Eq(a, b, m)
  {
    ModZero(a - b, k, m);
  }

  lemma EqElim(a: int, b: int, m: int) returns (k: int)
    requires m > 0 && Eq(a, b, m)
    ensures a == b + k * m
  {
    k := ModWitness(a - b, m);
  }

  lemma PositiveQuotient(n: int, f: int)
    requires n > 0 && f > 1 && n % f == 0
    ensures n == n / f * f && 0 < n / f < n
  {
    var k := n / f;
    assert n == k * f;
    if k <= 0 { MulMono(k, 0, f); }
    MulMono(2, f, k);
  }

  // Linear combinations of multiples of m are multiples of m.
  lemma Combine(c: int, d: int, m: int)
    requires m > 0 && d % m == 0
    ensures (c * d) % m == 0
  {
    var k := ModWitness(d, m);
    assert c * d == (c * k) * m;
    ModZero(c * d, c * k, m);
  }

  lemma Combine2(c1: int, d1: int, c2: int, d2: int, m: int)
    requires m > 0 && d1 % m == 0 && d2 % m == 0
    ensures (c1 * d1 + c2 * d2) % m == 0
  {
    var k1 := ModWitness(d1, m);
    var k2 := ModWitness(d2, m);
    assert c1 * d1 + c2 * d2 == (c1 * k1 + c2 * k2) * m;
    ModZero(c1 * d1 + c2 * d2, c1 * k1 + c2 * k2, m);
  }

  lemma Combine3(c1: int, d1: int, c2: int, d2: int, c3: int, d3: int, m: int)
    requires m > 0 && d1 % m == 0 && d2 % m == 0 && d3 % m == 0
    ensures (c1 * d1 + c2 * d2 + c3 * d3) % m == 0
  {
    Combine2(c1, d1, c2, d2, m);
    Combine2(1, c1 * d1 + c2 * d2, c3, d3, m);
    assert 1 * (c1 * d1 + c2 * d2) == c1 * d1 + c2 * d2;
  }

  lemma EqRefl(a: int, m: int)
    requires m > 0
    ensures Eq(a, a, m)
  {
    ModZero(0, 0, m);
  }

  lemma EqSym(a: int, b: int, m: int)
    requires m > 0 && Eq(a, b, m)
    ensures Eq(b, a, m)
  {
    Combine(-1, a - b, m);
    assert -1 * (a - b) == b - a;
  }

  lemma EqTrans(a: int, b: int, c: int, m: int)
    requires m > 0 && Eq(a, b, m) && Eq(b, c, m)
    ensures Eq(a, c, m)
  {
    Combine2(1, a - b, 1, b - c, m);
    assert 1 * (a - b) + 1 * (b - c) == a - c;
  }

  lemma EqAdd(a: int, b: int, c: int, d: int, m: int)
    requires m > 0 && Eq(a, b, m) && Eq(c, d, m)
    ensures Eq(a + c, b + d, m) && Eq(a - c, b - d, m)
  {
    Combine2(1, a - b, 1, c - d, m);
    Combine2(1, a - b, -1, c - d, m);
    assert 1 * (a - b) + 1 * (c - d) == (a + c) - (b + d);
    assert 1 * (a - b) + -1 * (c - d) == (a - c) - (b - d);
  }

  lemma EqMul(a: int, b: int, c: int, d: int, m: int)
    requires m > 0 && Eq(a, b, m) && Eq(c, d, m)
    ensures Eq(a * c, b * d, m)
  {
    Combine2(c, a - b, b, c - d, m);
    assert c * (a - b) + b * (c - d) == a * c - b * d;
  }

  // Two residues below m that are congruent are equal.
  lemma EqSmall(a: int, b: int, m: int)
    requires m > 0 && 0 <= a < m && 0 <= b < m && Eq(a, b, m)
    ensures a == b
  {
    var k := EqElim(a, b, m);
    SmallMultiple(k, m);
  }

  lemma SmallMod(a: int, q: int)
    requires 0 <= a < q
    ensures a % q == a
  {}

  lemma TimesAssoc(a: int, b: int, c: int)
    ensures (a * b) * c == a * (b * c)
  {}

  lemma EqMod(a: int, m: int)
    requires m > 0
    ensures 0 <= a % m < m && Eq(a % m, a, m)
  {
    EqIntro(a % m, a, -(a / m), m);
  }

  lemma EqIffMod(a: int, b: int, m: int)
    requires m > 0
    ensures Eq(a, b, m) <==> a % m == b % m
  {
    EqMod(a, m);
    EqMod(b, m);
    if Eq(a, b, m) {
      EqTrans(a % m, a, b, m);
      EqSym(b % m, b, m);
      EqTrans(a % m, b, b % m, m);
      EqSmall(a % m, b % m, m);
    }
    if a % m == b % m {
      EqSym(a % m, a, m);
      EqTrans(a, b % m, b, m);
    }
  }

  // ---------- primes and inverses ----------

  predicate Prime(p: int) {
    p >= 2 && forall d :: 1 < d < p ==> p % d != 0
  }

  lemma PrimeBig(p: int)
    requires Prime(p)
    ensures p > 1
  {}

  // Extended Euclid: what mpz_gcdext and mpz_invert provide.
  function Gcdext(a: nat, b: nat): (r: (nat, int, int))
    ensures r.0 == r.1 * a + r.2 * b
    ensures a > 0 || b > 0 ==> r.0 > 0
    ensures r.0 > 0 ==> a % r.0 == 0 && b % r.0 == 0
    decreases b
  {
    if b == 0 then
      ModSelf(a);
      (a, 1, 0)
    else
      var (g, s, t) := Gcdext(b, a % b);
      GcdStep(a, b, g, s, t);
      (g, t, s - t * (a / b))
  }

  lemma ModSelf(a: nat)
    ensures a > 0 ==> a % a == 0 && 0 % a == 0
  {
    if a > 0 { ModZero(a, 1, a); ModZero(0, 0, a); }
  }

  lemma GcdStep(a: nat, b: nat, g: nat, s: int, t: int)
    requires b > 0 && g > 0 && g == s * b + t * (a % b)
    requires b % g == 0 && (a % b) % g == 0
    ensures a % g == 0 && g == t * a + (s - t * (a / b)) * b
  {
    var q := a / b;
    assert a == b * q + a % b;
    Combine2(q, b, 1, a % b, g);
    assert q * b + 1 * (a % b) == a;
    assert t * (a % b) == t * a - t * (b * q);
    assert (s - t * q) * b == s * b - t * (b * q);
  }

  // mpz_invert: an inverse of x modulo m whenever gcd(x, m) = 1, some residue otherwise.
  function Inv(x: int, m: int): (i: int)
    requires m > 0
    ensures 0 <= i < m
  {
    Gcdext(x % m, m).1 % m
  }

  lemma InvCoprime(x: int, m: int, s: int, t: int)
    requires m > 1 && s * x + t * m == 1
    ensures Eq(x * Inv(x, m), 1, m)
  {
    var (g, u, v) := Gcdext(x % m, m);
    assert x == m * (x / m) + x % m;
    var kx := ModWitness(x % m, g);
    var km := ModWitness(m, g);
    assert g * (s * (km * (x / m) + kx) + t * km) == 1 by {
      assert g * (s * (km * (x / m) + kx) + t * km) == s * ((km * g) * (x / m) + kx * g) + t * (km * g);
    }
    UnitIsOne(g, s * (km * (x / m) + kx) + t * km);
    EqMod(u, m);
    var k := EqElim(u % m, u, m);
    InvIdentity(x, x / m, x % m, m, u, k, v, u % m);
    EqIntro(x * (u % m), 1, (x / m) * (u + k * m) + (x % m) * k - v, m);
  }

  lemma InvIdentity(x: int, q: int, r: int, m: int, u: int, k: int, v: int, w: int)
    requires x == m * q + r && u * r + v * m == 1 && w == u + k * m
    ensures x * w == 1 + (q * (u + k * m) + r * k - v) * m
  {
    assert (m * q + r) * (u + k * m) == u * r + m * (q * (u + k * m) + r * k);
  }

  lemma UnitIsOne(a: int, b: int)
    requires a > 0 && a * b == 1
    ensures a == 1
  {
    if b <= 0 { MulMono(b, 0, a); }
    if a >= 2 { MulMono(2, a, b); }
  }

  lemma PrimeBezout(x: int, p: int) returns (s: int, t: int)
    requires Prime(p) && !Eq(x, 0, p)
    ensures s * x + t * p == 1
  {
    var (g, u, v) := Gcdext(x % p, p);
    assert x == p * (x / p) + x % p;
    if g > p {
      var k := ModWitness(p, g);
      if k >= 1 { MulMono(1, k, g); } else { MulMono(k, 0, g); }
    }
    if g == p {
      var k := ModWitness(x % p, p);
      SmallMultiple(k, p);
    }
    assert g == 1;
    s, t := u, v - u * (x / p);
    assert u * x == u * (p * (x / p) + x % p) == u * (x % p) + p * (u * (x / p));
  }

  // The least divisor above 1 is prime.
  lemma LeastFactor(n: int) returns (g: int)
    requires n >= 2
    ensures Prime(g) && g <= n && n % g == 0
  {
    g := 2;
    ModZero(n, 1, n);
    while n % g != 0
      invariant 2 <= g <= n && forall e :: 2 <= e < g ==> n % e != 0
      decreases n - g
    {
      g := g + 1;
    }
    forall e | 1 < e < g ensures g % e != 0 {
      if g % e == 0 {
        var k := ModWitness(g, e);
        var m := ModWitness(n, g);
        assert n == (m * k) * e;
        ModZero(n, m * k, e);
      }
    }
  }

  lemma NotDividesOne(g: int)
    requires g >= 2
    ensures 1 % g != 0
  {
    if 1 % g == 0 {
      var k := ModWitness(1, g);
      UnitIsOne(g, k) by { assert g * k == k * g; }
    }
  }

  // In a prime field every nonzero element has the inverse Inv gives.
  lemma InvPrime(x: int, p: int)
    requires Prime(p) && !Eq(x, 0, p)
    ensures Eq(x * Inv(x, p), 1, p)
  {
    var s, t := PrimeBezout(x, p);
    InvCoprime(x, p, s, t);
  }

  // No zero divisors modulo a prime.
  lemma NoZeroDivisors(a: int, b: int, p: int)
    requires Prime(p) && Eq(a * b, 0, p)
    ensures Eq(a, 0, p) || Eq(b, 0, p)
  {
    if !Eq(a, 0, p) {
      var s, t := PrimeBezout(a, p);
      assert b == s * (a * b) + (t * b) * p by {
        assert s * (a * b) + (t * b) * p == (s * a + t * p) * b;
      }
      ModZero(p, 1, p);
      Combine2(s, a * b, t * b, p, p);
    }
  }

  // Cancellation of a nonzero factor modulo a prime.
  lemma Cancel(c: int, a: int, b: int, p: int)
    requires Prime(p) && !Eq(c, 0, p) && Eq(c * a, c * b, p)
    ensures Eq(a, b, p)
  {
    assert c * a - c * b == c * (a - b);
    NoZeroDivisors(c, a - b, p);
  }

  lemma NonzeroProduct(a: int, b: int, p: int)
    requires Prime(p) && !Eq(a, 0, p) && !Eq(b, 0, p)
    ensures !Eq(a * b, 0, p)
  {
    if Eq(a * b, 0, p) { NoZeroDivisors(a, b, p); }
  }

  lemma TwoNonzero(x: int, q: int)
    requires Prime(q) && q % 2 == 1 && !Eq(x, 0, q)
    ensures !Eq(2 * x, 0, q)
  {
    if Eq(2, 0, q) { EqSmall(2, 0, q); }
    NonzeroProduct(2, x, q);
  }

  lemma SlopeIdentity(n: int, d: int, i: int)
    ensures n * (d * i - 1) == d * (n * i) - n
  {}

  // Equal elements have equal inverses, and equal elements are zero together.
  lemma NonzeroCong(a: int, b: int, m: int)
    requires m > 0 && Eq(a, b, m)
    ensures Eq(a, 0, m) <==> Eq(b, 0, m)
  {
    if Eq(a, 0, m) { EqSym(a, b, m); EqTrans(b, a, 0, m); }
    if Eq(b, 0, m) { EqTrans(a, b, 0, m); }
  }

  // a/b = c/d when the cross products agree.
  lemma QuotientEq(a: int, b: int, c: int, d: int, p: int)
    requires Prime(p) && !Eq(b, 0, p) && !Eq(d, 0, p) && Eq(a * d, c * b, p)
    ensures Eq(a * Inv(b, p), c * Inv(d, p), p)
  {
    InvPrime(b, p);
    InvPrime(d, p);
    var i, j := Inv(b, p), Inv(d, p);
    Combine3(i * j, a * d - c * b, -(a * i), d * j - 1, c * j, b * i - 1, p);
    QuotientIdentity(a, b, c, d, i, j);
  }

  lemma QuotientIdentity(a: int, b: int, c: int, d: int, i: int, j: int)
    ensures (i * j) * (a * d - c * b) + -(a * i) * (d * j - 1) + (c * j) * (b * i - 1) == a * i - c * j
  {}
}
