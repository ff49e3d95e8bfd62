/** Garner's algorithm (arith/indexcalculus.c): recombining residues modulo coprime moduli. */
module Garner {
  import opened Modular

  ghost predicate Coprime(a: int, b: int) { exists s, t :: Times(s, a) + Times(t, b) == 1 }

  ghost predicate PairwiseCoprime(m: seq<int>) {
    && (forall i :: 0 <= i < |m| ==> m[i] > 1)
    && (forall i, j :: 0 <= i < j < |m| ==> Coprime(m[i], m[j]))
  }

  function Product(m: seq<int>, n: nat): int
    requires n <= |m|
  {
    if n == 0 then 1 else Product(m, n - 1) * m[n - 1]
  }

  lemma {:induction false} ProductPositive(m: seq<int>, n: nat)
    requires n <= |m| && forall i :: 0 <= i < |m| ==> m[i] > 1
    ensures Product(m, n) >= 1
  {
    if n > 0 {
      ProductPositive(m, n - 1);
      MulMono(1, m[n - 1], Product(m, n - 1));
    }
  }

  lemma {:induction false} FactorDivides(m: seq<int>, n: nat, i: nat)
    requires i < n <= |m| && m[i] > 0
    ensures Product(m, n) % m[i] == 0
  {
    if i == n - 1 {
      ModZero(Product(m, n), Product(m, n - 1), m[i]);
    } else {
      FactorDivides(m, n - 1, i);
      Combine(m[n - 1], Product(m, n - 1), m[i]);
      assert m[n - 1] * Product(m, n - 1) == Product(m, n);
    }
  }

  lemma InverseOfCoprime(a: int, b: int)
    requires b > 1 && Coprime(a, b)
    ensures Eq(a * Inv(a, b), 1, b)
  {
    var s, t :| Times(s, a) + Times(t, b) == 1;
    InvCoprime(a, b, s, t);
  }

  // c = 1/(m_0 ... m_(j-1)) modulo q, one factor more
  lemma InverseStep(c: int, u: int, prod: int, f: int, q: int)
    requires q > 1 && Eq(c * prod, 1, q) && Eq(f * u, 1, q)
    ensures Eq((c * u) % q * (prod * f), 1, q)
  {
    EqMod(c * u, q);
    EqMul(c * prod, 1, f * u, 1, q);
    EqRefl(prod * f, q);
    EqMul((c * u) % q, c * u, prod * f, prod * f, q);
    Regroup(c, u, prod, f);
    EqTrans((c * u) % q * (prod * f), (c * u) * (prod * f), 1, q);
  }

  lemma Regroup(c: int, u: int, p: int, f: int)
    ensures (c * u) * (p * f) == (c * p) * (f * u)
  {}

  // The first loop of CRT for one modulus.
  method PrefixInverse(m: seq<int>, i: nat) returns (c: int)
    requires i < |m| && PairwiseCoprime(m)
    ensures Eq(c * Product(m, i), 1, m[i])
  {
    hide Inv, Eq, Coprime;
    c := 1;
    EqOne(m[i]);
    for j := 0 to i
      invariant Eq(c * Product(m, j), 1, m[i])
    {
      InverseOfCoprime(m[j], m[i]);
      var u := Inv(m[j], m[i]);
      InverseStep(c, u, Product(m, j), m[j], m[i]);
      c := c * u;
      c := c % m[i];
    }
  }

  lemma EqOne(q: int)
    requires q > 0
    ensures Eq(1 * 1, 1, q)
  {
    EqRefl(1, q);
  }

  // Adding u (m_0 ... m_(i-1)) corrects residue i and keeps the ones before.
  lemma DigitCorrects(x: int, v: int, c: int, u: int, prod: int, q: int)
    requires q > 1 && Eq(c * prod, 1, q) && u == ((v - x) * c) % q
    ensures Eq(x + u * prod, v, q)
  {
    EqMod((v - x) * c, q);
    Combine2(prod, u - (v - x) * c, v - x, c * prod - 1, q);
    DigitIdentity(x, v, c, u, prod);
  }

  lemma DigitIdentity(x: int, v: int, c: int, u: int, prod: int)
    ensures prod * (u - (v - x) * c) + (v - x) * (c * prod - 1) == x + u * prod - v
  {}

  lemma DigitKeeps(x: int, v: int, w: int, prod: int, q: int)
    requires q > 1 && Eq(x, v, q) && prod % q == 0
    ensures Eq(x + w * prod, v, q)
  {
    Combine2(1, x - v, w, prod, q);
    assert 1 * (x - v) + w * prod == x + w * prod - v;
  }

  lemma DigitBound(x: int, u: int, prod: int, q: int)
    requires 0 <= x < prod && 0 <= u < q
    ensures 0 <= x + u * prod < prod * q
  {
    MulMono(u, q - 1, prod);
    assert (q - 1) * prod == prod * q - prod;
    MulMono(0, u, prod);
  }

  /** CRT: the result has every residue it was given and lies below the product of the moduli. */
  method Crt(v: seq<int>, m: seq<int>) returns (x: int)
    requires |v| == |m| >= 1 && PairwiseCoprime(m) && 0 <= v[0] < m[0]
    ensures 0 <= x < Product(m, |m|)
    ensures forall i :: 0 <= i < |m| ==> Eq(x, v[i], m[i])
  {
    hide Eq, Coprime;
    x := v[0];
    EqRefl(x, m[0]);
    assert Product(m, 1) == Product(m, 0) * m[0] == m[0];
    for i := 1 to |m|
      invariant 0 <= x < Product(m, i)
      invariant forall k :: 0 <= k < i ==> Eq(x, v[k], m[k])
    {
      var c := PrefixInverse(m, i);
      var u := v[i] - x;
      u := u * c;
      u := u % m[i];
      ghost var digit := u;
      for j := 0 to i
        invariant u == digit * Product(m, j)
      {
        assert digit * Product(m, j) * m[j] == digit * Product(m, j + 1) by { TimesAssoc(digit, Product(m, j), m[j]); }
        u := u * m[j];
      }
      DigitBound(x, digit, Product(m, i), m[i]);
      DigitCorrects(x, v[i], c, digit, Product(m, i), m[i]);
      forall k | 0 <= k < i ensures Eq(x + digit * Product(m, i), v[k], m[k]) {
        FactorDivides(m, i, k);
        DigitKeeps(x, v[k], digit, Product(m, i), m[k]);
      }
      x := x + u;
    }
  }

  // ---------- uniqueness ----------

  lemma {:induction false} CoprimeProduct(m: seq<int>, n: nat, i: nat)
    requires n <= i < |m| && PairwiseCoprime(m)
    ensures Coprime(Product(m, n), m[i])
  {
    hide PairwiseCoprime;
    if n == 0 {
      assert Times(1, 1) + Times(0, m[i]) == 1 by { assert 0 * m[i] == 0; }
    } else {
      CoprimeProduct(m, n - 1, i);
      CoprimePair(m, n - 1, i);
      var s, t :| Times(s, Product(m, n - 1)) + Times(t, m[i]) == 1;
      var s', t' :| Times(s', m[n - 1]) + Times(t', m[i]) == 1;
      var a, b, q := Product(m, n - 1), m[n - 1], m[i];
      BezoutProduct(a, b, q, s, t, s', t');
      assert Times(s * s', a * b) + Times(s * a * t' + t, q) == 1;
    }
  }

  lemma CoprimePair(m: seq<int>, i: nat, j: nat)
    requires i < j < |m| && PairwiseCoprime(m)
    ensures Coprime(m[i], m[j])
  {}

  lemma BezoutProduct(a: int, b: int, q: int, s: int, t: int, s': int, t': int)
    requires s * a + t * q == 1 && s' * b + t' * q == 1
    ensures (s * s') * (a * b) + (s * a * t' + t) * q == 1
  {
    assert (s * s') * (a * b) == (s * a) * (s' * b);
    assert s * a * t' * q == (s * a) * (t' * q);
    assert (s * a) * (s' * b) + (s * a) * (t' * q) == (s * a) * (s' * b + t' * q);
  }

  // Coprime divisors divide together.
  lemma CoprimeDivisors(d: int, a: int, b: int)
    requires a > 0 && b > 0 && d % a == 0 && d % b == 0 && Coprime(a, b)
    ensures d % (a * b) == 0
  {
    var s, t :| Times(s, a) + Times(t, b) == 1;
    var k := ModWitness(d, a);
    var l := ModWitness(d, b);
    MulMono(1, a, b);
    TogetherIdentity(d, a, b, s, t, k, l);
    ModZero(d, s * l + t * k, a * b);
  }

  lemma TogetherIdentity(d: int, a: int, b: int, s: int, t: int, k: int, l: int)
    requires s * a + t * b == 1 && d == k * a && d == l * b
    ensures d == (s * l + t * k) * (a * b)
  {
    assert (s * l + t * k) * (a * b) == (s * a) * (l * b) + (t * b) * (k * a);
    assert (s * a) * d + (t * b) * d == (s * a + t * b) * d;
  }

  /** The residues determine the number below the product of the moduli. */
  lemma {:induction false} CrtUnique(m: seq<int>, x: int, y: int)
    requires PairwiseCoprime(m) && 0 <= x < Product(m, |m|) && 0 <= y < Product(m, |m|)
    requires forall i :: 0 <= i < |m| ==> Eq(x, y, m[i])
    ensures x == y
  {
    ProductPositive(m, |m|);
    CongruentModProduct(m, x, y, |m|);
    EqSmall(x, y, Product(m, |m|));
  }

  lemma {:induction false} CongruentModProduct(m: seq<int>, x: int, y: int, n: nat)
    requires PairwiseCoprime(m) && n <= |m| && forall i :: 0 <= i < |m| ==> Eq(x, y, m[i])
    ensures Product(m, n) >= 1 && (x - y) % Product(m, n) == 0
  {
    ProductPositive(m, n);
    if n == 0 {
      ModZero(x - y, x - y, 1);
    } else {
      CongruentModProduct(m, x, y, n - 1);
      CoprimeProduct(m, n - 1, n - 1);
      CoprimeDivisors(x - y, Product(m, n - 1), m[n - 1]);
    }
  }
}
