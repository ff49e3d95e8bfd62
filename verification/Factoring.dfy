/** trial_divide (arith/poly.c): factoring by trial division, up to a limit. */
module Factoring {
  import opened Options
  import opened Modular
  import opened Residues
  import opened Garner
  import opened SmoothNumbers
  import Generators
  import Mnt

  // fac_0^mul_0 ... fac_(n-1)^mul_(n-1)
  function PowerProduct(fac: seq<nat>, mul: seq<nat>, n: nat): int
    requires n <= |fac| && n <= |mul|
  {
    if n == 0 then 1 else PowerProduct(fac, mul, n - 1) * Pow(fac[n - 1], mul[n - 1])
  }

  lemma {:induction false} PowerProductSame(fac: seq<nat>, mul: seq<nat>, f: nat, m: nat, n: nat)
    requires |fac| == |mul| && n <= |fac|
    ensures PowerProduct(fac + [f], mul + [m], n) == PowerProduct(fac, mul, n)
  {
    if n > 0 { PowerProductSame(fac, mul, f, m, n - 1); }
  }

  lemma PowerProductNext(fac: seq<nat>, mul: seq<nat>, f: nat, m: nat)
    requires |fac| == |mul|
    ensures PowerProduct(fac + [f], mul + [m], |fac| + 1) == PowerProduct(fac, mul, |fac|) * Pow(f, m)
  {
    PowerProductSame(fac, mul, f, m, |fac|);
  }

  // A factor is prime, or the cofactor that is left past the limit, whose primes all exceed it.
  ghost predicate FactorOk(f: nat, last: bool, limit: Option<nat>) {
    f >= 2 && (Prime(f) || (last && limit.Some? && Mnt.Rough(f, limit.value + 1)))
  }

  ghost predicate Factored(n: nat, fac: seq<nat>, mul: seq<nat>, limit: Option<nat>) {
    && |fac| == |mul| && n == PowerProduct(fac, mul, |fac|)
    && (forall i :: 0 <= i < |fac| ==> mul[i] >= 1 && FactorOk(fac[i], i == |fac| - 1, limit))
    && (forall i, j :: 0 <= i < j < |fac| ==> fac[i] < fac[j])
  }

  // The division so far: m is left, without primes below p, and the factors found are primes below p.
  ghost predicate Divided(n: nat, m: nat, p: nat, fac: seq<nat>, mul: seq<nat>) {
    && |fac| == |mul| && m >= 1 && n == m * PowerProduct(fac, mul, |fac|) && Mnt.Rough(m, p)
    && (forall i :: 0 <= i < |fac| ==> mul[i] >= 1 && fac[i] >= 2 && Prime(fac[i]) && fac[i] < p)
    && (forall i, j :: 0 <= i < j < |fac| ==> fac[i] < fac[j])
  }

  // do ... while p divides m
  method DivideFactor(m: nat, p: nat) returns (rest: nat, mul: nat)
    requires m > 0 && p >= 2 && m % p == 0
    ensures rest == Rest(m, p) && mul == Multiplicity(m, p) >= 1
  {
    PositiveQuotient(m, p);
    var e;
    e, rest := DivideOut(m / p, p);
    mul := e + 1;
  }

  // What is left of a number without primes below p has none either.
  lemma RestRough(m: nat, p: nat)
    requires m > 0 && p >= 2 && Mnt.Rough(m, p)
    ensures Mnt.Rough(Rest(m, p), p)
  {
    hide Rest, Multiplicity, Pow;
    RestTimes(m, p);
    RoughPart(Rest(m, p), Pow(p, Multiplicity(m, p)), m, p);
  }

  lemma RoughPart(w: int, v: int, m: int, p: int)
    requires m == w * v && Mnt.Rough(m, p)
    ensures Mnt.Rough(w, p)
  {
    forall e {:trigger Prime(e)} | Prime(e) && e < p ensures w % e != 0 {
      assert m == v * w;
      if w % e == 0 { Combine(v, w, e); }
    }
  }

  // A number above 1 is at least its least prime.
  lemma AtLeast(m: nat, p: nat)
    requires m >= 2 && Mnt.Rough(m, p)
    ensures m >= p
  {
    var g := LeastFactor(m);
  }

  lemma SelfRest(m: nat)
    requires m >= 2
    ensures m % m == 0 && Rest(m, m) == 1 && Multiplicity(m, m) == 1
  {
    ModZero(m, 1, m);
    PositiveQuotient(m, m);
    assert m / m == 1 by { UnitQuotient(m); }
    SmallMod(1, m);
  }

  lemma UnitQuotient(m: nat)
    requires m >= 2 && m == m / m * m
    ensures m / m == 1
  {
    assert (m / m - 1) * m == 0;
    SmallMultiple(m / m - 1, m);
  }

  // The next prime follows p.
  lemma DividedNext(n: nat, m: nat, p: nat, fac: seq<nat>, mul: seq<nat>, next: nat)
    requires Divided(n, m, p, fac, mul) && Prime(p) && m % p != 0 && next > p && forall e :: p < e < next ==> !Prime(e)
    ensures Divided(n, m, next, fac, mul)
  {
    Mnt.RoughNext(m, p, next);
  }

  // The prime p and its multiplicity join the factors.
  lemma DividedFactor(n: nat, m: nat, p: nat, fac: seq<nat>, mul: seq<nat>, next: nat)
    requires Divided(n, m, p, fac, mul) && Prime(p) && m % p == 0 && next > p && forall e :: p < e < next ==> !Prime(e)
    ensures Divided(n, Rest(m, p), next, fac + [p], mul + [Multiplicity(m, p)])
  {
    hide Pow, Prime, Rest, Multiplicity;
    PrimeBig(p);
    RestRough(m, p);
    RestFacts(m, p);
    Mnt.RoughNext(Rest(m, p), p, next);
    PowerProductNext(fac, mul, p, Multiplicity(m, p));
    RestTimes(m, p);
    SmoothNumbers.Regroup(Rest(m, p), Pow(p, Multiplicity(m, p)), PowerProduct(fac, mul, |fac|));
  }

  lemma RestFacts(m: nat, p: nat)
    requires m > 0 && p >= 2
    ensures Rest(m, p) > 0 && Rest(m, p) % p != 0 && (m % p == 0 ==> Multiplicity(m, p) >= 1)
  {}

  // The whole of m joins the factors, as a prime or past the limit.
  lemma LastFactor(n: nat, m: nat, p: nat, fac: seq<nat>, mul: seq<nat>, limit: Option<nat>)
    requires Divided(n, m, p, fac, mul) && m >= 2 && (Prime(m) || (limit.Some? && p > limit.value))
    ensures Factored(n, fac + [m], mul + [1], limit)
  {
    hide Prime;
    AtLeast(m, p);
    PowerProductNext(fac, mul, m, 1);
    assert Pow(m, 1) == m * Pow(m, 0);
    assert m * PowerProduct(fac, mul, |fac|) == PowerProduct(fac, mul, |fac|) * m;
  }

  lemma AllDivided(n: nat, p: nat, fac: seq<nat>, mul: seq<nat>, limit: Option<nat>)
    requires Divided(n, 1, p, fac, mul)
    ensures Factored(n, fac, mul, limit)
  {}

  // Either everything is divided out, or m is left and p is the next prime to try.
  ghost predicate Progress(n: nat, m: nat, p: nat, fac: seq<nat>, mul: seq<nat>, limit: Option<nat>) {
    if m == 1 then Factored(n, fac, mul, limit) else Prime(p) && Divided(n, m, p, fac, mul)
  }

  // One round with p: the last one, when p was replaced by m, or one more prime.
  lemma Round(n: nat, m: nat, p0: nat, p: nat, fac: seq<nat>, mul: seq<nat>, next: nat, limit: Option<nat>)
    requires m >= 2 && Prime(p0) && Divided(n, m, p0, fac, mul) && Prime(next) && next > p && forall e :: p < e < next ==> !Prime(e)
    requires (p == m && (Prime(m) || (limit.Some? && p0 > limit.value))) || (p == p0 && !Prime(m))
    ensures p >= 2 && (if m % p == 0 then Progress(n, Rest(m, p), next, fac + [p], mul + [Multiplicity(m, p)], limit)
                       else Progress(n, m, next, fac, mul, limit))
  {
    hide Prime, Divided, Factored, Rest, Multiplicity;
    PrimeBig(p0);
    if p == m {
      SelfRest(m);
      LastFactor(n, m, p0, fac, mul, limit);
    } else if m % p == 0 {
      DividedFactor(n, m, p, fac, mul, next);
      if Rest(m, p) == 1 { AllDivided(n, next, fac + [p], mul + [Multiplicity(m, p)], limit); }
    } else {
      DividedNext(n, m, p, fac, mul, next);
    }
  }

  lemma Left(n: nat, m: nat, p: nat, fac: seq<nat>, mul: seq<nat>)
    requires m >= 2 && Divided(n, m, p, fac, mul)
    ensures p <= m <= n
  {
    AtLeast(m, p);
    if n < m { MulMono(PowerProduct(fac, mul, |fac|), 0, m); ProductAtLeastOne(fac, mul, |fac|); }
  }

  lemma {:induction false} ProductAtLeastOne(fac: seq<nat>, mul: seq<nat>, n: nat)
    requires n <= |fac| && n <= |mul| && forall i :: 0 <= i < |fac| ==> fac[i] >= 2
    ensures PowerProduct(fac, mul, n) >= 1
  {
    if n > 0 {
      ProductAtLeastOne(fac, mul, n - 1);
      PowAtLeastOne(fac[n - 1], mul[n - 1]);
      MulMono(1, Pow(fac[n - 1], mul[n - 1]), PowerProduct(fac, mul, n - 1));
    }
  }

  lemma {:induction false} PowAtLeastOne(a: nat, n: nat)
    requires a >= 1
    ensures Pow(a, n) >= 1
  {
    if n > 0 {
      PowAtLeastOne(a, n - 1);
      MulMono(1, a, Pow(a, n - 1));
    }
  }

  /** trial_divide: the factors in increasing order with their multiplicities. They are the prime factors, but
      for a last one that may be a composite whose primes all exceed the limit. */
  method TrialFactor(n: nat, limit: Option<nat>) returns (fac: seq<nat>, mul: seq<nat>)
    requires n >= 1
    ensures Factored(n, fac, mul, limit)
  {
    hide Prime, Divided, Factored, Rest, Multiplicity;
    fac, mul := [], [];
    var m, p: nat := n, 2;
    Begin(n, limit);
    while m != 1
      invariant m >= 1 && Progress(n, m, p, fac, mul, limit)
      decreases m != 1, n - p
    {
      ghost var m0, p0, fac0, mul0 := m, p, fac, mul;
      Left(n, m, p, fac, mul);
      PrimeBig(p);
      if Prime(m) { p := m; }
      if limit.Some? && p > limit.value { p := m; }
      RestFacts(m, p);
      if m % p == 0 {
        var rest, k := DivideFactor(m, p);
        fac, mul := fac + [p], mul + [k];
        m := rest;
      }
      ghost var used := p;
      p := Mnt.NextPrime(p);
      Round(n, m0, p0, used, fac0, mul0, p, limit);
    }
  }

  lemma Begin(n: nat, limit: Option<nat>)
    requires n >= 1
    ensures Progress(n, n, 2, [], [], limit)
  {}

  // ---------- the factors of q - 1 ----------

  lemma {:induction false} SquarefreeProduct(fac: seq<nat>, mul: seq<nat>, n: nat)
    requires |fac| == |mul| && n <= |fac| && forall i :: 0 <= i < |mul| ==> mul[i] == 1
    ensures PowerProduct(fac, mul, n) == Product(fac, n)
  {
    if n > 0 {
      SquarefreeProduct(fac, mul, n - 1);
      assert Pow(fac[n - 1], 1) == fac[n - 1] * Pow(fac[n - 1], 0);
    }
  }

  /** What index_calculus_dlog asks for: without multiplicities, and with a prime cofactor, the factors are the
      distinct primes whose product is the number. */
  lemma {:induction false} SquarefreeFactors(n: nat, fac: seq<nat>, mul: seq<nat>, limit: Option<nat>)
    requires Factored(n, fac, mul, limit) && (forall i :: 0 <= i < |mul| ==> mul[i] == 1) && (|fac| > 0 ==> Prime(fac[|fac| - 1]))
    ensures Generators.Factors(fac, n)
  {
    hide Prime, Pow;
    SquarefreeProduct(fac, mul, |fac|);
  }
}
