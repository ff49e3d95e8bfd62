/** Logarithms of smooth numbers: step 2 of the index calculus (arith/indexcalculus.c). */
module DiscreteLog {
  import opened Modular
  import opened Residues
  import opened Generators
  import opened SmoothNumbers

  function Sum(rel: seq<nat>, ind: seq<nat>, n: nat): (t: nat)
    requires n <= |rel| && n <= |ind|
  {
    if n == 0 then 0 else Sum(rel, ind, n - 1) + rel[n - 1] * ind[n - 1]
  }

  // ind holds the logarithms of the factor base.
  ghost predicate Logs(g: int, primes: seq<int>, ind: seq<nat>, q: int)
    requires q > 0
  {
    |ind| == |primes| && forall i :: 0 <= i < |primes| ==> LogIs(g, primes[i], ind[i], q)
  }

  // ... of the primes that occur in rel
  ghost predicate LogsOf(g: int, primes: seq<int>, ind: seq<nat>, rel: seq<nat>, q: int)
    requires q > 0
  {
    |ind| == |primes| == |rel| && forall i :: 0 <= i < |primes| ==> rel[i] == 0 || LogIs(g, primes[i], ind[i], q)
  }

  /** The logarithm of a product over the factor base is the sum of logarithms. */
  lemma {:induction false} LogOfProduct(g: int, primes: seq<int>, ind: seq<nat>, rel: seq<nat>, n: nat, q: int)
    requires q > 0 && LogsOf(g, primes, ind, rel, q) && n <= |primes|
    ensures Eq(Pow(g, Sum(rel, ind, n)), Factored(primes, rel, n), q)
  {
    hide Pow, Eq;
    if n == 0 {
      PowSucc(g, 0);
      EqRefl(1, q);
    } else {
      LogOfProduct(g, primes, ind, rel, n - 1, q);
      var k := n - 1;
      PowAdd(g, Sum(rel, ind, k), rel[k] * ind[k]);
      LogOfPower(g, primes[k], ind[k], rel[k], q);
      EqMul(Pow(g, Sum(rel, ind, k)), Factored(primes, rel, k), Pow(g, rel[k] * ind[k]), Pow(primes[k], rel[k]), q);
    }
  }

  lemma LogOfPower(g: int, h: int, e: nat, n: nat, q: int)
    requires q > 0 && (n == 0 || LogIs(g, h, e, q))
    ensures Eq(Pow(g, n * e), Pow(h, n), q)
  {
    hide Pow, Eq;
    if n == 0 {
      assert n * e == 0;
      PowSucc(g, 0);
      PowSucc(h, 0);
      EqRefl(1, q);
    } else {
      PowPow(g, e, n);
      assert e * n == n * e;
      PowCong(Pow(g, e), h, n, q);
    }
  }

  // x + s and the sum are congruent modulo q - 1, so g^x g^s = h g^s.
  lemma LogCorrect(g: int, h: int, x: nat, s: nat, t: nat, q: int)
    requires Prime(q) && q > 2 && !Eq(g, 0, q) && Eq(Pow(g, t), h * Pow(g, s), q) && x == (t - s) % (q - 1)
    ensures Eq(Pow(g, x), h, q)
  {
    hide Pow, Prime;
    hide Eq;
    PeriodOfSum(t, s, x, q - 1);
    PowPeriod(g, t, x + s, q);
    EqTrans(Pow(g, x + s), Pow(g, t), h * Pow(g, s), q);
    PowAdd(g, x, s);
    PowNonzero(g, s, q);
    assert Pow(g, x) * Pow(g, s) == Pow(g, s) * Pow(g, x) && h * Pow(g, s) == Pow(g, s) * h;
    Cancel(Pow(g, s), Pow(g, x), h, q);
  }

  lemma PeriodOfSum(t: int, s: int, x: int, m: int)
    requires m > 0 && x == (t - s) % m
    ensures (x + s - t) % m == 0
  {
    EqMod(t - s, m);
    assert x - (t - s) == x + s - t;
  }

  // h g^s, as the loop keeps it
  function Shifted(g: int, h: int, s: nat, q: int): (z: nat)
    requires q > 0
    ensures z < q
  {
    (h * Pow(g, s)) % q
  }

  lemma ShiftedNext(g: int, h: int, s: nat, z: int, q: int)
    requires q > 0 && Eq(z, h * Pow(g, s), q)
    ensures (z * g) % q == Shifted(g, h, s + 1, q)
  {
    hide Eq;
    EqRefl(g, q);
    EqMul(z, h * Pow(g, s), g, g, q);
    PowSucc(g, s);
    assert h * Pow(g, s) * g == h * (g * Pow(g, s));
    EqIffMod(z * g, h * Pow(g, s + 1), q);
  }

  lemma ShiftedUnit(g: int, h: int, s: nat, q: int)
    requires Prime(q) && q > 0 && !Eq(g, 0, q) && !Eq(h, 0, q)
    ensures 0 < Shifted(g, h, s, q) < q && Eq(Shifted(g, h, s, q), h * Pow(g, s), q)
  {
    hide Pow;
    PowNonzero(g, s, q);
    NonzeroProduct(h, Pow(g, s), q);
    EqMod(h * Pow(g, s), q);
  }

  // The exponent read off a factorization of h g^s.
  method ReadLog(g: int, ghost h: int, ghost z: nat, s: nat, rel: seq<nat>, primes: seq<int>, ind: seq<nat>, q: int) returns (x: nat)
    requires Prime(q) && q > 2 && !Eq(g, 0, q) && Eq(z, h * Pow(g, s), q) && |rel| == |primes| && z == Factored(primes, rel, |primes|)
    requires Logs(g, primes, ind, q)
    ensures x < q - 1 && LogIs(g, h, x, q)
  {
    hide Pow, Eq, Prime, Sum, Factored;
    var t := 0;
    SumZero(rel, ind);
    for i := 0 to |primes|
      invariant t == Sum(rel, ind, i)
    {
      SumStep(rel, ind, i);
      var w := rel[i] * ind[i];
      t := t + w;
    }
    x := (t - s) % (q - 1);
    LogOfProduct(g, primes, ind, rel, |primes|, q);
    EqTrans(Pow(g, t), z, h * Pow(g, s), q);
    LogCorrect(g, h, x, s, t, q);
  }

  /** index_calculus_step2, for so many trials: the first h g^s that is a product of primes of the base
      gives the logarithm of h. */
  method Step2(g: int, h: int, primes: seq<int>, ind: seq<nat>, q: int, tries: nat) returns (found: bool, x: nat)
    requires Prime(q) && q > 2 && !Eq(g, 0, q) && !Eq(h, 0, q) && Base(primes) && Logs(g, primes, ind, q)
    ensures found ==> x < q - 1 && LogIs(g, h, x, q)
    ensures found <==> exists s: nat :: 1 <= s <= tries && Trial(Shifted(g, h, s, q), primes, |primes|).rest == 1
  {
    hide Pow, Eq, Prime, Sum, Shifted, Trial, Factored;
    var z := h;
    PowSucc(g, 0);
    assert h * Pow(g, 0) == h;
    EqRefl(h, q);
    for s: nat := 1 to tries + 1
      invariant Eq(z, h * Pow(g, s - 1), q)
      invariant forall k: nat :: 1 <= k < s ==> Trial(Shifted(g, h, k, q), primes, |primes|).rest != 1
    {
      ShiftedNext(g, h, s - 1, z, q);
      ShiftedUnit(g, h, s, q);
      z := z * g;
      z := z % q;
      var rest, rel := TrialDivide(z, primes);
      if rest == 1 {
        TrialProduct(z, primes, |primes|);
        assert 1 * Factored(primes, rel, |primes|) == Factored(primes, rel, |primes|);
        x := ReadLog(g, h, z, s, rel, primes, ind, q);
        found := true;
        return;
      }
    }
    found, x := false, 0;
  }

  lemma SumStep(rel: seq<nat>, ind: seq<nat>, i: nat)
    requires i < |rel| && i < |ind|
    ensures Sum(rel, ind, i + 1) == Sum(rel, ind, i) + rel[i] * ind[i]
  {}

  lemma SumZero(rel: seq<nat>, ind: seq<nat>)
    ensures Sum(rel, ind, 0) == 0
  {}
}
