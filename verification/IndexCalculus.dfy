/** The index calculus as a whole (arith/indexcalculus.c): relations between powers of a generator and products
    of small primes, reduced modulo each prime factor of q - 1, give the logarithms of the primes. */
module IndexCalculus {
  import opened Modular
  import opened Residues
  import opened Garner
  import opened Generators
  import opened SmoothNumbers
  import opened DiscreteLog
  import opened Relations
  import opened BackSubstitution

  // ---------- relations ----------

  // g^k is the product of the powers rel of the primes.
  datatype Relation = Relation(k: nat, rel: seq<nat>)

  predicate Holds(g: int, primes: seq<int>, x: Relation, q: int)
    requires q > 0
  {
    |x.rel| == |primes| && Eq(Pow(g, x.k), Factored(primes, x.rel, |primes|), q)
  }

  // The relation modulo one order: r coefficients and the constant
  function ModRel(x: Relation, p: int): (s: seq<int>)
    requires p > 0
    ensures RelOk(s, |x.rel|, p)
  {
    Reduced(x.rel, p) + [x.k % p]
  }

  predicate Shaped(rels: seq<Relation>, r: nat) { forall i :: 0 <= i < |rels| ==> |rels[i].rel| == r }

  lemma ShapedInit(rels: seq<Relation>, r: nat)
    requires Shaped(rels, r) && |rels| > 0
    ensures Shaped(rels[..|rels| - 1], r) && |rels[|rels| - 1].rel| == r
  {}

  function NoRows(r: nat): (rows: seq<seq<int>>)
    ensures |rows| == r && forall i :: 0 <= i < r ==> rows[i] == []
  {
    seq(r, _ => [])
  }

  /** The rows that all relations leave, one after the other. */
  function Run(rels: seq<Relation>, r: nat, p: int): (m: Matrix)
    requires Prime(p) && Shaped(rels, r)
    ensures RowsOk(m.rows, r, p)
  {
    if |rels| == 0 then Matrix(NoRows(r), 0) else
      PrimeBig(p);
      ShapedInit(rels, r);
      var m := Run(rels[..|rels| - 1], r, p);
      ReduceOk(m, ModRel(rels[|rels| - 1], p), r, p);
      Reduce(m, ModRel(rels[|rels| - 1], p), r, p)
  }

  lemma RunStep(rels: seq<Relation>, x: Relation, r: nat, p: int)
    requires Prime(p) && p > 1 && Shaped(rels, r) && |x.rel| == r
    ensures Shaped(rels + [x], r) && Run(rels + [x], r, p) == Reduce(Run(rels, r, p), ModRel(x, p), r, p)
  {
    hide Reduce;
    assert (rels + [x])[..|rels|] == rels;
  }

  // ---------- the logarithms satisfy every row ----------

  // l holds the logarithms of the primes that are units.
  ghost predicate UnitLogs(g: int, primes: seq<int>, l: seq<nat>, q: int)
    requires q > 0
  {
    |l| == |primes| && forall i :: 0 <= i < |primes| ==> Eq(primes[i], 0, q) || LogIs(g, primes[i], l[i], q)
  }

  lemma {:induction false} UnitLogsExist(g: int, primes: seq<int>, q: int) returns (l: seq<nat>)
    requires q > 1 && Generates(g, q)
    ensures UnitLogs(g, primes, l, q)
  {
    if |primes| == 0 { return []; }
    var k := |primes| - 1;
    var l' := UnitLogsExist(g, primes[..k], q);
    var e := UnitLog(g, primes[k], q);
    l := l' + [e];
    forall i | 0 <= i < k ensures Eq(primes[i], 0, q) || LogIs(g, primes[i], l[i], q) { assert primes[..k][i] == primes[i]; }
  }

  lemma UnitLog(g: int, h: int, q: int) returns (e: nat)
    requires q > 1 && Generates(g, q)
    ensures Eq(h, 0, q) || LogIs(g, h, e, q)
  {
    hide Pow, Eq;
    EqMod(h, q);
    if h % q == 0 {
      EqSym(0, h, q);
      e := 0;
    } else {
      LogExists(g, h % q, q);
      e :| e < q - 1 && LogIs(g, h % q, e, q);
      EqTrans(Pow(g, e), h % q, h, q);
    }
  }

  // A prime that is 0 in the field does not occur in a relation.
  lemma {:induction false} ZeroFactor(primes: seq<int>, rel: seq<nat>, n: nat, i: nat, q: int)
    requires q > 0 && i < n <= |primes| && n <= |rel| && Eq(primes[i], 0, q) && rel[i] > 0
    ensures Eq(Factored(primes, rel, n), 0, q)
  {
    hide Pow;
    var k := n - 1;
    var f, v := Factored(primes, rel, k), Pow(primes[k], rel[k]);
    if i < k {
      ZeroFactor(primes, rel, k, i, q);
      Combine(v, f - 0, q);
      assert v * (f - 0) == f * v - 0;
    } else {
      PowCong(primes[k], 0, rel[k], q);
      PowZero(rel[k]);
      Combine(f, v - 0, q);
      assert f * (v - 0) == f * v - 0;
    }
  }

  lemma OccurringUnits(g: int, primes: seq<int>, x: Relation, l: seq<nat>, q: int)
    requires Prime(q) && q > 1 && !Eq(g, 0, q) && Holds(g, primes, x, q) && UnitLogs(g, primes, l, q)
    ensures LogsOf(g, primes, l, x.rel, q)
  {
    hide Pow, Prime, Factored;
    forall i | 0 <= i < |primes| && x.rel[i] != 0 ensures LogIs(g, primes[i], l[i], q) {
      if Eq(primes[i], 0, q) {
        ZeroFactor(primes, x.rel, |primes|, i, q);
        PowNonzero(g, x.k, q);
        NonzeroCong(Pow(g, x.k), Factored(primes, x.rel, |primes|), q);
      }
    }
  }

  /** A relation says that the logarithms sum to its exponent modulo q - 1. */
  lemma {:induction false} LogsOfRelation(g: int, primes: seq<int>, x: Relation, l: seq<nat>, q: int)
    requires Prime(q) && q > 2 && Generates(g, q) && Holds(g, primes, x, q) && UnitLogs(g, primes, l, q)
    ensures Eq(Sum(x.rel, l, |primes|), x.k, q - 1)
  {
    hide Pow, Prime, Factored, Sum, Generates, Eq;
    GeneratorUnit(g, q);
    OccurringUnits(g, primes, x, l, q);
    LogOfProduct(g, primes, l, x.rel, |primes|, q);
    var s, f := Sum(x.rel, l, |primes|), Factored(primes, x.rel, |primes|);
    EqSym(Pow(g, x.k), f, q);
    EqTrans(Pow(g, s), f, Pow(g, x.k), q);
    LogUnique(g, q, s, x.k);
  }

  lemma {:induction false} DotReduced(x: Relation, l: seq<nat>, n: nat, p: int)
    requires p > 0 && n <= |x.rel| && n <= |l|
    ensures Eq(Dot(ModRel(x, p), l, n), Sum(x.rel, l, n), p)
  {
    hide Eq;
    if n == 0 {
      EqRefl(0, p);
    } else {
      var k := n - 1;
      DotReduced(x, l, k, p);
      EqMod(x.rel[k], p);
      EqRefl(l[k], p);
      EqMul(x.rel[k] % p, x.rel[k], l[k], l[k], p);
      EqAdd(Dot(ModRel(x, p), l, k), Sum(x.rel, l, k), x.rel[k] % p * l[k], x.rel[k] * l[k], p);
    }
  }

  // A congruence modulo n holds modulo every divisor.
  lemma EqDivisor(a: int, b: int, n: int, f: int)
    requires n > 0 && f > 0 && n % f == 0 && Eq(a, b, n)
    ensures Eq(a, b, f)
  {
    var k := EqElim(a, b, n);
    Combine(k, n, f);
    assert a - b == k * n;
  }

  /** The logarithms satisfy each relation modulo each prime order. */
  lemma {:induction false} RelationSatisfied(g: int, primes: seq<int>, x: Relation, l: seq<nat>, q: int, p: int)
    requires Prime(q) && q > 2 && Generates(g, q) && Holds(g, primes, x, q) && UnitLogs(g, primes, l, q)
    requires p > 0 && (q - 1) % p == 0
    ensures Satisfies(l, ModRel(x, p), |primes|, p)
  {
    hide Pow, Prime, Sum, Generates, Eq, Dot, Holds, UnitLogs;
    HoldsLengths(g, primes, x, l, q);
    LogsOfRelation(g, primes, x, l, q);
    var r := |primes|;
    var s, d := Sum(x.rel, l, r), Dot(ModRel(x, p), l, r);
    EqDivisor(s, x.k, q - 1, p);
    DotReduced(x, l, r, p);
    EqTrans(d, s, x.k, p);
    EqMod(x.k, p);
    EqSym(x.k % p, x.k, p);
    EqTrans(d, x.k, x.k % p, p);
  }

  lemma HoldsLengths(g: int, primes: seq<int>, x: Relation, l: seq<nat>, q: int)
    requires q > 0 && Holds(g, primes, x, q) && UnitLogs(g, primes, l, q)
    ensures |x.rel| == |primes| == |l|
  {}

  ghost predicate AllHold(g: int, primes: seq<int>, rels: seq<Relation>, q: int)
    requires q > 0
  {
    forall i :: 0 <= i < |rels| ==> Holds(g, primes, rels[i], q)
  }

  lemma AllHoldInit(g: int, primes: seq<int>, rels: seq<Relation>, q: int)
    requires q > 0 && AllHold(g, primes, rels, q)
    ensures Shaped(rels, |primes|)
    ensures |rels| > 0 ==> AllHold(g, primes, rels[..|rels| - 1], q) && Holds(g, primes, rels[|rels| - 1], q)
  {}

  /** Whatever relations are found, the logarithms satisfy every stored row. */
  lemma {:induction false} RunSound(g: int, primes: seq<int>, rels: seq<Relation>, l: seq<nat>, q: int, p: int)
    requires Prime(q) && q > 2 && Generates(g, q) && AllHold(g, primes, rels, q) && UnitLogs(g, primes, l, q)
    requires Prime(p) && p > 1 && (q - 1) % p == 0
    ensures Shaped(rels, |primes|) && SatisfiesAll(l, Run(rels, |primes|, p).rows, |primes|, p)
  {
    hide Prime, Generates, Satisfies, Reduce, Holds;
    AllHoldInit(g, primes, rels, q);
    if |rels| > 0 {
      var r, init, x := |primes|, rels[..|rels| - 1], rels[|rels| - 1];
      RunSound(g, primes, init, l, q, p);
      RelationSatisfied(g, primes, x, l, q, p);
      HoldsLengths(g, primes, x, l, q);
      ReduceSound(Run(init, r, p), ModRel(x, p), l, r, p);
    }
  }

  // ---------- a complete system has found them ----------

  /** A complete system leaves out no prime of the base, so all of them have logarithms. */
  lemma {:induction false} CompleteUnits(g: int, primes: seq<int>, rels: seq<Relation>, l: seq<nat>, q: int, p: int)
    requires Prime(q) && q > 2 && Generates(g, q) && AllHold(g, primes, rels, q) && UnitLogs(g, primes, l, q)
    requires Prime(p) && p > 1 && (q - 1) % p == 0 && Shaped(rels, |primes|) && Complete(Run(rels, |primes|, p).rows, |primes|, p)
    ensures Logs(g, primes, l, q)
  {
    hide Prime, Generates, Satisfies, Complete, Run, AllHold, SatisfiesAll, Eq, LogIs;
    var r, rows := |primes|, Run(rels, |primes|, p).rows;
    forall i | 0 <= i < r ensures LogIs(g, primes[i], l[i], q) {
      if Eq(primes[i], 0, q) {
        // any other value in place i would satisfy the rows too
        var l' := l[i := l[i] + 1];
        RunSound(g, primes, rels, l, q, p);
        RunSound(g, primes, rels, l', q, p);
        CompleteRows(rows, r, p);
        NotNext(l[i], p);
        SolutionUnique(rows, l, l', r, p, r);
      }
    }
  }

  lemma NotNext(a: int, p: int)
    requires p > 1
    ensures !Eq(a, a + 1, p)
  {
    if Eq(a, a + 1, p) {
      var k := EqElim(a, a + 1, p);
      SmallMultiple(k, p);
    }
  }

  lemma CompleteRows(rows: seq<seq<int>>, r: nat, p: int)
    requires Complete(rows, r, p)
    ensures RowsOk(rows, r, p) && forall i :: 0 <= i < r ==> rows[i] != []
  {}

  // s solves the complete rows that the relations leave modulo p.
  ghost predicate Solves(s: seq<int>, rels: seq<Relation>, r: nat, p: int) {
    && Prime(p) && p > 1 && Shaped(rels, r) && |s| == r
    && Complete(Run(rels, r, p).rows, r, p) && SatisfiesAll(s, Run(rels, r, p).rows, r, p)
  }

  /** The constants that back-substitution leaves are the logarithms modulo the order. */
  lemma {:induction false} ConstantsAreLogs(g: int, primes: seq<int>, rels: seq<Relation>, s: seq<int>, l: seq<nat>, q: int, p: int)
    requires Prime(q) && q > 2 && Generates(g, q) && AllHold(g, primes, rels, q) && UnitLogs(g, primes, l, q)
    requires p > 1 && (q - 1) % p == 0 && Solves(s, rels, |primes|, p)
    ensures Logs(g, primes, l, q) && forall i :: 0 <= i < |primes| ==> Eq(s[i], l[i], p)
  {
    hide Prime, Generates, Satisfies, Complete, Run, AllHold, SatisfiesAll;
    RunSound(g, primes, rels, l, q, p);
    CompleteUnits(g, primes, rels, l, q, p);
    CompleteRows(Run(rels, |primes|, p).rows, |primes|, p);
    SolutionUnique(Run(rels, |primes|, p).rows, s, l, |primes|, p, |primes|);
  }

  // ---------- recombination ----------

  lemma LogFromResidues(g: int, h: int, e: nat, ind: nat, q: int, fac: seq<int>)
    requires Prime(q) && q > 2 && Generates(g, q) && Factors(fac, q - 1) && LogIs(g, h, e, q)
    requires forall f :: 0 <= f < |fac| ==> fac[f] > 0 && Eq(ind, e, fac[f])
    ensures LogIs(g, h, ind, q)
  {
    hide Pow, Prime, Generates, Factors;
    forall f | 0 <= f < |fac| ensures (ind - e) % fac[f] == 0 { assert Eq(ind, e, fac[f]); }
    FactorsDivide(fac, q - 1, ind - e);
    assert Eq(ind, e, q - 1);
    LogUnique(g, q, ind, e);
    EqTrans(Pow(g, ind), Pow(g, e), h, q);
  }

  lemma FactorOf(fac: seq<int>, n: int, f: nat)
    requires Factors(fac, n) && n > 0 && f < |fac|
    ensures Prime(fac[f]) && fac[f] > 1 && n % fac[f] == 0
  {
    PrimeBig(fac[f]);
    FactorDivides(fac, |fac|, f);
  }

  // Solutions modulo each factor of q - 1, and numbers with their residues
  ghost predicate Recovers(ind: seq<nat>, sols: seq<seq<int>>, rels: seq<Relation>, r: nat, fac: seq<int>) {
    && |ind| == r && |sols| == |fac| && Shaped(rels, r)
    && forall f :: 0 <= f < |fac| ==> RecoversAt(ind, sols[f], rels, r, fac[f])
  }

  ghost predicate RecoversAt(ind: seq<nat>, s: seq<int>, rels: seq<Relation>, r: nat, p: int) {
    p > 1 && |ind| == r && Solves(s, rels, r, p) && forall i :: 0 <= i < r ==> Eq(ind[i], s[i], p)
  }

  lemma ResidueIsLog(g: int, primes: seq<int>, rels: seq<Relation>, s: seq<int>, l: seq<nat>, ind: seq<nat>, q: int, p: int, i: nat)
    requires Prime(q) && q > 2 && Generates(g, q) && AllHold(g, primes, rels, q) && UnitLogs(g, primes, l, q)
    requires p > 1 && (q - 1) % p == 0 && RecoversAt(ind, s, rels, |primes|, p) && i < |primes|
    ensures |l| == |primes| && Eq(ind[i], l[i], p) && LogIs(g, primes[i], l[i], q)
  {
    hide Prime, Generates, Complete, SatisfiesAll, LogIs, AllHold, Eq, Run;
    ConstantsAreLogs(g, primes, rels, s, l, q, p);
    EqTrans(ind[i], s[i], l[i], p);
  }

  /** Solutions of the complete systems modulo every factor of q - 1, recombined, are the logarithms of the
      whole factor base. */
  lemma {:induction false} IndexCalculusCorrect(g: int, primes: seq<int>, rels: seq<Relation>, sols: seq<seq<int>>, ind: seq<nat>, q: int, fac: seq<int>)
    requires Prime(q) && q > 2 && Generates(g, q) && Factors(fac, q - 1) && AllHold(g, primes, rels, q)
    requires Recovers(ind, sols, rels, |primes|, fac)
    ensures Logs(g, primes, ind, q)
  {
    hide Prime, Generates, Solves, LogIs, Product, AllHold, Eq;
    var l := UnitLogsExist(g, primes, q);
    FactorsSome(fac, q - 1);
    forall i | 0 <= i < |primes| ensures LogIs(g, primes[i], ind[i], q) {
      forall f | 0 <= f < |fac| ensures fac[f] > 0 && Eq(ind[i], l[i], fac[f]) && LogIs(g, primes[i], l[i], q) {
        FactorOf(fac, q - 1, f);
        ResidueIsLog(g, primes, rels, sols[f], l, ind, q, fac[f], i);
      }
      assert fac[0] > 0;
      LogFromResidues(g, primes[i], l[i], ind[i], q, fac);
    }
  }

  lemma FactorsSome(fac: seq<int>, n: int)
    requires Factors(fac, n) && n > 1
    ensures |fac| > 0
  {}
}
