/** The relations that index_calculus_step1 finds (arith/indexcalculus.c): when they are enough, and when there are enough
    of them. */
module FoundRelations {
  import opened Modular
  import opened Residues
  import opened Generators
  import opened SmoothNumbers
  import opened DiscreteLog
  import opened Relations
  import opened BackSubstitution
  import opened IndexCalculus
  import opened RelationRows

  // ---------- the relations that the search finds ----------

  function PowerOf(g: int, n: nat, q: int): (z: nat)
    requires q > 0
  {
    Pow(g, n) % q
  }

  // The relations among the first n powers of g.
  function Found(g: int, primes: seq<int>, q: int, n: nat): (rels: seq<Relation>)
    requires q > 0
    ensures Shaped(rels, |primes|)
  {
    if n == 0 then [] else
      var z := PowerOf(g, n, q);
      var d := Trial(z, primes, |primes|);
      Found(g, primes, q, n - 1) + if z > 1 && d.rest == 1 then [Relation(n, d.rel)] else []
  }

  lemma {:induction false} FoundHold(g: int, primes: seq<int>, q: int, n: nat)
    requires q > 0
    ensures AllHold(g, primes, Found(g, primes, q, n), q)
  {
    hide Pow, Trial, Factored;
    if n > 0 {
      FoundHold(g, primes, q, n - 1);
      var z := PowerOf(g, n, q);
      var d := Trial(z, primes, |primes|);
      TrialProduct(z, primes, |primes|);
      EqMod(Pow(g, n), q);
      EqSym(z, Pow(g, n), q);
      assert 1 * Factored(primes, d.rel, |primes|) == Factored(primes, d.rel, |primes|);
    }
  }

  lemma NextPower(g: int, n: nat, q: int)
    requires q > 0
    ensures (PowerOf(g, n, q) * g) % q == PowerOf(g, n + 1, q)
  {
    EqMod(Pow(g, n), q);
    EqRefl(g, q);
    EqMul(PowerOf(g, n, q), Pow(g, n), g, g, q);
    PowSucc(g, n);
    assert Pow(g, n) * g == g * Pow(g, n);
    EqIffMod(PowerOf(g, n, q) * g, Pow(g, n + 1), q);
  }

  lemma PowerPositive(g: int, n: nat, q: int)
    requires Prime(q) && q > 0 && !Eq(g, 0, q)
    ensures PowerOf(g, n, q) > 0
  {
    PowNonzero(g, n, q);
    EqMod(Pow(g, n), q);
  }

  lemma FoundStart(g: int, primes: seq<int>, q: int)
    requires q > 1
    ensures Found(g, primes, q, 0) == [] && PowerOf(g, 0, q) == 1
  {
    SmallMod(1, q);
  }

  lemma FoundNext(g: int, primes: seq<int>, q: int, n: nat)
    requires q > 0 && n > 0
    ensures var d := Trial(PowerOf(g, n, q), primes, |primes|);
            Found(g, primes, q, n) == Found(g, primes, q, n - 1) + if PowerOf(g, n, q) > 1 && d.rest == 1 then [Relation(n, d.rel)] else []
  {}

  // ---------- enough relations ----------

  predicate Orders(fac: seq<int>) { forall f :: 0 <= f < |fac| ==> Prime(fac[f]) && fac[f] > 1 }

  lemma FactorsAreOrders(fac: seq<int>, n: int)
    requires Factors(fac, n)
    ensures Orders(fac)
  {
    forall f | 0 <= f < |fac| ensures Prime(fac[f]) && fac[f] > 1 { PrimeBig(fac[f]); }
  }

  // The relations among the first n powers of g determine every logarithm modulo every factor.
  ghost predicate Ready(g: int, primes: seq<int>, q: int, fac: seq<int>, n: nat)
    requires q > 0
  {
    && Orders(fac)
    && forall f :: 0 <= f < |fac| ==> Complete(Run(Found(g, primes, q, n), |primes|, fac[f]).rows, |primes|, fac[f])
  }

  lemma {:induction false} FoundGrows(g: int, primes: seq<int>, q: int, n: nat, n': nat) returns (more: seq<Relation>)
    requires q > 0 && n <= n'
    ensures Shaped(more, |primes|) && Found(g, primes, q, n') == Found(g, primes, q, n) + more
  {
    hide Trial, PowerOf;
    if n == n' {
      more := [];
    } else {
      more := FoundGrows(g, primes, q, n, n' - 1);
      FoundNext(g, primes, q, n');
      var next := Found(g, primes, q, n')[|Found(g, primes, q, n' - 1)|..];
      assert Found(g, primes, q, n') == Found(g, primes, q, n' - 1) + next;
      assert Found(g, primes, q, n) + more + next == Found(g, primes, q, n) + (more + next);
      more := more + next;
    }
  }

  /** Once determined, the logarithms stay determined. */
  lemma {:induction false} ReadyGrows(g: int, primes: seq<int>, q: int, fac: seq<int>, n: nat, n': nat)
    requires q > 0 && n <= n' && Ready(g, primes, q, fac, n)
    ensures Ready(g, primes, q, fac, n')
  {
    hide Found, Run, Complete, Prime;
    var more := FoundGrows(g, primes, q, n, n');
    forall f | 0 <= f < |fac| ensures Complete(Run(Found(g, primes, q, n'), |primes|, fac[f]).rows, |primes|, fac[f]) {
      RunGrows(Found(g, primes, q, n), more, |primes|, fac[f]);
    }
  }

  // One of the first n shifts of h is a product of primes of the base.
  ghost predicate SmoothShift(g: int, h: int, primes: seq<int>, q: int, n: nat)
    requires q > 0
  {
    exists s: nat :: 1 <= s <= n && Trial(Shifted(g, h, s, q), primes, |primes|).rest == 1
  }

  // ---------- a base of all primes below q ----------

  predicate DistinctPrimes(primes: seq<int>) {
    (forall i :: 0 <= i < |primes| ==> Prime(primes[i])) && forall i, j :: 0 <= i < j < |primes| ==> primes[i] != primes[j]
  }

  ghost predicate Covers(primes: seq<int>, q: int) { forall e :: Prime(e) && e < q ==> e in primes }

  lemma DistinctBase(primes: seq<int>)
    requires DistinctPrimes(primes)
    ensures Base(primes)
  {}

  lemma {:induction false} RestAtMost(z: nat, p: int)
    ensures Rest(z, p) <= z
  {
    if p >= 2 && z > 0 && z % p == 0 {
      PositiveQuotient(z, p);
      RestAtMost(z / p, p);
    }
  }

  lemma {:induction false} TrialAtMost(z: nat, primes: seq<int>, n: nat)
    requires n <= |primes|
    ensures Trial(z, primes, n).rest <= z
  {
    hide Rest, Multiplicity;
    if n > 0 {
      TrialAtMost(z, primes, n - 1);
      RestAtMost(Trial(z, primes, n - 1).rest, primes[n - 1]);
    }
  }

  // Every number below q is a product of primes of the base.
  lemma BelowSmooth(z: nat, primes: seq<int>, q: int)
    requires 0 < z < q && DistinctPrimes(primes) && Covers(primes, q)
    ensures Trial(z, primes, |primes|).rest == 1
  {
    hide Trial, Prime;
    DistinctBase(primes);
    var w := Trial(z, primes, |primes|).rest;
    TrialAtMost(z, primes, |primes|);
    if w != 1 {
      var e := LeastFactor(w);
      var i :| 0 <= i < |primes| && primes[i] == e;
      TrialLeaves(z, primes, |primes|, i);
    }
  }

  lemma PrimeDivides(p: int, e: int)
    requires Prime(p) && Prime(e) && p != e
    ensures p % e != 0
  {
    if p % e == 0 { PrimeIs(p, e); }
  }

  lemma PrimeItself(p: int)
    requires Prime(p)
    ensures Rest(p, p) == 1 && Multiplicity(p, p) == 1
  {
    ModSelf(p);
    assert p / p == 1;
    SmallMod(1, p);
    RestSame(1, p);
  }

  // A prime of the base is its own factorization.
  lemma {:induction false} UnitTrial(primes: seq<int>, i: nat, n: nat)
    requires DistinctPrimes(primes) && i < |primes| && n <= |primes| && primes[i] >= 0
    ensures var d := Trial(primes[i], primes, n);
            d.rest == (if n <= i then primes[i] else 1) && forall k :: 0 <= k < n ==> d.rel[k] == if k == i then 1 else 0
  {
    hide Rest, Multiplicity, Prime;
    if n > 0 {
      UnitTrial(primes, i, n - 1);
      UnitStep(primes[i], primes[n - 1], n - 1 == i);
    }
  }

  lemma UnitStep(p: int, e: int, same: bool)
    requires Prime(p) && Prime(e) && same == (p == e)
    ensures p >= 2 && (if same then Rest(p, p) == 1 && Multiplicity(p, p) == 1 else Rest(p, e) == p && Multiplicity(p, e) == 0)
    ensures Rest(1, e) == 1 && Multiplicity(1, e) == 0
  {
    PrimeBig(p);
    PrimeBig(e);
    if same { PrimeItself(p); } else { PrimeDivides(p, e); RestSame(p, e); }
    SmallMod(1, e);
    RestSame(1, e);
  }

  // A prime above z is not among the factors of z.
  lemma {:induction false} LargeTrial(z: nat, primes: seq<int>, i: nat, n: nat)
    requires i < n <= |primes| && 0 < z < primes[i]
    ensures Trial(z, primes, n).rel[i] == 0
  {
    if n - 1 == i {
      var w := Trial(z, primes, i).rest;
      TrialAtMost(z, primes, i);
      SmallMod(w, primes[i]);
      RestSame(w, primes[i]);
    } else {
      LargeTrial(z, primes, i, n - 1);
    }
  }

  lemma {:induction false} FoundMember(g: int, primes: seq<int>, q: int, n: nat, e: nat) returns (j: nat)
    requires q > 0 && 1 <= e <= n && PowerOf(g, e, q) > 1 && Trial(PowerOf(g, e, q), primes, |primes|).rest == 1
    ensures j < |Found(g, primes, q, n)| && Found(g, primes, q, n)[j] == Relation(e, Trial(PowerOf(g, e, q), primes, |primes|).rel)
  {
    hide Trial, PowerOf;
    FoundNext(g, primes, q, n);
    if e == n {
      j := |Found(g, primes, q, n - 1)|;
    } else {
      j := FoundMember(g, primes, q, n - 1, e);
    }
  }

  // Every relation is the factorization of a power of g.
  lemma {:induction false} FoundFrom(g: int, primes: seq<int>, q: int, n: nat, j: nat) returns (e: nat)
    requires q > 0 && j < |Found(g, primes, q, n)|
    ensures Found(g, primes, q, n)[j] == Relation(e, Trial(PowerOf(g, e, q), primes, |primes|).rel) && PowerOf(g, e, q) > 1
  {
    hide Trial, PowerOf;
    FoundNext(g, primes, q, n);
    if j < |Found(g, primes, q, n - 1)| {
      e := FoundFrom(g, primes, q, n - 1, j);
    } else {
      e := n;
    }
  }

  // ---------- no row is missing ----------

  // The first n rows that are there are satisfied, read from the top.
  ghost predicate FixedTo(rows: seq<seq<int>>, l: seq<int>, r: nat, p: int, n: nat)
    requires p > 0 && RowsOk(rows, r, p) && |l| == r && n <= r
  {
    forall j :: 0 <= j < n && rows[j] != [] ==> Eq(l[j], rows[j][r] - Dot(rows[j], l, j), p)
  }

  lemma FixedSatisfies(rows: seq<seq<int>>, l: seq<int>, r: nat, p: int)
    requires p > 1 && RowsOk(rows, r, p) && |l| == r
    ensures FixedTo(rows, l, r, p, r) <==> SatisfiesAll(l, rows, r, p)
  {
    hide Eq, Dot, Satisfies;
    forall j | 0 <= j < r && rows[j] != []
      ensures Satisfies(l, rows[j], r, p) <==> Eq(l[j], rows[j][r] - Dot(rows[j], l, j), p)
    {
      RowFixes(rows[j], l, j, r, p);
    }
  }

  lemma FixedUpdate(rows: seq<seq<int>>, l: seq<int>, r: nat, p: int, n: nat, v: int)
    requires p > 0 && RowsOk(rows, r, p) && |l| == r && n < r && FixedTo(rows, l, r, p, n)
    ensures FixedTo(rows, l[n := v], r, p, n)
  {
    hide Eq, Dot;
    forall j | 0 <= j < n && rows[j] != [] ensures Eq(l[n := v][j], rows[j][r] - Dot(rows[j], l[n := v], j), p) {
      DotSame(rows[j], rows[j], l, l[n := v], j);
    }
  }

  // Where row i is missing, any value in place i extends to a solution.
  lemma {:induction false} FreePlace(rows: seq<seq<int>>, l: seq<nat>, i: nat, v: nat, r: nat, p: int, n: nat) returns (l': seq<nat>)
    requires p > 1 && RowsOk(rows, r, p) && |l| == r && i < n <= r && rows[i] == [] && FixedTo(rows, l, r, p, r)
    ensures |l'| == r && l'[i] == v && FixedTo(rows, l', r, p, n)
  {
    hide Eq, Dot;
    if n == i + 1 {
      assert FixedTo(rows, l, r, p, i);
      FixedUpdate(rows, l, r, p, i, v);
      l' := l[i := v];
    } else {
      var k := n - 1;
      l' := FreePlace(rows, l, i, v, r, p, k);
      if rows[k] != [] {
        var c := rows[k][r] - Dot(rows[k], l', k);
        EqMod(c, p);
        FixedUpdate(rows, l', r, p, k, c % p);
        DotSame(rows[k], rows[k], l', l'[k := c % p], k);
        l' := l'[k := c % p];
      }
    }
  }

  lemma {:induction false} DotUnit(s: seq<int>, l: seq<int>, i: nat, n: nat)
    requires n <= |s| && n <= |l| && i < |l| && forall k :: 0 <= k < n ==> s[k] == if k == i then 1 else 0
    ensures Dot(s, l, n) == if i < n then l[i] else 0
  {
    if n > 0 {
      DotUnit(s, l, i, n - 1);
      assert 0 * l[n - 1] == 0 && 1 * l[n - 1] == l[n - 1];
    }
  }

  // A relation that is one prime fixes its logarithm.
  lemma UnitRelation(x: Relation, l: seq<int>, i: nat, r: nat, p: int)
    requires p > 1 && |l| == r && |x.rel| == r && i < r && (forall k :: 0 <= k < r ==> x.rel[k] == if k == i then 1 else 0)
    requires Satisfies(l, ModRel(x, p), r, p)
    ensures Eq(l[i], x.k % p, p)
  {
    var s := ModRel(x, p);
    SmallMod(1, p); SmallMod(0, p);
    DotUnit(s, l, i, r);
  }

  lemma {:induction false} DotIgnores(s: seq<int>, l: seq<int>, i: nat, v: int, n: nat)
    requires n <= |s| && n <= |l| && i < |l| && (i < |s| ==> s[i] == 0)
    ensures Dot(s, l[i := v], n) == Dot(s, l, n)
  {
    if n > 0 {
      DotIgnores(s, l, i, v, n - 1);
      assert 0 * l[n - 1] == 0 && 0 * v == 0;
    }
  }

  lemma FoundSolved(g: int, primes: seq<int>, q: int, n: nat, l: seq<nat>, p: int)
    requires Prime(q) && q > 2 && Generates(g, q) && UnitLogs(g, primes, l, q) && p > 1 && (q - 1) % p == 0
    ensures SolvesRelations(l, Found(g, primes, q, n), |primes|, p)
  {
    hide Prime, Generates, Satisfies, Holds, UnitLogs, Found;
    FoundHold(g, primes, q, n);
    var rels := Found(g, primes, q, n);
    UnitLogsLength(g, primes, l, q);
    forall i | 0 <= i < |rels| ensures Satisfies(l, ModRel(rels[i], p), |primes|, p) {
      RelationSatisfied(g, primes, rels[i], l, q, p);
    }
  }

  lemma UnitLogsLength(g: int, primes: seq<int>, l: seq<nat>, q: int)
    requires q > 0 && UnitLogs(g, primes, l, q)
    ensures |l| == |primes|
  {}

  // Among the first q - 1 powers is the prime itself.
  lemma PrimePower(g: int, primes: seq<int>, q: int, n: nat, i: nat) returns (j: nat)
    requires Prime(q) && q > 2 && Generates(g, q) && DistinctPrimes(primes) && n >= q - 1 && i < |primes| && primes[i] < q
    ensures var rels := Found(g, primes, q, n);
            j < |rels| && forall k :: 0 <= k < |primes| ==> rels[j].rel[k] == if k == i then 1 else 0
  {
    hide Pow, Trial, Generates, Found;
    var p := primes[i];
    PrimeBig(p);
    hide Prime;
    LogExists(g, p, q);
    var e: nat :| e < q - 1 && LogIs(g, p, e, q);
    EqIffMod(Pow(g, e), p, q);
    SmallMod(p, q);
    PowSucc(g, 0);
    SmallMod(1, q);
    UnitTrial(primes, i, |primes|);
    j := FoundMember(g, primes, q, n, e);
  }

  lemma RowThere(g: int, primes: seq<int>, q: int, n: nat, p: int, i: nat)
    requires Prime(q) && q > 2 && Generates(g, q) && DistinctPrimes(primes) && n >= q - 1 && i < |primes| && primes[i] < q
    requires Prime(p) && p > 1 && (q - 1) % p == 0
    ensures Run(Found(g, primes, q, n), |primes|, p).rows[i] != []
  {
    hide Prime, Generates, Found, Run, SolvesRelations, UnitLogs, DistinctPrimes, FixedTo;
    var rels, r := Found(g, primes, q, n), |primes|;
    var rows := Run(rels, r, p).rows;
    if rows[i] == [] {
      var l := UnitLogsExist(g, primes, q);
      UnitLogsLength(g, primes, l, q);
      FoundSolved(g, primes, q, n, l, p);
      RunEquivalent(rels, l, l, r, p);
      FixedSatisfies(rows, l, r, p);
      var l' := FreePlace(rows, l, i, l[i] + 1, r, p, r);
      FixedSatisfies(rows, l', r, p);
      RunEquivalent(rels, l', l, r, p);
      var j := PrimePower(g, primes, q, n, i);
      SolvesOne(l, rels, r, p, j);
      SolvesOne(l', rels, r, p, j);
      UnitRelation(rels[j], l, i, r, p);
      UnitRelation(rels[j], l', i, r, p);
      EqSym(l'[i], rels[j].k % p, p);
      EqTrans(l[i], rels[j].k % p, l'[i], p);
      NotNext(l[i], p);
    }
  }

  lemma SolvesOne(l: seq<int>, rels: seq<Relation>, r: nat, p: int, j: nat)
    requires p > 1 && |l| == r && Shaped(rels, r) && SolvesRelations(l, rels, r, p) && j < |rels|
    ensures |rels[j].rel| == r && Satisfies(l, ModRel(rels[j], p), r, p)
  {}

  // A prime of the base that is not below q is in no relation, and its row stays empty.
  lemma RowMissing(g: int, primes: seq<int>, q: int, n: nat, p: int, i: nat)
    requires Prime(q) && q > 2 && Generates(g, q) && i < |primes| && primes[i] >= q
    requires Prime(p) && p > 1 && (q - 1) % p == 0
    ensures !Complete(Run(Found(g, primes, q, n), |primes|, p).rows, |primes|, p)
  {
    hide Prime, Generates, Found, Run, SolvesRelations, UnitLogs, Satisfies;
    var rels, r := Found(g, primes, q, n), |primes|;
    var rows := Run(rels, r, p).rows;
    var l := UnitLogsExist(g, primes, q);
    UnitLogsLength(g, primes, l, q);
    FoundSolved(g, primes, q, n, l, p);
    var l' := l[i := l[i] + 1];
    NotOccurring(g, primes, q, n, l, i, p);
    RunEquivalent(rels, l, l, r, p);
    RunEquivalent(rels, l', l, r, p);
    NotNext(l[i], p);
    if Complete(rows, r, p) {
      SolutionUnique(rows, l, l', r, p, r);
    }
  }

  lemma NotOccurring(g: int, primes: seq<int>, q: int, n: nat, l: seq<nat>, i: nat, p: int)
    requires Prime(q) && q > 2 && Generates(g, q) && i < |primes| == |l| && primes[i] >= q && p > 1
    requires SolvesRelations(l, Found(g, primes, q, n), |primes|, p)
    ensures SolvesRelations(l[i := l[i] + 1], Found(g, primes, q, n), |primes|, p)
  {
    hide Prime, Generates, Found, Dot, PowerOf, Trial;
    var rels, r, l' := Found(g, primes, q, n), |primes|, l[i := l[i] + 1];
    forall j | 0 <= j < |rels| ensures Satisfies(l', ModRel(rels[j], p), r, p) {
      var e := FoundFrom(g, primes, q, n, j);
      ResidueBelow(g, e, q);
      LargeTrial(PowerOf(g, e, q), primes, i, r);
      SmallMod(0, p);
      DotIgnores(ModRel(rels[j], p), l, i, l[i] + 1, r);
      assert Satisfies(l, ModRel(rels[j], p), r, p);
    }
  }

  lemma ResidueBelow(g: int, e: nat, q: int)
    requires q > 0
    ensures PowerOf(g, e, q) < q
  {
    EqMod(Pow(g, e), q);
  }

  /** Over a base of distinct primes that has all primes below q, the relations among q - 1 or more powers determine every
      logarithm exactly when the base has no prime from q on. */
  lemma {:induction false} ReadyExactly(g: int, primes: seq<int>, q: int, fac: seq<int>, n: nat)
    requires Prime(q) && q > 2 && Generates(g, q) && Factors(fac, q - 1) && DistinctPrimes(primes) && Covers(primes, q) && n >= q - 1
    ensures Ready(g, primes, q, fac, n) <==> forall i :: 0 <= i < |primes| ==> primes[i] < q
  {
    hide Prime, Generates, Found, Run, Factors, DistinctPrimes, Covers;
    FactorsAreOrders(fac, q - 1);
    FactorsSome(fac, q - 1);
    FactorOf(fac, q - 1, 0);
    if i :| 0 <= i < |primes| && primes[i] >= q {
      RowMissing(g, primes, q, n, fac[0], i);
    } else {
      forall f | 0 <= f < |fac| ensures Complete(Run(Found(g, primes, q, n), |primes|, fac[f]).rows, |primes|, fac[f]) {
        FactorOf(fac, q - 1, f);
        forall i | 0 <= i < |primes| ensures Run(Found(g, primes, q, n), |primes|, fac[f]).rows[i] != [] {
          RowThere(g, primes, q, n, fac[f], i);
        }
      }
    }
  }

  /** ... and one of q - 1 shifts is h itself, which such a base factors. */
  lemma SmoothShiftFound(g: int, h: int, primes: seq<int>, q: int, n: nat)
    requires Prime(q) && q > 2 && !Eq(g, 0, q) && 0 < h < q && DistinctPrimes(primes) && Covers(primes, q) && n >= q - 1
    ensures SmoothShift(g, h, primes, q, n)
  {
    hide Prime, Pow, Covers, Trial;
    Fermat(g, q);
    EqRefl(h, q);
    EqMul(h, h, Pow(g, q - 1), 1, q);
    EqIffMod(h * Pow(g, q - 1), h, q);
    SmallMod(h, q);
    var s: nat := q - 1;
    assert h * 1 == h;
    assert Shifted(g, h, s, q) == h;
    BelowSmooth(h, primes, q);
  }
}
