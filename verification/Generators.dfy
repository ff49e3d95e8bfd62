/** Generators of the units of F_q (is_gen in arith/indexcalculus.c): the powers of an element reach every
    unit exactly when no exponent (q-1)/f, for f a prime factor of q-1, gives 1. */
module Generators {
  import opened Modular
  import opened Residues
  import opened Garner

  // g^e = h
  predicate LogIs(g: int, h: int, e: nat, q: int)
    requires q > 0
  {
    Eq(Pow(g, e), h, q)
  }

  ghost predicate HasLog(g: int, h: int, q: int)
    requires q > 0
  {
    exists e: nat :: e < q - 1 && LogIs(g, h, e, q)
  }

  // Every unit is a power of g.
  ghost predicate Generates(g: int, q: int)
    requires q > 0
  {
    forall h :: 1 <= h < q ==> HasLog(g, h, q)
  }

  // fac lists distinct primes whose product is n.
  predicate Factors(fac: seq<int>, n: int) {
    && (forall i :: 0 <= i < |fac| ==> Prime(fac[i]))
    && (forall i, j :: 0 <= i < j < |fac| ==> fac[i] != fac[j])
    && Product(fac, |fac|) == n
  }

  lemma NotMultiple(a: int, b: int)
    requires Prime(a) && Prime(b) && Eq(a, 0, b)
    ensures a == b
  {
    if a < b { EqSmall(a, 0, b); }
  }

  lemma PrimesCoprime(a: int, b: int)
    requires Prime(a) && Prime(b) && a != b
    ensures Coprime(a, b)
  {
    if Eq(a, 0, b) { NotMultiple(a, b); }
    var s, t := PrimeBezout(a, b);
    assert Times(s, a) + Times(t, b) == 1;
  }

  lemma FactorsCoprime(fac: seq<int>, n: int)
    requires Factors(fac, n)
    ensures PairwiseCoprime(fac)
  {
    forall i, j | 0 <= i < j < |fac| ensures Coprime(fac[i], fac[j]) { PrimesCoprime(fac[i], fac[j]); }
  }

  // A number that every factor divides is a multiple of their product.
  lemma FactorsDivide(fac: seq<int>, n: int, e: int)
    requires Factors(fac, n) && n > 0 && forall i :: 0 <= i < |fac| ==> fac[i] > 0 && e % fac[i] == 0
    ensures e % n == 0
  {
    FactorsCoprime(fac, n);
    forall i | 0 <= i < |fac| ensures Eq(e, 0, fac[i]) { assert e - 0 == e; }
    CongruentModProduct(fac, e, 0, |fac|);
  }

  lemma QuotientOf(fac: seq<int>, n: int, i: nat)
    requires Factors(fac, n) && n > 0 && i < |fac|
    ensures fac[i] > 1 && n == n / fac[i] * fac[i] && 0 < n / fac[i] < n
  {
    FactorDivides(fac, |fac|, i);
    PositiveQuotient(n, fac[i]);
  }

  // Exponents count modulo q - 1.
  lemma PowPeriod(g: int, a: nat, b: nat, q: int)
    requires Prime(q) && q > 2 && !Eq(g, 0, q) && (b - a) % (q - 1) == 0
    ensures Eq(Pow(g, b), Pow(g, a), q)
  {
    hide Pow, Eq, Prime;
    Fermat(g, q);
    if a <= b {
      PeriodUp(g, a, b, q - 1, q);
    } else {
      Combine(-1, b - a, q - 1);
      assert -1 * (b - a) == a - b;
      PeriodUp(g, b, a, q - 1, q);
      EqSym(Pow(g, a), Pow(g, b), q);
    }
  }

  // Exponents count modulo every n with g^n = 1.
  lemma PeriodUp(g: int, a: nat, b: nat, n: nat, q: int)
    requires q > 0 && n > 0 && Eq(Pow(g, n), 1, q) && a <= b && (b - a) % n == 0
    ensures Eq(Pow(g, b), Pow(g, a), q)
  {
    hide Pow, Eq;
    var k := (b - a) / n;
    assert b - a == n * k;
    PowPow(g, n, k);
    PowCong(Pow(g, n), 1, k, q);
    PowOne(k);
    PowAdd(g, a, b - a);
    EqRefl(Pow(g, a), q);
    EqMul(Pow(g, a), Pow(g, a), Pow(g, b - a), 1, q);
  }

  // The test of is_gen
  ghost predicate NoFactorPower(g: int, q: int, fac: seq<int>)
    requires q > 1
  {
    forall i :: 0 <= i < |fac| && fac[i] > 0 ==> !LogIs(g, 1, (q - 1) / fac[i], q)
  }

  // No smaller exponent gives 1 either.
  lemma NoShortPeriod(g: int, q: int, fac: seq<int>, e: nat)
    requires Prime(q) && q > 2 && !Eq(g, 0, q) && Factors(fac, q - 1) && NoFactorPower(g, q, fac) && 0 < e < q - 1
    ensures !Eq(Pow(g, e), 1, q)
  {
    hide Pow, Prime, Product;
    if Eq(Pow(g, e), 1, q) {
      assert forall i :: 0 <= i < |fac| ==> Prime(fac[i]);
      forall i | 0 <= i < |fac| ensures fac[i] > 1 { QuotientOf(fac, q - 1, i); }
      if forall i :: 0 <= i < |fac| ==> e % fac[i] == 0 {
        FactorsDivide(fac, q - 1, e);
        SmallMod(e, q - 1);
        assert false;
      }
      var i :| 0 <= i < |fac| && e % fac[i] != 0;
      QuotientOf(fac, q - 1, i);
      FactorPower(g, q, fac[i], (q - 1) / fac[i], e);
    }
  }

  // With s e = 1 + k f the exponent n = (q-1)/f is s e n modulo q - 1.
  lemma FactorPower(g: int, q: int, f: int, n: nat, e: nat)
    requires Prime(q) && q > 2 && !Eq(g, 0, q) && Prime(f) && f > 1 && q - 1 == n * f && e > 0 && e % f != 0 && Eq(Pow(g, e), 1, q)
    ensures LogIs(g, 1, n, q)
  {
    hide Pow, Prime, Eq;
    var s, k := PositiveInverse(e, f);
    PowPow(g, e, s * n);
    PowCong(Pow(g, e), 1, s * n, q);
    PowOne(s * n);
    assert e * (s * n) == n + k * (q - 1) by { ExponentIdentity(e, s, n, k, f, q); }
    assert n + k * (q - 1) - n == k * (q - 1);
    ModZero(k * (q - 1), k, q - 1);
    PowPeriod(g, n, n + k * (q - 1), q);
    EqSym(Pow(g, n + k * (q - 1)), Pow(g, n), q);
    EqTrans(Pow(g, n), Pow(g, n + k * (q - 1)), 1, q);
  }

  lemma ExponentIdentity(e: int, s: int, n: int, k: int, f: int, q: int)
    requires s * e == 1 + k * f && q - 1 == n * f
    ensures e * (s * n) == n + k * (q - 1)
  {
    assert e * (s * n) == (s * e) * n;
    assert (1 + k * f) * n == n + k * (n * f);
  }

  lemma PositiveInverse(e: nat, f: int) returns (s: nat, k: nat)
    requires Prime(f) && f > 1 && e > 0 && e % f != 0
    ensures s * e == 1 + k * f
  {
    assert e - 0 == e;
    InvPrime(e, f);
    s := Inv(e, f);
    var j := EqElim(e * s, 1, f);
    if j < 0 {
      MulMono(j, -1, f);
      MulMono(0, s, e);
    }
    k := j;
    assert s * e == e * s;
  }

  // Different exponents below the period give different powers.
  lemma PowersDiffer(g: int, a: nat, b: nat, q: int)
    requires Prime(q) && q > 1 && !Eq(g, 0, q) && a < b && !Eq(Pow(g, b - a), 1, q)
    ensures !Eq(Pow(g, b), Pow(g, a), q)
  {
    hide Pow, Prime;
    if Eq(Pow(g, b), Pow(g, a), q) {
      PowAdd(g, a, b - a);
      PowNonzero(g, a, q);
      assert Pow(g, a) == Pow(g, a) * 1;
      Cancel(Pow(g, a), Pow(g, b - a), 1, q);
    }
  }

  // The residues of the first n powers.
  ghost function Powers(g: int, n: nat, q: int): set<int>
    requires q > 0
  {
    if n == 0 then {} else Powers(g, n - 1, q) + {Residue(g, n - 1, q)}
  }

  lemma {:induction false} PowersMember(g: int, n: nat, q: int, x: int)
    requires q > 0
    ensures x in Powers(g, n, q) <==> exists e: nat :: e < n && Residue(g, e, q) == x
  {
    if n > 0 {
      PowersMember(g, n - 1, q, x);
    }
  }

  function Residue(g: int, e: nat, q: int): int
    requires q > 0
  {
    Pow(g, e) % q
  }

  lemma {:induction false} PowersAtMost(g: int, n: nat, q: int)
    requires q > 0
    ensures |Powers(g, n, q)| <= n
  {
    if n > 0 { PowersAtMost(g, n - 1, q); }
  }

  // The next power is a new one.
  lemma NewPower(g: int, n: nat, q: int)
    requires Prime(q) && q > 1 && !Eq(g, 0, q) && forall e: nat :: 0 < e <= n ==> !LogIs(g, 1, e, q)
    ensures Residue(g, n, q) !in Powers(g, n, q) && Residue(g, n, q) in Units(q)
  {
    hide Pow, Prime;
    var x := Residue(g, n, q);
    PowersMember(g, n, q, x);
    if x in Powers(g, n, q) {
      var e: nat :| e < n && Residue(g, e, q) == x;
      EqIffMod(Pow(g, n), Pow(g, e), q);
      assert !LogIs(g, 1, n - e, q);
      PowersDiffer(g, e, n, q);
    }
    PowNonzero(g, n, q);
    EqMod(Pow(g, n), q);
    NonzeroCong(x, Pow(g, n), q);
    if x == 0 { EqRefl(0, q); }
  }

  lemma {:induction false} PowersExactly(g: int, n: nat, q: int)
    requires Prime(q) && q > 1 && !Eq(g, 0, q) && forall e: nat :: 0 < e < n ==> !LogIs(g, 1, e, q)
    ensures |Powers(g, n, q)| == n && Powers(g, n, q) <= Units(q)
  {
    hide Residue, Prime, LogIs, Eq, Units;
    if n > 0 {
      PowersExactly(g, n - 1, q);
      NewPower(g, n - 1, q);
    }
  }

  lemma {:induction false} SameSize(a: set<int>, b: set<int>)
    requires a <= b && |a| == |b|
    ensures a == b
  {
    if y :| y in b && y !in a {
      SubsetSize(a, b - {y});
    } else {
      assert forall y :: y in b ==> y in a;
    }
  }

  lemma {:induction false} SubsetSize(a: set<int>, b: set<int>)
    requires a <= b
    ensures |a| <= |b|
  {
    if exists x :: x in a {
      var x :| x in a;
      SubsetSize(a - {x}, b - {x});
    }
  }

  lemma GeneratesIfAll(g: int, q: int)
    requires Prime(q) && !Eq(g, 0, q) && Powers(g, q - 1, q) == Units(q)
    ensures Generates(g, q)
  {
    hide Pow;
    forall h | 1 <= h < q ensures HasLog(g, h, q) {
      PowersMember(g, q - 1, q, h);
      var e: nat :| e < q - 1 && Residue(g, e, q) == h;
      EqIffMod(Pow(g, e), h, q);
      SmallMod(h, q);
      assert LogIs(g, h, e, q);
    }
  }

  lemma LogExists(g: int, h: int, q: int)
    requires q > 0 && Generates(g, q) && 1 <= h < q
    ensures HasLog(g, h, q)
  {}

  lemma PowerBelow(g: int, q: int, n: nat, h: int)
    requires Prime(q) && q > 1 && Generates(g, q) && 0 < n < q - 1 && Eq(Pow(g, n), 1, q) && 1 <= h < q
    ensures h in Powers(g, n, q)
  {
    hide Pow, Eq, Prime, Powers, Generates, Residue;
    LogExists(g, h, q);
    var e: nat :| e < q - 1 && LogIs(g, h, e, q);
    var m := BelowPeriod(g, q, n, e);
    EqSym(Pow(g, e), Pow(g, m), q);
    EqTrans(Pow(g, m), Pow(g, e), h, q);
    ResidueIs(g, m, h, q);
    PowersMember(g, n, q, h);
  }

  lemma BelowPeriod(g: int, q: int, n: nat, e: nat) returns (m: nat)
    requires q > 0 && n > 0 && Eq(Pow(g, n), 1, q)
    ensures m < n && Eq(Pow(g, e), Pow(g, m), q)
  {
    hide Pow, Eq;
    m := e % n;
    assert e - m == n * (e / n);
    ModZero(e - m, e / n, n);
    PeriodUp(g, m, e, n, q);
  }

  lemma ResidueIs(g: int, m: nat, h: int, q: int)
    requires 1 <= h < q && Eq(Pow(g, m), h, q)
    ensures Residue(g, m, q) == h
  {
    hide Pow;
    EqIffMod(Pow(g, m), h, q);
    SmallMod(h, q);
  }

  // The powers of a generator have no period below q - 1.
  lemma {:induction false} GeneratorPeriod(g: int, q: int, n: nat)
    requires Prime(q) && Generates(g, q) && 0 < n < q - 1
    ensures !Eq(Pow(g, n), 1, q)
  {
    hide Pow, Eq, Prime, Generates, Powers, Units;
    if Eq(Pow(g, n), 1, q) {
      UnitsRange(q);
      forall h | h in Units(q) ensures h in Powers(g, n, q) { PowerBelow(g, q, n, h); }
      UnitsCount(q);
      SubsetSize(Units(q), Powers(g, n, q));
      PowersAtMost(g, n, q);
    }
  }

  lemma GeneratorUnit(g: int, q: int)
    requires Prime(q) && q > 2 && Generates(g, q)
    ensures !Eq(g, 0, q)
  {
    if Eq(g, 0, q) {
      // 2 = 0^e is impossible: 0^0 = 1
      assert HasLog(g, 2, q);
      var e: nat :| e < q - 1 && LogIs(g, 2, e, q);
      PowCong(g, 0, e, q);
      if e == 0 {
        EqSmall(1, 2, q);
      } else {
        PowZero(e);
        EqSym(Pow(g, e), 2, q);
        EqTrans(2, Pow(g, e), 0, q);
        UnitsNonzero(2, q);
      }
    }
  }

  /** The logarithms to a generator are determined modulo q - 1. */
  lemma {:induction false} LogUnique(g: int, q: int, a: nat, b: nat)
    requires Prime(q) && q > 2 && Generates(g, q)
    ensures Eq(Pow(g, a), Pow(g, b), q) <==> Eq(a, b, q - 1)
  {
    hide Pow, Prime, Generates, Eq;
    GeneratorUnit(g, q);
    if a <= b { LogUniqueUp(g, q, a, b); } else { LogUniqueUp(g, q, b, a); }
    if Eq(a, b, q - 1) { EqSym(a, b, q - 1); }
    if Eq(b, a, q - 1) { EqSym(b, a, q - 1); }
    if Eq(Pow(g, a), Pow(g, b), q) { EqSym(Pow(g, a), Pow(g, b), q); }
    if Eq(Pow(g, b), Pow(g, a), q) { EqSym(Pow(g, b), Pow(g, a), q); }
  }

  lemma LogUniqueUp(g: int, q: int, a: nat, b: nat)
    requires Prime(q) && q > 2 && Generates(g, q) && !Eq(g, 0, q) && a <= b
    ensures Eq(Pow(g, b), Pow(g, a), q) <==> Eq(b, a, q - 1)
  {
    hide Pow, Prime, Generates;
    if Eq(b, a, q - 1) {
      PowPeriod(g, a, b, q);
    } else {
      // b = c + k (q - 1) with a < c < a + q - 1
      var m: nat := (b - a) % (q - 1);
      var c := a + m;
      assert b - c == (q - 1) * ((b - a) / (q - 1));
      ModZero(b - c, (b - a) / (q - 1), q - 1);
      PowPeriod(g, c, b, q);
      GeneratorPeriod(g, q, m);
      PowersDiffer(g, a, c, q);
      if Eq(Pow(g, b), Pow(g, a), q) {
        EqSym(Pow(g, b), Pow(g, c), q);
        EqTrans(Pow(g, c), Pow(g, b), Pow(g, a), q);
      }
    }
  }

  lemma TestSuffices(g: int, q: int, fac: seq<int>)
    requires Prime(q) && q > 2 && !Eq(g, 0, q) && Factors(fac, q - 1) && NoFactorPower(g, q, fac)
    ensures Generates(g, q)
  {
    hide Pow, Product, Eq, Generates, Units, Prime;
    UnitsCount(q);
    forall e: nat | 0 < e < q - 1 ensures !LogIs(g, 1, e, q) { NoShortPeriod(g, q, fac, e); }
    PowersExactly(g, q - 1, q);
    SameSize(Powers(g, q - 1, q), Units(q));
    GeneratesIfAll(g, q);
  }

  lemma UnitsRange(q: int)
    ensures forall i :: i in Units(q) ==> 1 <= i < q
  {}

  lemma UnitsCount(q: int)
    requires q >= 1
    ensures |Units(q)| == q - 1
  {}

  /** Exactly the units that pass the test generate. */
  lemma {:induction false} GeneratorTest(g: int, q: int, fac: seq<int>)
    requires Prime(q) && q > 2 && !Eq(g, 0, q) && Factors(fac, q - 1)
    ensures NoFactorPower(g, q, fac) <==> Generates(g, q)
  {
    hide Pow, Product, Eq, Generates, Units;
    if NoFactorPower(g, q, fac) { TestSuffices(g, q, fac); }
    if Generates(g, q) {
      forall i | 0 <= i < |fac| && fac[i] > 0 ensures !LogIs(g, 1, (q - 1) / fac[i], q) {
        QuotientOf(fac, q - 1, i);
        GeneratorPeriod(g, q, (q - 1) / fac[i]);
      }
    }
  }

  /** is_gen: true exactly for generators, and for multiples of q. */
  method IsGen(x: int, q: int, fac: seq<int>) returns (result: bool)
    requires Prime(q) && q > 2 && Factors(fac, q - 1)
    ensures result <==> Eq(x, 0, q) || Generates(x, q)
  {
    hide Pow, Prime, Product, Eq, Generates;
    result := true;
    var q1 := q - 1;
    ghost var unit := !Eq(x, 0, q);
    for i := 0 to |fac|
      invariant result && forall k :: 0 <= k < i && fac[k] > 0 ==> !LogIs(x, 1, (q - 1) / fac[k], q)
    {
      QuotientOf(fac, q - 1, i);
      var z := q1 / fac[i];
      ZeroPower(x, z, q);
      var w := Pow(x, z) % q;
      EqIffMod(Pow(x, z), 1, q);
      SmallMod(1, q);
      if w == 1 {
        result := false;
        break;
      }
    }
    if unit { GeneratorTest(x, q, fac); }
  }

  lemma ZeroPower(x: int, n: nat, q: int)
    requires q > 2 && n > 0
    ensures Eq(x, 0, q) ==> !LogIs(x, 1, n, q)
  {
    if Eq(x, 0, q) && LogIs(x, 1, n, q) {
      PowCong(x, 0, n, q);
      PowZero(n);
      EqSym(Pow(x, n), 1, q);
      EqTrans(1, Pow(x, n), 0, q);
      UnitsNonzero(1, q);
    }
  }

  /** 0 passes the test, and its powers reach nothing but 0 and 1. */
  method ZeroPasses(q: int, fac: seq<int>) returns (result: bool)
    requires Prime(q) && q > 2 && Factors(fac, q - 1)
    ensures result && !Generates(0, q)
  {
    hide Generates;
    result := IsGen(0, q, fac);
    EqRefl(0, q);
    if Generates(0, q) { GeneratorUnit(0, q); }
  }

  // ---------- composite factors ----------

  // fac lists coprime numbers above 1 whose product is n.
  ghost predicate CoprimeFactors(fac: seq<int>, n: int) { PairwiseCoprime(fac) && Product(fac, |fac|) == n }

  lemma CoprimeQuotient(fac: seq<int>, n: int, i: nat)
    requires CoprimeFactors(fac, n) && n > 0 && i < |fac|
    ensures fac[i] > 1 && n == n / fac[i] * fac[i] && 0 < n / fac[i] < n
  {
    FactorDivides(fac, |fac|, i);
    PositiveQuotient(n, fac[i]);
  }

  // gamma^a to the power (q-1)/f is 1 exactly when f divides a.
  lemma PowerTest(gamma: int, q: int, a: nat, f: int, n: nat)
    requires Prime(q) && q > 2 && Generates(gamma, q) && f > 1 && q - 1 == n * f
    ensures LogIs(Pow(gamma, a), 1, n, q) ==> a % f == 0
  {
    hide Pow, Prime, Generates, Eq;
    if LogIs(Pow(gamma, a), 1, n, q) {
      PowPow(gamma, a, n);
      PowSucc(gamma, 0);
      LogUnique(gamma, q, a * n, 0);
      DividesExponent(a, n, f);
    }
  }

  lemma DividesExponent(a: nat, n: nat, f: int)
    requires f > 1 && n * f > 0 && Eq(a * n, 0, n * f)
    ensures a % f == 0
  {
    var c := EqElim(a * n, 0, n * f);
    assert c * (n * f) == (c * f) * n;
    CancelFactor(a, c * f, n);
    ModZero(a, c, f);
  }

  lemma CancelFactor(a: int, b: int, n: int)
    requires n > 0 && a * n == b * n
    ensures a == b
  {
    assert (a - b) * n == 0;
    SmallMultiple(a - b, n);
  }

  // Coprime numbers have no common divisor above 1.
  lemma NoCommonDivisor(a: int, b: int, f: int)
    requires Coprime(a, b) && f > 1
    ensures a % f != 0 || b % f != 0
  {
    var s, t :| Times(s, a) + Times(t, b) == 1;
    SmallMod(1, f);
    if a % f == 0 && b % f == 0 { Combine2(s, a, t, b, f); }
  }

  /** With a composite factor a b the power gamma^a of a generator passes the test and generates nothing. */
  lemma {:induction false} CompositeAccepts(gamma: int, q: int, fac: seq<int>, i: nat, a: nat, b: nat)
    requires Prime(q) && q > 2 && Generates(gamma, q) && CoprimeFactors(fac, q - 1) && i < |fac| && a > 1 && b > 1 && fac[i] == a * b
    ensures !Eq(Pow(gamma, a), 0, q) && NoFactorPower(Pow(gamma, a), q, fac) && !Generates(Pow(gamma, a), q)
  {
    hide Pow, Prime, Generates, CoprimeFactors, Eq, LogIs;
    GeneratorUnit(gamma, q);
    PowNonzero(gamma, a, q);
    forall k | 0 <= k < |fac| && fac[k] > 0 ensures !LogIs(Pow(gamma, a), 1, (q - 1) / fac[k], q) {
      CoprimeQuotient(fac, q - 1, k);
      PowerTest(gamma, q, a, fac[k], (q - 1) / fac[k]);
      NotDivisor(fac, q - 1, i, k, a, b);
    }
    CoprimeQuotient(fac, q - 1, i);
    var m := (q - 1) / fac[i];
    ShortOrder(gamma, q, a, m * b, m, b);
  }

  lemma NotDivisor(fac: seq<int>, n: int, i: nat, k: nat, a: nat, b: nat)
    requires CoprimeFactors(fac, n) && i < |fac| && k < |fac| && a > 1 && b > 1 && fac[i] == a * b && fac[k] > 1
    ensures a % fac[k] != 0
  {
    if a % fac[k] == 0 {
      if k == i {
        MulMono(2, b, a);
        SmallMod(a, fac[i]);
      } else {
        Combine(b, a, fac[k]);
        assert b * a == fac[i];
        ModZero(fac[k], 1, fac[k]);
        if k < i { NoCommonDivisor(fac[k], fac[i], fac[k]); } else { NoCommonDivisor(fac[i], fac[k], fac[k]); }
      }
    }
  }

  lemma ShortOrder(gamma: int, q: int, a: nat, n: nat, m: nat, b: nat)
    requires Prime(q) && q > 2 && Generates(gamma, q) && !Eq(gamma, 0, q) && a > 1 && b >= 1 && m > 0 && n == m * b && q - 1 == m * (a * b)
    ensures !Generates(Pow(gamma, a), q)
  {
    hide Pow, Prime, Generates;
    assert a * n == q - 1 by { assert a * (m * b) == m * (a * b); }
    MulMono(1, b, m);
    MulMono(2, a, n);
    PowPow(gamma, a, n);
    Fermat(gamma, q);
    if Generates(Pow(gamma, a), q) { GeneratorPeriod(Pow(gamma, a), q, n); }
  }

  /** The test of is_gen is right for every unit if and only if all factors are prime. */
  lemma {:induction false} TestNeedsPrimes(gamma: int, q: int, fac: seq<int>)
    requires Prime(q) && q > 2 && Generates(gamma, q) && CoprimeFactors(fac, q - 1)
    ensures (forall k :: 0 <= k < |fac| ==> Prime(fac[k])) <==> forall g :: !Eq(g, 0, q) && NoFactorPower(g, q, fac) ==> Generates(g, q)
  {
    hide Pow, Generates, NoFactorPower, Product;
    if forall k :: 0 <= k < |fac| ==> Prime(fac[k]) {
      CoprimeDistinct(fac, q - 1);
      forall g | !Eq(g, 0, q) && NoFactorPower(g, q, fac) ensures Generates(g, q) { GeneratorTest(g, q, fac); }
    } else {
      var k :| 0 <= k < |fac| && !Prime(fac[k]);
      CoprimeQuotient(fac, q - 1, k);
      var a, b := SplitComposite(fac[k]);
      CompositeAccepts(gamma, q, fac, k, a, b);
    }
  }

  lemma CoprimeDistinct(fac: seq<int>, n: int)
    requires CoprimeFactors(fac, n) && forall k :: 0 <= k < |fac| ==> Prime(fac[k])
    ensures Factors(fac, n)
  {
    hide Product;
    forall i, j | 0 <= i < j < |fac| ensures fac[i] != fac[j] {
      if fac[i] == fac[j] {
        PrimeBig(fac[i]);
        ModZero(fac[i], 1, fac[i]);
        NoCommonDivisor(fac[i], fac[j], fac[i]);
      }
    }
  }

  lemma SplitComposite(f: int) returns (a: nat, b: nat)
    requires f > 1 && !Prime(f)
    ensures a > 1 && b > 1 && f == a * b
  {
    var d :| 1 < d < f && f % d == 0;
    var k := ModWitness(f, d);
    if k <= 1 { MulMono(k, 1, d); }
    a, b := d, k;
    assert d * k == k * d;
  }
}
