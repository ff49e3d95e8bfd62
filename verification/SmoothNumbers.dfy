/** Trial division over a factor base (arith/indexcalculus.c): the plain loop, and the search of
    index_calculus_step1 that skips bundles of primes by one gcd. */
module SmoothNumbers {
  import opened Modular
  import opened Residues
  import opened Garner
  import opened Elimination

  // ---------- one prime ----------

  // How often p divides z
  function Multiplicity(z: nat, p: int): nat {
    if p >= 2 && z > 0 && z % p == 0 then
      PositiveQuotient(z, p);
      1 + Multiplicity(z / p, p)
    else 0
  }

  // z without its factors p
  function Rest(z: nat, p: int): (w: nat)
    ensures z > 0 ==> w > 0 && (p >= 2 ==> w % p != 0)
  {
    if p >= 2 && z > 0 && z % p == 0 then
      PositiveQuotient(z, p);
      Rest(z / p, p)
    else z
  }

  lemma {:induction false} RestTimes(z: nat, p: int)
    ensures z == Rest(z, p) * Pow(p, Multiplicity(z, p))
  {
    hide Pow;
    if p >= 2 && z > 0 && z % p == 0 {
      PositiveQuotient(z, p);
      RestTimes(z / p, p);
      PowSucc(p, Multiplicity(z / p, p));
      Exchange(Rest(z / p, p), Pow(p, Multiplicity(z / p, p)), p);
    } else {
      PowSucc(p, 0);
    }
  }

  lemma Exchange(w: int, v: int, p: int)
    ensures (w * v) * p == w * (p * v)
  {}

  lemma RestSame(z: nat, p: int)
    requires p >= 2 && z > 0 && z % p != 0
    ensures Rest(z, p) == z && Multiplicity(z, p) == 0
  {}

  method DivideOut(z: nat, p: int) returns (e: nat, rest: nat)
    requires z > 0 && p >= 2
    ensures e == Multiplicity(z, p) && rest == Rest(z, p)
  {
    e, rest := 0, z;
    while rest % p == 0
      invariant rest > 0 && Rest(rest, p) == Rest(z, p) && e + Multiplicity(rest, p) == Multiplicity(z, p)
      decreases rest
    {
      PositiveQuotient(rest, p);
      rest := rest / p;
      e := e + 1;
    }
  }

  // ---------- the factor base ----------

  predicate Base(primes: seq<int>) { forall i :: 0 <= i < |primes| ==> primes[i] >= 2 }

  // prime_0^rel_0 ... prime_(n-1)^rel_(n-1)
  function Factored(primes: seq<int>, rel: seq<nat>, n: nat): int
    requires n <= |primes| && n <= |rel|
  {
    if n == 0 then 1 else Factored(primes, rel, n - 1) * Pow(primes[n - 1], rel[n - 1])
  }

  datatype Division = Division(rest: nat, rel: seq<nat>)

  // Division by the first n primes
  function Trial(z: nat, primes: seq<int>, n: nat): (d: Division)
    requires n <= |primes|
    ensures |d.rel| == n && (z > 0 ==> d.rest > 0)
  {
    if n == 0 then Division(z, []) else
      var d := Trial(z, primes, n - 1);
      Division(Rest(d.rest, primes[n - 1]), d.rel + [Multiplicity(d.rest, primes[n - 1])])
  }

  lemma {:induction false} FactoredSame(primes: seq<int>, rel: seq<nat>, rel': seq<nat>, n: nat)
    requires n <= |primes| && n <= |rel| && n <= |rel'| && forall i :: 0 <= i < n ==> rel[i] == rel'[i]
    ensures Factored(primes, rel, n) == Factored(primes, rel', n)
  {
    if n > 0 { FactoredSame(primes, rel, rel', n - 1); }
  }

  /** The exponents and what is left multiply to the number. */
  lemma {:induction false} TrialProduct(z: nat, primes: seq<int>, n: nat)
    requires n <= |primes|
    ensures z == Trial(z, primes, n).rest * Factored(primes, Trial(z, primes, n).rel, n)
  {
    hide Pow, Rest, Multiplicity;
    if n > 0 {
      TrialProduct(z, primes, n - 1);
      var d, p := Trial(z, primes, n - 1), primes[n - 1];
      RestTimes(d.rest, p);
      FactoredSame(primes, d.rel, Trial(z, primes, n).rel, n - 1);
      Regroup(Rest(d.rest, p), Pow(p, Multiplicity(d.rest, p)), Factored(primes, d.rel, n - 1));
    }
  }

  lemma Regroup(a: int, b: int, c: int)
    ensures (a * b) * c == a * (c * b)
  {}

  // A divisor of a factor divides the whole.
  lemma NotDivided(z: int, rest: int, w: int, p: int)
    requires p > 0 && z == rest * w && z % p != 0
    ensures rest % p != 0
  {
    assert z == w * rest;
    if rest % p == 0 { Combine(w, rest, p); }
  }

  /** What is left has no factor in the base. */
  lemma {:induction false} TrialLeaves(z: nat, primes: seq<int>, n: nat, i: nat)
    requires z > 0 && Base(primes) && i < n <= |primes|
    ensures Trial(z, primes, n).rest % primes[i] != 0
  {
    if i < n - 1 {
      TrialLeaves(z, primes, n - 1, i);
      var d, p := Trial(z, primes, n - 1), primes[n - 1];
      RestTimes(d.rest, p);
      NotDivided(d.rest, Rest(d.rest, p), Pow(p, Multiplicity(d.rest, p)), primes[i]);
    }
  }

  // ---------- smooth numbers ----------

  ghost predicate Smooth(z: int, primes: seq<int>) {
    exists rel: seq<nat> :: |rel| == |primes| && z == Factored(primes, rel, |primes|)
  }

  // A prime dividing the product is one of the base.
  lemma {:induction false} PrimeOfProduct(primes: seq<int>, rel: seq<nat>, n: nat, e: int) returns (i: nat)
    requires n <= |primes| && n <= |rel| && Prime(e) && Factored(primes, rel, n) % e == 0
    ensures i < n && primes[i] % e == 0
  {
    if n == 0 {
      SmallMod(1, e);
      assert false;
    } else {
      var f, v := Factored(primes, rel, n - 1), Pow(primes[n - 1], rel[n - 1]);
      NoZeroDivisors(f, v, e);
      if f % e == 0 {
        i := PrimeOfProduct(primes, rel, n - 1, e);
      } else {
        PrimeOfPower(primes[n - 1], rel[n - 1], e);
        i := n - 1;
      }
    }
  }

  lemma {:induction false} PrimeOfPower(p: int, n: nat, e: int)
    requires Prime(e) && Pow(p, n) % e == 0
    ensures p % e == 0
  {
    if n == 0 { SmallMod(1, e); } else {
      NoZeroDivisors(p, Pow(p, n - 1), e);
      if p % e != 0 { PrimeOfPower(p, n - 1, e); }
    }
  }

  /** The division ends at 1 exactly for the products of primes of the base. */
  lemma {:induction false} SmoothTrial(z: nat, primes: seq<int>)
    requires z > 0 && forall i :: 0 <= i < |primes| ==> Prime(primes[i])
    ensures Smooth(z, primes) <==> Trial(z, primes, |primes|).rest == 1
  {
    hide Prime, Trial, Factored;
    var n := |primes|;
    var d := Trial(z, primes, n);
    TrialProduct(z, primes, n);
    if d.rest == 1 {
      assert 1 * Factored(primes, d.rel, n) == Factored(primes, d.rel, n);
    } else if Smooth(z, primes) {
      PrimesBase(primes);
      var rel: seq<nat> :| |rel| == n && z == Factored(primes, rel, n);
      var e := LeastFactor(d.rest);
      Combine(Factored(primes, d.rel, n), d.rest, e);
      assert Factored(primes, d.rel, n) * d.rest == z;
      var i := PrimeOfProduct(primes, rel, n, e);
      PrimeIs(primes[i], e);
      TrialLeaves(z, primes, n, i);
    }
  }

  lemma PrimesBase(primes: seq<int>)
    requires forall i :: 0 <= i < |primes| ==> Prime(primes[i])
    ensures Base(primes)
  {}

  lemma PrimeIs(p: int, e: int)
    requires Prime(p) && Prime(e) && p % e == 0
    ensures e == p
  {
    if e > p { SmallMod(p, e); }
  }

  /** The loop of step 2 and of slow_index_calculus_step1. */
  method TrialDivide(z: nat, primes: seq<int>) returns (rest: nat, rel: seq<nat>)
    requires z > 0 && Base(primes)
    ensures Division(rest, rel) == Trial(z, primes, |primes|)
  {
    rest, rel := z, [];
    for i := 0 to |primes|
      invariant rest > 0 && Division(rest, rel) == Trial(z, primes, i)
    {
      var e;
      e, rest := DivideOut(rest, primes[i]);
      rel := rel + [e];
    }
  }

  // ---------- the search with bundles ----------

  // The nonzero exponents as cells.
  function CellsOf(rel: seq<int>): (c: seq<Cell>)
    ensures forall k :: 0 <= k < |c| ==> 0 <= c[k].ind < |rel|
  {
    if |rel| == 0 then [] else
      var k := |rel| - 1;
      CellsOf(rel[..k]) + if rel[k] == 0 then [] else [Cell(k, rel[k])]
  }

  // Primes that do not divide what is left add no cell.
  lemma {:induction false} TrialSkip(z: nat, primes: seq<int>, i: nat, n: nat)
    requires z > 0 && Base(primes) && i <= n <= |primes| && forall k :: i <= k < n ==> Trial(z, primes, i).rest % primes[k] != 0
    ensures Trial(z, primes, n).rest == Trial(z, primes, i).rest
    ensures CellsOf(Trial(z, primes, n).rel) == CellsOf(Trial(z, primes, i).rel)
  {
    if i < n {
      TrialSkip(z, primes, i, n - 1);
      var d := Trial(z, primes, n - 1);
      RestSame(d.rest, primes[n - 1]);
      assert Trial(z, primes, n).rel[..n - 1] == d.rel;
    }
  }

  lemma TrialDone(z: nat, primes: seq<int>, i: nat)
    requires z > 0 && Base(primes) && i <= |primes| && Trial(z, primes, i).rest == 1
    ensures Trial(z, primes, |primes|).rest == 1 && CellsOf(Trial(z, primes, |primes|).rel) == CellsOf(Trial(z, primes, i).rel)
  {
    forall k | i <= k < |primes| ensures 1 % primes[k] != 0 { SmallMod(1, primes[k]); }
    TrialSkip(z, primes, i, |primes|);
  }

  // A prime of a bundle that is coprime to z does not divide z.
  lemma BundleSkips(bundle: seq<int>, z: nat, k: nat)
    requires Base(bundle) && z > 0 && k < |bundle| && Product(bundle, |bundle|) >= 0 && Gcdext(Product(bundle, |bundle|), z).0 == 1
    ensures z % bundle[k] != 0
  {
    var p, b := bundle[k], Product(bundle, |bundle|);
    if z % p == 0 {
      FactorDivides(bundle, |bundle|, k);
      var g := Gcdext(b, z);
      Combine2(g.1, b, g.2, z, p);
      SmallMod(1, p);
    }
  }

  // Bundle i holds 20 primes from index 10 + 20 i on, or what there are.
  function BundleEnd(r: nat, i: nat): (e: nat)
  {
    if 30 + 20 * i < r then 30 + 20 * i else r
  }

  predicate BundlesOk(bundle: seq<int>, primes: seq<int>) {
    && |bundle| == (|primes| + 9) / 20
    && forall i :: 0 <= i < |bundle| ==> BundleOk(bundle[i], primes, i)
  }

  predicate BundleOk(b: int, primes: seq<int>, i: nat) {
    10 + 20 * i <= BundleEnd(|primes|, i) && b == Product(primes[10 + 20 * i..BundleEnd(|primes|, i)], BundleEnd(|primes|, i) - (10 + 20 * i))
  }

  method MakeBundles(primes: seq<int>) returns (bundle: seq<int>)
    requires Base(primes)
    ensures BundlesOk(bundle, primes)
  {
    hide Product;
    var r := |primes|;
    bundle := [];
    for i := 0 to (r + 9) / 20
      invariant |bundle| == i && forall k :: 0 <= k < i ==> BundleOk(bundle[k], primes, k)
    {
      var b := 1;
      var lo, hi := 10 + 20 * i, BundleEnd(r, i);
      ghost var part := primes[lo..hi];
      ProductStart(part);
      for j := 0 to 20
        invariant b == Product(part, if j < |part| then j else |part|)
      {
        var jj := 10 + 20 * i + j;
        if jj >= r { break; }
        ProductStep(part, j);
        b := b * primes[jj];
      }
      bundle := bundle + [b];
    }
  }

  lemma ProductStart(m: seq<int>)
    ensures Product(m, 0) == 1
  {}

  lemma ProductStep(m: seq<int>, n: nat)
    requires n < |m|
    ensures Product(m, n + 1) == Product(m, n) * m[n]
  {}

  // One prime of the search: the cells so far, and whether the number is used up.
  method SearchPrime(z1: nat, rel: seq<Cell>, primes: seq<int>, i: nat, ghost z: nat) returns (w: nat, rel': seq<Cell>, found: bool)
    requires z > 0 && Base(primes) && i < |primes| && z1 == Trial(z, primes, i).rest && rel == CellsOf(Trial(z, primes, i).rel) && (z1 == 1 ==> z == 1)
    ensures w == Trial(z, primes, i + 1).rest && rel' == CellsOf(Trial(z, primes, i + 1).rel)
    ensures if found then w == 1 && z > 1 else w == 1 ==> z == 1
  {
    var j;
    j, w := DivideOut(z1, primes[i]);
    ghost var d := Trial(z, primes, i + 1);
    assert d.rel[..i] == Trial(z, primes, i).rel;
    rel' := rel;
    found := false;
    if j != 0 {
      rel' := rel' + [Cell(i, j)];
      found := w == 1;
      if z == 1 { OneTrial(primes, i); SmallMod(1, primes[i]); }
    }
  }

  lemma {:induction false} OneTrial(primes: seq<int>, n: nat)
    requires Base(primes) && n <= |primes|
    ensures Trial(1, primes, n).rest == 1
  {
    if n > 0 {
      OneTrial(primes, n - 1);
      SmallMod(1, primes[n - 1]);
    }
  }

  // The primes lo, ..., hi - 1 in turn.
  method SearchRange(z1: nat, rel: seq<Cell>, primes: seq<int>, lo: nat, hi: nat, ghost z: nat) returns (w: nat, rel': seq<Cell>, found: bool)
    requires z > 0 && Base(primes) && lo <= hi <= |primes| && z1 == Trial(z, primes, lo).rest && rel == CellsOf(Trial(z, primes, lo).rel) && (z1 == 1 ==> z == 1)
    ensures found ==> z > 1 && Trial(z, primes, |primes|).rest == 1 && rel' == CellsOf(Trial(z, primes, |primes|).rel)
    ensures !found ==> w == Trial(z, primes, hi).rest && rel' == CellsOf(Trial(z, primes, hi).rel) && (w == 1 ==> z == 1)
  {
    hide Trial, CellsOf;
    w, rel', found := z1, rel, false;
    for i := lo to hi
      invariant w == Trial(z, primes, i).rest && rel' == CellsOf(Trial(z, primes, i).rel) && (w == 1 ==> z == 1)
      invariant !found
    {
      w, rel', found := SearchPrime(w, rel', primes, i, z);
      if found {
        TrialDone(z, primes, i + 1);
        return;
      }
    }
  }

  /** The search of index_calculus_step1: found exactly for smooth numbers above 1, with the exponents that
      the plain loop finds. */
  method FindRelation(z: nat, primes: seq<int>, bundle: seq<int>) returns (found: bool, rel: seq<Cell>)
    requires z > 0 && Base(primes) && BundlesOk(bundle, primes)
    ensures found <==> z > 1 && Trial(z, primes, |primes|).rest == 1
    ensures found ==> rel == CellsOf(Trial(z, primes, |primes|).rel)
  {
    hide Trial, CellsOf, Product, Gcdext;
    TrialStart(z, primes);
    var r := |primes|;
    var z1 := z;
    z1, rel, found := SearchRange(z1, [], primes, 0, if r < 10 then r else 10, z);
    if found { return; }
    for i := 0 to |bundle|
      invariant var n := if i == 0 then (if r < 10 then r else 10) else BundleEnd(r, i - 1);
                n <= r && z1 == Trial(z, primes, n).rest && rel == CellsOf(Trial(z, primes, n).rel) && (z1 == 1 ==> z == 1)
      invariant !found
    {
      assert BundleOk(bundle[i], primes, i);
      var lo, hi := 10 + 20 * i, BundleEnd(r, i);
      ghost var part := primes[lo..hi];
      BundlePositive(part);
      var z0 := Gcdext(bundle[i], z1).0;
      if z0 != 1 {
        z1, rel, found := SearchRange(z1, rel, primes, lo, hi, z);
        if found { return; }
      } else {
        forall k | lo <= k < hi ensures z1 % primes[k] != 0 {
          assert part[k - lo] == primes[k];
          BundleSkips(part, z1, k - lo);
        }
        TrialSkip(z, primes, lo, hi);
      }
    }
  }

  lemma TrialStart(z: nat, primes: seq<int>)
    ensures Trial(z, primes, 0) == Division(z, []) && CellsOf(Trial(z, primes, 0).rel) == []
  {}

  lemma {:induction false} BundlePositive(m: seq<int>)
    requires Base(m)
    ensures Product(m, |m|) >= 1
  {
    ProductPositive(m, |m|);
  }

  // ---------- reduction modulo an order ----------

  function Reduced(rel: seq<int>, p: int): (s: seq<int>)
    requires p > 0
    ensures |s| == |rel| && forall k :: 0 <= k < |s| ==> s[k] == rel[k] % p
  {
    seq(|rel|, k requires 0 <= k < |rel| => rel[k] % p)
  }

  function CellsMod(c: seq<Cell>, p: int): (m: seq<Cell>)
    requires p > 0
    ensures |m| <= |c|
  {
    if |c| == 0 then [] else
      var x := c[|c| - 1];
      CellsMod(c[..|c| - 1], p) + if x.data % p == 0 then [] else [Cell(x.ind, x.data % p)]
  }

  lemma {:induction false} CellsModOf(rel: seq<int>, p: int)
    requires p > 0
    ensures CellsMod(CellsOf(rel), p) == CellsOf(Reduced(rel, p))
  {
    if |rel| > 0 {
      var k := |rel| - 1;
      CellsModOf(rel[..k], p);
      assert Reduced(rel, p)[..k] == Reduced(rel[..k], p);
      var c := CellsOf(rel);
      if rel[k] == 0 {
        SmallMod(0, p);
        assert c == CellsOf(rel[..k]);
      } else {
        assert c == CellsOf(rel[..k]) + [Cell(k, rel[k])];
        assert c[..|c| - 1] == CellsOf(rel[..k]);
      }
    }
  }

  /** The relation modulo one order, with the coefficients that vanish left out. */
  method ReduceCells(rel: seq<Cell>, relm: array<Cell>, order: int) returns (relmcount: nat)
    requires order > 0 && |rel| <= relm.Length
    modifies relm
    ensures relmcount <= relm.Length && relm[..relmcount] == CellsMod(rel, order)
  {
    relmcount := 0;
    for i := 0 to |rel|
      invariant relmcount <= i && relm[..relmcount] == CellsMod(rel[..i], order)
    {
      assert rel[..i + 1][..i] == rel[..i];
      var z0 := rel[i].data % order;
      if z0 != 0 {
        relm[relmcount] := Cell(rel[i].ind, z0);
        relmcount := relmcount + 1;
        assert relm[..relmcount] == relm[..relmcount - 1] + [Cell(rel[i].ind, z0)];
      }
    }
    assert rel[..|rel|] == rel;
  }
}
