/** The Lucas ladder of the type D pairing (ecc/d_param.c) computes powers of norm-1 elements in a quadratic
    extension of any field in which 2 is invertible; the base field may itself be an extension. */
module LucasExtension {
  import opened Bits
  import opened PowWindow

  // ---------- commutative rings ----------

  // The operations, on the values that represent an element
  datatype Ring<!T> = Ring(add: (T, T) -> T, neg: T -> T, zero: T, m: Monoid<T>, has: T -> bool)

  ghost predicate ZeroAt<T>(r: Ring<T>, a: T) { r.add(a, r.zero) == a && r.add(a, r.neg(a)) == r.zero }

  ghost predicate DistribAt<T>(r: Ring<T>, a: T, b: T, c: T) { r.m.mul(a, r.add(b, c)) == r.add(r.m.mul(a, b), r.m.mul(a, c)) }

  // Results represent elements too.
  ghost predicate Closed<T(!new)>(r: Ring<T>) {
    && r.has(r.zero) && r.has(r.m.one)
    && (forall a, b {:trigger r.add(a, b)} :: r.has(a) && r.has(b) ==> r.has(r.add(a, b)))
    && (forall a, b {:trigger r.m.mul(a, b)} :: r.has(a) && r.has(b) ==> r.has(r.m.mul(a, b)))
    && (forall a {:trigger r.neg(a)} :: r.has(a) ==> r.has(r.neg(a)))
  }

  ghost predicate LawsOn<T(!new)>(g: Monoid<T>, has: T -> bool) {
    && (forall a, b, c {:trigger AssocAt(g, a, b, c)} :: has(a) && has(b) && has(c) ==> AssocAt(g, a, b, c))
    && (forall a, b {:trigger CommAt(g, a, b)} :: has(a) && has(b) ==> CommAt(g, a, b))
    && (forall a {:trigger OneAt(g, a)} :: has(a) ==> OneAt(g, a))
  }

  ghost predicate RingLaws<T(!new)>(r: Ring<T>) {
    && Closed(r) && LawsOn(r.m, r.has) && LawsOn(Monoid(r.add, r.zero), r.has)
    && (forall a {:trigger ZeroAt(r, a)} :: r.has(a) ==> ZeroAt(r, a))
    && (forall a, b, c {:trigger DistribAt(r, a, b, c)} :: r.has(a) && r.has(b) && r.has(c) ==> DistribAt(r, a, b, c))
  }

  lemma RingClosed<T(!new)>(r: Ring<T>)
    requires RingLaws(r)
    ensures Closed(r)
  {}

  function Sub<T>(r: Ring<T>, a: T, b: T): T { r.add(a, r.neg(b)) }

  lemma AddAssoc<T(!new)>(r: Ring<T>, a: T, b: T, c: T)
    requires RingLaws(r)
    requires r.has(a) && r.has(b) && r.has(c)
    ensures r.add(r.add(a, b), c) == r.add(a, r.add(b, c))
  {
    RingClosed(r);
    assert AssocAt(Monoid(r.add, r.zero), a, b, c);
  }

  lemma AddComm<T(!new)>(r: Ring<T>, a: T, b: T)
    requires RingLaws(r)
    requires r.has(a) && r.has(b)
    ensures r.add(a, b) == r.add(b, a)
  {
    RingClosed(r);
    assert CommAt(Monoid(r.add, r.zero), a, b);
  }

  lemma AddZero<T(!new)>(r: Ring<T>, a: T)
    requires RingLaws(r)
    requires r.has(a)
    ensures r.add(a, r.zero) == a && r.add(r.zero, a) == a && r.add(a, r.neg(a)) == r.zero && r.add(r.neg(a), a) == r.zero
  {
    RingClosed(r);
    assert ZeroAt(r, a);
    AddComm(r, a, r.zero);
    AddComm(r, a, r.neg(a));
  }

  lemma Distrib<T(!new)>(r: Ring<T>, a: T, b: T, c: T)
    requires RingLaws(r)
    requires r.has(a) && r.has(b) && r.has(c)
    ensures r.m.mul(a, r.add(b, c)) == r.add(r.m.mul(a, b), r.m.mul(a, c))
    ensures r.m.mul(r.add(b, c), a) == r.add(r.m.mul(b, a), r.m.mul(c, a))
  {
    RingClosed(r);
    assert DistribAt(r, a, b, c);
    MulComm(r, a, r.add(b, c));
    MulComm(r, a, b);
    MulComm(r, a, c);
  }

  lemma MulComm<T(!new)>(r: Ring<T>, a: T, b: T)
    requires RingLaws(r)
    requires r.has(a) && r.has(b)
    ensures r.m.mul(a, b) == r.m.mul(b, a)
  {
    assert CommAt(r.m, a, b);
  }

  lemma MulAssoc<T(!new)>(r: Ring<T>, a: T, b: T, c: T)
    requires RingLaws(r)
    requires r.has(a) && r.has(b) && r.has(c)
    ensures r.m.mul(r.m.mul(a, b), c) == r.m.mul(a, r.m.mul(b, c))
  {
    assert AssocAt(r.m, a, b, c);
  }

  lemma MulOne<T(!new)>(r: Ring<T>, a: T)
    requires RingLaws(r)
    requires r.has(a)
    ensures r.m.mul(a, r.m.one) == a && r.m.mul(r.m.one, a) == a
  {
    RingClosed(r);
    assert OneAt(r.m, a);
    MulComm(r, a, r.m.one);
  }

  lemma AddExchange<T(!new)>(r: Ring<T>, a: T, b: T, c: T, d: T)
    requires RingLaws(r)
    requires r.has(a) && r.has(b) && r.has(c) && r.has(d)
    ensures r.add(r.add(a, b), r.add(c, d)) == r.add(r.add(a, c), r.add(b, d))
  {
    hide RingLaws;
    RingClosed(r);
    AddAssoc(r, a, b, r.add(c, d));
    AddAssoc(r, b, c, d);
    AddComm(r, b, c);
    AddAssoc(r, c, b, d);
    AddAssoc(r, a, c, r.add(b, d));
  }

  // (x + y) - y = x
  lemma AddSub<T(!new)>(r: Ring<T>, x: T, y: T)
    requires RingLaws(r)
    requires r.has(x) && r.has(y)
    ensures Sub(r, r.add(x, y), y) == x
  {
    hide RingLaws;
    RingClosed(r);
    AddAssoc(r, x, y, r.neg(y));
    AddZero(r, y);
    AddZero(r, x);
  }

  // What is added to y to give zero is -y.
  lemma NegUnique<T(!new)>(r: Ring<T>, y: T, z: T)
    requires RingLaws(r) && r.add(z, y) == r.zero
    requires r.has(y) && r.has(z)
    ensures z == r.neg(y)
  {
    hide RingLaws;
    RingClosed(r);
    AddSub(r, z, y);
    AddZero(r, r.neg(y));
  }

  lemma NegAdd<T(!new)>(r: Ring<T>, a: T, b: T)
    requires RingLaws(r)
    requires r.has(a) && r.has(b)
    ensures r.neg(r.add(a, b)) == r.add(r.neg(a), r.neg(b))
  {
    hide RingLaws;
    RingClosed(r);
    AddExchange(r, r.neg(a), r.neg(b), a, b);
    AddZero(r, a);
    AddZero(r, b);
    AddZero(r, r.zero);
    NegUnique(r, r.add(a, b), r.add(r.neg(a), r.neg(b)));
  }

  lemma MulZero<T(!new)>(r: Ring<T>, a: T)
    requires RingLaws(r)
    requires r.has(a)
    ensures r.m.mul(a, r.zero) == r.zero && r.m.mul(r.zero, a) == r.zero
  {
    hide RingLaws;
    RingClosed(r);
    var z := r.m.mul(a, r.zero);
    AddZero(r, r.zero);
    Distrib(r, a, r.zero, r.zero);
    AddSub(r, z, z);
    AddZero(r, z);
    MulComm(r, a, r.zero);
  }

  lemma MulNeg<T(!new)>(r: Ring<T>, a: T, b: T)
    requires RingLaws(r)
    requires r.has(a) && r.has(b)
    ensures r.m.mul(a, r.neg(b)) == r.neg(r.m.mul(a, b)) && r.m.mul(r.neg(b), a) == r.neg(r.m.mul(b, a))
  {
    hide RingLaws;
    RingClosed(r);
    Distrib(r, a, r.neg(b), b);
    AddZero(r, b);
    MulZero(r, a);
    NegUnique(r, r.m.mul(a, b), r.m.mul(a, r.neg(b)));
    MulComm(r, a, r.neg(b));
    MulComm(r, a, b);
  }

  lemma NegNeg<T(!new)>(r: Ring<T>, a: T)
    requires RingLaws(r)
    requires r.has(a)
    ensures r.neg(r.neg(a)) == a
  {
    hide RingLaws;
    RingClosed(r);
    AddZero(r, a);
    NegUnique(r, r.neg(a), a);
  }

  // (a + b)(c + d) = (ac + bd) + (ad + bc)
  lemma Expand<T(!new)>(r: Ring<T>, a: T, b: T, c: T, d: T)
    requires RingLaws(r)
    requires r.has(a) && r.has(b) && r.has(c) && r.has(d)
    ensures r.m.mul(r.add(a, b), r.add(c, d))
         == r.add(r.add(r.m.mul(a, c), r.m.mul(b, d)), r.add(r.m.mul(a, d), r.m.mul(b, c)))
  {
    hide RingLaws;
    RingClosed(r);
    Distrib(r, r.add(c, d), a, b);
    Distrib(r, a, c, d);
    Distrib(r, b, c, d);
    AddComm(r, r.m.mul(b, c), r.m.mul(b, d));
    AddExchange(r, r.m.mul(a, c), r.m.mul(a, d), r.m.mul(b, d), r.m.mul(b, c));
  }

  // (a - b)(c - d) = (ac + bd) - (ad + bc)
  lemma ExpandDifferences<T(!new)>(r: Ring<T>, a: T, b: T, c: T, d: T)
    requires RingLaws(r)
    requires r.has(a) && r.has(b) && r.has(c) && r.has(d)
    ensures r.m.mul(Sub(r, a, b), Sub(r, c, d))
         == Sub(r, r.add(r.m.mul(a, c), r.m.mul(b, d)), r.add(r.m.mul(a, d), r.m.mul(b, c)))
  {
    hide RingLaws;
    RingClosed(r);
    Expand(r, a, r.neg(b), c, r.neg(d));
    MulNeg(r, r.neg(b), d);
    MulNeg(r, d, b);
    NegNeg(r, r.m.mul(b, d));
    MulNeg(r, a, d);
    MulNeg(r, c, b);
    NegAdd(r, r.m.mul(a, d), r.m.mul(b, c));
  }

  // (ab)(cd) = (ac)(bd)
  lemma MulExchange<T(!new)>(r: Ring<T>, a: T, b: T, c: T, d: T)
    requires RingLaws(r)
    requires r.has(a) && r.has(b) && r.has(c) && r.has(d)
    ensures r.m.mul(r.m.mul(a, b), r.m.mul(c, d)) == r.m.mul(r.m.mul(a, c), r.m.mul(b, d))
  {
    hide RingLaws;
    RingClosed(r);
    MulAssoc(r, a, b, r.m.mul(c, d));
    MulAssoc(r, b, c, d);
    MulComm(r, b, c);
    MulAssoc(r, c, b, d);
    MulAssoc(r, a, c, r.m.mul(b, d));
  }

  // ---------- powers ----------

  lemma {:induction false} PowIn<T(!new)>(r: Ring<T>, g: T, n: nat)
    requires RingLaws(r) && r.has(g)
    ensures r.has(Pow(r.m, g, n))
  {
    hide RingLaws;
    RingClosed(r);
    PowUnfold(r, g, n);
    if n > 0 { PowIn(r, g, n - 1); }
  }

  lemma PowsIn<T(!new)>(r: Ring<T>, g: T, h: T, n: nat)
    requires RingLaws(r) && r.has(g) && r.has(h)
    ensures r.has(Pow(r.m, g, n)) && r.has(Pow(r.m, h, n)) && r.has(V(r, g, h, n))
  {
    RingClosed(r);
    PowIn(r, g, n);
    PowIn(r, h, n);
  }

  lemma PowUnfold<T>(r: Ring<T>, g: T, n: nat)
    ensures Pow(r.m, g, n) == if n == 0 then r.m.one else r.m.mul(Pow(r.m, g, n - 1), g)
  {}

  lemma PowFirst<T(!new)>(r: Ring<T>, g: T)
    requires RingLaws(r) && r.has(g)
    ensures Pow(r.m, g, 0) == r.m.one && Pow(r.m, g, 1) == g
  {
    PowUnfold(r, g, 0);
    PowUnfold(r, g, 1);
    MulOne(r, g);
  }

  lemma {:induction false} PowSum<T(!new)>(r: Ring<T>, g: T, m: nat, n: nat)
    requires RingLaws(r) && r.has(g)
    ensures Pow(r.m, g, m + n) == r.m.mul(Pow(r.m, g, m), Pow(r.m, g, n))
  {
    hide RingLaws, Pow;
    RingClosed(r);
    PowIn(r, g, m);
    PowIn(r, g, n);
    PowUnfold(r, g, n);
    if n == 0 {
      MulOne(r, Pow(r.m, g, m));
    } else {
      PowSum(r, g, m, n - 1);
      PowIn(r, g, n - 1);
      PowUnfold(r, g, m + n);
      assert m + n - 1 == m + (n - 1);
      MulAssoc(r, Pow(r.m, g, m), Pow(r.m, g, n - 1), g);
    }
  }

  // ---------- traces of a norm-1 element ----------

  // g h = 1
  ghost predicate Units<T>(r: Ring<T>, g: T, h: T) { r.m.mul(g, h) == r.m.one }

  // V_n = g^n + h^n, for h the inverse of g
  ghost function V<T>(r: Ring<T>, g: T, h: T, n: nat): T { r.add(Pow(r.m, g, n), Pow(r.m, h, n)) }

  lemma {:induction false} PowUnits<T(!new)>(r: Ring<T>, g: T, h: T, n: nat)
    requires RingLaws(r) && Units(r, g, h)
    requires r.has(g) && r.has(h)
    ensures Units(r, Pow(r.m, g, n), Pow(r.m, h, n)) && Units(r, Pow(r.m, h, n), Pow(r.m, g, n))
  {
    hide RingLaws, Units;
    RingClosed(r);
    PowUnfold(r, g, n);
    PowUnfold(r, h, n);
    if n == 0 {
      UnitsOne(r);
    } else {
      PowUnits(r, g, h, n - 1);
      PowIn(r, g, n - 1);
      PowIn(r, h, n - 1);
      UnitsTimes(r, Pow(r.m, g, n - 1), g, Pow(r.m, h, n - 1), h);
    }
    PowIn(r, g, n);
    PowIn(r, h, n);
    UnitsSwap(r, Pow(r.m, g, n), Pow(r.m, h, n));
  }

  lemma UnitsOne<T(!new)>(r: Ring<T>)
    requires RingLaws(r)
    ensures Units(r, r.m.one, r.m.one)
  {
    RingClosed(r);
    MulOne(r, r.m.one);
  }

  lemma UnitsTimes<T(!new)>(r: Ring<T>, a: T, g: T, b: T, h: T)
    requires RingLaws(r) && Units(r, a, b) && Units(r, g, h)
    requires r.has(a) && r.has(g) && r.has(b) && r.has(h)
    ensures Units(r, r.m.mul(a, g), r.m.mul(b, h))
  {
    hide RingLaws, Laws;
    RingClosed(r);
    MulExchange(r, a, g, b, h);
    MulOne(r, r.m.one);
  }

  // a (b g) = g when a b = 1
  lemma UnitPass<T(!new)>(r: Ring<T>, a: T, b: T, g: T)
    requires RingLaws(r) && Units(r, a, b)
    requires r.has(a) && r.has(b) && r.has(g)
    ensures r.m.mul(a, r.m.mul(b, g)) == g
  {
    RingClosed(r);
    MulAssoc(r, a, b, g);
    MulOne(r, g);
  }

  // V_m V_n, as a sum of a power and a trace
  lemma VProduct<T(!new)>(r: Ring<T>, g: T, h: T, m: nat, n: nat)
    requires RingLaws(r) && Units(r, g, h)
    requires r.has(g) && r.has(h)
    ensures r.m.mul(V(r, g, h, m), V(r, g, h, m + n)) == r.add(V(r, g, h, m + m + n), V(r, g, h, n))
  {
    hide RingLaws, Laws, Pow, V, Units;
    RingClosed(r);
    VMeans(r, g, h, m);
    VMeans(r, g, h, n);
    VMeans(r, g, h, m + n);
    VMeans(r, g, h, m + m + n);
    var a, b, c, d := Pow(r.m, g, m), Pow(r.m, h, m), Pow(r.m, g, n), Pow(r.m, h, n);
    PowUnits(r, g, h, m);
    PowsIn(r, g, h, m);
    PowsIn(r, g, h, n);
    PowSum(r, g, m, n);
    PowSum(r, h, m, n);
    PowSum(r, g, m, m + n);
    PowSum(r, h, m, m + n);
    assert m + (m + n) == m + m + n;
    Expand(r, a, b, r.m.mul(a, c), r.m.mul(b, d));
    UnitPass(r, a, b, d);
    UnitPass(r, b, a, c);
    AddComm(r, d, c);
  }

  lemma VStart<T(!new)>(r: Ring<T>, g: T, h: T)
    requires RingLaws(r)
    requires r.has(g) && r.has(h)
    ensures V(r, g, h, 0) == r.add(r.m.one, r.m.one) && V(r, g, h, 1) == r.add(g, h)
  {
    RingClosed(r);
    PowFirst(r, g);
    PowFirst(r, h);
  }

  // ---------- the ladder ----------

  ghost predicate Registers<T>(r: Ring<T>, v0: T, v1: T, g: T, h: T, m: nat) {
    v0 == V(r, g, h, m) && v1 == V(r, g, h, m + 1)
  }

  lemma VSquare<T(!new)>(r: Ring<T>, g: T, h: T, m: nat)
    requires RingLaws(r) && Units(r, g, h)
    requires r.has(g) && r.has(h)
    ensures Sub(r, r.m.mul(V(r, g, h, m), V(r, g, h, m)), r.add(r.m.one, r.m.one)) == V(r, g, h, m + m)
  {
    hide RingLaws, V, Sub, Units;
    VStart(r, g, h);
    VProduct(r, g, h, m, 0);
    assert m + 0 == m && m + m + 0 == m + m;
    PowsIn(r, g, h, 0);
    PowsIn(r, g, h, m + m);
    AddSub(r, V(r, g, h, m + m), V(r, g, h, 0));
  }

  lemma VNext<T(!new)>(r: Ring<T>, g: T, h: T, m: nat)
    requires RingLaws(r) && Units(r, g, h)
    requires r.has(g) && r.has(h)
    ensures Sub(r, r.m.mul(V(r, g, h, m), V(r, g, h, m + 1)), r.add(g, h)) == V(r, g, h, m + m + 1)
  {
    hide RingLaws, V, Sub, Units;
    VStart(r, g, h);
    VProduct(r, g, h, m, 1);
    PowsIn(r, g, h, 1);
    PowsIn(r, g, h, m + m + 1);
    AddSub(r, V(r, g, h, m + m + 1), V(r, g, h, 1));
  }

  lemma LadderStep<T(!new)>(r: Ring<T>, v0: T, v1: T, g: T, h: T, m: nat)
    requires RingLaws(r) && Units(r, g, h) && Registers(r, v0, v1, g, h, m)
    requires r.has(g) && r.has(h)
    ensures var t0, t1 := r.add(r.m.one, r.m.one), r.add(g, h);
            && Registers(r, Sub(r, r.m.mul(v0, v0), t0), Sub(r, r.m.mul(v0, v1), t1), g, h, m + m)
            && Registers(r, Sub(r, r.m.mul(v0, v1), t1), Sub(r, r.m.mul(v1, v1), t0), g, h, m + m + 1)
  {
    hide RingLaws, V, Sub, Units;
    VSquare(r, g, h, m);
    VNext(r, g, h, m);
    VSquare(r, g, h, m + 1);
    assert m + 1 + (m + 1) == m + m + 1 + 1;
  }

  // A pair stands for re + im s, where s is the root that generates the extension.
  datatype Pair<T> = Pair(re: T, im: T)

  function Element<T>(r: Ring<T>, e: Pair<T>, s: T): T { r.add(e.re, r.m.mul(e.im, s)) }

  function Conjugate<T>(r: Ring<T>, e: Pair<T>, s: T): T { Sub(r, e.re, r.m.mul(e.im, s)) }

  lemma ElementsIn<T(!new)>(r: Ring<T>, e: Pair<T>, s: T)
    requires RingLaws(r) && r.has(e.re) && r.has(e.im) && r.has(s)
    ensures r.has(Element(r, e, s)) && r.has(Conjugate(r, e, s))
  {
    RingClosed(r);
  }

  lemma SubIn<T(!new)>(r: Ring<T>, a: T, b: T)
    requires RingLaws(r) && r.has(a) && r.has(b)
    ensures r.has(Sub(r, a, b))
  {
    RingClosed(r);
  }

  lemma SumAndDifference<T(!new)>(r: Ring<T>, e: Pair<T>, s: T)
    requires RingLaws(r)
    requires r.has(e.re) && r.has(e.im) && r.has(s)
    ensures r.add(Element(r, e, s), Conjugate(r, e, s)) == r.add(e.re, e.re)
    ensures Sub(r, Element(r, e, s), Conjugate(r, e, s)) == r.add(r.m.mul(e.im, s), r.m.mul(e.im, s))
  {
    hide RingLaws;
    RingClosed(r);
    var x, y := e.re, r.m.mul(e.im, s);
    AddExchange(r, x, y, x, r.neg(y));
    AddZero(r, y);
    AddZero(r, r.add(x, x));
    NegAdd(r, x, r.neg(y));
    NegNeg(r, y);
    AddExchange(r, x, y, r.neg(x), y);
    AddZero(r, x);
    AddZero(r, r.add(y, y));
  }

  /** The ladder of lucas_even: V_2m and V_2m+1 for m = k >> 1. */
  method Ladder<T(!new)>(r: Ring<T>, g: Pair<T>, ghost s: T, k: nat) returns (v0: T, v1: T)
    requires RingLaws(r) && Units(r, Element(r, g, s), Conjugate(r, g, s))
    requires r.has(g.re) && r.has(g.im) && r.has(s)
    ensures Registers(r, v0, v1, Element(r, g, s), Conjugate(r, g, s), k / 2 + k / 2)
  {
    hide RingLaws, V, Element, Conjugate, Units, Sub, Registers, Shr;
    RingClosed(r);
    ghost var a, b := Element(r, g, s), Conjugate(r, g, s);
    var t0 := r.add(r.m.one, r.m.one);
    var t1 := r.add(g.re, g.re);
    SumAndDifference(r, g, s);
    v0 := t0;
    v1 := t1;
    ElementsIn(r, g, s);
    RegistersAtStart(r, a, b);
    var j := SizeInBase2(k) - 1;
    ShrSize(k);
    while true
      invariant 0 <= j < SizeInBase2(k) && Registers(r, v0, v1, a, b, Shr(k, j + 1))
      decreases j
    {
      LadderStep(r, v0, v1, a, b, Shr(k, j + 1));
      ShrStep(k, j);
      if j == 0 {
        v1 := r.m.mul(v0, v1);
        v1 := Sub(r, v1, t1);
        v0 := r.m.mul(v0, v0);
        v0 := Sub(r, v0, t0);
        break;
      }
      if TstBit(k, j) == 1 {
        v0 := r.m.mul(v0, v1);
        v0 := Sub(r, v0, t1);
        v1 := r.m.mul(v1, v1);
        v1 := Sub(r, v1, t0);
      } else {
        v1 := r.m.mul(v0, v1);
        v1 := Sub(r, v1, t1);
        v0 := r.m.mul(v0, v0);
        v0 := Sub(r, v0, t0);
      }
      j := j - 1;
    }
    ShrOne(k);
  }

  lemma RegistersAtStart<T(!new)>(r: Ring<T>, g: T, h: T)
    requires RingLaws(r)
    requires r.has(g) && r.has(h)
    ensures Registers(r, r.add(r.m.one, r.m.one), r.add(g, h), g, h, 0)
  {
    RingClosed(r);
    VStart(r, g, h);
  }

  lemma ShrOne(k: nat)
    ensures Shr(k, 1) == k / 2
  {
    assert Shr(k, 1) == Shr(k, 0) / 2;
  }

  // ---------- rebuilding the power ----------

  // P V_n+1 - 2 V_n = (g - h)(g^(n+1) - h^(n+1))
  lemma Numerator<T(!new)>(r: Ring<T>, g: T, h: T, n: nat)
    requires RingLaws(r) && Units(r, g, h)
    requires r.has(g) && r.has(h)
    ensures Sub(r, r.m.mul(r.add(g, h), V(r, g, h, n + 1)), r.add(V(r, g, h, n), V(r, g, h, n)))
         == r.m.mul(Sub(r, g, h), Sub(r, Pow(r.m, g, n + 1), Pow(r.m, h, n + 1)))
  {
    hide RingLaws, Pow, Units;
    RingClosed(r);
    var j, j', k, k' := Pow(r.m, g, n), Pow(r.m, h, n), Pow(r.m, g, n + 1), Pow(r.m, h, n + 1);
    PowsIn(r, g, h, n);
    PowsIn(r, g, h, n + 1);
    PowNext(r, g, n);
    PowNext(r, h, n);
    UnitsSwap(r, g, h);
    UnitPass(r, g, h, j');
    UnitPass(r, h, g, j);
    // g k' = j' and h k = j
    var w := r.add(r.m.mul(g, k), r.m.mul(h, k'));
    Expand(r, g, h, k, k');
    AddComm(r, j', j);
    var t := r.add(j, j');
    CancelOne(r, w, t);
    ExpandDifferences(r, g, h, k, k');
  }

  lemma UnitsSwap<T(!new)>(r: Ring<T>, g: T, h: T)
    requires RingLaws(r) && Units(r, g, h)
    requires r.has(g) && r.has(h)
    ensures Units(r, h, g)
  {
    RingClosed(r);
    MulComm(r, g, h);
  }

  lemma PowNext<T(!new)>(r: Ring<T>, g: T, n: nat)
    requires RingLaws(r)
    requires r.has(g)
    ensures Pow(r.m, g, n + 1) == r.m.mul(g, Pow(r.m, g, n))
  {
    RingClosed(r);
    PowIn(r, g, n);
    MulComm(r, Pow(r.m, g, n), g);
  }

  // (w + t) - (t + t) = w - t
  lemma CancelOne<T(!new)>(r: Ring<T>, w: T, t: T)
    requires RingLaws(r)
    requires r.has(w) && r.has(t)
    ensures Sub(r, r.add(w, t), r.add(t, t)) == Sub(r, w, t)
  {
    hide RingLaws;
    RingClosed(r);
    NegAdd(r, t, t);
    AddExchange(r, w, t, r.neg(t), r.neg(t));
    AddZero(r, t);
    AddZero(r, r.add(w, r.neg(t)));
  }

  // P^2 - 2 - 2 = (g - h)^2
  lemma Denominator<T(!new)>(r: Ring<T>, g: T, h: T)
    requires RingLaws(r) && Units(r, g, h)
    requires r.has(g) && r.has(h)
    ensures var two := r.add(r.m.one, r.m.one);
            Sub(r, Sub(r, r.m.mul(r.add(g, h), r.add(g, h)), two), two) == r.m.mul(Sub(r, g, h), Sub(r, g, h))
  {
    hide RingLaws, Units;
    RingClosed(r);
    UnitsSwap(r, g, h);
    UnitsMeans(r, g, h);
    UnitsMeans(r, h, g);
    var w, two := r.add(r.m.mul(g, g), r.m.mul(h, h)), r.add(r.m.one, r.m.one);
    Expand(r, g, h, g, h);
    AddSub(r, w, two);
    ExpandDifferences(r, g, h, g, h);
  }

  lemma UnitsMeans<T>(r: Ring<T>, g: T, h: T)
    requires Units(r, g, h)
    ensures r.m.mul(g, h) == r.m.one
  {}

  // Halving is multiplication by 1/2.
  ghost predicate Halves<T>(r: Ring<T>, half: T) { r.add(half, half) == r.m.one }

  lemma HalfDouble<T(!new)>(r: Ring<T>, half: T, x: T)
    requires RingLaws(r) && Halves(r, half)
    requires r.has(half) && r.has(x)
    ensures r.m.mul(half, r.add(x, x)) == x
  {
    RingClosed(r);
    Distrib(r, half, x, x);
    Distrib(r, x, half, half);
    MulOne(r, x);
  }

  // ((k + k') + (k - k'))/2 = k
  lemma HalfSum<T(!new)>(r: Ring<T>, half: T, k: T, k': T)
    requires RingLaws(r) && Halves(r, half)
    requires r.has(half) && r.has(k) && r.has(k')
    ensures r.add(r.m.mul(half, r.add(k, k')), r.m.mul(half, Sub(r, k, k'))) == k
  {
    hide RingLaws, Halves;
    RingClosed(r);
    Distrib(r, half, r.add(k, k'), Sub(r, k, k'));
    AddExchange(r, k, k', k, r.neg(k'));
    AddZero(r, k');
    AddZero(r, r.add(k, k));
    HalfDouble(r, half, k);
  }

  // The rebuilt imaginary part times s is (g^n - h^n)/2.
  lemma Rebuild<T(!new)>(r: Ring<T>, half: T, delta: T, k: T, inv: T, y: T, s: T)
    requires RingLaws(r) && Halves(r, half) && delta == r.add(r.m.mul(y, s), r.m.mul(y, s))
    requires r.has(half) && r.has(delta) && r.has(k) && r.has(inv) && r.has(y) && r.has(s)
    requires r.m.mul(r.m.mul(delta, delta), inv) == r.m.one
    ensures r.m.mul(r.m.mul(r.m.mul(r.m.mul(delta, k), inv), y), s) == r.m.mul(half, k)
  {
    hide RingLaws, Halves;
    RingClosed(r);
    HalfDouble(r, half, r.m.mul(y, s));
    var w := r.m.mul(half, delta);
    var dk := r.m.mul(delta, k);
    MulAssoc(r, r.m.mul(dk, inv), y, s);
    // ((delta k) inv)(half delta) = half k (delta delta inv)
    MulComm(r, dk, inv);
    MulComm(r, delta, k);
    MulAssoc(r, inv, dk, w);
    MulAssoc(r, k, delta, w);
    MulComm(r, half, delta);
    MulAssoc(r, delta, delta, half);
    var dd := r.m.mul(delta, delta);
    MulAssoc(r, k, dd, half);
    MulComm(r, k, dd);
    MulAssoc(r, dd, k, half);
    MulComm(r, inv, dd);
    MulAssoc(r, inv, dd, r.m.mul(k, half));
    MulOne(r, r.m.mul(k, half));
    MulComm(r, k, half);
  }

  // Without an imaginary part the element is its own conjugate.
  lemma SelfConjugate<T(!new)>(r: Ring<T>, e: Pair<T>, s: T)
    requires RingLaws(r) && e.im == r.zero
    requires r.has(e.re) && r.has(e.im) && r.has(s)
    ensures Element(r, e, s) == Conjugate(r, e, s) == e.re
  {
    hide RingLaws;
    RingClosed(r);
    MulZero(r, s);
    AddZero(r, e.re);
    AddZero(r, r.zero);
    NegUnique(r, r.zero, r.zero);
  }

  lemma RebuildZero<T(!new)>(r: Ring<T>, half: T, k: T, v: T, y: T, s: T)
    requires RingLaws(r) && Halves(r, half) && y == r.zero
    requires r.has(half) && r.has(k) && r.has(v) && r.has(y) && r.has(s)
    ensures r.add(r.m.mul(half, r.add(k, k)), r.m.mul(r.m.mul(v, y), s)) == k
  {
    hide RingLaws, Halves;
    RingClosed(r);
    HalfDouble(r, half, k);
    MulZero(r, v);
    MulZero(r, s);
    AddZero(r, k);
  }

  // P^2 - 4, for P twice the real part
  function Discriminant<T>(r: Ring<T>, re: T): T {
    var two := r.add(r.m.one, r.m.one);
    Sub(r, Sub(r, r.m.mul(r.add(re, re), r.add(re, re)), two), two)
  }

  // The pair that the last lines form is the power.
  lemma Rebuilt<T(!new)>(r: Ring<T>, half: T, i: T, g: Pair<T>, s: T, n: nat, v0: T, v1: T, out: Pair<T>)
    requires RingLaws(r) && Halves(r, half) && Units(r, Element(r, g, s), Conjugate(r, g, s))
    requires r.has(half) && r.has(i) && r.has(g.re) && r.has(g.im) && r.has(s)
    requires r.m.mul(Discriminant(r, g.re), i) == r.m.one || g.im == r.zero
    requires Registers(r, v0, v1, Element(r, g, s), Conjugate(r, g, s), n)
    requires out.re == r.m.mul(half, v1)
    requires out.im == r.m.mul(r.m.mul(Sub(r, r.m.mul(r.add(g.re, g.re), v1), r.add(v0, v0)), i), g.im)
    ensures Element(r, out, s) == Pow(r.m, Element(r, g, s), n + 1)
  {
    hide RingLaws, Halves, Units, Element, Conjugate, V, Pow, Sub;
    RingClosed(r);
    var a, b := Element(r, g, s), Conjugate(r, g, s);
    var k, k' := Pow(r.m, a, n + 1), Pow(r.m, b, n + 1);
    ElementsIn(r, g, s);
    PowsIn(r, a, b, n);
    PowsIn(r, a, b, n + 1);
    SubIn(r, a, b);
    SubIn(r, k, k');
    SubIn(r, r.m.mul(r.add(g.re, g.re), V(r, a, b, n + 1)), r.add(V(r, a, b, n), V(r, a, b, n)));
    SumAndDifference(r, g, s);
    Numerator(r, a, b, n);
    Denominator(r, a, b);
    VMeans(r, a, b, n + 1);
    ElementMeans(r, out, s);
    if g.im == r.zero {
      SelfConjugate(r, g, s);
      RebuildZero(r, half, k, r.m.mul(Sub(r, r.m.mul(r.add(g.re, g.re), v1), r.add(v0, v0)), i), g.im, s);
    } else {
      Rebuild(r, half, Sub(r, a, b), Sub(r, k, k'), i, g.im, s);
      HalfSum(r, half, k, k');
    }
  }

  /** lucas_even reads the last bit as 1: for odd cofactors it returns in^cofactor, when P^2 - 4 is invertible or
      the element lies in the base field. */
  method LucasEven<T(!new)>(r: Ring<T>, half: T, inv: T -> T, g: Pair<T>, ghost s: T, cofactor: nat) returns (out: Pair<T>)
    requires RingLaws(r) && Halves(r, half) && Units(r, Element(r, g, s), Conjugate(r, g, s))
    requires r.has(half) && r.has(g.re) && r.has(g.im) && r.has(s)
    requires r.has(inv(Discriminant(r, g.re)))
    requires r.m.mul(Discriminant(r, g.re), inv(Discriminant(r, g.re))) == r.m.one || g.im == r.zero
    ensures Element(r, out, s) == Pow(r.m, Element(r, g, s), if cofactor % 2 == 1 then cofactor else cofactor + 1)
  {
    hide RingLaws, Halves, Units, Element, Conjugate, V, Pow, Sub, Registers;
    RingClosed(r);
    var v0, v1 := Ladder(r, g, s, cofactor);
    ghost var r0, r1 := v0, v1;
    var t0, t1 := r.add(r.m.one, r.m.one), r.add(g.re, g.re);
    v0 := r.add(v0, v0);
    var in0 := r.m.mul(t1, v1);
    in0 := Sub(r, in0, v0);
    t1 := r.m.mul(t1, t1);
    t1 := Sub(r, t1, t0);
    t1 := Sub(r, t1, t0);
    v0 := r.m.mul(half, v1);
    v1 := r.m.mul(in0, inv(t1));
    v1 := r.m.mul(v1, g.im);
    out := Pair(v0, v1);
    Rebuilt(r, half, inv(t1), g, s, cofactor / 2 + cofactor / 2, r0, r1, out);
  }

  lemma VMeans<T>(r: Ring<T>, g: T, h: T, n: nat)
    ensures V(r, g, h, n) == r.add(Pow(r.m, g, n), Pow(r.m, h, n))
  {}

  lemma ElementMeans<T>(r: Ring<T>, e: Pair<T>, s: T)
    ensures Element(r, e, s) == r.add(e.re, r.m.mul(e.im, s))
  {}
}
