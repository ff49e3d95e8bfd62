/** Rings for LucasExtension: the residues modulo q, and pairs of them as the extension by a root of d. */
module ResidueRings {
  import opened Modular
  import opened Quadratic
  import opened LucasExtension
  import W = PowWindow

  // ---------- residues ----------

  function Mod(x: int, q: int): int
    requires q > 0
  {
    x % q
  }

  function ResidueRing(q: int): Ring<int>
    requires q > 1
  {
    Ring((a: int, b: int) => Mod(a + b, q), (a: int) => Mod(-a, q), 0, W.Monoid((a: int, b: int) => Mod(a * b, q), 1), (a: int) => 0 <= a < q)
  }

  // Reducing an operand first changes nothing.
  lemma ReduceSum(a: int, b: int, q: int)
    requires q > 0
    ensures Mod(Mod(a, q) + b, q) == Mod(a + b, q) && Mod(a + Mod(b, q), q) == Mod(a + b, q)
  {
    EqMod(a, q);
    EqMod(b, q);
    EqRefl(a, q);
    EqRefl(b, q);
    EqAdd(a % q, a, b, b, q);
    EqAdd(a, a, b % q, b, q);
    EqIffMod(a % q + b, a + b, q);
    EqIffMod(a + b % q, a + b, q);
  }

  lemma ReduceProduct(a: int, b: int, q: int)
    requires q > 0
    ensures Mod(Mod(a, q) * b, q) == Mod(a * b, q) && Mod(a * Mod(b, q), q) == Mod(a * b, q)
  {
    EqMod(a, q);
    EqMod(b, q);
    EqRefl(a, q);
    EqRefl(b, q);
    EqMul(a % q, a, b, b, q);
    EqMul(a, a, b % q, b, q);
    EqIffMod(a % q * b, a * b, q);
    EqIffMod(a * (b % q), a * b, q);
  }

  lemma ModSelf(a: int, q: int)
    requires 0 <= a < q
    ensures Mod(a, q) == a && Mod(0, q) == 0
  {
    SmallMod(a, q);
    SmallMod(0, q);
  }

  lemma ResidueMul(q: int, a: int, b: int, c: int)
    requires q > 1
    ensures W.AssocAt(ResidueRing(q).m, a, b, c) && W.CommAt(ResidueRing(q).m, a, b)
  {
    hide Mod;
    ReduceProduct(a * b, c, q);
    ReduceProduct(a, b * c, q);
    TimesAssoc(a, b, c);
    assert a * b == b * a;
  }

  lemma ResidueAdd(q: int, a: int, b: int, c: int)
    requires q > 1
    ensures var g := W.Monoid(ResidueRing(q).add, ResidueRing(q).zero); W.AssocAt(g, a, b, c) && W.CommAt(g, a, b)
  {
    hide Mod;
    ReduceSum(a + b, c, q);
    ReduceSum(a, b + c, q);
    assert a + b + c == a + (b + c);
  }

  lemma ResidueDistrib(q: int, a: int, b: int, c: int)
    requires q > 1
    ensures DistribAt(ResidueRing(q), a, b, c)
  {
    hide Mod;
    ReduceProduct(a, b + c, q);
    ReduceSum(a * b, a * c, q);
    ReduceSum(Mod(a * b, q), a * c, q);
    assert a * (b + c) == a * b + a * c;
  }

  lemma ResidueUnits(q: int, a: int)
    requires q > 1 && 0 <= a < q
    ensures var r := ResidueRing(q);
            W.OneAt(r.m, a) && W.OneAt(W.Monoid(r.add, r.zero), a) && ZeroAt(r, a)
  {
    ModSelf(a, q);
    hide Mod;
    ReduceSum(a, -a, q);
    assert a * 1 == a && a + -a == 0;
  }

  lemma ResidueClosed(q: int)
    requires q > 1
    ensures Closed(ResidueRing(q))
  {
    var r := ResidueRing(q);
    forall a, b ensures r.has(r.add(a, b)) && r.has(r.m.mul(a, b)) {
      EqMod(a + b, q);
      EqMod(a * b, q);
    }
    forall a ensures r.has(r.neg(a)) { EqMod(-a, q); }
  }

  lemma ResidueMonoids(q: int)
    requires q > 1
    ensures LawsOn(ResidueRing(q).m, ResidueRing(q).has) && LawsOn(W.Monoid(ResidueRing(q).add, ResidueRing(q).zero), ResidueRing(q).has)
  {
    hide W.AssocAt, W.CommAt, W.OneAt, Mod;
    forall a, b, c ensures W.AssocAt(ResidueRing(q).m, a, b, c) { ResidueMul(q, a, b, c); }
    forall a, b ensures W.CommAt(ResidueRing(q).m, a, b) { ResidueMul(q, a, b, 0); }
    forall a | ResidueRing(q).has(a) ensures W.OneAt(ResidueRing(q).m, a) { ResidueUnits(q, a); }
    forall a, b, c ensures W.AssocAt(W.Monoid(ResidueRing(q).add, ResidueRing(q).zero), a, b, c) { ResidueAdd(q, a, b, c); }
    forall a, b ensures W.CommAt(W.Monoid(ResidueRing(q).add, ResidueRing(q).zero), a, b) { ResidueAdd(q, a, b, 0); }
    forall a | ResidueRing(q).has(a) ensures W.OneAt(W.Monoid(ResidueRing(q).add, ResidueRing(q).zero), a) { ResidueUnits(q, a); }
  }

  /** The residues modulo an odd q are a ring with a half of 1. */
  lemma {:induction false} ResidueLaws(q: int)
    requires q > 1 && q % 2 == 1
    ensures RingLaws(ResidueRing(q)) && ResidueRing(q).has((q + 1) / 2) && Halves(ResidueRing(q), (q + 1) / 2)
  {
    hide ZeroAt, DistribAt, Closed, LawsOn, Mod;
    ResidueClosed(q);
    ResidueMonoids(q);
    forall a, b, c ensures DistribAt(ResidueRing(q), a, b, c) { ResidueDistrib(q, a, b, c); }
    forall a | ResidueRing(q).has(a) ensures ZeroAt(ResidueRing(q), a) { ResidueUnits(q, a); }
    HalfOfOne(q);
  }

  lemma HalfOfOne(q: int)
    requires q > 1 && q % 2 == 1
    ensures Mod((q + 1) / 2 + (q + 1) / 2, q) == 1 && Mod(0, q) == 0 && 0 <= (q + 1) / 2 < q
  {
    EqIntro(q + 1, 1, 1, q);
    EqIffMod(q + 1, 1, q);
    SmallMod(1, q);
    SmallMod(0, q);
  }

  // ---------- the extension by a root of d ----------

  function Reduced(e: F2, q: int): F2
    requires q > 1
  {
    F2(Mod(e.re, q), Mod(e.im, q))
  }

  function Neg2(a: F2): F2 { F2(-a.re, -a.im) }

  function ExtensionRing(d: int, q: int): Ring<F2>
    requires q > 1
  {
    Ring((a: F2, b: F2) => Reduced(Sum2(a, b), q), (a: F2) => Reduced(Neg2(a), q), F2(0, 0),
         W.Monoid((a: F2, b: F2) => Reduced(Mul2(a, b, d), q), One), (a: F2) => 0 <= a.re < q && 0 <= a.im < q)
  }

  // What the operations of the ring are.
  lemma ZeroOf(d: int, q: int)
    requires q > 1
    ensures ExtensionRing(d, q).zero == F2(0, 0) && ExtensionRing(d, q).m.one == One
  {}

  lemma HasOf(d: int, q: int, a: F2)
    requires q > 1
    ensures ExtensionRing(d, q).has(a) <==> 0 <= a.re < q && 0 <= a.im < q
  {}

  lemma AddOf(d: int, q: int, a: F2, b: F2)
    requires q > 1
    ensures ExtensionRing(d, q).add(a, b) == Reduced(Sum2(a, b), q)
  {
    hide Reduced, Sum2;
  }

  lemma NegOf(d: int, q: int, a: F2)
    requires q > 1
    ensures ExtensionRing(d, q).neg(a) == Reduced(Neg2(a), q)
  {
    hide Reduced, Neg2;
  }

  lemma MulOf(d: int, q: int, a: F2, b: F2)
    requires q > 1
    ensures ExtensionRing(d, q).m.mul(a, b) == Reduced(Mul2(a, b, d), q)
  {
    hide Reduced, Mul2;
  }

  lemma ReducedEq(e: F2, q: int)
    requires q > 1
    ensures Eq2(Reduced(e, q), e, q)
  {
    EqMod(e.re, q);
    EqMod(e.im, q);
  }

  lemma ReducedSame(a: F2, b: F2, q: int)
    requires q > 1 && Eq2(a, b, q)
    ensures Reduced(a, q) == Reduced(b, q)
  {
    EqIffMod(a.re, b.re, q);
    EqIffMod(a.im, b.im, q);
  }

  lemma ReduceProduct2(a: F2, b: F2, d: int, q: int)
    requires q > 1
    ensures Reduced(Mul2(Reduced(a, q), b, d), q) == Reduced(Mul2(a, b, d), q)
    ensures Reduced(Mul2(a, Reduced(b, q), d), q) == Reduced(Mul2(a, b, d), q)
  {
    hide Mul2, Reduced, Eq2;
    ReducedEq(a, q);
    ReducedEq(b, q);
    Refl2(a, q);
    Refl2(b, q);
    CongMul2(Reduced(a, q), a, b, b, d, q);
    CongMul2(a, a, Reduced(b, q), b, d, q);
    ReducedSame(Mul2(Reduced(a, q), b, d), Mul2(a, b, d), q);
    ReducedSame(Mul2(a, Reduced(b, q), d), Mul2(a, b, d), q);
  }

  lemma ReduceSum2(a: F2, b: F2, q: int)
    requires q > 1
    ensures Reduced(Sum2(Reduced(a, q), b), q) == Reduced(Sum2(a, b), q)
    ensures Reduced(Sum2(a, Reduced(b, q)), q) == Reduced(Sum2(a, b), q)
  {
    ReduceSum(a.re, b.re, q);
    ReduceSum(a.im, b.im, q);
  }

  lemma ExtensionMul(d: int, q: int, a: F2, b: F2, c: F2)
    requires q > 1
    ensures W.AssocAt(ExtensionRing(d, q).m, a, b, c) && W.CommAt(ExtensionRing(d, q).m, a, b)
  {
    hide ExtensionRing, Mul2, Reduced;
    MulOf(d, q, a, b);
    MulOf(d, q, b, a);
    MulOf(d, q, b, c);
    MulOf(d, q, Reduced(Mul2(a, b, d), q), c);
    MulOf(d, q, a, Reduced(Mul2(b, c, d), q));
    ReduceProduct2(Mul2(a, b, d), c, d, q);
    ReduceProduct2(a, Mul2(b, c, d), d, q);
    MulAssoc2(a, b, c, d);
    MulComm2(a, b, d);
  }

  lemma MulAssoc2(a: F2, b: F2, c: F2, d: int)
    ensures Mul2(Mul2(a, b, d), c, d) == Mul2(a, Mul2(b, c, d), d)
  {
    Quadratic.MulAssoc(a, b, c, d);
  }

  lemma MulComm2(a: F2, b: F2, d: int)
    ensures Mul2(a, b, d) == Mul2(b, a, d)
  {
    Quadratic.MulComm(a, b, d);
  }

  lemma ExtensionAdd(d: int, q: int, a: F2, b: F2, c: F2)
    requires q > 1
    ensures var g := W.Monoid(ExtensionRing(d, q).add, ExtensionRing(d, q).zero); W.AssocAt(g, a, b, c) && W.CommAt(g, a, b)
  {
    SumLaws(a, b, c);
    hide ExtensionRing, Reduced, Sum2;
    AddOf(d, q, a, b);
    AddOf(d, q, b, a);
    AddOf(d, q, b, c);
    AddOf(d, q, Reduced(Sum2(a, b), q), c);
    AddOf(d, q, a, Reduced(Sum2(b, c), q));
    ReduceSum2(Sum2(a, b), c, q);
    ReduceSum2(a, Sum2(b, c), q);
  }

  lemma SumLaws(a: F2, b: F2, c: F2)
    ensures Sum2(Sum2(a, b), c) == Sum2(a, Sum2(b, c)) && Sum2(a, b) == Sum2(b, a)
  {}

  lemma ExtensionDistrib(d: int, q: int, a: F2, b: F2, c: F2)
    requires q > 1
    ensures DistribAt(ExtensionRing(d, q), a, b, c)
  {
    SumTimes(a, b, c, d);
    hide ExtensionRing, Mul2, Reduced, Sum2;
    var ab, ac := Mul2(a, b, d), Mul2(a, c, d);
    AddOf(d, q, b, c);
    MulOf(d, q, a, Reduced(Sum2(b, c), q));
    MulOf(d, q, a, b);
    MulOf(d, q, a, c);
    AddOf(d, q, Reduced(ab, q), Reduced(ac, q));
    ReduceProduct2(a, Sum2(b, c), d, q);
    ReduceSum2(ab, ac, q);
    ReduceSum2(Reduced(ab, q), ac, q);
  }

  lemma SumTimes(a: F2, b: F2, c: F2, d: int)
    ensures Mul2(a, Sum2(b, c), d) == Sum2(Mul2(a, b, d), Mul2(a, c, d))
  {
    assert a.re * (b.re + c.re) == a.re * b.re + a.re * c.re && a.im * (b.re + c.re) == a.im * b.re + a.im * c.re;
    assert a.re * (b.im + c.im) == a.re * b.im + a.re * c.im;
    assert d * (a.im * (b.im + c.im)) == d * (a.im * b.im) + d * (a.im * c.im);
  }

  lemma ExtensionOne(d: int, q: int, a: F2)
    requires q > 1 && 0 <= a.re < q && 0 <= a.im < q
    ensures W.OneAt(ExtensionRing(d, q).m, a)
  {
    hide ExtensionRing, Mul2, Reduced;
    ZeroOf(d, q);
    MulOf(d, q, a, One);
    Quadratic.MulOne(a, d);
    ReducedSelf(a, q);
  }

  lemma ExtensionZero(d: int, q: int, a: F2)
    requires q > 1 && 0 <= a.re < q && 0 <= a.im < q
    ensures W.OneAt(W.Monoid(ExtensionRing(d, q).add, ExtensionRing(d, q).zero), a) && ZeroAt(ExtensionRing(d, q), a)
  {
    SumZero(a);
    hide ExtensionRing, Reduced, Sum2, Neg2;
    ZeroOf(d, q);
    ReducedSelf(a, q);
    ReducedSelf(F2(0, 0), q);
    AddOf(d, q, a, F2(0, 0));
    NegOf(d, q, a);
    AddOf(d, q, a, Reduced(Neg2(a), q));
    ReduceSum2(a, Neg2(a), q);
  }

  lemma SumZero(a: F2)
    ensures Sum2(a, Neg2(a)) == F2(0, 0) && Sum2(a, F2(0, 0)) == a
  {}

  lemma ReducedSelf(a: F2, q: int)
    requires q > 1 && 0 <= a.re < q && 0 <= a.im < q
    ensures Reduced(a, q) == a
  {
    SmallMod(a.re, q);
    SmallMod(a.im, q);
  }

  lemma ReducedIn(d: int, q: int, e: F2)
    requires q > 1
    ensures ExtensionRing(d, q).has(Reduced(e, q))
  {
    HasOf(d, q, Reduced(e, q));
    EqMod(e.re, q);
    EqMod(e.im, q);
    hide ExtensionRing;
  }

  lemma ExtensionClosed(d: int, q: int)
    requires q > 1
    ensures Closed(ExtensionRing(d, q))
  {
    hide ExtensionRing, Reduced, Mul2, Sum2, Neg2;
    ZeroOf(d, q);
    HasOf(d, q, F2(0, 0));
    HasOf(d, q, One);
    forall a: F2, b: F2 ensures ExtensionRing(d, q).has(ExtensionRing(d, q).add(a, b)) && ExtensionRing(d, q).has(ExtensionRing(d, q).m.mul(a, b)) {
      AddOf(d, q, a, b);
      MulOf(d, q, a, b);
      ReducedIn(d, q, Sum2(a, b));
      ReducedIn(d, q, Mul2(a, b, d));
    }
    forall a: F2 ensures ExtensionRing(d, q).has(ExtensionRing(d, q).neg(a)) {
      NegOf(d, q, a);
      ReducedIn(d, q, Neg2(a));
    }
  }

  lemma ExtensionMonoids(d: int, q: int)
    requires q > 1
    ensures LawsOn(ExtensionRing(d, q).m, ExtensionRing(d, q).has) && LawsOn(W.Monoid(ExtensionRing(d, q).add, ExtensionRing(d, q).zero), ExtensionRing(d, q).has)
  {
    hide W.AssocAt, W.CommAt, W.OneAt, ExtensionRing;
    forall a, b, c ensures W.AssocAt(ExtensionRing(d, q).m, a, b, c) { ExtensionMul(d, q, a, b, c); }
    forall a, b ensures W.CommAt(ExtensionRing(d, q).m, a, b) { ExtensionMul(d, q, a, b, One); }
    forall a | ExtensionRing(d, q).has(a) ensures W.OneAt(ExtensionRing(d, q).m, a) {
      HasOf(d, q, a);
      ExtensionOne(d, q, a);
    }
    forall a, b, c ensures W.AssocAt(W.Monoid(ExtensionRing(d, q).add, ExtensionRing(d, q).zero), a, b, c) { ExtensionAdd(d, q, a, b, c); }
    forall a, b ensures W.CommAt(W.Monoid(ExtensionRing(d, q).add, ExtensionRing(d, q).zero), a, b) { ExtensionAdd(d, q, a, b, One); }
    forall a | ExtensionRing(d, q).has(a) ensures W.OneAt(W.Monoid(ExtensionRing(d, q).add, ExtensionRing(d, q).zero), a) {
      HasOf(d, q, a);
      ExtensionZero(d, q, a);
    }
  }

  /** Pairs of residues, multiplied as x + y sqrt d, are a ring with a half of 1. */
  lemma {:induction false} ExtensionLaws(d: int, q: int)
    requires q > 1 && q % 2 == 1
    ensures RingLaws(ExtensionRing(d, q)) && ExtensionRing(d, q).has(F2((q + 1) / 2, 0)) && Halves(ExtensionRing(d, q), F2((q + 1) / 2, 0))
  {
    hide ZeroAt, DistribAt, Closed, LawsOn, ExtensionRing, Halves;
    ExtensionClosed(d, q);
    ExtensionMonoids(d, q);
    forall a, b, c ensures DistribAt(ExtensionRing(d, q), a, b, c) { ExtensionDistrib(d, q, a, b, c); }
    forall a | ExtensionRing(d, q).has(a) ensures ZeroAt(ExtensionRing(d, q), a) {
      HasOf(d, q, a);
      ExtensionZero(d, q, a);
    }
    HalfOfBase(d, q);
  }

  lemma HalfPair(q: int, h: F2)
    requires q > 1 && q % 2 == 1 && h == F2((q + 1) / 2, 0)
    ensures Reduced(Sum2(h, h), q) == One && 0 <= h.re < q
  {
    hide Mod;
    HalfOfOne(q);
    assert Sum2(h, h) == F2(h.re + h.re, 0);
  }

  lemma HalfOfBase(d: int, q: int)
    requires q > 1 && q % 2 == 1
    ensures Halves(ExtensionRing(d, q), F2((q + 1) / 2, 0)) && ExtensionRing(d, q).has(F2((q + 1) / 2, 0))
  {
    hide ExtensionRing, Reduced, Sum2;
    var h := F2((q + 1) / 2, 0);
    HalfPair(q, h);
    AddOf(d, q, h, h);
    ZeroOf(d, q);
    HasOf(d, q, h);
  }

  // A base-field element in the extension, and the root of d
  function Base(x: int): F2 { F2(x, 0) }

  const Root := F2(0, 1)

  lemma RootSquare(d: int, q: int)
    requires q > 1
    ensures ExtensionRing(d, q).m.mul(Root, Root) == Reduced(Base(d), q)
  {
    RootTimes(0, d);
    hide ExtensionRing, Mul2, Reduced;
    MulOf(d, q, Root, Root);
  }

  lemma RootMultiple(y: int, d: int, q: int)
    requires q > 1 && 0 <= y < q
    ensures ExtensionRing(d, q).m.mul(Base(y), Root) == F2(0, y)
  {
    RootTimes(y, d);
    ReducedSelf(F2(0, y), q);
    hide ExtensionRing, Mul2, Reduced;
    MulOf(d, q, Base(y), Root);
  }

  lemma PlainElement(x: int, y: int, d: int, q: int)
    requires q > 1 && 0 <= x < q && 0 <= y < q
    ensures Element(ExtensionRing(d, q), Pair(Base(x), Base(y)), Root) == F2(x, y)
  {
    RootMultiple(y, d, q);
    AddOf(d, q, Base(x), F2(0, y));
    PairSums(x, y);
    ReducedSelf(F2(x, y), q);
    hide ExtensionRing, Reduced, Sum2, Neg2;
  }

  lemma PlainConjugate(x: int, y: int, d: int, q: int)
    requires q > 1 && 0 <= x < q && 0 <= y < q
    ensures Conjugate(ExtensionRing(d, q), Pair(Base(x), Base(y)), Root) == Reduced(F2(x, -y), q)
  {
    RootMultiple(y, d, q);
    NegOf(d, q, F2(0, y));
    AddOf(d, q, Base(x), Reduced(Neg2(F2(0, y)), q));
    ReduceSum2(Base(x), Neg2(F2(0, y)), q);
    PairSums(x, y);
    hide ExtensionRing, Reduced, Sum2, Neg2;
  }

  /** Root squares to d, and the pair of x and y stands for x + y sqrt d. */
  lemma {:induction false} ExtensionElement(x: int, y: int, d: int, q: int)
    requires q > 1 && 0 <= x < q && 0 <= y < q
    ensures var r := ExtensionRing(d, q);
            && r.m.mul(Root, Root) == Reduced(Base(d), q)
            && Element(r, Pair(Base(x), Base(y)), Root) == F2(x, y)
            && Conjugate(r, Pair(Base(x), Base(y)), Root) == Reduced(F2(x, -y), q)
  {
    hide ExtensionRing, Reduced, Element, Conjugate;
    RootSquare(d, q);
    PlainElement(x, y, d, q);
    PlainConjugate(x, y, d, q);
  }

  lemma PairSums(x: int, y: int)
    ensures Sum2(Base(x), F2(0, y)) == F2(x, y) && Sum2(Base(x), Neg2(F2(0, y))) == F2(x, -y)
  {}

  lemma RootTimes(y: int, d: int)
    ensures Mul2(Root, Root, d) == Base(d) && Mul2(Base(y), Root, d) == F2(0, y)
  {
    assert d * (1 * 1) == d && d * (0 * 1) == 0 && y * 1 == y;
  }

  /** The condition of the ladder is that of norm 1, and powers there are powers of pairs. */
  lemma {:induction false} ExtensionNorm(x: int, y: int, d: int, q: int)
    requires q > 1 && 0 <= x < q && 0 <= y < q
    ensures var r := ExtensionRing(d, q);
            Units(r, Element(r, Pair(Base(x), Base(y)), Root), Conjugate(r, Pair(Base(x), Base(y)), Root)) <==> Eq(Norm(F2(x, y), d), 1, q)
  {
    hide ExtensionRing, Mul2, Norm, Element, Conjugate, Reduced;
    ExtensionElement(x, y, d, q);
    NormTimes(x, y, d);
    MulOf(d, q, F2(x, y), Reduced(F2(x, -y), q));
    ZeroOf(d, q);
    ReduceProduct2(F2(x, y), F2(x, -y), d, q);
    ReducedOne(Norm(F2(x, y), d), q);
  }

  lemma ReducedOne(n: int, q: int)
    requires q > 1
    ensures Reduced(F2(n, 0), q) == One <==> Eq(n, 1, q)
  {
    EqIffMod(n, 1, q);
    SmallMod(1, q);
    SmallMod(0, q);
  }

  lemma NormTimes(x: int, y: int, d: int)
    ensures Mul2(F2(x, y), F2(x, -y), d) == F2(Norm(F2(x, y), d), 0)
  {
    assert y * -y == -(y * y) && x * -y == -(y * x);
    assert d * -(y * y) == -(d * (y * y));
  }

  lemma {:induction false} ExtensionPow(e: F2, n: nat, d: int, q: int)
    requires q > 1 && 0 <= e.re < q && 0 <= e.im < q
    ensures W.Pow(ExtensionRing(d, q).m, e, n) == Reduced(Pow2(e, n, d), q)
  {
    hide ExtensionRing, Mul2, Reduced;
    if n == 0 {
      ZeroOf(d, q);
      ReducedSelf(One, q);
    } else {
      ExtensionPow(e, n - 1, d, q);
      MulOf(d, q, Reduced(Pow2(e, n - 1, d), q), e);
      ReduceProduct2(Pow2(e, n - 1, d), e, d, q);
    }
  }

  // ---------- the ladder over a prime field ----------

  // The residue of x as an element of the extension.
  function InBase(x: int, q: int): F2
    requires q > 1
  {
    Reduced(Base(x), q)
  }

  lemma BaseSums(u: int, v: int, d: int)
    ensures Sum2(Base(u), Base(v)) == Base(u + v) && Neg2(Base(v)) == Base(-v) && Mul2(Base(u), Base(v), d) == Base(u * v)
  {
    assert d * (0 * 0) == 0 && u * 0 == 0 && 0 * v == 0;
  }

  lemma BaseAdd(u: int, v: int, d: int, q: int)
    requires q > 1
    ensures ExtensionRing(d, q).add(InBase(u, q), InBase(v, q)) == InBase(u + v, q)
  {
    BaseSums(u, v, d);
    hide ExtensionRing, Reduced, Sum2, Base;
    AddOf(d, q, InBase(u, q), InBase(v, q));
    ReduceSum2(Base(u), InBase(v, q), q);
    ReduceSum2(Base(u), Base(v), q);
  }

  lemma BaseMul(u: int, v: int, d: int, q: int)
    requires q > 1
    ensures ExtensionRing(d, q).m.mul(InBase(u, q), InBase(v, q)) == InBase(u * v, q)
  {
    BaseSums(u, v, d);
    hide ExtensionRing, Reduced, Mul2, Base;
    MulOf(d, q, InBase(u, q), InBase(v, q));
    ReduceProduct2(Base(u), InBase(v, q), d, q);
    ReduceProduct2(Base(u), Base(v), d, q);
  }

  lemma BaseSub(u: int, v: int, d: int, q: int)
    requires q > 1
    ensures Sub(ExtensionRing(d, q), InBase(u, q), InBase(v, q)) == InBase(u - v, q)
  {
    hide ExtensionRing, InBase;
    BaseNeg(v, d, q);
    BaseAdd(u, -v, d, q);
  }

  lemma BaseNeg(v: int, d: int, q: int)
    requires q > 1
    ensures ExtensionRing(d, q).neg(InBase(v, q)) == InBase(-v, q)
  {
    hide ExtensionRing;
    NegOf(d, q, InBase(v, q));
    NegMod(v, q);
    hide Mod;
  }

  lemma NegMod(v: int, q: int)
    requires q > 1
    ensures Mod(-Mod(v, q), q) == Mod(-v, q) && Mod(-Mod(0, q), q) == Mod(-0, q)
  {
    EqMod(v, q);
    Combine(-1, v % q - v, q);
    assert -1 * (v % q - v) == -(v % q) - -v;
    EqIffMod(-(v % q), -v, q);
    SmallMod(0, q);
  }

  lemma BaseSelf(x: int, q: int)
    requires q > 1 && 0 <= x < q
    ensures InBase(x, q) == Base(x) && InBase(1, q) == One
  {
    SmallMod(x, q);
    SmallMod(0, q);
    SmallMod(1, q);
  }

  lemma DiscriminantOf(x: int, d: int, q: int)
    requires q > 1 && 0 <= x < q
    ensures Discriminant(ExtensionRing(d, q), Base(x)) == InBase((x + x) * (x + x) - 2 - 2, q)
  {
    hide ExtensionRing, InBase, Base, Sub;
    BaseSelf(x, q);
    ZeroOf(d, q);
    BaseAdd(x, x, d, q);
    BaseAdd(1, 1, d, q);
    var p := x + x;
    BaseMul(p, p, d, q);
    BaseSub(p * p, 2, d, q);
    BaseSub(p * p - 2, 2, d, q);
  }

  // On norm-1 elements P^2 - 4 = 4 d y^2.
  lemma DiscriminantUnit(x: int, y: int, d: int, q: int)
    requires Prime(q) && q % 2 == 1 && !Eq(d, 0, q) && Eq(Norm(F2(x, y), d), 1, q) && !Eq(y, 0, q)
    ensures !Eq((x + x) * (x + x) - 2 - 2, 0, q)
  {
    Combine(4, Norm(F2(x, y), d) - 1, q);
    assert 4 * (x * x - d * (y * y) - 1) == ((x + x) * (x + x) - 2 - 2) - 4 * (d * (y * y));
    NonzeroProduct(y, y, q);
    NonzeroProduct(d, y * y, q);
    TwoNonzero(d * (y * y), q);
    TwoNonzero(2 * (d * (y * y)), q);
    NonzeroCong((x + x) * (x + x) - 2 - 2, 4 * (d * (y * y)), q);
  }

  // element_invert on the base field
  function InvertBase(e: F2, q: int): F2
    requires q > 0
  {
    F2(Inv(e.re, q), 0)
  }

  lemma InverseOf(v: int, d: int, q: int)
    requires Prime(q) && q > 1 && !Eq(v, 0, q)
    ensures ExtensionRing(d, q).m.mul(InBase(v, q), InvertBase(InBase(v, q), q)) == One
  {
    hide ExtensionRing, Inv, Prime, InBase, Eq;
    var w := v % q;
    EqMod(v, q);
    NonzeroCong(w, v, q);
    InvPrime(w, q);
    InBaseIs(v, q);
    var i := Inv(w, q);
    BaseSelf(i, q);
    BaseMul(w, i, d, q);
    BaseSelf(w, q);
    SameBase(w * i, 1, q);
  }

  lemma InBaseIs(v: int, q: int)
    requires q > 1
    ensures InBase(v, q) == Base(v % q)
  {
    SmallMod(0, q);
  }

  lemma SameBase(a: int, b: int, q: int)
    requires q > 1 && Eq(a, b, q)
    ensures InBase(a, q) == InBase(b, q)
  {
    EqIffMod(a, b, q);
  }

  /** Over a prime field lucas_even is exponentiation of every norm-1 element by every odd cofactor. */
  method LucasEvenPrime(x: int, y: int, cofactor: nat, d: int, q: int) returns (out: F2)
    requires Prime(q) && q % 2 == 1 && !Eq(d, 0, q) && 0 <= x < q && 0 <= y < q && Eq(Norm(F2(x, y), d), 1, q)
    ensures out == Reduced(Pow2(F2(x, y), if cofactor % 2 == 1 then cofactor else cofactor + 1, d), q)
  {
    PrimeBig(q);
    hide Prime, RingLaws, Halves, Units, Element, Conjugate, Discriminant, Inv, Norm, Reduced, Mod;
    ghost var r := ExtensionRing(d, q);
    ExtensionLaws(d, q);
    ExtensionNorm(x, y, d, q);
    ExtensionElement(x, y, d, q);
    DiscriminantOf(x, d, q);
    ghost var v := (x + x) * (x + x) - 2 - 2;
    InverseIn(InBase(v, q), d, q);
    HasBase(x, y, d, q);
    if !Eq(y, 0, q) {
      DiscriminantUnit(x, y, d, q);
      InverseOf(v, d, q);
    } else {
      EqSmall(y, 0, q);
      ZeroOf(d, q);
    }
    var pair := LucasEven(ExtensionRing(d, q), F2((q + 1) / 2, 0), (e: F2) => InvertBase(e, q), Pair(Base(x), Base(y)), Root, cofactor);
    out := Element(ExtensionRing(d, q), pair, Root);
    ExtensionPow(F2(x, y), if cofactor % 2 == 1 then cofactor else cofactor + 1, d, q);
  }

  lemma InverseIn(e: F2, d: int, q: int)
    requires q > 1
    ensures ExtensionRing(d, q).has(InvertBase(e, q))
  {
    HasOf(d, q, InvertBase(e, q));
    hide ExtensionRing;
  }

  lemma HasBase(x: int, y: int, d: int, q: int)
    requires q > 1 && 0 <= x < q && 0 <= y < q
    ensures ExtensionRing(d, q).has(Base(x)) && ExtensionRing(d, q).has(Base(y)) && ExtensionRing(d, q).has(Root)
  {
    hide ExtensionRing;
    HasOf(d, q, Base(x));
    HasOf(d, q, Base(y));
    HasOf(d, q, Root);
  }
}
