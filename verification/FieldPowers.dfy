/** The monoids in which field elements are raised to powers: the laws that PowWindow asks for, and its powers,
    are those of F_q and of its quadratic extensions. */
module FieldPowers {
  import opened Modular
  import Residues
  import opened Quadratic
  import W = PowWindow

  // Elements of F_q, represented by integers
  function Base(): W.Monoid<int> { W.Monoid((a: int, b: int) => a * b, 1) }

  // Elements of F_q(sqrt d)
  function Extension(d: int): W.Monoid<F2> { W.Monoid((a: F2, b: F2) => Mul2(a, b, d), One) }

  lemma BaseLaws()
    ensures W.Laws(Base())
  {
    forall a, b, c ensures W.AssocAt(Base(), a, b, c) { TimesAssoc(a, b, c); }
  }

  lemma ExtensionLaws(d: int)
    ensures W.Laws(Extension(d))
  {
    var g := Extension(d);
    hide Mul2;
    forall a, b, c ensures W.AssocAt(g, a, b, c) { MulAssoc(a, b, c, d); }
    forall a, b ensures W.CommAt(g, a, b) { MulComm(a, b, d); }
    forall a ensures W.OneAt(g, a) { MulOne(a, d); }
  }

  /** The generic power is the power of F_q. */
  lemma {:induction false} BasePower(a: int, n: nat)
    ensures W.Laws(Base()) && W.Pow(Base(), a, n) == Residues.Pow(a, n)
  {
    BaseLaws();
    if n > 0 {
      BasePower(a, n - 1);
      assert Residues.Pow(a, n - 1) * a == a * Residues.Pow(a, n - 1);
    }
  }

  /** The generic power is the power of the quadratic extension. */
  lemma {:induction false} ExtensionPower(a: F2, n: nat, d: int)
    ensures W.Laws(Extension(d)) && W.Pow(Extension(d), a, n) == Pow2(a, n, d)
  {
    ExtensionLaws(d);
    if n > 0 { ExtensionPower(a, n - 1, d); }
  }
}
