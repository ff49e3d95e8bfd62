/** The final exponentiation of type A (ecc/a_param.c): in F_q(i), conj(f) is f^q, so conj(f)/f to the cofactor k is
    f^((q - 1) k). */
module Frobenius {
  import opened Modular
  import opened Residues
  import opened Quadratic
  import Tonelli
  import AMiller

  // ---------- binomial coefficients ----------

  function Choose(n: nat, k: nat): nat {
    if k == 0 then 1 else if n == 0 then 0 else Choose(n - 1, k - 1) + Choose(n - 1, k)
  }

  lemma {:induction false} ChooseEnds(n: nat, k: nat)
    requires k >= n
    ensures Choose(n, k) == if k == n then 1 else 0
  {
    if n > 0 {
      ChooseEnds(n - 1, k - 1);
      ChooseEnds(n - 1, k);
    }
  }

  // k C(n, k) = n C(n - 1, k - 1)
  lemma {:induction false} Absorb(n: nat, k: nat)
    requires n >= 1 && k >= 1
    ensures k * Choose(n, k) == n * Choose(n - 1, k - 1)
  {
    if n == 1 {
      ChooseEnds(1, k);
      ChooseEnds(0, k - 1);
    } else {
      Absorb(n - 1, k);
      if k > 1 { Absorb(n - 1, k - 1); }
      var p := if k > 1 then Choose(n - 2, k - 2) else 0;
      ChooseStep(n, k);
      ChooseStep(n - 1, k - 1);
      hide Choose;
      AbsorbStep(n, k, Choose(n - 1, k - 1), Choose(n - 1, k), p, Choose(n - 2, k - 1));
    }
  }

  lemma ChooseStep(n: nat, k: nat)
    requires n >= 1
    ensures Choose(n, k) == if k == 0 then 1 else Choose(n - 1, k - 1) + Choose(n - 1, k)
    ensures Choose(n - 1, 0) == 1
  {}

  lemma AbsorbStep(n: int, k: int, u: int, v: int, p: int, r: int)
    requires k * v == (n - 1) * r && (k - 1) * u == (n - 1) * p && u == p + r
    ensures k * (u + v) == n * u
  {
    assert (n - 1) * r + (n - 1) * p == (n - 1) * u;
  }

  lemma ChoosePrime(q: int, k: nat)
    requires Prime(q) && 0 < k < q
    ensures Choose(q, k) % q == 0
  {
    Absorb(q, k);
    var c := Choose(q, k);
    ModZero(k * c, Choose(q - 1, k - 1), q) by { assert k * c == Choose(q - 1, k - 1) * q; }
    hide Choose;
    NoZeroDivisors(k, c, q);
    if Eq(k, 0, q) { EqSmall(k, 0, q); }
  }

  // ---------- the binomial theorem for a + b i ----------

  // C(n, k) a^(n-k) (b i)^k
  function Term(a: int, b: int, n: nat, k: nat): F2 {
    Scale(Choose(n, k) * Pow(a, if k <= n then n - k else 0), Pow2(F2(0, b), k, -1))
  }

  // The first m terms
  function Terms(a: int, b: int, n: nat, m: nat): F2 {
    if m == 0 then F2(0, 0) else Sum2(Terms(a, b, n, m - 1), Term(a, b, n, m - 1))
  }

  // T(n + 1, k) = a T(n, k) + b i T(n, k - 1)
  lemma TermStep(a: int, b: int, n: nat, k: nat)
    requires 1 <= k <= n + 1
    ensures Term(a, b, n + 1, k) == Sum2(Scale(a, Term(a, b, n, k)), Mul2(Term(a, b, n, k - 1), F2(0, b), -1))
  {
    var c, c', y, z := Choose(n, k), Choose(n, k - 1), Pow(a, n + 1 - k), Pow(a, if k <= n then n - k else 0);
    var u, w := Pow2(F2(0, b), k - 1, -1), Pow2(F2(0, b), k, -1);
    assert w == Mul2(u, F2(0, b), -1);
    ChooseStep(n + 1, k);
    if k <= n { PowSucc(a, n - k); } else { ChooseEnds(n, k); }
    assert y == a * z || c == 0;
    assert Term(a, b, n + 1, k) == Scale((c' + c) * y, w);
    assert Term(a, b, n, k) == Scale(c * z, w) && Term(a, b, n, k - 1) == Scale(c' * y, u);
    hide Choose, Pow, Pow2, Term, Mul2, Scale;
    ScaledTimes(c' * y, u, F2(0, b));
    TwoParts(c, c', y, a, z);
    ScaleSum(c' * y, a * (c * z), w);
    ScaleScale(a, c * z, w);
  }

  lemma TwoParts(c: int, c': int, y: int, a: int, z: int)
    requires y == a * z || c == 0
    ensures (c' + c) * y == c' * y + a * (c * z)
  {
    if c == 0 { assert c * z == 0 && c * y == 0; }
  }

  lemma ScaledTimes(s: int, f: F2, g: F2)
    ensures Mul2(Scale(s, f), g, -1) == Scale(s, Mul2(f, g, -1))
  {
    AMiller.ScaleMul(s, f, 1, g, -1);
    assert Scale(1, g) == g && s * 1 == s;
  }

  lemma ScaleSum(s: int, t: int, f: F2)
    ensures Scale(s + t, f) == Sum2(Scale(t, f), Scale(s, f))
  {}

  lemma ScaleScale(s: int, t: int, f: F2)
    ensures Scale(s, Scale(t, f)) == Scale(s * t, f)
  {
    TimesAssoc(s, t, f.re);
    TimesAssoc(s, t, f.im);
  }

  // S(n + 1, m + 1) = a S(n, m + 1) + b i S(n, m)
  lemma {:induction false} TermsStep(a: int, b: int, n: nat, m: nat)
    requires m <= n + 1
    ensures Terms(a, b, n + 1, m + 1) == Sum2(Scale(a, Terms(a, b, n, m + 1)), Mul2(Terms(a, b, n, m), F2(0, b), -1))
  {
    hide Term;
    var z := F2(0, b);
    if m == 0 {
      FirstTerm(a, b, n);
      FirstTerm(a, b, n + 1);
      PowSucc(a, n);
      TermsOne(a, b, n + 1);
      TermsOne(a, b, n);
      assert Mul2(F2(0, 0), z, -1) == F2(0, 0);
    } else {
      TermsStep(a, b, n, m - 1);
      TermStep(a, b, n, m);
      var s, s', t, t' := Terms(a, b, n, m), Terms(a, b, n, m - 1), Term(a, b, n, m), Term(a, b, n, m - 1);
      Regroup(Scale(a, s), Mul2(s', z, -1), Scale(a, t), Mul2(t', z, -1));
      SumTimes(s', t', z);
      ScaleAdd(a, s, t);
    }
  }

  lemma FirstTerm(a: int, b: int, n: nat)
    ensures Term(a, b, n, 0) == F2(Pow(a, n), 0)
  {}

  lemma Regroup(s: F2, s': F2, t: F2, t': F2)
    ensures Sum2(Sum2(s, s'), Sum2(t, t')) == Sum2(Sum2(s, t), Sum2(s', t'))
  {}

  lemma SumTimes(s: F2, t: F2, z: F2)
    ensures Mul2(Sum2(s, t), z, -1) == Sum2(Mul2(s, z, -1), Mul2(t, z, -1))
  {
    Distribute(s.re, t.re, z.re); Distribute(s.im, t.im, z.im); Distribute(s.re, t.re, z.im); Distribute(s.im, t.im, z.re);
  }

  lemma Distribute(x: int, y: int, z: int)
    ensures (x + y) * z == x * z + y * z
  {}

  lemma ScaleAdd(a: int, s: F2, t: F2)
    ensures Scale(a, Sum2(s, t)) == Sum2(Scale(a, s), Scale(a, t))
  {}

  /** The binomial theorem. */
  lemma {:induction false} Binomial(a: int, b: int, n: nat)
    ensures Pow2(F2(a, b), n, -1) == Terms(a, b, n, n + 1)
  {
    hide Pow2, Terms;
    if n == 0 {
      BinomialZero(a, b);
    } else {
      Binomial(a, b, n - 1);
      BinomialStep(a, b, n - 1);
    }
  }

  lemma BinomialZero(a: int, b: int)
    ensures Pow2(F2(a, b), 0, -1) == Terms(a, b, 0, 1)
  {
    FirstTerm(a, b, 0);
    TermsOne(a, b, 0);
    PowSucc(a, 0);
    hide Term, Terms, Pow;
  }

  lemma TermsOne(a: int, b: int, n: nat)
    ensures Terms(a, b, n, 1) == Term(a, b, n, 0)
  {
    hide Term;
    assert Terms(a, b, n, 1) == Sum2(Terms(a, b, n, 0), Term(a, b, n, 0));
  }

  lemma BinomialStep(a: int, b: int, n: nat)
    requires Pow2(F2(a, b), n, -1) == Terms(a, b, n, n + 1)
    ensures Pow2(F2(a, b), n + 1, -1) == Terms(a, b, n + 1, n + 2)
  {
    TermsStep(a, b, n, n + 1);
    LastTerm(a, b, n);
    hide Terms, Mul2;
    ByParts(Terms(a, b, n, n + 1), a, b);
  }

  lemma LastTerm(a: int, b: int, n: nat)
    ensures Terms(a, b, n, n + 2) == Terms(a, b, n, n + 1)
  {
    ChooseEnds(n, n + 1);
    var y := Pow2(F2(0, b), n + 1, -1);
    assert 0 * Pow(a, 0) == 0 && Scale(0, y) == F2(0, 0);
    assert Term(a, b, n, n + 1) == F2(0, 0);
  }

  lemma ByParts(s: F2, a: int, b: int)
    ensures Mul2(s, F2(a, b), -1) == Sum2(Scale(a, s), Mul2(s, F2(0, b), -1))
  {}

  // ---------- modulo q ----------

  // All terms but the first and the last are multiples of q.
  lemma {:induction false} FirstTerms(a: int, b: int, q: int, m: nat)
    requires Prime(q) && 1 <= m <= q
    ensures Eq2(Terms(a, b, q, m), F2(Pow(a, q), 0), q)
  {
    PrimeBig(q);
    if m == 1 {
      FirstTerm(a, b, q);
      TermsOne(a, b, q);
      Refl2(F2(Pow(a, q), 0), q);
    } else {
      FirstTerms(a, b, q, m - 1);
      InnerTerm(a, b, q, m - 1);
      var s, t := Terms(a, b, q, m - 1), Term(a, b, q, m - 1);
      hide Term;
      EqAdd(s.re, Pow(a, q), t.re, 0, q);
      EqAdd(s.im, 0, t.im, 0, q);
    }
  }

  lemma InnerTerm(a: int, b: int, q: int, k: nat)
    requires Prime(q) && 0 < k < q
    ensures Eq2(Term(a, b, q, k), F2(0, 0), q)
  {
    ChoosePrime(q, k);
    var c, y, w := Choose(q, k), Pow(a, q - k), Pow2(F2(0, b), k, -1);
    hide Choose, Pow, Pow2, Prime;
    Combine(y * w.re, c, q);
    Combine(y * w.im, c, q);
    assert y * w.re * c == c * y * w.re && y * w.im * c == c * y * w.im;
  }

  // (b i)^(2m+1) = (-1)^m b^(2m+1) i
  lemma {:induction false} OddPower(b: int, m: nat)
    ensures Pow2(F2(0, b), 2 * m + 1, -1) == F2(0, Pow(-1, m) * Pow(b, 2 * m + 1))
  {
    if m == 0 {
      assert Pow2(F2(0, b), 1, -1) == Mul2(One, F2(0, b), -1);
      PowSucc(b, 0);
    } else {
      OddPower(b, m - 1);
      var u, s := Pow(b, 2 * m - 1), Pow(-1, m - 1);
      PowSucc(b, 2 * m); PowSucc(b, 2 * m - 1); PowSucc(-1, m - 1);
      var z := F2(0, b);
      assert Pow2(z, 2 * m + 1, -1) == Mul2(Mul2(Pow2(z, 2 * m - 1, -1), z, -1), z, -1);
      hide Pow, Pow2, Mul2;
      SquareTimes(s * u, b);
      TwoMore(s, u, b);
    }
  }

  lemma TwoMore(s: int, u: int, b: int)
    ensures s * u * (b * b) == s * (b * (b * u)) && -1 * s * (b * (b * u)) == -(s * (b * (b * u)))
  {}

  lemma SquareTimes(v: int, b: int)
    ensures Mul2(Mul2(F2(0, v), F2(0, b), -1), F2(0, b), -1) == F2(0, -(v * (b * b)))
  {
    assert -(v * b) * b == -(v * (b * b));
  }

  lemma FermatAll(a: int, q: int)
    requires Prime(q) && q > 2
    ensures Eq(Pow(a, q), a, q)
  {
    PowSucc(a, q - 1);
    if Eq(a, 0, q) {
      PowCong(a, 0, q, q);
      PowZero(q);
      EqSym(a, 0, q);
      EqTrans(Pow(a, q), 0, a, q);
    } else {
      Fermat(a, q);
      EqRefl(a, q);
      EqMul(a, a, Pow(a, q - 1), 1, q);
    }
  }

  /** The q-th power is the conjugate. */
  lemma {:induction false} PowerIsConj(f: F2, q: int)
    requires Prime(q) && q % 4 == 3
    ensures Eq2(Pow2(f, q, -1), Conj(f), q)
  {
    var a, b, m := f.re, f.im, q / 2;
    PrimeBig(q);
    Binomial(a, b, q);
    FirstTerms(a, b, q, q);
    OddPower(b, m);
    Tonelli.PowMinusOne(m);
    ChooseEnds(q, q);
    FermatAll(a, q);
    FermatAll(b, q);
    assert Term(a, b, q, q) == Scale(1 * Pow(a, 0), F2(0, -1 * Pow(b, q)));
    var s := Terms(a, b, q, q);
    hide Terms, Term, Pow, Prime, Choose;
    assert Pow(a, 0) == 1 by { PowSucc(a, 0); }
    EqTrans(s.re, Pow(a, q), a, q);
    EqRefl(0, q);
    EqAdd(0, 0, Pow(b, q), b, q);
    EqAdd(s.im, 0, -Pow(b, q), -b, q);
  }

  lemma {:induction false} PowerOfPower(f: F2, m: nat, n: nat)
    ensures Pow2(Pow2(f, m, -1), n, -1) == Pow2(f, m * n, -1)
  {
    TimesLast(m, n);
    if n > 0 {
      PowerOfPower(f, m, n - 1);
      var k: nat := m * (n - 1);
      PowUnfold(Pow2(f, m, -1), n);
      hide Pow2;
      Quadratic.PowAdd(f, k, m, -1);
    } else {
      PowUnfold(Pow2(f, m, -1), 0);
      PowUnfold(f, 0);
    }
  }

  lemma TimesLast(m: nat, n: nat)
    ensures m * n == if n == 0 then 0 else m * (n - 1) + m
    ensures n > 0 ==> m * (n - 1) >= 0
  {}

  lemma PowUnfold(f: F2, n: nat)
    ensures Pow2(f, n, -1) == if n == 0 then One else Mul2(Pow2(f, n - 1, -1), f, -1)
  {}

  /** What the pairings compute from the Miller value f is f^((q - 1) k). */
  lemma TatePower(f: F2, k: nat, q: int, n: nat)
    requires Prime(q) && q % 4 == 3 && !Eq(Norm(f, -1), 0, q) && n == (q - 1) * k
    ensures Eq2(AMiller.TateExp(f, k, q), Pow2(f, n, -1), q)
  {
    PrimeBig(q);
    PowerIsConj(f, q);
    InverseProduct2(f, -1, q);
    assert Pow2(f, q, -1) == Mul2(Pow2(f, q - 1, -1), f, -1);
    hide Inv2, Norm, Prime, Mul2, Pow2;
    var i, w := Inv2(f, -1, q), Pow2(f, q - 1, -1);
    DivideBack(Conj(f), w, f, i, q);
    var g := Mul2(Conj(f), i, -1);
    CongPow2(g, w, k, -1, q);
    PowerOfPower(f, q - 1, k);
  }

  // c = w f, so c / f = w.
  lemma DivideBack(c: F2, w: F2, f: F2, i: F2, q: int)
    requires q > 0 && Eq2(Mul2(w, f, -1), c, q) && Eq2(Mul2(f, i, -1), One, q)
    ensures Eq2(Mul2(c, i, -1), w, q)
  {
    hide Mul2;
    Sym2(Mul2(w, f, -1), c, q);
    Refl2(i, q); Refl2(w, q);
    CongMul2(c, Mul2(w, f, -1), i, i, -1, q);
    MulAssoc(w, f, i, -1);
    CongMul2(w, w, Mul2(f, i, -1), One, -1, q);
    MulOne(w, -1);
    Trans2(Mul2(c, i, -1), Mul2(Mul2(w, f, -1), i, -1), w, q);
  }
}
