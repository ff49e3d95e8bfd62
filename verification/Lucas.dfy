/** The Lucas ladder of the type A final exponentiation (ecc/a_param.c) computes powers of norm-1
    elements of a quadratic extension of the prime field. */
module Lucas {
  import opened Modular
  import opened Bits
  import opened Quadratic

  // Twice the real part of g^n, the Lucas sequence V_n with P = 2 Re g.
  function V(g: F2, n: nat, d: int): int { 2 * Pow2(g, n, d).re }

  // V_2m = V_m^2 - 2
  lemma VDouble(g: F2, m: nat, d: int, q: int)
    requires q > 0 && Eq(Norm(g, d), 1, q)
    ensures Eq(V(g, m + m, d), V(g, m, d) * V(g, m, d) - 2, q)
  {
    var a := Pow2(g, m, d);
    NormPow(g, m, d, q);
    PowAdd(g, m, m, d);
    Combine(-2, Norm(a, d) - 1, q);
    SquareIdentity(a.re, a.im, d);
  }

  lemma SquareIdentity(x: int, y: int, d: int)
    ensures -2 * (x * x - d * (y * y) - 1) == 2 * (x * x + d * (y * y)) - ((2 * x) * (2 * x) - 2)
  {}

  // V_2m+1 = V_m V_m+1 - P
  lemma VDoubleNext(g: F2, m: nat, d: int, q: int)
    requires q > 0 && Eq(Norm(g, d), 1, q)
    ensures Eq(V(g, m + m + 1, d), V(g, m, d) * V(g, m + 1, d) - 2 * g.re, q)
  {
    var a, b := Pow2(g, m, d), Pow2(g, m + 1, d);
    NormPow(g, m, d, q);
    PowAdd(g, m, m + 1, d);
    assert m + m + 1 == m + (m + 1);
    Combine(-2 * g.re, Norm(a, d) - 1, q);
    CrossIdentity(a.re, a.im, g.re, g.im, d, b.re, b.im);
  }

  lemma CrossIdentity(x: int, y: int, u: int, w: int, d: int, br: int, bi: int)
    requires br == x * u + d * (y * w) && bi == x * w + y * u
    ensures -2 * u * (x * x - d * (y * y) - 1) == 2 * (x * br + d * (y * bi)) - ((2 * x) * (2 * br) - 2 * u)
  {
    CrossTerms(x, y, u, w, d);
    NormTimes(u, x * x, d, y * y);
    Spread(d, x * (y * w), u * (y * y));
    assert (2 * x) * (2 * br) == 4 * (x * br);
  }

  lemma CrossTerms(x: int, y: int, u: int, w: int, d: int)
    ensures x * (x * u + d * (y * w)) == u * (x * x) + d * (x * (y * w))
    ensures y * (x * w + y * u) == x * (y * w) + u * (y * y)
  {}

  lemma NormTimes(u: int, xx: int, d: int, yy: int)
    ensures -2 * u * (xx - d * yy - 1) == -2 * (u * xx) + 2 * (d * (u * yy)) + 2 * u
  {}

  lemma Spread(d: int, a: int, b: int)
    ensures d * (a + b) == d * a + d * b
  {}

  lemma VStart(g: F2, d: int)
    ensures V(g, 0, d) == 2 && V(g, 1, d) == 2 * g.re
  {
    assert Pow2(g, 0, d) == One;
    MulOne(g, d);
  }

  // The ladder registers hold V_m and V_m+1.
  ghost predicate Registers(v0: int, v1: int, g: F2, m: nat, d: int, q: int)
    requires q > 0
  {
    Eq(v0, V(g, m, d), q) && Eq(v1, V(g, m + 1, d), q)
  }

  // One bit: the new registers are V_2m+bit and V_2m+bit+1.
  lemma LadderStep(v0: int, v1: int, g: F2, m: nat, d: int, q: int)
    requires q > 0 && Eq(Norm(g, d), 1, q) && Registers(v0, v1, g, m, d, q)
    ensures Registers(v0 * v0 - 2, v0 * v1 - 2 * g.re, g, m + m, d, q)
    ensures Registers(v0 * v1 - 2 * g.re, v1 * v1 - 2, g, m + m + 1, d, q)
  {
    var a, b := V(g, m, d), V(g, m + 1, d);
    VDouble(g, m, d, q); VDoubleNext(g, m, d, q); VDouble(g, m + 1, d, q);
    EqRefl(2, q); EqRefl(2 * g.re, q);
    EqMul(v0, a, v0, a, q); EqMul(v0, a, v1, b, q); EqMul(v1, b, v1, b, q);
    EqAdd(v0 * v0, a * a, 2, 2, q);
    EqAdd(v0 * v1, a * b, 2 * g.re, 2 * g.re, q);
    EqAdd(v1 * v1, b * b, 2, 2, q);
    EqSym(V(g, m + m, d), a * a - 2, q);
    EqSym(V(g, m + m + 1, d), a * b - 2 * g.re, q);
    EqSym(V(g, m + 1 + (m + 1), d), b * b - 2, q);
    EqTrans(v0 * v0 - 2, a * a - 2, V(g, m + m, d), q);
    EqTrans(v0 * v1 - 2 * g.re, a * b - 2 * g.re, V(g, m + m + 1, d), q);
    EqTrans(v1 * v1 - 2, b * b - 2, V(g, m + 1 + (m + 1), d), q);
    assert m + 1 + (m + 1) == m + m + 1 + 1;
  }

  // The ladder common to both routines: every bit but the last from the exponent, the last
  // taken as 0, so the registers end at V_2m and V_2m+1 for m = k >> 1.
  method Ladder(g: F2, k: nat, ghost d: int, q: int) returns (v0: int, v1: int)
    requires q > 0 && Eq(Norm(g, d), 1, q)
    ensures Registers(v0, v1, g, k / 2 + k / 2, d, q)
  {
    var t0 := 2;
    var t1 := g.re + g.re;
    v0 := t0;
    v1 := t1;
    VStart(g, d);
    EqRefl(v0, q); EqRefl(v1, q);
    var j := SizeInBase2(k) - 1;
    ShrSize(k);
    while true
      invariant 0 <= j < SizeInBase2(k)
      invariant Registers(v0, v1, g, Shr(k, j + 1), d, q)
      decreases j
    {
      LadderStep(v0, v1, g, Shr(k, j + 1), d, q);
      ShrStep(k, j);
      if j == 0 {
        v1 := v0 * v1;
        v1 := v1 - t1;
        v0 := v0 * v0;
        v0 := v0 - t0;
        break;
      }
      if TstBit(k, j) == 1 {
        v0 := v0 * v1;
        v0 := v0 - t1;
        v1 := v1 * v1;
        v1 := v1 - t0;
      } else {
        v1 := v0 * v1;
        v1 := v1 - t1;
        v0 := v0 * v0;
        v0 := v0 - t0;
      }
      j := j - 1;
    }
    assert Shr(k, 1) == k / 2;
  }

  // ---------- rebuilding the power ----------

  // The numerator both routines form is 4 d Im(g^n) Im(g).
  lemma Numerator(g: F2, n: nat, d: int)
    ensures 2 * V(g, n + 1, d) - 2 * g.re * V(g, n, d) == 4 * (d * (Pow2(g, n, d).im * g.im))
  {
    NumeratorIdentity(Pow2(g, n, d).re, Pow2(g, n, d).im, g.re, g.im, d);
  }

  lemma NumeratorIdentity(x: int, y: int, u: int, w: int, d: int)
    ensures 2 * (2 * (x * u + d * (y * w))) - 2 * u * (2 * x) == 4 * (d * (y * w))
  {}

  // P^2 - 4 = 4 d Im(g)^2 on norm-1 elements.
  lemma Denominator(g: F2, d: int, q: int)
    requires q > 0 && Eq(Norm(g, d), 1, q)
    ensures Eq((2 * g.re) * (2 * g.re) - 2 - 2, 4 * (d * (g.im * g.im)), q)
  {
    Combine(4, Norm(g, d) - 1, q);
    assert 4 * (g.re * g.re - d * (g.im * g.im) - 1) == ((2 * g.re) * (2 * g.re) - 2 - 2) - 4 * (d * (g.im * g.im));
  }

  // The imaginary part of g^n is a multiple of that of g.
  lemma {:induction false} ImDivides(g: F2, n: nat, d: int) returns (u: int)
    ensures Pow2(g, n, d).im == u * g.im
  {
    if n == 0 {
      u := 0;
    } else {
      var u' := ImDivides(g, n - 1, d);
      u := Pow2(g, n - 1, d).re + u' * g.re;
      assert (u' * g.im) * g.re == (u' * g.re) * g.im;
    }
  }

  /** Dividing the numerator by P^2 - 4 and multiplying by Im(g) gives Im(g^n); when
      Im(g) = 0 the product is zero whatever the division returned. */
  lemma Rebuild(g: F2, n: nat, d: int, num: int, den: int, q: int)
    requires Prime(q) && q % 2 == 1 && !Eq(d, 0, q) && Eq(Norm(g, d), 1, q)
    requires Eq(num, 4 * (d * (Pow2(g, n, d).im * g.im)), q) && Eq(den, 4 * (d * (g.im * g.im)), q)
    ensures Eq(num * Inv(den, q) * g.im, Pow2(g, n, d).im, q)
  {
    var y, w := Pow2(g, n, d).im, g.im;
    var i := Inv(den, q);
    if Eq(w, 0, q) {
      var u := ImDivides(g, n, d);
      Combine2(num * i, w - 0, -u, w - 0, q);
      assert (num * i) * (w - 0) + -u * (w - 0) == num * i * w - u * w;
    } else {
      FourNonzero(d, w, q);
      NonzeroCong(den, 4 * (d * (w * w)), q);
      InvPrime(den, q);
      Combine3(i * w, num - 4 * (d * (y * w)), -(y * i), den - 4 * (d * (w * w)), y, den * i - 1, q);
      RebuildIdentity(num, y, w, d, i, den);
    }
  }

  lemma FourNonzero(d: int, w: int, q: int)
    requires Prime(q) && q % 2 == 1 && !Eq(d, 0, q) && !Eq(w, 0, q)
    ensures !Eq(4 * (d * (w * w)), 0, q)
  {
    NonzeroProduct(w, w, q);
    NonzeroProduct(d, w * w, q);
    if Eq(2, 0, q) { EqSmall(2, 0, q); }
    NonzeroProduct(2, 2, q);
    NonzeroProduct(4, d * (w * w), q);
  }

  lemma RebuildIdentity(num: int, y: int, w: int, d: int, i: int, den: int)
    ensures (i * w) * (num - 4 * (d * (y * w))) + -(y * i) * (den - 4 * (d * (w * w))) + y * (den * i - 1) == num * i * w - y
  {}

  // element_halve: half of a residue modulo an odd q
  function Half(x: int, q: int): int { if x % 2 == 0 then x / 2 else (x + q) / 2 }

  lemma HalfTwice(v: int, r: int, q: int)
    requires Prime(q) && q % 2 == 1 && Eq(v, 2 * r, q)
    ensures Eq(Half(v, q), r, q)
  {
    var h := Half(v, q);
    EqIntro(2 * h, v, if v % 2 == 0 then 0 else 1, q);
    EqTrans(2 * h, v, 2 * r, q);
    if Eq(2, 0, q) { EqSmall(2, 0, q); }
    Cancel(2, h, r, q);
  }

  /** lucas_odd drops the last bit of the cofactor: it returns in^cofactor for even cofactors. */
  method LucasOdd(g: F2, cofactor: nat, ghost d: int, q: int) returns (out: F2)
    requires Prime(q) && q % 2 == 1 && !Eq(d, 0, q) && Eq(Norm(g, d), 1, q)
    ensures Eq2(out, Pow2(g, if cofactor % 2 == 0 then cofactor else cofactor - 1, d), q)
  {
    var v0, v1 := Ladder(g, cofactor, d, q);
    ghost var k := cofactor / 2 + cofactor / 2;
    ghost var r0, r1 := v0, v1;
    var t0, t1 := 2, g.re + g.re;
    var in0 := v0 * t1;
    v1 := v1 + v1;
    v1 := v1 - in0;
    ghost var num := v1;
    t1 := t1 * t1;
    t1 := t1 - t0;
    t1 := t1 - t0;
    OddNumerator(r0, r1, g, k, d, num, q);
    Denominator(g, d, q);
    Rebuild(g, k, d, num, t1, q) by { assert t1 == (2 * g.re) * (2 * g.re) - 2 - 2; }
    v1 := v1 * Inv(t1, q);
    HalfTwice(v0, Pow2(g, k, d).re, q);
    v0 := Half(v0, q);
    v1 := v1 * g.im;
    out := F2(v0, v1);
  }

  lemma OddNumerator(r0: int, r1: int, g: F2, k: nat, d: int, num: int, q: int)
    requires q > 0 && Registers(r0, r1, g, k, d, q) && num == r1 + r1 - r0 * (g.re + g.re)
    ensures Eq(num, 4 * (d * (Pow2(g, k, d).im * g.im)), q)
  {
    Numerator(g, k, d);
    Combine2(2, r1 - V(g, k + 1, d), -(2 * g.re), r0 - V(g, k, d), q);
    NumIdentity(r0, r1, g.re, V(g, k, d), V(g, k + 1, d));
  }

  lemma NumIdentity(r0: int, r1: int, u: int, a: int, b: int)
    ensures 2 * (r1 - b) + -(2 * u) * (r0 - a) == (r1 + r1 - r0 * (u + u)) - (2 * b - 2 * u * a)
  {}

  /** Off by one exponent is off by one factor: the wrong parity gives the right power of
      exactly one norm-1 element, the identity. */
  lemma WrongParity(g: F2, n: nat, d: int, q: int)
    requires q > 0 && Eq(Norm(g, d), 1, q)
    ensures Eq2(Pow2(g, n, d), Pow2(g, n + 1, d), q) <==> Eq2(One, g, q)
  {
    var a := Pow2(g, n, d);
    NormPow(g, n, d, q);
    if Eq2(One, g, q) {
      Refl2(a, q);
      CongMul2(a, a, One, g, d, q);
      MulOne(a, d);
    }
    if Eq2(a, Mul2(a, g, d), q) {
      Refl2(Conj(a), q);
      CongMul2(Conj(a), Conj(a), a, Mul2(a, g, d), d, q);
      MulAssoc(Conj(a), a, g, d);
      ConjNorm(a, d);
      var u := F2(Norm(a, d), 0);
      EqRefl(0, q);
      Refl2(g, q);
      CongMul2(u, One, g, g, d, q);
      MulOne(g, d);
      Sym2(u, One, q);
      Trans2(One, u, Mul2(u, g, d), q);
      Trans2(One, Mul2(u, g, d), g, q);
    }
  }

  /** -1 is an element of norm 1 whose powers of neighbouring exponents differ. */
  lemma {:induction false} WrongParityFails(n: nat, d: int, q: int)
    requires q > 2
    ensures Eq(Norm(F2(-1, 0), d), 1, q) && !Eq2(Pow2(F2(-1, 0), n, d), Pow2(F2(-1, 0), n + 1, d), q)
  {
    var g := F2(-1, 0);
    assert Norm(g, d) == 1 by { assert d * (0 * 0) == 0; }
    EqRefl(1, q);
    WrongParity(g, n, d, q);
    if Eq(1, -1, q) {
      var k := EqElim(1, -1, q);
      SmallMultiple(k, q);
    }
  }

  lemma ConjNorm(a: F2, d: int)
    ensures Mul2(Conj(a), a, d) == F2(Norm(a, d), 0)
  {}
}
