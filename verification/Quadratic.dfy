/** Quadratic extensions F_q(sqrt d) (arith/fieldquadratic.c): `fq` for a nonresidue d,
    `fi` for d = -1. An element x + y sqrt(d) is a pair; multiplication of pairs is exact
    over the integers, so ring laws hold before any reduction. */
module Quadratic {
  import opened Modular

  datatype F2 = F2(re: int, im: int)

  const One := F2(1, 0)

  function Mul2(a: F2, b: F2, d: int): F2 {
    F2(a.re * b.re + d * (a.im * b.im), a.re * b.im + a.im * b.re)
  }

  function Sum2(a: F2, b: F2): F2 { F2(a.re + b.re, a.im + b.im) }

  function Conj(a: F2): F2 { F2(a.re, -a.im) }

  function Scale(s: int, a: F2): F2 { F2(s * a.re, s * a.im) }

  function Norm(a: F2, d: int): int { a.re * a.re - d * (a.im * a.im) }

  function Inv2(a: F2, d: int, q: int): F2
    requires q > 0
  {
    var i := Inv(Norm(a, d), q);
    F2(a.re * i, -(a.im * i))
  }

  function Pow2(a: F2, n: nat, d: int): F2 {
    if n == 0 then One else Mul2(Pow2(a, n - 1, d), a, d)
  }

  ghost predicate Eq2(a: F2, b: F2, q: int)
    requires q > 0
  {
    Eq(a.re, b.re, q) && Eq(a.im, b.im, q)
  }

  // ---------- ring laws ----------

  lemma MulAssoc(a: F2, b: F2, c: F2, d: int)
    ensures Mul2(Mul2(a, b, d), c, d) == Mul2(a, Mul2(b, c, d), d)
  {
    AssocRe(a.re, a.im, b.re, b.im, c.re, c.im, d);
    AssocIm(a.re, a.im, b.re, b.im, c.re, c.im, d);
  }

  lemma AssocRe(a: int, a': int, b: int, b': int, c: int, c': int, d: int)
    ensures (a * b + d * (a' * b')) * c + d * ((a * b' + a' * b) * c') == a * (b * c + d * (b' * c')) + d * (a' * (b * c' + b' * c))
  {}

  lemma AssocIm(a: int, a': int, b: int, b': int, c: int, c': int, d: int)
    ensures (a * b + d * (a' * b')) * c' + (a * b' + a' * b) * c == a * (b * c' + b' * c) + a' * (b * c + d * (b' * c'))
  {}

  lemma MulComm(a: F2, b: F2, d: int)
    ensures Mul2(a, b, d) == Mul2(b, a, d)
  {}

  lemma MulOne(a: F2, d: int)
    ensures Mul2(a, One, d) == a && Mul2(One, a, d) == a
  {}

  lemma {:induction false} PowAdd(a: F2, m: nat, n: nat, d: int)
    ensures Pow2(a, m + n, d) == Mul2(Pow2(a, m, d), Pow2(a, n, d), d)
  {
    if n == 0 {
      MulOne(Pow2(a, m, d), d);
    } else {
      PowAdd(a, m, n - 1, d);
      assert m + n - 1 == m + (n - 1);
      MulAssoc(Pow2(a, m, d), Pow2(a, n - 1, d), a, d);
    }
  }

  lemma NormMul(a: F2, b: F2, d: int)
    ensures Norm(Mul2(a, b, d), d) == Norm(a, d) * Norm(b, d)
  {
    NormIdentity(a.re, a.im, b.re, b.im, d);
  }

  lemma NormIdentity(a: int, a': int, b: int, b': int, d: int)
    ensures (a * b + d * (a' * b')) * (a * b + d * (a' * b')) - d * ((a * b' + a' * b) * (a * b' + a' * b))
            == (a * a - d * (a' * a')) * (b * b - d * (b' * b'))
  {
    Swap(a, b, a', b');
    NormSquares(a * b, a' * b', a * b', a' * b, d);
    NormExpand(a * a, a' * a', b * b, b' * b', d);
    Swap(a, b, a, b); Swap(a, b', a, b'); Swap(a', b, a', b); Swap(a', b', a', b');
  }

  lemma Swap(w: int, x: int, y: int, z: int)
    ensures (w * x) * (y * z) == (w * z) * (y * x) && (w * x) * (y * z) == (w * y) * (x * z)
  {}

  lemma NormSquares(p: int, r: int, s: int, t: int, d: int)
    requires p * r == s * t
    ensures (p + d * r) * (p + d * r) - d * ((s + t) * (s + t)) == p * p + d * d * (r * r) - d * (s * s) - d * (t * t)
  {
    assert (p + d * r) * (p + d * r) == p * p + 2 * d * (p * r) + d * d * (r * r);
    assert d * ((s + t) * (s + t)) == d * (s * s) + 2 * d * (s * t) + d * (t * t);
  }

  lemma NormExpand(a: int, a': int, b: int, b': int, d: int)
    ensures (a - d * a') * (b - d * b') == a * b + d * d * (a' * b') - d * (a * b') - d * (a' * b)
  {}

  // Powers of a norm-1 element have norm 1.
  lemma {:induction false} NormPow(a: F2, n: nat, d: int, q: int)
    requires q > 0 && Eq(Norm(a, d), 1, q)
    ensures Eq(Norm(Pow2(a, n, d), d), 1, q)
  {
    if n == 0 {
      EqRefl(1, q);
    } else {
      NormPow(a, n - 1, d, q);
      NormMul(Pow2(a, n - 1, d), a, d);
      EqMul(Norm(Pow2(a, n - 1, d), d), 1, Norm(a, d), 1, q);
    }
  }

  // ---------- congruence ----------

  lemma Refl2(a: F2, q: int)
    requires q > 0
    ensures Eq2(a, a, q)
  {
    EqRefl(a.re, q); EqRefl(a.im, q);
  }

  lemma Sym2(a: F2, b: F2, q: int)
    requires q > 0 && Eq2(a, b, q)
    ensures Eq2(b, a, q)
  {
    EqSym(a.re, b.re, q); EqSym(a.im, b.im, q);
  }

  lemma Trans2(a: F2, b: F2, c: F2, q: int)
    requires q > 0 && Eq2(a, b, q) && Eq2(b, c, q)
    ensures Eq2(a, c, q)
  {
    EqTrans(a.re, b.re, c.re, q); EqTrans(a.im, b.im, c.im, q);
  }

  lemma CongMul2(a: F2, a': F2, b: F2, b': F2, d: int, q: int)
    requires q > 0 && Eq2(a, a', q) && Eq2(b, b', q)
    ensures Eq2(Mul2(a, b, d), Mul2(a', b', d), q)
  {
    EqMul(a.re, a'.re, b.re, b'.re, q); EqMul(a.im, a'.im, b.im, b'.im, q);
    EqMul(a.re, a'.re, b.im, b'.im, q); EqMul(a.im, a'.im, b.re, b'.re, q);
    EqRefl(d, q);
    EqMul(d, d, a.im * b.im, a'.im * b'.im, q);
    EqAdd(a.re * b.re, a'.re * b'.re, d * (a.im * b.im), d * (a'.im * b'.im), q);
    EqAdd(a.re * b.im, a'.re * b'.im, a.im * b.re, a'.im * b'.re, q);
  }

  lemma {:induction false} CongPow2(a: F2, b: F2, n: nat, d: int, q: int)
    requires q > 0 && Eq2(a, b, q)
    ensures Eq2(Pow2(a, n, d), Pow2(b, n, d), q)
  {
    if n == 0 { Refl2(One, q); } else {
      CongPow2(a, b, n - 1, d, q);
      CongMul2(Pow2(a, n - 1, d), Pow2(b, n - 1, d), a, b, d, q);
    }
  }

  lemma CongNorm(a: F2, b: F2, d: int, q: int)
    requires q > 0 && Eq2(a, b, q)
    ensures Eq(Norm(a, d), Norm(b, d), q)
  {
    EqMul(a.re, b.re, a.re, b.re, q); EqMul(a.im, b.im, a.im, b.im, q);
    EqRefl(d, q);
    EqMul(d, d, a.im * a.im, b.im * b.im, q);
    EqAdd(a.re * a.re, b.re * b.re, d * (a.im * a.im), d * (b.im * b.im), q);
  }

  lemma InverseProduct2(a: F2, d: int, q: int)
    requires Prime(q) && !Eq(Norm(a, d), 0, q)
    ensures Eq2(Mul2(a, Inv2(a, d, q), d), One, q)
  {
    InvPrime(Norm(a, d), q);
    var i := Inv(Norm(a, d), q);
    InverseIdentity2(a.re, a.im, d, i);
    EqRefl(0, q);
  }

  lemma InverseIdentity2(x: int, y: int, d: int, i: int)
    ensures x * (x * i) + d * (y * -(y * i)) == (x * x - d * (y * y)) * i
    ensures x * -(y * i) + y * (x * i) == 0
  {}

  // ---------- the library's routines ----------

  // fq_mul: Karatsuba
  method FqMul(a: F2, b: F2, nqr: int) returns (r: F2)
    ensures r == Mul2(a, b, nqr)
  {
    var e0 := a.re + a.im;
    var e1 := b.re + b.im;
    var e2 := e0 * e1;
    e0 := a.re * b.re;
    e1 := a.im * b.im;
    var x := e1 * nqr;
    x := x + e0;
    e2 := e2 - e0;
    r := F2(x, e2 - e1);
  }

  // fi_mul: the same for nqr = -1 with one multiplication less
  method FiMul(a: F2, b: F2) returns (r: F2)
    ensures r == Mul2(a, b, -1)
  {
    var e0 := a.re + a.im;
    var e1 := b.re + b.im;
    var e2 := e0 * e1;
    e0 := a.re * b.re;
    e2 := e2 - e0;
    e1 := a.im * b.im;
    r := F2(e0 - e1, e2 - e1);
  }

  // fq_square
  method FqSquare(a: F2, nqr: int) returns (r: F2)
    ensures r == Mul2(a, a, nqr)
  {
    var e0 := a.re * a.re;
    var e1 := a.im * a.im;
    e1 := e1 * nqr;
    e0 := e0 + e1;
    e1 := a.re * a.im;
    e1 := e1 + e1;
    r := F2(e0, e1);
  }

  // fi_square: (x+y)(x-y) and 2xy
  method FiSquare(a: F2) returns (r: F2)
    ensures r == Mul2(a, a, -1)
  {
    var e0 := a.re + a.im;
    var e1 := a.re - a.im;
    e0 := e0 * e1;
    e1 := a.re * a.im;
    e1 := e1 + e1;
    r := F2(e0, e1);
  }

  // fq_invert
  method FqInvert(a: F2, nqr: int, q: int) returns (r: F2)
    requires Prime(q) && !Eq(Norm(a, nqr), 0, q)
    ensures r == Inv2(a, nqr, q) && Eq2(Mul2(a, r, nqr), One, q)
  {
    InverseProduct2(a, nqr, q);
    hide Inv, Eq;
    var e0 := a.re * a.re;
    var e1 := a.im * a.im;
    e1 := e1 * nqr;
    e0 := e0 - e1;
    assert e0 == Norm(a, nqr);
    e0 := Inv(e0, q);
    var x := a.re * e0;
    e0 := -e0;
    r := F2(x, a.im * e0);
    assert a.im * e0 == -(a.im * Inv(Norm(a, nqr), q));
  }

  // fi_invert
  method FiInvert(a: F2, q: int) returns (r: F2)
    requires Prime(q) && !Eq(Norm(a, -1), 0, q)
    ensures r == Inv2(a, -1, q) && Eq2(Mul2(a, r, -1), One, q)
  {
    InverseProduct2(a, -1, q);
    hide Inv, Eq;
    var e0 := a.re * a.re;
    var e1 := a.im * a.im;
    e0 := e0 + e1;
    assert e0 == Norm(a, -1);
    e0 := Inv(e0, q);
    var x := a.re * e0;
    e0 := -e0;
    r := F2(x, a.im * e0);
    assert a.im * e0 == -(a.im * Inv(Norm(a, -1), q));
  }
}
