/** Polynomials over F_q (arith/poly.c): division with remainder, greatest common divisors, inverses.

    A polynomial is the sequence of its coefficients, constant term first; coefficients are
    representatives of residues modulo q. An identity that holds of the values at every integer x
    is an identity of integer polynomials (EvalDetermines), so congruence modulo q and modulo a
    polynomial m is stated with the cofactors of q and of m as polynomials of their own. */
module Poly {
  import opened Modular
  import opened Residues

  function Eval(p: seq<int>, x: int): int {
    if |p| == 0 then 0 else p[0] + x * Eval(p[1..], x)
  }

  function Coeff(p: seq<int>, i: nat): int { if i < |p| then p[i] else 0 }

  function Add(a: seq<int>, b: seq<int>): (r: seq<int>)
    ensures |r| == (if |a| > |b| then |a| else |b|)
    ensures forall i :: 0 <= i < |r| ==> r[i] == Coeff(a, i) + Coeff(b, i)
  {
    if |a| == 0 then b else if |b| == 0 then a else [a[0] + b[0]] + Add(a[1..], b[1..])
  }

  function Scale(c: int, a: seq<int>): (r: seq<int>)
    ensures |r| == |a| && forall i :: 0 <= i < |r| ==> r[i] == c * a[i]
  {
    if |a| == 0 then [] else [c * a[0]] + Scale(c, a[1..])
  }

  function Mul(a: seq<int>, b: seq<int>): (r: seq<int>)
    ensures |r| <= |a| + |b|
  {
    if |a| == 0 then [] else Add(Scale(a[0], b), [0] + Mul(a[1..], b))
  }

  // ---------- values ----------

  lemma EvalShort(x: int)
    ensures Eval([], x) == 0
  {}

  lemma EvalCons(c: int, p: seq<int>, x: int)
    ensures Eval([c] + p, x) == c + x * Eval(p, x)
  {
    assert ([c] + p)[1..] == p;
  }

  lemma EvalConst(c: int, x: int)
    ensures Eval([c], x) == c
  {
    assert [c][1..] == [];
    assert x * 0 == 0;
  }

  lemma {:induction false} EvalAdd(a: seq<int>, b: seq<int>, x: int)
    ensures Eval(Add(a, b), x) == Eval(a, x) + Eval(b, x)
  {
    if |a| > 0 && |b| > 0 {
      EvalAdd(a[1..], b[1..], x);
      EvalCons(a[0] + b[0], Add(a[1..], b[1..]), x);
      AddStep(a[0], b[0], x, Eval(a[1..], x), Eval(b[1..], x));
    }
  }

  lemma AddStep(a: int, b: int, x: int, s: int, t: int)
    ensures a + b + x * (s + t) == (a + x * s) + (b + x * t)
  {}

  lemma {:induction false} EvalScale(c: int, a: seq<int>, x: int)
    ensures Eval(Scale(c, a), x) == c * Eval(a, x)
  {
    if |a| > 0 {
      EvalScale(c, a[1..], x);
      EvalCons(c * a[0], Scale(c, a[1..]), x);
      ScaleStep(c, a[0], x, Eval(a[1..], x));
    }
  }

  lemma ScaleStep(c: int, a: int, x: int, t: int)
    ensures c * a + x * (c * t) == c * (a + x * t)
  {}

  lemma {:induction false} EvalMul(a: seq<int>, b: seq<int>, x: int)
    ensures Eval(Mul(a, b), x) == Eval(a, x) * Eval(b, x)
  {
    if |a| > 0 {
      EvalMul(a[1..], b, x);
      EvalCons(0, Mul(a[1..], b), x);
      EvalScale(a[0], b, x);
      EvalAdd(Scale(a[0], b), [0] + Mul(a[1..], b), x);
      MulStep(a[0], Eval(b, x), x, Eval(a[1..], x));
    }
  }

  lemma MulStep(a: int, b: int, x: int, t: int)
    ensures a * b + (0 + x * (t * b)) == (a + x * t) * b
  {}

  /** Equal values at all nonzero integers are equal coefficients. */
  lemma {:induction false} EvalDetermines(p: seq<int>, r: seq<int>)
    requires forall x: int :: x != 0 ==> Eval(p, x) == Eval(r, x)
    ensures forall i: nat :: Coeff(p, i) == Coeff(r, i)
    decreases |p| + |r|
  {
    if |p| + |r| > 0 {
      var p', r' := if |p| > 0 then p[1..] else [], if |r| > 0 then r[1..] else [];
      var c := Coeff(p, 0) - Coeff(r, 0);
      forall x: int | x != 0 ensures Eval(p, x) - Eval(r, x) == c + x * (Eval(p', x) - Eval(r', x)) {
        EvalHead(p, x);
        EvalHead(r, x);
        DistributeDifference(x, Eval(p', x), Eval(r', x));
      }
      var big := (if c >= 0 then c else -c) + 1;
      DividesSmall(c, big, Eval(p', big) - Eval(r', big));
      forall x: int | x != 0 ensures Eval(p', x) == Eval(r', x) {
        NonzeroFactor(x, Eval(p', x) - Eval(r', x));
      }
      EvalDetermines(p', r');
      forall i: nat ensures Coeff(p, i) == Coeff(r, i) {
        if i > 0 { assert Coeff(p, i) == Coeff(p', i - 1) && Coeff(r, i) == Coeff(r', i - 1); }
      }
    }
  }

  lemma EvalHead(p: seq<int>, x: int)
    ensures Eval(p, x) == Coeff(p, 0) + x * Eval(if |p| > 0 then p[1..] else [], x)
  {
    if |p| == 0 { assert x * 0 == 0; }
  }

  lemma DistributeDifference(x: int, s: int, t: int)
    ensures x * s - x * t == x * (s - t)
  {}

  lemma DividesSmall(c: int, x: int, t: int)
    requires c + x * t == 0 && -x < c < x
    ensures c == 0
  {
    assert t * x == x * t;
    SmallMultiple(t, x);
  }

  lemma NonzeroFactor(x: int, t: int)
    requires x != 0 && x * t == 0
    ensures t == 0
  {}

  // ---------- congruence ----------

  // a = b + u m + q s, as polynomials.
  ghost predicate Near(a: seq<int>, b: seq<int>, m: seq<int>, q: int, u: seq<int>, s: seq<int>) {
    forall x: int :: Eval(a, x) == Eval(b, x) + Eval(u, x) * Eval(m, x) + q * Eval(s, x)
  }

  // a = b in F_q[x] modulo m
  ghost predicate MEq(a: seq<int>, b: seq<int>, m: seq<int>, q: int) {
    exists u, s :: Near(a, b, m, q, u, s)
  }

  // a = b in F_q[x]
  ghost predicate Cong(a: seq<int>, b: seq<int>, q: int)
    requires q > 0
  {
    forall i: nat :: Eq(Coeff(a, i), Coeff(b, i), q)
  }

  function Gap(a: seq<int>, b: seq<int>, q: int): seq<int>
    requires q > 0
    decreases |a| + |b|
  {
    if |a| == 0 && |b| == 0 then [] else
      [(Coeff(a, 0) - Coeff(b, 0)) / q] + Gap(if |a| > 0 then a[1..] else [], if |b| > 0 then b[1..] else [], q)
  }

  lemma {:induction false} EvalGap(a: seq<int>, b: seq<int>, q: int, x: int)
    requires q > 0 && Cong(a, b, q)
    ensures Eval(a, x) == Eval(b, x) + q * Eval(Gap(a, b, q), x)
    decreases |a| + |b|
  {
    if |a| == 0 && |b| == 0 {
      assert q * 0 == 0;
    } else {
      var a', b' := if |a| > 0 then a[1..] else [], if |b| > 0 then b[1..] else [];
      forall i: nat ensures Eq(Coeff(a', i), Coeff(b', i), q) {
        assert Coeff(a, i + 1) == Coeff(a', i) && Coeff(b, i + 1) == Coeff(b', i);
      }
      EvalGap(a', b', q, x);
      EvalHead(a, x);
      EvalHead(b, x);
      var k := (Coeff(a, 0) - Coeff(b, 0)) / q;
      EvalCons(k, Gap(a', b', q), x);
      assert Eq(Coeff(a, 0), Coeff(b, 0), q);
      GapStep(Coeff(a, 0), Coeff(b, 0), k, q, x, Eval(a', x), Eval(b', x), Eval(Gap(a', b', q), x));
    }
  }

  lemma GapStep(a: int, b: int, k: int, q: int, x: int, s: int, t: int, g: int)
    requires q > 0 && (a - b) % q == 0 && k == (a - b) / q && s == t + q * g
    ensures a + x * s == b + x * t + q * (k + x * g)
  {
    assert a - b == q * k;
    assert x * (t + q * g) == x * t + q * (x * g);
  }

  lemma CongToNear(a: seq<int>, b: seq<int>, q: int)
    requires q > 0 && Cong(a, b, q)
    ensures MEq(a, b, [], q)
  {
    hide Eval, Cong;
    var g := Gap(a, b, q);
    forall x: int ensures Eval(a, x) == Eval(b, x) + Eval([], x) * Eval([], x) + q * Eval(g, x) {
      EvalGap(a, b, q, x);
      EvalShort(x);
    }
    assert Near(a, b, [], q, [], g);
  }

  lemma NearToCong(a: seq<int>, b: seq<int>, q: int)
    requires q > 0 && MEq(a, b, [], q)
    ensures Cong(a, b, q)
  {
    var u, s :| Near(a, b, [], q, u, s);
    var c := Add(b, Scale(q, s));
    NearAll(a, b, c, q, u, s);
    EvalDetermines(a, c);
    forall i: nat ensures Eq(Coeff(a, i), Coeff(b, i), q) {
      assert Coeff(a, i) == Coeff(c, i);
      assert Coeff(c, i) == Coeff(b, i) + Coeff(Scale(q, s), i);
      ScaleCoeff(q, s, i);
      EqIntro(Coeff(a, i), Coeff(b, i), Coeff(s, i), q);
    }
  }

  lemma NearAll(a: seq<int>, b: seq<int>, c: seq<int>, q: int, u: seq<int>, s: seq<int>)
    requires Near(a, b, [], q, u, s) && c == Add(b, Scale(q, s))
    ensures forall x: int :: Eval(a, x) == Eval(c, x)
  {
    hide Add, Scale, Eval;
    forall x: int ensures Eval(a, x) == Eval(c, x) {
      EvalAdd(b, Scale(q, s), x);
      EvalScale(q, s, x);
      EvalShort(x);
      TimesNothing(Eval(u, x));
    }
  }

  lemma TimesNothing(u: int)
    ensures u * 0 == 0
  {}

  lemma ScaleCoeff(c: int, s: seq<int>, i: nat)
    ensures Coeff(Scale(c, s), i) == Coeff(s, i) * c
  {
    if i >= |s| { TimesNothing(c); }
  }

  /** Congruent coefficients are congruence modulo the zero polynomial. */
  lemma {:induction false} CongIsNear(a: seq<int>, b: seq<int>, q: int)
    requires q > 0
    ensures Cong(a, b, q) <==> MEq(a, b, [], q)
  {
    hide Cong, MEq;
    if Cong(a, b, q) { CongToNear(a, b, q); }
    if MEq(a, b, [], q) { NearToCong(a, b, q); }
  }

  // c = w a + v b + q t carries congruences to zero of a and b to c.
  lemma MultipleCombine(a: seq<int>, b: seq<int>, c: seq<int>, w: seq<int>, v: seq<int>, t: seq<int>, m: seq<int>, q: int)
    requires MEq(a, [], m, q) && MEq(b, [], m, q)
    requires forall x: int :: Eval(c, x) == Eval(w, x) * Eval(a, x) + Eval(v, x) * Eval(b, x) + q * Eval(t, x)
    ensures MEq(c, [], m, q)
  {
    hide Eval, Add, Mul;
    var u1, s1 :| Near(a, [], m, q, u1, s1);
    var u2, s2 :| Near(b, [], m, q, u2, s2);
    var u := Add(Mul(w, u1), Mul(v, u2));
    var s := Add(Add(Mul(w, s1), Mul(v, s2)), t);
    forall x: int ensures Eval(c, x) == Eval([], x) + Eval(u, x) * Eval(m, x) + q * Eval(s, x) {
      EvalShort(x);
      EvalAdd(Mul(w, u1), Mul(v, u2), x); EvalMul(w, u1, x); EvalMul(v, u2, x);
      EvalAdd(Add(Mul(w, s1), Mul(v, s2)), t, x); EvalAdd(Mul(w, s1), Mul(v, s2), x); EvalMul(w, s1, x); EvalMul(v, s2, x);
      CombineIdentity(Eval(w, x), Eval(v, x), Eval(u1, x), Eval(u2, x), Eval(s1, x), Eval(s2, x), Eval(t, x), Eval(m, x), q);
    }
    assert Near(c, [], m, q, u, s);
  }

  lemma CombineIdentity(w: int, v: int, u1: int, u2: int, s1: int, s2: int, t: int, m: int, q: int)
    ensures w * (0 + u1 * m + q * s1) + v * (0 + u2 * m + q * s2) + q * t
         == 0 + (w * u1 + v * u2) * m + q * (w * s1 + v * s2 + t)
  {
    CombineHalf(w, u1, s1, m, q);
    CombineHalf(v, u2, s2, m, q);
  }

  lemma CombineHalf(w: int, u: int, s: int, m: int, q: int)
    ensures w * (0 + u * m + q * s) == (w * u) * m + q * (w * s)
  {}

  // ---------- leading coefficients ----------

  lemma MulCoeff(a: seq<int>, b: seq<int>, i: nat)
    requires |a| > 0
    ensures Coeff(Mul(a, b), i) == Coeff(Scale(a[0], b), i) + (if i == 0 then 0 else Coeff(Mul(a[1..], b), i - 1))
  {
    var r := [0] + Mul(a[1..], b);
    assert Mul(a, b) == Add(Scale(a[0], b), r);
    assert Coeff(r, i) == if i == 0 then 0 else Coeff(Mul(a[1..], b), i - 1);
  }

  // Highest coefficients of a product.
  lemma {:induction false} MulTop(a: seq<int>, b: seq<int>)
    requires |a| > 0 && |b| > 0
    ensures Coeff(Mul(a, b), |a| + |b| - 2) == a[|a| - 1] * b[|b| - 1]
    ensures forall i: nat :: i >= |a| + |b| - 1 ==> Coeff(Mul(a, b), i) == 0
  {
    hide Mul, Scale;
    if |a| == 1 {
      MulNothing(b);
      assert a[1..] == [];
    } else {
      MulTop(a[1..], b);
    }
    MulCoeff(a, b, |a| + |b| - 2);
    forall i: nat | i >= |a| + |b| - 1 ensures Coeff(Mul(a, b), i) == 0 { MulCoeff(a, b, i); }
  }

  lemma MulNothing(b: seq<int>)
    ensures Mul([], b) == []
  {}

  ghost predicate Normal(p: seq<int>, q: int)
    requires q > 0
  {
    |p| > 0 ==> !Eq(p[|p| - 1], 0, q)
  }

  /** Remainders below a polynomial with an invertible leading coefficient are unique. */
  lemma {:induction false} UniqueRemainder(a: seq<int>, b: seq<int>, m: seq<int>, q: int)
    requires Prime(q) && |m| > 0 && Normal(m, q) && |a| < |m| && |b| < |m| && MEq(a, b, m, q)
    ensures Cong(a, b, q)
  {
    var u, s :| Near(a, b, m, q, u, s);
    UniqueStep(a, b, m, q, u, s);
  }

  lemma {:induction false} UniqueStep(a: seq<int>, b: seq<int>, m: seq<int>, q: int, u: seq<int>, s: seq<int>)
    requires q > 0 && Prime(q) && |m| > 0 && Normal(m, q) && |a| < |m| && |b| < |m| && Near(a, b, m, q, u, s)
    ensures Cong(a, b, q)
    decreases |u|
  {
    hide Eval, Mul, Add, Scale, Coeff, Prime;
    if |u| == 0 {
      DropCofactor(a, b, m, q, u, s);
    } else {
      TopVanishes(a, b, m, q, u, s);
      var s' := LowerCofactor(a, b, m, q, u, s);
      UniqueStep(a, b, m, q, u[..|u| - 1], s');
    }
  }

  lemma DropCofactor(a: seq<int>, b: seq<int>, m: seq<int>, q: int, u: seq<int>, s: seq<int>)
    requires q > 0 && |u| == 0 && Near(a, b, m, q, u, s)
    ensures Cong(a, b, q)
  {
    forall x: int ensures Eval(a, x) == Eval(b, x) + Eval(u, x) * Eval([], x) + q * Eval(s, x) {
      EvalShort(x);
      assert u == [];
      assert 0 * Eval(m, x) == 0;
    }
    assert Near(a, b, [], q, u, s);
    CongIsNear(a, b, q);
  }

  // The coefficients of b + u m + q s.
  lemma NearCoeff(a: seq<int>, b: seq<int>, m: seq<int>, q: int, u: seq<int>, s: seq<int>, i: nat)
    requires Near(a, b, m, q, u, s)
    ensures Coeff(a, i) == Coeff(b, i) + Coeff(Mul(u, m), i) + Coeff(s, i) * q
  {
    hide Mul, Eval, Add, Scale;
    var um := Mul(u, m);
    var qs := Scale(q, s);
    var c := Add(Add(b, um), qs);
    forall x: int ensures Eval(a, x) == Eval(c, x) {
      EvalAdd(Add(b, um), qs, x); EvalAdd(b, um, x); EvalMul(u, m, x); EvalScale(q, s, x);
    }
    EvalDetermines(a, c);
    assert Coeff(a, i) == Coeff(c, i);
    AddCoeff(Add(b, um), qs, i);
    AddCoeff(b, um, i);
    ScaleCoeff(q, s, i);
  }

  lemma AddCoeff(a: seq<int>, b: seq<int>, i: nat)
    ensures Coeff(Add(a, b), i) == Coeff(a, i) + Coeff(b, i)
  {
    hide Add;
  }

  // The top coefficient of the cofactor is a multiple of q, since a - b has no term that high.
  lemma TopVanishes(a: seq<int>, b: seq<int>, m: seq<int>, q: int, u: seq<int>, s: seq<int>)
    requires q > 0 && Prime(q) && |m| > 0 && Normal(m, q) && |a| < |m| && |b| < |m| && |u| > 0 && Near(a, b, m, q, u, s)
    ensures u[|u| - 1] % q == 0
  {
    hide Mul, Prime, Near;
    var i := |u| + |m| - 2;
    MulTop(u, m);
    NearCoeff(a, b, m, q, u, s, i);
    NegTimes(Coeff(s, i), q);
    ModZero(u[|u| - 1] * m[|m| - 1], -Coeff(s, i), q);
    NoZeroDivisors(u[|u| - 1], m[|m| - 1], q);
  }

  lemma NegTimes(s: int, q: int)
    ensures -s * q == -(s * q)
  {}

  function Monomial(c: int, n: nat): (r: seq<int>)
    ensures |r| == n + 1
  {
    if n == 0 then [c] else [0] + Monomial(c, n - 1)
  }

  lemma {:induction false} EvalMonomial(c: int, n: nat, x: int)
    ensures Eval(Monomial(c, n), x) == c * Pow(x, n)
  {
    if n == 0 {
      EvalConst(c, x);
    } else {
      EvalMonomial(c, n - 1, x);
      EvalCons(0, Monomial(c, n - 1), x);
      assert x * (c * Pow(x, n - 1)) == c * (x * Pow(x, n - 1));
    }
  }

  lemma {:induction false} EvalSnoc(p: seq<int>, c: int, x: int)
    ensures Eval(p + [c], x) == Eval(p, x) + c * Pow(x, |p|)
  {
    if |p| == 0 {
      assert p + [c] == [c];
      EvalConst(c, x);
    } else {
      EvalSnoc(p[1..], c, x);
      assert (p + [c])[1..] == p[1..] + [c];
      SnocStep(p[0], x, Eval(p[1..], x), c, Pow(x, |p| - 1));
    }
  }

  lemma SnocStep(a: int, x: int, e: int, c: int, w: int)
    ensures a + x * (e + c * w) == a + x * e + c * (x * w)
  {}

  lemma LowerCofactor(a: seq<int>, b: seq<int>, m: seq<int>, q: int, u: seq<int>, s: seq<int>) returns (s': seq<int>)
    requires q > 0 && |u| > 0 && u[|u| - 1] % q == 0 && Near(a, b, m, q, u, s)
    ensures Near(a, b, m, q, u[..|u| - 1], s')
  {
    hide Mul, Pow;
    var n := |u| - 1;
    var t := ModWitness(u[n], q);
    s' := Add(s, Mul(Monomial(t, n), m));
    forall x: int ensures Eval(a, x) == Eval(b, x) + Eval(u[..n], x) * Eval(m, x) + q * Eval(s', x) {
      EvalSnoc(u[..n], u[n], x);
      assert u[..n] + [u[n]] == u;
      EvalAdd(s, Mul(Monomial(t, n), m), x);
      EvalMul(Monomial(t, n), m, x);
      EvalMonomial(t, n, x);
      LowerIdentity(Eval(u[..n], x), t, q, Pow(x, n), Eval(m, x), Eval(s, x));
    }
  }

  lemma LowerIdentity(e: int, t: int, q: int, w: int, m: int, s: int)
    ensures (e + (t * q) * w) * m + q * s == e * m + q * (s + (t * w) * m)
  {}
}
