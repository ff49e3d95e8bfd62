/** poly_mul, poly_sub, poly_const_mul and poly_invert (arith/poly.c). */
module PolyInverse {
  import opened Modular
  import opened Poly
  import opened PolyDivision

  // ---------- products by convolution ----------

  // The first n terms of coefficient i of a product.
  function Conv(f: seq<int>, g: seq<int>, i: nat, n: nat): int
    requires n <= i + 1
  {
    if n == 0 then 0 else Conv(f, g, i, n - 1) + Coeff(f, n - 1) * Coeff(g, i - (n - 1))
  }

  lemma {:induction false} ConvShift(f: seq<int>, g: seq<int>, i: nat, n: nat)
    requires |f| > 0 && 1 <= n <= i + 1
    ensures Conv(f, g, i, n) == f[0] * Coeff(g, i) + (if n == 1 then 0 else Conv(f[1..], g, i - 1, n - 1))
  {
    if n > 1 {
      ConvShift(f, g, i, n - 1);
      assert Coeff(f, n - 1) == Coeff(f[1..], n - 2);
    }
  }

  lemma {:induction false} ConvZero(f: seq<int>, g: seq<int>, i: nat, n: nat)
    requires |f| == 0 && n <= i + 1
    ensures Conv(f, g, i, n) == 0
  {
    if n > 0 {
      ConvZero(f, g, i, n - 1);
      assert 0 * Coeff(g, i - (n - 1)) == 0;
    }
  }

  /** Every coefficient of a product is a convolution sum. */
  lemma {:induction false} MulIsConv(f: seq<int>, g: seq<int>, i: nat)
    ensures Coeff(Mul(f, g), i) == Conv(f, g, i, i + 1)
    decreases |f|
  {
    hide Mul, Conv, Scale;
    if |f| == 0 {
      assert f == [];
      MulNothing(g);
      ConvZero(f, g, i, i + 1);
    } else {
      MulCoeff(f, g, i);
      ConvShift(f, g, i, i + 1);
      ScaleCoeff(f[0], g, i);
      OrderOfFactors(f[0], Coeff(g, i));
      if i > 0 { MulIsConv(f[1..], g, i - 1); }
    }
  }

  lemma OrderOfFactors(a: int, b: int)
    ensures a * b == b * a
  {}

  /** poly_mul */
  method PolyMul(f: seq<int>, g: seq<int>, q: int) returns (r: seq<int>)
    requires q > 0
    ensures Cong(Mul(f, g), r, q) && Normal(r, q)
    ensures |r| <= (if |f| == 0 || |g| == 0 then 0 else |f| + |g| - 1)
  {
    hide Mul, Eq, Cong, Coeff;
    if |f| == 0 || |g| == 0 {
      ProductEmpty(f, g, q);
      return [];
    }
    var n := |f| + |g| - 1;
    var prod: seq<int> := [];
    for i := 0 to n
      invariant |prod| == i && forall c :: 0 <= c < i ==> prod[c] == Conv(f, g, c, c + 1)
    {
      var x := 0;
      for j := 0 to i + 1
        invariant x == Conv(f, g, i, j)
      {
        ConvTerm(f, g, i, j);
        if j < |f| && i - j < |g| {
          var e0 := f[j] * g[i - j];
          x := x + e0;
        }
      }
      prod := prod + [x];
    }
    r := RemoveLeadingZeroes(prod, q);
    ProductFull(f, g, prod, r, q);
  }

  lemma ConvTerm(f: seq<int>, g: seq<int>, i: nat, j: nat)
    requires j <= i
    ensures Conv(f, g, i, j + 1) == Conv(f, g, i, j) + (if j < |f| && i - j < |g| then f[j] * g[i - j] else 0)
  {
    if j >= |f| { assert 0 * Coeff(g, i - j) == 0; } else if i - j >= |g| { assert f[j] * 0 == 0; }
  }

  lemma ProductEmpty(f: seq<int>, g: seq<int>, q: int)
    requires q > 0 && (|f| == 0 || |g| == 0)
    ensures Cong(Mul(f, g), [], q)
  {
    forall i: nat ensures Eq(Coeff(Mul(f, g), i), Coeff([], i), q) {
      MulIsConv(f, g, i);
      ConvEmpty(f, g, i, i + 1);
      EqRefl(0, q);
    }
  }

  lemma {:induction false} ConvEmpty(f: seq<int>, g: seq<int>, i: nat, n: nat)
    requires (|f| == 0 || |g| == 0) && n <= i + 1
    ensures Conv(f, g, i, n) == 0
  {
    if n > 0 {
      ConvEmpty(f, g, i, n - 1);
      ConvTerm(f, g, i, n - 1);
    }
  }

  lemma ProductFull(f: seq<int>, g: seq<int>, prod: seq<int>, r: seq<int>, q: int)
    requires q > 0 && |f| > 0 && |g| > 0 && |prod| == |f| + |g| - 1 && Cong(prod, r, q)
    requires forall c :: 0 <= c < |prod| ==> prod[c] == Conv(f, g, c, c + 1)
    ensures Cong(Mul(f, g), r, q)
  {
    hide Mul;
    MulTop(f, g);
    forall i: nat ensures Eq(Coeff(Mul(f, g), i), Coeff(r, i), q) {
      if i < |prod| { MulIsConv(f, g, i); }
      assert Coeff(Mul(f, g), i) == Coeff(prod, i);
    }
  }

  // poly_element_s
  class PolyElement {
    var coeff: seq<int>

    constructor (coeff: seq<int>)
      ensures this.coeff == coeff
    {
      this.coeff := coeff;
    }

    /** poly_alloc: new coefficients on top, or the top ones dropped. */
    method Alloc(n: nat)
      modifies this
      ensures |coeff| == n && forall i :: 0 <= i < n && i < |old(coeff)| ==> coeff[i] == old(coeff)[i]
    {
      while |coeff| < n
        invariant |coeff| <= n || coeff == old(coeff)
        invariant |old(coeff)| <= |coeff| && coeff[..|old(coeff)|] == old(coeff)
      {
        coeff := coeff + [0];
      }
      while |coeff| > n
        invariant n <= |coeff|
        invariant forall i :: 0 <= i < |coeff| && i < |old(coeff)| ==> coeff[i] == old(coeff)[i]
      {
        coeff := coeff[..|coeff| - 1];
      }
    }
  }

  /** poly_sub: the target may be either operand. */
  method PolySub(diff: PolyElement, f: PolyElement, g: PolyElement, q: int)
    requires q > 0
    modifies diff
    ensures Cong(Add(old(f.coeff), Scale(-1, old(g.coeff))), diff.coeff, q) && Normal(diff.coeff, q)
    ensures |diff.coeff| <= (if |old(f.coeff)| > |old(g.coeff)| then |old(f.coeff)| else |old(g.coeff)|)
  {
    hide Eq, Cong, Normal, Add, Scale;
    ghost var f0, g0 := f.coeff, g.coeff;
    var n, n1 := |f.coeff|, |g.coeff|;
    var big := g;
    if n > n1 {
      big := f;
      n, n1 := n1, n;
    }
    diff.Alloc(n1);
    for i := 0 to n
      invariant |diff.coeff| == n1 && forall c :: 0 <= c < i ==> diff.coeff[c] == Coeff(f0, c) - Coeff(g0, c)
      invariant forall c :: i <= c < |f0| ==> c < |f.coeff| && f.coeff[c] == f0[c]
      invariant forall c :: i <= c < |g0| ==> c < |g.coeff| && g.coeff[c] == g0[c]
    {
      diff.coeff := diff.coeff[i := f.coeff[i] - g.coeff[i]];
    }
    for i := n to n1
      invariant |diff.coeff| == n1 && forall c :: 0 <= c < i ==> diff.coeff[c] == Coeff(f0, c) - Coeff(g0, c)
      invariant forall c :: i <= c < |f0| ==> c < |f.coeff| && f.coeff[c] == f0[c]
      invariant forall c :: i <= c < |g0| ==> c < |g.coeff| && g.coeff[c] == g0[c]
    {
      if big == f {
        diff.coeff := diff.coeff[i := big.coeff[i]];
      } else {
        diff.coeff := diff.coeff[i := -big.coeff[i]];
      }
    }
    DifferenceIsAdd(f0, g0, diff.coeff);
    diff.coeff := RemoveLeadingZeroes(diff.coeff, q);
  }

  lemma DifferenceIsAdd(f: seq<int>, g: seq<int>, diff: seq<int>)
    requires |diff| == (if |f| > |g| then |f| else |g|) && forall c :: 0 <= c < |diff| ==> diff[c] == Coeff(f, c) - Coeff(g, c)
    ensures diff == Add(f, Scale(-1, g))
  {
    hide Add, Scale;
  }

  /** poly_const_mul */
  method PolyConstMul(a: int, poly: seq<int>, q: int) returns (r: seq<int>)
    requires q > 0
    ensures Cong(Scale(a, poly), r, q) && Normal(r, q) && |r| <= |poly|
  {
    var res := [];
    for i := 0 to |poly|
      invariant |res| == i && forall c :: 0 <= c < i ==> res[c] == a * poly[c]
    {
      res := res + [a * poly[i]];
    }
    assert res == Scale(a, poly);
    r := RemoveLeadingZeroes(res, q);
  }

  // ---------- inverses ----------

  // b f = r modulo m and q
  ghost predicate Linear(b: seq<int>, r: seq<int>, f: seq<int>, m: seq<int>, q: int) {
    exists u, s :: LinearBy(b, r, f, m, q, u, s)
  }

  ghost predicate LinearBy(b: seq<int>, r: seq<int>, f: seq<int>, m: seq<int>, q: int, u: seq<int>, s: seq<int>) {
    forall x: int :: Eval(b, x) * Eval(f, x) == Eval(r, x) + Eval(u, x) * Eval(m, x) + q * Eval(s, x)
  }

  lemma LinearIsMod(b: seq<int>, r: seq<int>, f: seq<int>, m: seq<int>, q: int)
    ensures Linear(b, r, f, m, q) <==> MEq(Mul(b, f), r, m, q)
  {
    hide Eval, Mul;
    forall x: int ensures Eval(Mul(b, f), x) == Eval(b, x) * Eval(f, x) { EvalMul(b, f, x); }
    if Linear(b, r, f, m, q) {
      var u, s :| LinearBy(b, r, f, m, q, u, s);
      assert Near(Mul(b, f), r, m, q, u, s);
    }
    if MEq(Mul(b, f), r, m, q) {
      var u, s :| Near(Mul(b, f), r, m, q, u, s);
      assert LinearBy(b, r, f, m, q, u, s);
    }
  }

  lemma LinearStart(f: seq<int>, m: seq<int>, q: int)
    ensures Linear([], m, f, m, q) && Linear([1], f, f, m, q)
  {
    forall x: int ensures Eval([], x) * Eval(f, x) == Eval(m, x) + Eval([-1], x) * Eval(m, x) + q * Eval([], x) {
      EvalShort(x); EvalConst(-1, x); TimesNothing(q);
      assert 0 * Eval(f, x) == 0;
    }
    assert LinearBy([], m, f, m, q, [-1], []);
    forall x: int ensures Eval([1], x) * Eval(f, x) == Eval(f, x) + Eval([], x) * Eval(m, x) + q * Eval([], x) {
      EvalShort(x); EvalConst(1, x); TimesNothing(q);
      assert 0 * Eval(m, x) == 0;
    }
    assert LinearBy([1], f, f, m, q, [], []);
  }

  // b2 = b0 - b1 quot goes with r2 = r0 - r1 quot.
  lemma LinearStep(b0: seq<int>, b1: seq<int>, b2: seq<int>, prod: seq<int>, r0: seq<int>, r1: seq<int>, r2: seq<int>,
                   quot: seq<int>, f: seq<int>, m: seq<int>, q: int)
    requires q > 0 && Linear(b0, r0, f, m, q) && Linear(b1, r1, f, m, q) && Divided(r0, r1, quot, r2, q)
    requires Cong(Mul(b1, quot), prod, q) && Cong(Add(b0, Scale(-1, prod)), b2, q)
    ensures Linear(b2, r2, f, m, q)
  {
    hide Eval, Gap, Mul, Add, Scale, Cong;
    var u0, s0 :| LinearBy(b0, r0, f, m, q, u0, s0);
    var u1, s1 :| LinearBy(b1, r1, f, m, q, u1, s1);
    var s :| Identity(r0, r1, quot, r2, q, s);
    var g1 := Gap(Mul(b1, quot), prod, q);
    var g2 := Gap(Add(b0, Scale(-1, prod)), b2, q);
    var u := Add(u0, Scale(-1, Mul(quot, u1)));
    // q-part: s0 + s - quot s1 + (g1 - g2) f
    var t := Add(Add(s0, s), Add(Scale(-1, Mul(quot, s1)), Mul(Add(g1, Scale(-1, g2)), f)));
    forall x: int ensures Eval(b2, x) * Eval(f, x) == Eval(r2, x) + Eval(u, x) * Eval(m, x) + q * Eval(t, x) {
      EvalGap(Mul(b1, quot), prod, q, x); EvalMul(b1, quot, x);
      EvalGap(Add(b0, Scale(-1, prod)), b2, q, x); EvalAdd(b0, Scale(-1, prod), x); EvalScale(-1, prod, x);
      CofactorValue(u0, u1, quot, x);
      WitnessValue(s0, s, s1, quot, g1, g2, f, x);
      LinearIdentity(Eval(b0, x), Eval(b1, x), Eval(b2, x), Eval(prod, x), Eval(r0, x), Eval(r1, x), Eval(r2, x), Eval(quot, x),
                     Eval(f, x), Eval(m, x), q, Eval(u0, x), Eval(s0, x), Eval(u1, x), Eval(s1, x), Eval(s, x), Eval(g1, x), Eval(g2, x));
    }
    assert LinearBy(b2, r2, f, m, q, u, t);
  }

  lemma CofactorValue(u0: seq<int>, u1: seq<int>, quot: seq<int>, x: int)
    ensures Eval(Add(u0, Scale(-1, Mul(quot, u1))), x) == Eval(u0, x) - Eval(quot, x) * Eval(u1, x)
  {
    hide Eval, Mul, Add, Scale;
    EvalAdd(u0, Scale(-1, Mul(quot, u1)), x); EvalScale(-1, Mul(quot, u1), x); EvalMul(quot, u1, x);
  }

  lemma WitnessValue(s0: seq<int>, s: seq<int>, s1: seq<int>, quot: seq<int>, g1: seq<int>, g2: seq<int>, f: seq<int>, x: int)
    ensures Eval(Add(Add(s0, s), Add(Scale(-1, Mul(quot, s1)), Mul(Add(g1, Scale(-1, g2)), f))), x)
         == Eval(s0, x) + Eval(s, x) - Eval(quot, x) * Eval(s1, x) + (Eval(g1, x) - Eval(g2, x)) * Eval(f, x)
  {
    hide Eval, Mul, Add, Scale;
    var d := Add(g1, Scale(-1, g2));
    EvalAdd(Add(s0, s), Add(Scale(-1, Mul(quot, s1)), Mul(d, f)), x);
    EvalAdd(s0, s, x);
    EvalAdd(Scale(-1, Mul(quot, s1)), Mul(d, f), x);
    EvalScale(-1, Mul(quot, s1), x); EvalMul(quot, s1, x);
    EvalMul(d, f, x); EvalAdd(g1, Scale(-1, g2), x); EvalScale(-1, g2, x);
  }

  lemma LinearIdentity(b0: int, b1: int, b2: int, p: int, r0: int, r1: int, r2: int, u: int, f: int, m: int, q: int,
                       u0: int, s0: int, u1: int, s1: int, s: int, g1: int, g2: int)
    requires b0 * f == r0 + u0 * m + q * s0 && b1 * f == r1 + u1 * m + q * s1 && r0 == u * r1 + r2 + q * s
    requires b1 * u == p + q * g1 && b0 + -1 * p == b2 + q * g2
    ensures b2 * f == r2 + (u0 - u * u1) * m + q * (s0 + s - u * s1 + (g1 - g2) * f)
  {
    assert b2 == b0 - b1 * u + q * (g1 - g2);
    calc {
      b2 * f;
      b0 * f - u * (b1 * f) + q * (g1 - g2) * f;
      (r0 + u0 * m + q * s0) - u * (r1 + u1 * m + q * s1) + q * (g1 - g2) * f;
    }
    LinearExpand(r0, r1, r2, u, m, q, u0, s0, u1, s1, s, (g1 - g2) * f);
    assert q * (g1 - g2) * f == q * ((g1 - g2) * f);
  }

  lemma LinearExpand(r0: int, r1: int, r2: int, u: int, m: int, q: int, u0: int, s0: int, u1: int, s1: int, s: int, g: int)
    requires r0 == u * r1 + r2 + q * s
    ensures (r0 + u0 * m + q * s0) - u * (r1 + u1 * m + q * s1) + q * g == r2 + (u0 - u * u1) * m + q * (s0 + s - u * s1 + g)
  {}

  /** The only common divisors of f and m are the constants. */
  ghost predicate PolyCoprime(f: seq<int>, m: seq<int>, q: int)
    requires q > 0
  {
    forall d :: CommonDiv(d, f, m, q) && Normal(d, q) ==> |d| <= 1
  }

  // A common divisor of f and m divides 1 when f has an inverse, so it is constant.
  lemma InverseGivesCoprime(b: seq<int>, f: seq<int>, m: seq<int>, d: seq<int>, q: int)
    requires Prime(q) && q > 0 && Linear(b, [1], f, m, q) && CommonDiv(d, f, m, q) && Normal(d, q)
    ensures |d| <= 1
  {
    hide Eval, Mul, Scale;
    var u, s :| LinearBy(b, [1], f, m, q, u, s);
    forall x: int ensures Eval([1], x) == Eval(b, x) * Eval(f, x) + Eval(Scale(-1, u), x) * Eval(m, x) + q * Eval(Scale(-1, s), x) {
      EvalScale(-1, u, x); EvalScale(-1, s, x);
      Isolate1(Eval(b, x), Eval(f, x), Eval([1], x), Eval(u, x), Eval(m, x), q, Eval(s, x));
    }
    MultipleCombine(f, m, [1], b, Scale(-1, u), Scale(-1, s), d, q);
    if |d| >= 2 { OneIsNotZero(d, q); }
  }

  lemma Isolate1(b: int, f: int, r: int, u: int, m: int, q: int, s: int)
    requires b * f == r + u * m + q * s
    ensures r == b * f + (-1 * u) * m + q * (-1 * s)
  {}

  lemma OneIsNotZero(d: seq<int>, q: int)
    requires Prime(q) && q > 0 && |d| >= 2 && Normal(d, q)
    ensures !MEq([1], [], d, q)
  {
    if MEq([1], [], d, q) {
      UniqueRemainder([1], [], d, q);
      assert Eq(Coeff([1], 0), Coeff([], 0), q);
      EqSmall(1, 0, q);
    }
  }

  // The last remainder is constant when f and m are coprime, and dividing by it leaves an inverse.
  lemma FinalInverse(b1: seq<int>, res: seq<int>, c: int, inv: int, f: seq<int>, m: seq<int>, q: int)
    requires q > 0 && Linear(b1, [c], f, m, q) && Eq(c * inv, 1, q) && Cong(Scale(inv, b1), res, q)
    ensures Linear(res, [1], f, m, q)
  {
    hide Eval, Gap, Scale, Cong, Mul, Add;
    var u, s :| LinearBy(b1, [c], f, m, q, u, s);
    var g := Gap(Scale(inv, b1), res, q);
    var k := EqElim(c * inv, 1, q);
    var u' := Scale(inv, u);
    var s' := Add(Add([k], Scale(inv, s)), Scale(-1, Mul(g, f)));
    forall x: int ensures Eval(res, x) * Eval(f, x) == Eval([1], x) + Eval(u', x) * Eval(m, x) + q * Eval(s', x) {
      EvalGap(Scale(inv, b1), res, q, x); EvalScale(inv, b1, x);
      EvalScale(inv, u, x);
      EvalAdd(Add([k], Scale(inv, s)), Scale(-1, Mul(g, f)), x); EvalAdd([k], Scale(inv, s), x); EvalScale(inv, s, x);
      EvalScale(-1, Mul(g, f), x); EvalMul(g, f, x);
      EvalConst(k, x); EvalConst(c, x); EvalConst(1, x);
      FinalIdentity(Eval(b1, x), Eval(res, x), c, inv, Eval(f, x), Eval(m, x), q, Eval(u, x), Eval(s, x), Eval(g, x), k);
    }
    assert LinearBy(res, [1], f, m, q, u', s');
  }

  lemma FinalIdentity(b: int, r: int, c: int, i: int, f: int, m: int, q: int, u: int, s: int, g: int, k: int)
    requires b * f == c + u * m + q * s && i * b == r + q * g && c * i == 1 + k * q
    ensures r * f == 1 + (i * u) * m + q * (k + i * s + -1 * (g * f))
  {
    assert r * f == i * (b * f) - q * (g * f) by { assert (r + q * g) * f == r * f + q * (g * f) && (i * b) * f == i * (b * f); }
    assert i * (c + u * m + q * s) == c * i + (i * u) * m + q * (i * s);
    assert q * (k + i * s + -1 * (g * f)) == k * q + q * (i * s) - q * (g * f);
  }

  // The degrees in the extended Euclid: from the first division on those of the cofactors and remainders add up;
  // an f of larger degree than m is first exchanged with m.
  ghost predicate Degrees(b0: seq<int>, b1: seq<int>, r0: seq<int>, r1: seq<int>, f: seq<int>, m: seq<int>) {
    || (|r1| < |r0| && |b1| + |r0| <= |m| + 1 && |b0| + |r1| <= |m| + 1)
    || (b0 == [] && b1 == [1] && r0 == m && r1 == f && |m| <= |f|)
    || (b0 == [1] && |b1| == 0 && r0 == f && r1 == m && |m| < |f|)
  }

  lemma DegreesNext(b0: seq<int>, b1: seq<int>, b2: seq<int>, prod: seq<int>, quot: seq<int>, r0: seq<int>, r1: seq<int>, r2: seq<int>,
                    f: seq<int>, m: seq<int>, q: int)
    requires Prime(q) && Degrees(b0, b1, r0, r1, f, m) && 0 < |r2| < |r1| && |quot| == (if |r0| < |r1| then 0 else |r0| - |r1| + 1)
    requires |r0| < |r1| ==> r2 == r0
    requires |prod| <= (if |b1| == 0 || |quot| == 0 then 0 else |b1| + |quot| - 1)
    requires |b2| <= (if |b0| > |prod| then |b0| else |prod|)
    ensures Degrees(b1, b2, r1, r2, f, m)
  {}

  /** poly_invert: the result is an inverse of f modulo m exactly when f and m are coprime,
      and then its degree is below that of m. */
  method PolyInvert(f: seq<int>, m: seq<int>, q: int) returns (res: seq<int>)
    requires Prime(q) && 0 < |f| && Normal(f, q) && Normal(m, q)
    ensures MEq(Mul(res, f), [1], m, q) <==> PolyCoprime(f, m, q)
    ensures |m| > 1 || |f| < |m| ==> |res| < |m|
  {
    hide Prime, Linear, Div, Divided, Normal, Cong, MEq, Mul, Scale, Add, Inv, Eq, Coeff;
    PrimePositive(q);
    var b0 := new PolyElement([]);
    var b1 := new PolyElement([1]);
    var b2 := new PolyElement([]);
    var r0, r1 := m, f;
    LinearStart(f, m, q);
    NormalOne(q);
    while true
      invariant b0 != b1 && b1 != b2 && b0 != b2 && fresh(b0) && fresh(b1) && fresh(b2)
      invariant 0 < |r1| && Normal(r0, q) && Normal(r1, q)
      invariant Linear(b0.coeff, r0, f, m, q) && Linear(b1.coeff, r1, f, m, q)
      invariant Degrees(b0.coeff, b1.coeff, r0, r1, f, m)
      invariant forall c :: CommonDiv(c, r0, r1, q) <==> CommonDiv(c, m, f, q)
      decreases |r1|
    {
      var quot, r2 := PolyDiv(r0, r1, q);
      forall c ensures CommonDiv(c, r0, r1, q) <==> CommonDiv(c, r1, r2, q) { DivStep(c, r0, r1, quot, r2, q); }
      DividedShape(r0, r1, quot, r2, q);
      if |r2| == 0 {
        forall c ensures CommonDiv(c, r1, r2, q) <==> Div(c, r1, q) { DivZero(c, r2, q); }
        break;
      }
      b2.coeff := PolyMul(b1.coeff, quot, q);
      ghost var prod := b2.coeff;
      PolySub(b2, b0, b2, q);
      LinearStep(b0.coeff, b1.coeff, b2.coeff, prod, r0, r1, r2, quot, f, m, q);
      DegreesNext(b0.coeff, b1.coeff, b2.coeff, prod, quot, r0, r1, r2, f, m, q);
      b0.coeff := b1.coeff;
      b1.coeff := b2.coeff;
      r0, r1 := r1, r2;
    }
    var inv := Inv(r1[0], q);
    res := PolyConstMul(inv, b1.coeff, q);
    LinearIsMod(res, [1], f, m, q);
    if |r1| == 1 {
      ConstantTop(r1, q);
      InvPrime(r1[0], q);
      FinalInverse(b1.coeff, res, r1[0], inv, f, m, q);
      forall d | CommonDiv(d, f, m, q) && Normal(d, q) ensures |d| <= 1 { InverseGivesCoprime(res, f, m, d, q); }
    } else {
      DivSelf(r1, q);
      assert CommonDiv(r1, m, f, q);
      assert CommonDiv(r1, f, m, q);
      if MEq(Mul(res, f), [1], m, q) { InverseGivesCoprime(res, f, m, r1, q); }
    }
  }

  lemma NormalOne(q: int)
    requires q >= 2
    ensures Normal([1], q)
  {
    if Eq(1, 0, q) { EqSmall(1, 0, q); }
  }

  lemma ConstantTop(r: seq<int>, q: int)
    requires q > 0 && |r| == 1 && Normal(r, q)
    ensures r == [r[0]] && !Eq(r[0], 0, q)
  {}
}
