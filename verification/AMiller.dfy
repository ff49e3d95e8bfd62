/** The Tate pairing of type A (ecc/a_param.c) on y^2 = x^3 + x: the affine loop, the Jacobian
    loop and the preprocessed run return the same element, the textbook Miller function raised
    to q - 1 and then to the cofactor. Q is mapped by (x, y) -> (-x, iy) inside the evaluation. */
module AMiller {
  import opened Modular
  import opened Curve
  import opened Quadratic
  import opened Lucas

  // ---------- the textbook value ----------

  // The line through v of slope l at the distorted point (-s.x, i s.y).
  function LineFi(v: Pt, l: int, s: Pt): F2 { F2(LineAt(v, l, Pt(-s.x, 0)), s.y) }

  datatype Miller = Miller(pt: Pt, f: F2)

  function Step(m: Miller, s: Pt, q: int): Miller
    requires q > 0
  {
    Miller(DoublePt(m.pt, 1, q), Mul2(Mul2(m.f, m.f, -1), LineFi(m.pt, Slope(m.pt, 1, q), s), -1))
  }

  function Chain(p: Pt, n: nat, s: Pt, q: int): Miller
    requires q > 0
  {
    if n == 0 then Miller(p, One) else Step(Chain(p, n - 1, s, q), s, q)
  }

  // The points of the chain do not depend on where the function is evaluated.
  function Points(p: Pt, n: nat, q: int): Pt
    requires q > 0
  {
    if n == 0 then p else DoublePt(Points(p, n - 1, q), 1, q)
  }

  lemma {:induction false} ChainPoints(p: Pt, n: nat, s: Pt, q: int)
    requires q > 0
    ensures Chain(p, n, s, q).pt == Points(p, n, q)
  {
    if n > 0 { ChainPoints(p, n - 1, s, q); }
  }

  function Signed(m: Miller, sign1: int, q: int): Miller
    requires q > 0
  {
    if sign1 < 0 then Miller(Pt(m.pt.x, -m.pt.y), Inv2(m.f, -1, q)) else m
  }

  datatype Params = Params(exp1: nat, exp2: nat, sign1: int)

  function Len(e: Params): nat { if e.exp1 < e.exp2 then e.exp2 else e.exp1 }

  function Textbook(p: Pt, s: Pt, e: Params, q: int): F2
    requires q > 0
  {
    var m, m1 := Chain(p, Len(e), s, q), Signed(Chain(p, e.exp1, s, q), e.sign1, q);
    Mul2(Mul2(m.f, m1.f, -1), LineFi(m.pt, ChordSlope(m.pt, m1.pt, q), s), -1)
  }

  // f^(q-1) as conj(f)/f, then the power by the cofactor.
  function TateExp(f: F2, k: nat, q: int): F2
    requires q > 0
  {
    Pow2(Mul2(Conj(f), Inv2(f, -1, q), -1), k, -1)
  }

  ghost predicate Regular(p: Pt, s: Pt, e: Params, q: int)
    requires q > 0
  {
    && (forall i :: 0 <= i < Len(e) ==> !Eq(Points(p, i, q).y, 0, q))
    && !Eq(Points(p, e.exp1, q).x, Points(p, Len(e), q).x, q)
    && (e.sign1 < 0 ==> !Eq(Norm(Chain(p, e.exp1, s, q).f, -1), 0, q))
    && !Eq(Norm(Textbook(p, s, e, q), -1), 0, q)
  }

  // ---------- factors from the base field ----------

  ghost predicate Scaled(f: F2, m: F2, s: int, q: int)
    requires q > 0
  {
    !Eq(s, 0, q) && Eq2(f, Scale(s, m), q)
  }

  lemma ScaleMul(s: int, a: F2, t: int, b: F2, d: int)
    ensures Mul2(Scale(s, a), Scale(t, b), d) == Scale(s * t, Mul2(a, b, d))
  {
    ScaleIdentity(s, a.re, a.im, t, b.re, b.im, d);
  }

  lemma ScaleIdentity(s: int, x: int, y: int, t: int, u: int, w: int, d: int)
    ensures (s * x) * (t * u) + d * ((s * y) * (t * w)) == (s * t) * (x * u + d * (y * w))
    ensures (s * x) * (t * w) + (s * y) * (t * u) == (s * t) * (x * w + y * u)
  {}

  lemma ScaledMul(f: F2, m: F2, s: int, g: F2, n: F2, t: int, q: int)
    requires Prime(q) && Scaled(f, m, s, q) && Scaled(g, n, t, q)
    ensures Scaled(Mul2(f, g, -1), Mul2(m, n, -1), s * t, q)
  {
    NonzeroProduct(s, t, q);
    CongMul2(f, Scale(s, m), g, Scale(t, n), -1, q);
    ScaleMul(s, m, t, n, -1);
  }

  lemma NormScale(s: int, m: F2, d: int)
    ensures Norm(Scale(s, m), d) == (s * s) * Norm(m, d)
  {
    NormScaleIdentity(s, m.re, m.im, d);
  }

  lemma NormScaleIdentity(s: int, x: int, y: int, d: int)
    ensures (s * x) * (s * x) - d * ((s * y) * (s * y)) == (s * s) * (x * x - d * (y * y))
  {}

  lemma ScaledNonzero(f: F2, m: F2, s: int, q: int)
    requires Prime(q) && Scaled(f, m, s, q) && !Eq(Norm(m, -1), 0, q)
    ensures !Eq(Norm(f, -1), 0, q)
  {
    CongNorm(f, Scale(s, m), -1, q);
    NormScale(s, m, -1);
    NonzeroProduct(s, s, q);
    NonzeroProduct(s * s, Norm(m, -1), q);
    NonzeroCong(Norm(f, -1), (s * s) * Norm(m, -1), q);
  }

  // The inverse of s*m is the inverse of m over s.
  lemma ScaledInverse(f: F2, m: F2, s: int, q: int)
    requires Prime(q) && Scaled(f, m, s, q) && !Eq(Norm(m, -1), 0, q)
    ensures Eq2(Scale(s, Inv2(f, -1, q)), Inv2(m, -1, q), q)
  {
    ScaledNonzero(f, m, s, q);
    InverseProduct2(f, -1, q);
    InverseProduct2(m, -1, q);
    var i, j := Inv2(f, -1, q), Inv2(m, -1, q);
    // s*i = s*i*(m*j) = (i*(s*m))*j = (i*f)*j = j
    var si := Scale(s, i);
    Refl2(si, q); Refl2(i, q); Refl2(j, q);
    CongMul2(si, si, Mul2(m, j, -1), One, -1, q);
    MulOne(si, -1);
    MulAssoc(si, m, j, -1);
    ScaleShift(s, i, m, -1);
    Sym2(f, Scale(s, m), q);
    CongMul2(i, i, Scale(s, m), f, -1, q);
    MulComm(i, f, -1);
    Trans2(Mul2(i, Scale(s, m), -1), Mul2(i, f, -1), One, q);
    CongMul2(Mul2(si, m, -1), One, j, j, -1, q);
    MulOne(j, -1);
    Sym2(Mul2(si, Mul2(m, j, -1), -1), si, q);
    Trans2(si, Mul2(si, Mul2(m, j, -1), -1), j, q);
  }

  lemma ScaleShift(s: int, a: F2, b: F2, d: int)
    ensures Mul2(Scale(s, a), b, d) == Mul2(a, Scale(s, b), d)
  {
    assert (s * a.re) * b.re == a.re * (s * b.re) && (s * a.im) * b.im == a.im * (s * b.im);
    assert (s * a.re) * b.im == a.re * (s * b.im) && (s * a.im) * b.re == a.im * (s * b.re);
  }

  // 1/s is a nonzero base-field factor too.
  lemma InverseScaled(f: F2, m: F2, s: int, q: int)
    requires Prime(q) && Scaled(f, m, s, q) && !Eq(Norm(m, -1), 0, q)
    ensures Scaled(Inv2(f, -1, q), Inv2(m, -1, q), Inv(s, q), q)
  {
    ScaledInverse(f, m, s, q);
    InvPrime(s, q);
    var t, i, j := Inv(s, q), Inv2(f, -1, q), Inv2(m, -1, q);
    Combine3(t, s * i.re - j.re, -i.re, s * t - 1, 0, 0, q);
    Combine3(t, s * i.im - j.im, -i.im, s * t - 1, 0, 0, q);
    UnscaleIdentity(t, s, i.re, j.re);
    UnscaleIdentity(t, s, i.im, j.im);
    if Eq(t, 0, q) {
      EqRefl(s, q);
      EqMul(s, s, t, 0, q);
      InverseNotZero(s * t, q);
    }
  }

  lemma InverseNotZero(x: int, q: int)
    requires q > 1
    ensures !(Eq(x, 1, q) && Eq(x, 0, q))
  {
    if Eq(x, 1, q) && Eq(x, 0, q) {
      EqSym(x, 1, q);
      EqTrans(1, x, 0, q);
      EqSmall(1, 0, q);
    }
  }

  lemma UnscaleIdentity(t: int, s: int, i: int, j: int)
    ensures t * (s * i - j) + -i * (s * t - 1) + 0 * 0 == i - t * j
  {}

  /** conj(f)/f removes every factor from the base field. */
  lemma FactorRemoved(f: F2, m: F2, s: int, q: int)
    requires Prime(q) && Scaled(f, m, s, q) && !Eq(Norm(m, -1), 0, q)
    ensures Eq2(Mul2(Conj(f), Inv2(f, -1, q), -1), Mul2(Conj(m), Inv2(m, -1, q), -1), q)
    ensures Eq(Norm(Mul2(Conj(f), Inv2(f, -1, q), -1), -1), 1, q)
  {
    hide Norm, Inv2, Mul2;
    ScaledNonzero(f, m, s, q);
    ScaledInverse(f, m, s, q);
    var i, j, c := Inv2(f, -1, q), Inv2(m, -1, q), Conj(m);
    ConjScaled(f, m, s, q);
    Refl2(i, q); Refl2(c, q);
    CongMul2(Conj(f), Scale(s, c), i, i, -1, q);
    ScaleShift(s, c, i, -1);
    CongMul2(c, c, Scale(s, i), j, -1, q);
    Trans2(Mul2(Conj(f), i, -1), Mul2(c, Scale(s, i), -1), Mul2(c, j, -1), q);
    NormOne(f, q);
  }

  lemma ConjScaled(f: F2, m: F2, s: int, q: int)
    requires q > 0 && Eq2(f, Scale(s, m), q)
    ensures Eq2(Conj(f), Scale(s, Conj(m)), q)
  {
    EqRefl(0, q);
    EqAdd(0, 0, f.im, s * m.im, q);
    assert s * -m.im == -(s * m.im);
  }

  lemma NormOne(f: F2, q: int)
    requires Prime(q) && !Eq(Norm(f, -1), 0, q)
    ensures Eq(Norm(Mul2(Conj(f), Inv2(f, -1, q), -1), -1), 1, q)
  {
    var i := Inv2(f, -1, q);
    InverseProduct2(f, -1, q);
    CongNorm(Mul2(f, i, -1), One, -1, q);
    hide Inv2, Mul2;
    NormMul(f, i, -1);
    NormMul(Conj(f), i, -1);
    assert Norm(Conj(f), -1) == Norm(f, -1);
  }

  // ---------- line coefficients (a, b, c) ----------

  datatype Coeff = Coeff(a: int, b: int, c: int)

  // compute_abc_tangent
  method Tangent(vx: int, vy: int) returns (k: Coeff)
    ensures k == TangentCoeff(Pt(vx, vy))
  {
    var a := vx * vx;
    var e0 := a + a;
    a := e0 + a;
    var b := 1;
    a := a + b;
    a := -a;
    b := vy + vy;
    e0 := b * vy;
    var c := a * vx;
    c := c + e0;
    c := -c;
    k := Coeff(a, b, c);
  }

  function TangentCoeff(v: Pt): Coeff {
    var a := -(3 * (v.x * v.x) + 1);
    Coeff(a, 2 * v.y, -(a * v.x + 2 * v.y * v.y))
  }

  // compute_abc_tangent_proj
  method TangentProj(vx: int, vy: int, z: int, z2: int) returns (k: Coeff)
    requires z2 == z * z
    ensures var n := -(z * z * (z * z) + 3 * (vx * vx));
            k == Coeff(n * (z * z), 2 * vy * (z * z) * z, -(vx * n + 2 * vy * vy))
  {
    var a := z2 * z2;
    var b := vx * vx;
    var e0 := b + b;
    b := e0 + b;
    a := a + b;
    a := -a;
    assert a == -(z * z * (z * z) + 3 * (vx * vx));
    e0 := vy + vy;
    b := e0 * z2;
    b := b * z;
    var c := vx * a;
    a := a * z2;
    e0 := e0 * vy;
    c := c + e0;
    c := -c;
    k := Coeff(a, b, c);
  }

  // compute_abc_line
  method Line(v: Pt, w: Pt) returns (k: Coeff)
    ensures k == ChordCoeff(v, w)
  {
    var a := v.y - w.y;
    var b := w.x - v.x;
    var c := v.x * w.y;
    var e0 := v.y * w.x;
    c := c - e0;
    k := Coeff(a, b, c);
  }

  function ChordCoeff(v: Pt, w: Pt): Coeff {
    Coeff(v.y - w.y, w.x - v.x, v.x * w.y - v.y * w.x)
  }

  function Eval(k: Coeff, s: Pt): F2 { F2(k.c - k.a * s.x, k.b * s.y) }

  // a_miller_evalfn: a Qx + b Qy + c at the distorted point
  method EvalFn(k: Coeff, s: Pt) returns (out: F2)
    ensures out == Eval(k, s)
  {
    var im := k.a * s.x;
    var re := k.c - im;
    im := k.b * s.y;
    out := F2(re, im);
  }

  // The program's lines are the textbook lines up to a base-field factor.
  lemma TangentLine(v: Pt, s: Pt, q: int)
    requires Prime(q) && q % 2 == 1 && !Eq(v.y, 0, q)
    ensures Scaled(Eval(TangentCoeff(v), s), LineFi(v, Slope(v, 1, q), s), 2 * v.y, q)
  {
    TwoNonzero(v.y, q);
    TangentScale(v, 1, Pt(-s.x, 0), q);
    TangentEval(v.x, v.y, s.x);
    EqRefl(2 * v.y * s.y, q);
  }

  lemma TangentEval(x: int, y: int, sx: int)
    ensures -(-(3 * (x * x) + 1) * x + 2 * y * y) - -(3 * (x * x) + 1) * sx == TangentPoly(x, y, 1, Pt(-sx, 0))
  {}

  lemma ProjLine(x: int, y: int, z: int, k: Coeff, v: Pt, s: Pt, q: int)
    requires Prime(q) && q % 2 == 1 && !Eq(v.y, 0, q) && Jacobian(x, y, z, v, q)
    requires var n := -(z * z * (z * z) + 3 * (x * x)); k == Coeff(n * (z * z), 2 * y * (z * z) * z, -(x * n + 2 * y * y))
    ensures Scaled(Eval(k, s), LineFi(v, Slope(v, 1, q), s), z * z * z * (z * z * z) * (2 * v.y), q)
  {
    TwoNonzero(v.y, q);
    CubeNonzero(z, q);
    NonzeroProduct(z * z * z, z * z * z, q);
    NonzeroProduct(z * z * z * (z * z * z), 2 * v.y, q);
    ProjTangentScale(x, y, z, v, 1, Pt(-s.x, 0), q);
    ProjEval(x, y, z, s.x);
    Combine(2 * (z * z * z) * s.y, y - v.y * (z * z * z), q);
    ProjEvalIm(y, z, v.y, s.y, z * z * z);
  }

  lemma ProjEval(x: int, y: int, z: int, sx: int)
    ensures var n := -(z * z * (z * z) + 3 * (x * x));
            -(x * n + 2 * y * y) - n * (z * z) * sx == ProjTangentPoly(x, y, z, 1, Pt(-sx, 0))
  {}

  lemma ProjEvalIm(y: int, z: int, vy: int, sy: int, t: int)
    requires t == z * z * z
    ensures 2 * t * sy * (y - vy * t) == 2 * y * (z * z) * z * sy - t * t * (2 * vy) * sy
  {
    assert 2 * y * (z * z) * z == 2 * y * t;
  }

  lemma ChordLineFi(z: Pt, v: Pt, z1: Pt, w: Pt, s: Pt, q: int)
    requires Prime(q) && SamePt(z, v, q) && SamePt(z1, w, q) && !Eq(w.x, v.x, q)
    ensures Scaled(Eval(ChordCoeff(z, z1), s), LineFi(v, ChordSlope(v, w, q), s), z1.x - z.x, q)
  {
    EqAdd(z1.x, w.x, z.x, v.x, q);
    NonzeroCong(z1.x - z.x, w.x - v.x, q);
    var n := Pt(-s.x, 0);
    ChordScale(z, z1, n, q);
    AddCong(z, v, z1, w, q);
    LineCong(z, v, ChordSlope(z, z1, q), ChordSlope(v, w, q), n, q);
    EqRefl(z1.x - z.x, q);
    EqMul(z1.x - z.x, z1.x - z.x, LineAt(z, ChordSlope(z, z1, q), n), LineAt(v, ChordSlope(v, w, q), n), q);
    EqTrans(ChordPoly(z, z1, n), (z1.x - z.x) * LineAt(z, ChordSlope(z, z1, q), n),
            (z1.x - z.x) * LineAt(v, ChordSlope(v, w, q), n), q);
    assert Eval(ChordCoeff(z, z1), s).re == ChordPoly(z, z1, n) by {
      assert (z.y - z1.y) * -s.x == -((z.y - z1.y) * s.x);
    }
    EqRefl((z1.x - z.x) * s.y, q);
  }

  // ---------- the final exponentiation ----------

  /** a_tateexp: the exponentiation by q - 1 as conj(f)/f, then lucas_odd; any base-field factor of
      the input is gone. The cofactor (q+1)/r is even. */
  method TateExponent(f: F2, cofactor: nat, q: int, ghost m: F2, ghost s: int) returns (out: F2)
    requires Prime(q) && q % 2 == 1 && cofactor % 2 == 0
    requires Scaled(f, m, s, q) && !Eq(Norm(m, -1), 0, q)
    ensures Eq2(out, TateExp(m, cofactor, q), q)
  {
    ScaledNonzero(f, m, s, q);
    FactorRemoved(f, m, s, q);
    var temp := FiInvert(f, q);
    var g := F2(f.re, -f.im);
    g := FiMul(g, temp);
    MinusOneNonzero(q);
    out := LucasOdd(g, cofactor, -1, q);
    CongPow2(g, Mul2(Conj(m), Inv2(m, -1, q), -1), cofactor, -1, q);
    Trans2(out, Pow2(g, cofactor, -1), TateExp(m, cofactor, q), q);
  }

  lemma MinusOneNonzero(q: int)
    requires q > 2
    ensures !Eq(-1, 0, q)
  {
    if Eq(-1, 0, q) {
      EqSym(-1, 0, q);
      EqSmall(1, 0, q) by { assert 0 - -1 == 1 - 0; }
    }
  }

  // ---------- the affine loop ----------

  lemma ScaledOne(q: int)
    requires q > 1
    ensures Scaled(One, One, 1, q)
  {
    Refl2(One, q);
    InverseNotZero(1, q);
    EqRefl(1, q);
  }

  // Square, then multiply by the current line.
  method SquareTimes(f: F2, k: Coeff, sq: Pt, ghost m: F2, ghost s: int, ghost l: F2, ghost t: int, q: int) returns (f': F2)
    requires Prime(q) && Scaled(f, m, s, q) && Scaled(Eval(k, sq), l, t, q)
    ensures Scaled(f', Mul2(Mul2(m, m, -1), l, -1), s * s * t, q)
  {
    f' := FiSquare(f);
    ScaledMul(f, m, s, f, m, s, q);
    var f0 := EvalFn(k, sq);
    ScaledMul(f', Mul2(m, m, -1), s * s, f0, l, t, q);
    f' := FiMul(f', f0);
  }

  // f1 = f or its inverse, V1 = V or its negative.
  method SplitSign(v: Point, v1: Point, f: F2, sign1: int, q: int, ghost m: Miller, ghost s: int) returns (f1: F2, ghost s1: int)
    requires Prime(q) && v != v1 && !v.inf && SamePt(v.At(), m.pt, q) && Scaled(f, m.f, s, q)
    requires sign1 < 0 ==> !Eq(Norm(m.f, -1), 0, q)
    modifies v1
    ensures !v1.inf && SamePt(v1.At(), Signed(m, sign1, q).pt, q)
    ensures Scaled(f1, Signed(m, sign1, q).f, s1, q)
  {
    if sign1 < 0 {
      v1.Negate(v);
      EqRefl(0, q);
      EqAdd(0, 0, v.y, m.pt.y, q);
      ScaledNonzero(f, m.f, s, q);
      InverseScaled(f, m.f, s, q);
      f1 := FiInvert(f, q);
      s1 := Inv(s, q);
    } else {
      v1.Set(v);
      f1 := f;
      s1 := s;
    }
  }

  // Multiply by f1 and by the chord, then exponentiate.
  method Finish(f: F2, f1: F2, k: Coeff, sq: Pt, cofactor: nat, q: int,
                ghost m: F2, ghost s: int, ghost m1: F2, ghost s1: int, ghost l: F2, ghost t: int) returns (out: F2)
    requires Prime(q) && q % 2 == 1 && cofactor % 2 == 0
    requires Scaled(f, m, s, q) && Scaled(f1, m1, s1, q) && Scaled(Eval(k, sq), l, t, q)
    requires !Eq(Norm(Mul2(Mul2(m, m1, -1), l, -1), -1), 0, q)
    ensures Eq2(out, TateExp(Mul2(Mul2(m, m1, -1), l, -1), cofactor, q), q)
  {
    ScaledMul(f, m, s, f1, m1, s1, q);
    var g := FiMul(f, f1);
    var f0 := EvalFn(k, sq);
    ScaledMul(g, Mul2(m, m1, -1), s * s1, f0, l, t, q);
    g := FiMul(g, f0);
    out := TateExponent(g, cofactor, q, Mul2(Mul2(m, m1, -1), l, -1), s * s1 * t);
  }

  // Loop body of a_pairing_affine: square, tangent, double.
  method AffineRound(v: Point, f: F2, sq: Pt, q: int, ghost m: Miller, ghost s: int) returns (f': F2, ghost s': int)
    requires Prime(q) && q % 2 == 1 && !v.inf && v.At() == m.pt && !Eq(m.pt.y, 0, q) && Scaled(f, m.f, s, q)
    modifies v
    ensures !v.inf && v.At() == Step(m, sq, q).pt && Scaled(f', Step(m, sq, q).f, s', q)
  {
    TangentLine(v.At(), sq, q);
    var k := Tangent(v.x, v.y);
    f' := SquareTimes(f, k, sq, m.f, s, LineFi(m.pt, Slope(m.pt, 1, q), sq), 2 * m.pt.y, q);
    s' := s * s * (2 * m.pt.y);
    v.Double(v, 1, q);
  }

  // What the chord contributes, given the points of both summands up to representatives.
  lemma ChordOfChain(z: Pt, z1: Pt, p: Pt, sq: Pt, e: Params, q: int)
    requires Prime(q) && Regular(p, sq, e, q)
    requires SamePt(z, Chain(p, Len(e), sq, q).pt, q) && SamePt(z1, Signed(Chain(p, e.exp1, sq, q), e.sign1, q).pt, q)
    ensures var m, m1 := Chain(p, Len(e), sq, q), Signed(Chain(p, e.exp1, sq, q), e.sign1, q);
            Scaled(Eval(ChordCoeff(z, z1), sq), LineFi(m.pt, ChordSlope(m.pt, m1.pt, q), sq), z1.x - z.x, q)
  {
    ChainPoints(p, Len(e), sq, q);
    ChainPoints(p, e.exp1, sq, q);
    ChordLineFi(z, Chain(p, Len(e), sq, q).pt, z1, Signed(Chain(p, e.exp1, sq, q), e.sign1, q).pt, sq, q);
  }

  /** a_pairing_affine */
  method PairingAffine(p: Pt, sq: Pt, e: Params, cofactor: nat, q: int) returns (out: F2)
    requires Prime(q) && q % 2 == 1 && cofactor % 2 == 0 && Regular(p, sq, e, q)
    ensures Eq2(out, TateExp(Textbook(p, sq, e, q), cofactor, q), q)
  {
    hide Norm, Mul2, Inv2, Eval, ChordCoeff, LineFi, Scaled, Slope, ChordSlope, DoublePt, Eq, Eq2, TateExp, Jacobian;
    var v := new Point(p.x, p.y);
    var v1 := new Point(p.x, p.y);
    var f := One;
    ghost var s := 1;
    ScaledOne(q);
    var i := 0;
    while i < e.exp1
      invariant 0 <= i <= e.exp1 && !v.inf && v.At() == Chain(p, i, sq, q).pt
      invariant Scaled(f, Chain(p, i, sq, q).f, s, q)
    {
      ChainPoints(p, i, sq, q);
      f, s := AffineRound(v, f, sq, q, Chain(p, i, sq, q), s);
      i := i + 1;
    }
    ghost var m1 := Signed(Chain(p, e.exp1, sq, q), e.sign1, q);
    SameRefl(v.At(), q);
    ghost var s1;
    var f1;
    f1, s1 := SplitSign(v, v1, f, e.sign1, q, Chain(p, i, sq, q), s);
    while i < e.exp2
      invariant e.exp1 <= i <= Len(e) && !v.inf && v.At() == Chain(p, i, sq, q).pt
      invariant Scaled(f, Chain(p, i, sq, q).f, s, q)
      invariant !v1.inf && SamePt(v1.At(), m1.pt, q)
    {
      ChainPoints(p, i, sq, q);
      f, s := AffineRound(v, f, sq, q, Chain(p, i, sq, q), s);
      i := i + 1;
    }
    ghost var m := Chain(p, i, sq, q);
    SameRefl(v.At(), q);
    ChordOfChain(v.At(), v1.At(), p, sq, e, q);
    var k := Line(v.At(), v1.At());
    out := Finish(f, f1, k, sq, cofactor, q, m.f, s, m1.f, s1, LineFi(m.pt, ChordSlope(m.pt, m1.pt, q), sq), v1.x - v.x);
  }

  // ---------- the Jacobian loop ----------

  // proj_double for a = 1; the program's scratch e1, e2, e3 are the coefficients a, b, c
  method ProjDouble(x: int, y: int, z: int, z2: int) returns (x': int, y': int, z': int, z2': int)
    requires z2 == z * z
    ensures var n := 3 * (x * x) + 1 * (z * z * (z * z));
            x' == DoubleX(n, x, y) && y' == DoubleY(n, x, y) && z' == 2 * (y * z) && z2' == z' * z'
  {
    var e0 := x * x;
    var e1 := e0 + e0;
    e0 := e1 + e0;
    e1 := z2 * z2;
    e0 := e0 + e1;
    z' := y * z;
    z' := z' + z';
    z2' := z' * z';
    var e2 := y * y;
    e1 := x * e2;
    e1 := e1 + e1;
    e1 := e1 + e1;
    assert e1 == 4 * (x * (y * y));
    var e3 := e1 + e1;
    x' := e0 * e0;
    x' := x' - e3;
    e2 := e2 * e2;
    e2 := e2 + e2;
    e2 := e2 + e2;
    e2 := e2 + e2;
    assert e2 == 8 * (y * y * (y * y));
    e1 := e1 - x';
    e0 := e0 * e1;
    y' := e0 - e2;
  }

  // Loop body of a_pairing_proj: square, tangent, double.
  method ProjRound(vx: int, vy: int, z: int, z2: int, f: F2, sq: Pt, q: int, ghost m: Miller, ghost s: int)
    returns (vx': int, vy': int, z': int, z2': int, f': F2, ghost s': int)
    requires Prime(q) && q % 2 == 1 && z2 == z * z && Jacobian(vx, vy, z, m.pt, q)
    requires !Eq(m.pt.y, 0, q) && Scaled(f, m.f, s, q)
    ensures z2' == z' * z' && Jacobian(vx', vy', z', Step(m, sq, q).pt, q) && Scaled(f', Step(m, sq, q).f, s', q)
  {
    var k := TangentProj(vx, vy, z, z2);
    ProjLine(vx, vy, z, k, m.pt, sq, q);
    JacobianDouble(vx, vy, z, m.pt, 1, q);
    f' := SquareTimes(f, k, sq, m.f, s, LineFi(m.pt, Slope(m.pt, 1, q), sq), z * z * z * (z * z * z) * (2 * m.pt.y), q);
    s' := s * s * (z * z * z * (z * z * z) * (2 * m.pt.y));
    vx', vy', z', z2' := ProjDouble(vx, vy, z, z2);
  }

  /** a_pairing_proj returns the same element as the affine loop. */
  method PairingProj(p: Pt, sq: Pt, e: Params, cofactor: nat, q: int) returns (out: F2)
    requires Prime(q) && q % 2 == 1 && cofactor % 2 == 0 && Regular(p, sq, e, q)
    ensures Eq2(out, TateExp(Textbook(p, sq, e, q), cofactor, q), q)
  {
    hide Norm, Mul2, Inv2, Eval, ChordCoeff, LineFi, Scaled, Slope, ChordSlope, DoublePt, Eq, Eq2, TateExp, Jacobian;
    var v := new Point(p.x, p.y);
    var v1 := new Point(p.x, p.y);
    var f, z, z2 := One, 1, 1;
    ghost var s := 1;
    ScaledOne(q);
    SameRefl(p, q);
    AffineIsJacobian(p.x, p.y, p, q);
    var i := 0;
    while i < e.exp1
      invariant 0 <= i <= e.exp1 && !v.inf && z2 == z * z
      invariant Jacobian(v.x, v.y, z, Chain(p, i, sq, q).pt, q) && Scaled(f, Chain(p, i, sq, q).f, s, q)
    {
      ChainPoints(p, i, sq, q);
      v.x, v.y, z, z2, f, s := ProjRound(v.x, v.y, z, z2, f, sq, q, Chain(p, i, sq, q), s);
      i := i + 1;
    }
    v.x, v.y, z, z2 := ToAffine(v.x, v.y, z, q, Chain(p, i, sq, q).pt);
    ghost var m1 := Signed(Chain(p, e.exp1, sq, q), e.sign1, q);
    ghost var s1;
    var f1;
    f1, s1 := SplitSign(v, v1, f, e.sign1, q, Chain(p, i, sq, q), s);
    AffineIsJacobian(v.x, v.y, Chain(p, i, sq, q).pt, q);
    while i < e.exp2
      invariant e.exp1 <= i <= Len(e) && !v.inf && z2 == z * z
      invariant Jacobian(v.x, v.y, z, Chain(p, i, sq, q).pt, q) && Scaled(f, Chain(p, i, sq, q).f, s, q)
      invariant !v1.inf && SamePt(v1.At(), m1.pt, q)
    {
      ChainPoints(p, i, sq, q);
      v.x, v.y, z, z2, f, s := ProjRound(v.x, v.y, z, z2, f, sq, q, Chain(p, i, sq, q), s);
      i := i + 1;
    }
    ghost var m := Chain(p, i, sq, q);
    v.x, v.y, z, z2 := ToAffine(v.x, v.y, z, q, m.pt);
    ChordOfChain(v.At(), v1.At(), p, sq, e, q);
    var k := Line(v.At(), v1.At());
    out := Finish(f, f1, k, sq, cofactor, q, m.f, s, m1.f, s1, LineFi(m.pt, ChordSlope(m.pt, m1.pt, q), sq), v1.x - v.x);
  }

  // ---------- preprocessing ----------

  // The table pp_init leaves: one tangent per doubling and the closing chord.
  ghost predicate Table(coeff: seq<Coeff>, p: Pt, e: Params, q: int)
    requires q > 0
  {
    && |coeff| == e.exp2 + 1
    && (forall i :: 0 <= i < e.exp2 ==> coeff[i] == TangentCoeff(Points(p, i, q)))
    && (e.exp1 <= e.exp2 ==> coeff[e.exp2] == ChordCoeff(Points(p, e.exp2, q), SignedPoint(Points(p, e.exp1, q), e.sign1)))
  }

  function SignedPoint(v: Pt, sign1: int): Pt { if sign1 < 0 then Pt(v.x, -v.y) else v }

  /** a_pairing_pp_init: the array of exp2 + 1 records holds the run's lines for every P whose
      doublings stay finite; exp1 may not exceed exp2. */
  method PpInit(p: Pt, e: Params, q: int) returns (coeff: array<Coeff>)
    requires q > 0 && e.exp1 <= e.exp2
    requires forall i :: 0 <= i < e.exp2 ==> !Eq(Points(p, i, q).y, 0, q)
    ensures fresh(coeff) && Table(coeff[..], p, e, q)
  {
    hide DoublePt, TangentCoeff, ChordCoeff, Eq;
    coeff := new Coeff[e.exp2 + 1](_ => Coeff(0, 0, 0));
    var v := new Point(p.x, p.y);
    var v1 := new Point(p.x, p.y);
    var i := 0;
    while i < e.exp1
      invariant 0 <= i <= e.exp1 && !v.inf && v.At() == Points(p, i, q)
      invariant Filled(coeff[..], p, i, q)
    {
      var k := Tangent(v.x, v.y);
      FillStep(coeff[..], p, i, k, q);
      coeff[i] := k;
      v.Double(v, 1, q);
      i := i + 1;
    }
    if e.sign1 < 0 {
      v1.Negate(v);
    } else {
      v1.Set(v);
    }
    while i < e.exp2
      invariant e.exp1 <= i <= e.exp2 && !v.inf && v.At() == Points(p, i, q)
      invariant !v1.inf && v1.At() == SignedPoint(Points(p, e.exp1, q), e.sign1)
      invariant Filled(coeff[..], p, i, q)
    {
      var k := Tangent(v.x, v.y);
      FillStep(coeff[..], p, i, k, q);
      coeff[i] := k;
      v.Double(v, 1, q);
      i := i + 1;
    }
    var k := Line(v.At(), v1.At());
    assert coeff[..][i := k][i] == k;
    coeff[i] := k;
  }

  ghost predicate Filled(s: seq<Coeff>, p: Pt, i: nat, q: int)
    requires q > 0
  {
    i <= |s| && forall j :: 0 <= j < i ==> s[j] == TangentCoeff(Points(p, j, q))
  }

  lemma FillStep(s: seq<Coeff>, p: Pt, i: nat, k: Coeff, q: int)
    requires q > 0 && i < |s| && Filled(s, p, i, q) && k == TangentCoeff(Points(p, i, q))
    ensures Filled(s[i := k], p, i + 1, q)
  {}

  // One replayed round.
  method PpRound(f: F2, k: Coeff, sq: Pt, q: int, ghost m: Miller, ghost s: int) returns (f': F2, ghost s': int)
    requires Prime(q) && q % 2 == 1 && !Eq(m.pt.y, 0, q) && Scaled(f, m.f, s, q) && k == TangentCoeff(m.pt)
    ensures Scaled(f', Step(m, sq, q).f, s', q)
  {
    TangentLine(m.pt, sq, q);
    f' := SquareTimes(f, k, sq, m.f, s, LineFi(m.pt, Slope(m.pt, 1, q), sq), 2 * m.pt.y, q);
    s' := s * s * (2 * m.pt.y);
  }

  /** a_pairing_pp_apply: the preprocessed run returns the same element as the direct ones. */
  method PpApply(coeff: array<Coeff>, sq: Pt, e: Params, cofactor: nat, q: int, ghost p: Pt) returns (out: F2)
    requires Prime(q) && q % 2 == 1 && cofactor % 2 == 0 && Regular(p, sq, e, q)
    requires e.exp1 <= e.exp2 && Table(coeff[..], p, e, q)
    ensures Eq2(out, TateExp(Textbook(p, sq, e, q), cofactor, q), q)
  {
    hide Norm, Mul2, Inv2, Eval, ChordCoeff, TangentCoeff, LineFi, Scaled, Slope, ChordSlope, DoublePt, Eq, Eq2, TateExp;
    var f := One;
    ghost var s := 1;
    ScaledOne(q);
    var i := 0;
    while i < e.exp1
      invariant 0 <= i <= e.exp1 && Scaled(f, Chain(p, i, sq, q).f, s, q)
    {
      ChainPoints(p, i, sq, q);
      assert coeff[i] == coeff[..][i];
      f, s := PpRound(f, coeff[i], sq, q, Chain(p, i, sq, q), s);
      i := i + 1;
    }
    ghost var n1 := Chain(p, e.exp1, sq, q);
    ghost var m1 := Signed(n1, e.sign1, q);
    ghost var s1 := s;
    if e.sign1 < 0 {
      ScaledNonzero(f, n1.f, s, q);
      InverseScaled(f, n1.f, s, q);
      out := FiInvert(f, q);
      s1 := Inv(s, q);
    } else {
      out := f;
    }
    while i < e.exp2
      invariant e.exp1 <= i <= e.exp2 && Scaled(f, Chain(p, i, sq, q).f, s, q)
    {
      ChainPoints(p, i, sq, q);
      assert coeff[i] == coeff[..][i];
      f, s := PpRound(f, coeff[i], sq, q, Chain(p, i, sq, q), s);
      i := i + 1;
    }
    ghost var m := Chain(p, i, sq, q);
    ChainPoints(p, i, sq, q); ChainPoints(p, e.exp1, sq, q);
    SameRefl(m.pt, q); SameRefl(m1.pt, q);
    ChordOfChain(m.pt, m1.pt, p, sq, e, q);
    assert coeff[i] == coeff[..][e.exp2];
    out := Finish(f, out, coeff[i], sq, cofactor, q, m.f, s, m1.f, s1, LineFi(m.pt, ChordSlope(m.pt, m1.pt, q), sq), m1.pt.x - m.pt.x);
  }
}
