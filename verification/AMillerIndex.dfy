/** The type A pairings raise the Miller function f_r of index r = 2^exp2 + sign1 2^exp1 + sign0 at the distorted point, up
    to factors the final exponentiation removes (ecc/a_param.c). */
module AMillerIndex {
  import opened Modular
  import opened Bits
  import opened Residues
  import opened Curve
  import opened CurveLaw
  import opened Quadratic
  import opened MillerChains
  import Tonelli
  import AMiller
  import Frobenius

  // ---------- no zero among the lines ----------

  lemma MinusOneNonsquare(q: int)
    requires Prime(q) && q % 4 == 3
    ensures !IsSqr(-1, q)
  {
    hide IsSqr, Pow;
    AMiller.MinusOneNonzero(q);
    EulerCriterion(-1, q);
    Tonelli.PowMinusOne((q - 1) / 2);
    if IsSqr(-1, q) {
      SignsDiffer(-1, 1, q);
    }
  }

  lemma SquareSum(x: int, y: int, q: int)
    requires Prime(q) && q % 4 == 3 && !Eq(y, 0, q)
    ensures !Eq(x * x + y * y, 0, q)
  {
    MinusOneNonsquare(q);
    InvPrime(y, q);
    var i := Inv(y, q);
    hide IsSqr, Prime, Inv;
    if Eq(x * x + y * y, 0, q) {
      EqMul(y * i, 1, y * i, 1, q);
      Combine2(-(i * i), x * x + y * y - 0, 1, (y * i) * (y * i) - 1, q);
      SquareSumIdentity(x, y, i);
      IsSqrIntro(-1, x * i, q);
    }
  }

  lemma SquareSumIdentity(x: int, y: int, i: int)
    ensures -(i * i) * (x * x + y * y - 0) + 1 * ((y * i) * (y * i) - 1) == -1 - (x * i) * (x * i)
  {}

  // The vertical through a point of the curve is not zero at a distorted point with y != 0.
  lemma VerticalNonzero(v: Pt, s: Pt, q: int)
    requires Prime(q) && q % 4 == 3 && OnCurve(v, 1, 0, q) && OnCurve(s, 1, 0, q) && !Eq(s.y, 0, q)
    ensures !Eq(-s.x - v.x, 0, q)
  {
    SquareSum(v.y, s.y, q);
    if Eq(-s.x - v.x, 0, q) { VerticalZero(v, s, q); }
  }

  lemma VerticalZero(v: Pt, s: Pt, q: int)
    requires q > 0 && OnCurve(v, 1, 0, q) && OnCurve(s, 1, 0, q) && Eq(-s.x - v.x, 0, q)
    ensures Eq(v.y * v.y + s.y * s.y, 0, q)
  {
    EqSym(-s.x - v.x, 0, q);
    assert 0 - (-s.x - v.x) == v.x - -s.x;
    CubicCong(v.x, -s.x, 1, 0, q);
    OddCubic(s.x);
    hide Cubic;
    Combine3(1, v.y * v.y - Cubic(v.x, 1, 0), 1, s.y * s.y - Cubic(s.x, 1, 0), 1, Cubic(v.x, 1, 0) - Cubic(-s.x, 1, 0), q);
    assert 1 * (v.y * v.y - Cubic(v.x, 1, 0)) + 1 * (s.y * s.y - Cubic(s.x, 1, 0)) + 1 * (Cubic(v.x, 1, 0) - Cubic(-s.x, 1, 0))
           == v.y * v.y + s.y * s.y - 0;
  }

  lemma OddCubic(x: int)
    ensures Cubic(-x, 1, 0) == -Cubic(x, 1, 0)
  {
    assert (-x) * (-x) * (-x) == -(x * x * x);
  }

  lemma LineNonzero(v: Pt, l: int, s: Pt, q: int)
    requires Prime(q) && q % 4 == 3 && !Eq(s.y, 0, q)
    ensures !Eq(Norm(AMiller.LineFi(v, l, s), -1), 0, q)
  {
    var x := LineAt(v, l, Pt(-s.x, 0));
    hide LineAt;
    SquareSum(x, s.y, q);
    assert Norm(AMiller.LineFi(v, l, s), -1) == x * x + s.y * s.y;
  }

  lemma ProductNonzero(f: F2, g: F2, q: int)
    requires Prime(q) && !Eq(Norm(f, -1), 0, q) && !Eq(Norm(g, -1), 0, q)
    ensures !Eq(Norm(Mul2(f, g, -1), -1), 0, q)
  {
    NormMul(f, g, -1);
    hide Norm, Mul2;
    NonzeroProduct(Norm(f, -1), Norm(g, -1), q);
  }

  lemma {:induction false} ChainNonzero(p: Pt, n: nat, s: Pt, q: int)
    requires Prime(q) && q % 4 == 3 && !Eq(s.y, 0, q)
    ensures !Eq(Norm(AMiller.Chain(p, n, s, q).f, -1), 0, q)
  {
    PrimeBig(q);
    hide Norm, Mul2, AMiller.LineFi, Slope, DoublePt, Prime;
    if n == 0 {
      OneNonzero(q);
    } else {
      ChainNonzero(p, n - 1, s, q);
      var m := AMiller.Chain(p, n - 1, s, q);
      LineNonzero(m.pt, Slope(m.pt, 1, q), s, q);
      ProductNonzero(m.f, m.f, q);
      ProductNonzero(Mul2(m.f, m.f, -1), AMiller.LineFi(m.pt, Slope(m.pt, 1, q), s), q);
    }
  }

  lemma OneNonzero(q: int)
    requires Prime(q) && q > 2
    ensures !Eq(Norm(One, -1), 0, q)
  {
    OneFactor(1, q);
  }

  lemma InverseNonzero(f: F2, q: int)
    requires Prime(q) && q > 2 && !Eq(Norm(f, -1), 0, q)
    ensures !Eq(Norm(Inv2(f, -1, q), -1), 0, q)
  {
    var g := Inv2(f, -1, q);
    InverseProduct2(f, -1, q);
    hide Inv2;
    CongNorm(Mul2(f, g, -1), One, -1, q);
    OneNonzero(q);
    NonzeroCong(Norm(Mul2(f, g, -1), -1), Norm(One, -1), q);
    NormMul(f, g, -1);
    hide Norm, Mul2;
    if Eq(Norm(g, -1), 0, q) { Combine(Norm(f, -1), Norm(g, -1) - 0, q); }
  }

  lemma TextbookNonzero(p: Pt, s: Pt, e: AMiller.Params, q: int)
    requires Prime(q) && q % 4 == 3 && !Eq(s.y, 0, q)
    ensures !Eq(Norm(AMiller.Chain(p, e.exp1, s, q).f, -1), 0, q) && !Eq(Norm(AMiller.Textbook(p, s, e, q), -1), 0, q)
  {
    PrimeBig(q);
    ChainNonzero(p, e.exp1, s, q);
    ChainNonzero(p, AMiller.Len(e), s, q);
    var m, n1 := AMiller.Chain(p, AMiller.Len(e), s, q), AMiller.Chain(p, e.exp1, s, q);
    var m1 := AMiller.Signed(n1, e.sign1, q);
    hide AMiller.Chain, Norm, Mul2, Inv2, AMiller.LineFi, ChordSlope, Prime;
    if e.sign1 < 0 { InverseNonzero(n1.f, q); }
    var l := ChordSlope(m.pt, m1.pt, q);
    LineNonzero(m.pt, l, s, q);
    ProductNonzero(m.f, m1.f, q);
    ProductNonzero(Mul2(m.f, m1.f, -1), AMiller.LineFi(m.pt, l, s), q);
  }

  // The points of a run can be added.
  ghost predicate FinitePoints(p: Pt, e: AMiller.Params, q: int)
    requires q > 0
  {
    && (forall i :: 0 <= i < AMiller.Len(e) ==> !Eq(AMiller.Points(p, i, q).y, 0, q))
    && !Eq(AMiller.Points(p, e.exp1, q).x, AMiller.Points(p, AMiller.Len(e), q).x, q)
  }

  /** For q = 3 mod 4 and a second argument with y != 0 a run is regular exactly when its points can be added. */
  lemma RegularRun(p: Pt, s: Pt, e: AMiller.Params, q: int)
    requires Prime(q) && q % 4 == 3 && !Eq(s.y, 0, q)
    ensures AMiller.Regular(p, s, e, q) <==> FinitePoints(p, e, q)
  {
    TextbookNonzero(p, s, e, q);
    hide Norm, AMiller.Textbook, AMiller.Chain, AMiller.Points, Prime, Eq;
  }

  // ---------- f_n at the distorted point ----------

  // The base-field part of a line's value; a vertical has no other.
  function BaseOf(l: Line, s: Pt): int { Eval(l, Pt(-s.x, 0)) }

  function EvalFi(l: Line, s: Pt): F2 { F2(BaseOf(l, s), if l.Sloped? then s.y else 0) }

  datatype Value = Value(v: F2, vd: F2)

  function ValueOf(c: Build, p: Pt, s: Pt, q: int): Value
    requires q > 0
  {
    match c
    case Start => Value(One, One)
    case Opposite(d) =>
      var m := ValueOf(d, p, s, q);
      Value(m.vd, Mul2(m.v, EvalFi(VerticalOf(PlaceOf(d, p, 1, q)), s), -1))
    case Sum(d, e) =>
      var m, m1 := ValueOf(d, p, s, q), ValueOf(e, p, s, q);
      var l, z := LineOf(PlaceOf(d, p, 1, q), PlaceOf(e, p, 1, q), 1, q), VerticalOf(PlaceOf(c, p, 1, q));
      Value(Mul2(Mul2(m.v, m1.v, -1), EvalFi(l, s), -1), Mul2(Mul2(m.vd, m1.vd, -1), EvalFi(z, s), -1))
  }

  // f is v/vd up to the nonzero base-field factor t.
  ghost predicate Ratio(f: F2, w: Value, t: int, q: int)
    requires q > 0
  {
    !Eq(t, 0, q) && Eq2(Mul2(f, w.vd, -1), Scale(t, w.v), q)
  }

  lemma RatioOne(q: int)
    requires q > 1
    ensures Ratio(One, Value(One, One), 1, q)
  {
    OneFactor(1, q);
    Refl2(One, q);
  }

  // A product of ratios, a line more, and a vertical z less.
  lemma RatioProduct(f: F2, w: Value, t: int, g: F2, u: Value, t1: int, l: F2, z: int, q: int)
    requires Prime(q) && q > 0 && Ratio(f, w, t, q) && Ratio(g, u, t1, q) && !Eq(z, 0, q)
    ensures Ratio(Mul2(Mul2(f, g, -1), l, -1),
                  Value(Mul2(Mul2(w.v, u.v, -1), l, -1), Mul2(Mul2(w.vd, u.vd, -1), F2(z, 0), -1)), t * t1 * z, q)
  {
    NonzeroProduct(t, t1, q);
    NonzeroProduct(t * t1, z, q);
    var fg, vu, dd := Mul2(f, g, -1), Mul2(w.v, u.v, -1), Mul2(w.vd, u.vd, -1);
    // (f g)(vd ud) = (f vd)(g ud) = t v t1 u
    Interchange(f, g, w.vd, u.vd);
    CongMul2(Mul2(f, w.vd, -1), Scale(t, w.v), Mul2(g, u.vd, -1), Scale(t1, u.v), -1, q);
    AMiller.ScaleMul(t, w.v, t1, u.v, -1);
    assert Eq2(Mul2(fg, dd, -1), Scale(t * t1, vu), q);
    hide Mul2, Scale, Prime;
    // (fg l)(dd z) = (fg dd)(z l)
    Interchange(fg, l, dd, F2(z, 0));
    BaseTimes(l, z);
    Refl2(Scale(z, l), q);
    CongMul2(Mul2(fg, dd, -1), Scale(t * t1, vu), Scale(z, l), Scale(z, l), -1, q);
    AMiller.ScaleMul(t * t1, vu, z, l, -1);
  }

  lemma Interchange(a: F2, b: F2, c: F2, e: F2)
    ensures Mul2(Mul2(a, b, -1), Mul2(c, e, -1), -1) == Mul2(Mul2(a, c, -1), Mul2(b, e, -1), -1)
  {
    MulAssoc(a, b, Mul2(c, e, -1), -1);
    MulAssoc(b, c, e, -1);
    MulComm(b, c, -1);
    MulAssoc(c, b, e, -1);
    MulAssoc(a, c, Mul2(b, e, -1), -1);
  }

  lemma BaseTimes(l: F2, z: int)
    ensures Mul2(l, F2(z, 0), -1) == Scale(z, l)
  {}

  // The ratio of the inverse.
  lemma RatioInverse(f: F2, w: Value, t: int, z: int, q: int)
    requires Prime(q) && q > 0 && Ratio(f, w, t, q) && !Eq(Norm(f, -1), 0, q) && !Eq(z, 0, q)
    ensures Ratio(Inv2(f, -1, q), Value(w.vd, Mul2(w.v, F2(z, 0), -1)), Inv(t, q) * z, q)
  {
    var i, k, d := Inv2(f, -1, q), Inv(t, q), w.vd;
    InverseProduct2(f, -1, q);
    InvPrime(t, q);
    ProductIsOne(t, k, q);
    NonzeroProduct(k, z, q);
    hide Prime, Inv, Inv2;
    // i (f vd) = vd
    MulAssoc(i, f, d, -1);
    MulComm(i, f, -1);
    Refl2(d, q);
    CongMul2(Mul2(i, f, -1), One, d, d, -1, q);
    MulOne(d, -1);
    Refl2(i, q);
    CongMul2(i, i, Mul2(f, d, -1), Scale(t, w.v), -1, q);
    AMiller.ScaleShift(t, i, w.v, -1);
    AMiller.ScaleMul(t, i, 1, w.v, -1);
    assert Scale(1, w.v) == w.v && t * 1 == t;
    var iv := Mul2(i, w.v, -1);
    Sym2(Mul2(i, Mul2(f, d, -1), -1), Scale(t, iv), q);
    Trans2(Scale(t, iv), Mul2(i, Mul2(f, d, -1), -1), d, q);
    // i (v z) = z (i v), and t k = 1
    BaseTimes(w.v, z);
    AMiller.ScaleShift(z, i, w.v, -1);
    AMiller.ScaleMul(z, i, 1, w.v, -1);
    assert z * 1 == z;
    hide Mul2;
    Divided(iv.re, d.re, t, k, z, q);
    Divided(iv.im, d.im, t, k, z, q);
  }

  lemma ProductIsOne(t: int, k: int, q: int)
    requires q > 1 && Eq(t * k, 1, q)
    ensures !Eq(k, 0, q)
  {
    OneFactor(1, q);
    NonzeroCong(t * k, 1, q);
    if Eq(k, 0, q) { Combine(t, k - 0, q); }
  }

  lemma Divided(x: int, d: int, t: int, k: int, z: int, q: int)
    requires q > 0 && Eq(t * x, d, q) && Eq(t * k, 1, q)
    ensures Eq(z * x, k * z * d, q)
  {
    Combine2(k * z, t * x - d, -(z * x), t * k - 1, q);
    DividedIdentity(x, d, t, k, z);
  }

  lemma DividedIdentity(x: int, d: int, t: int, k: int, z: int)
    ensures k * z * (t * x - d) + -(z * x) * (t * k - 1) == z * x - k * z * d
  {}

  // ---------- the run is a chain ----------

  lemma {:induction false} DoubledPlace(p: Pt, n: nat, q: int)
    requires q > 0 && forall i :: 0 <= i < n ==> !Eq(AMiller.Points(p, i, q).y, 0, q)
    ensures PlaceOf(Doubled(n), p, 1, q) == Finite(AMiller.Points(p, n, q))
  {
    hide DoublePt, Eq;
    if n > 0 {
      DoubledPlace(p, n - 1, q);
      var v := AMiller.Points(p, n - 1, q);
      EqRefl(v.x, q);
      EqRefl(v.y, q);
    }
  }

  // A vertical of the chain is a nonzero element of the base field.
  lemma ChainVertical(c: Build, p: Pt, s: Pt, q: int)
    requires Prime(q) && q % 4 == 3 && OnCurve(p, 1, 0, q) && OnCurve(s, 1, 0, q) && !Eq(s.y, 0, q)
    ensures var z := VerticalOf(PlaceOf(c, p, 1, q)); EvalFi(z, s) == F2(BaseOf(z, s), 0) && !Eq(BaseOf(z, s), 0, q)
  {
    PrimeBig(q);
    OneFactor(1, q);
    ChainOnCurve(c, p, 1, 0, q);
    var v := PlaceOf(c, p, 1, q);
    hide OnCurve, PlaceOf, Prime;
    if v.Finite? { VerticalNonzero(v.pt, s, q); }
  }

  lemma SumPlace(c: Build, d: Build, p: Pt, q: int)
    requires q > 0
    ensures PlaceOf(Sum(c, d), p, 1, q) == SumOf(PlaceOf(c, p, 1, q), PlaceOf(d, p, 1, q), 1, q)
  {}

  // f stands in a ratio with the chain c, and v is its point.
  ghost predicate Stands(c: Build, v: Pt, f: F2, t: int, p: Pt, s: Pt, q: int)
    requires q > 0
  {
    PlaceOf(c, p, 1, q) == Finite(v) && Ratio(f, ValueOf(c, p, s, q), t, q)
  }

  // Two chains meet on a sloped line.
  lemma SumStands(c: Build, v: Pt, f: F2, t: int, d: Build, w: Pt, g: F2, t1: int, l: int, p: Pt, s: Pt, q: int) returns (u: int)
    requires Prime(q) && q % 4 == 3 && OnCurve(p, 1, 0, q) && OnCurve(s, 1, 0, q) && !Eq(s.y, 0, q)
    requires Stands(c, v, f, t, p, s, q) && Stands(d, w, g, t1, p, s, q) && LineOf(Finite(v), Finite(w), 1, q) == Sloped(v, l)
    ensures Ratio(Mul2(Mul2(f, g, -1), AMiller.LineFi(v, l, s), -1), ValueOf(Sum(c, d), p, s, q), u, q)
  {
    PrimeBig(q);
    ChainVertical(Sum(c, d), p, s, q);
    var z := BaseOf(VerticalOf(PlaceOf(Sum(c, d), p, 1, q)), s);
    assert EvalFi(Sloped(v, l), s) == AMiller.LineFi(v, l, s);
    hide OnCurve, PlaceOf, Prime, Ratio, Mul2, LineOf, AMiller.LineFi;
    RatioProduct(f, ValueOf(c, p, s, q), t, g, ValueOf(d, p, s, q), t1, AMiller.LineFi(v, l, s), z, q);
    u := t * t1 * z;
  }

  lemma SlopedDouble(v: Pt, q: int)
    requires q > 0 && !Eq(v.y, 0, q)
    ensures LineOf(Finite(v), Finite(v), 1, q) == Sloped(v, Slope(v, 1, q))
  {
    EqRefl(v.x, q);
    EqRefl(v.y, q);
  }

  lemma {:induction false} ChainStands(p: Pt, n: nat, s: Pt, q: int) returns (t: int)
    requires Prime(q) && q % 4 == 3 && OnCurve(p, 1, 0, q) && OnCurve(s, 1, 0, q) && !Eq(s.y, 0, q)
    requires forall i :: 0 <= i < n ==> !Eq(AMiller.Points(p, i, q).y, 0, q)
    ensures Stands(Doubled(n), AMiller.Points(p, n, q), AMiller.Chain(p, n, s, q).f, t, p, s, q)
  {
    PrimeBig(q);
    hide OnCurve, Prime, Stands, DoublePt, Eq;
    if n == 0 {
      StartStands(p, s, q);
      t := 1;
    } else {
      t := ChainStands(p, n - 1, s, q);
      t := StepStands(p, n - 1, t, s, q);
    }
  }

  lemma StartStands(p: Pt, s: Pt, q: int)
    requires q > 1
    ensures Stands(Doubled(0), AMiller.Points(p, 0, q), AMiller.Chain(p, 0, s, q).f, 1, p, s, q)
  {
    hide Ratio;
    RatioOne(q);
  }

  lemma StepStands(p: Pt, n: nat, t: int, s: Pt, q: int) returns (u: int)
    requires q > 0 && Prime(q) && q % 4 == 3 && OnCurve(p, 1, 0, q) && OnCurve(s, 1, 0, q) && !Eq(s.y, 0, q)
    requires forall i :: 0 <= i <= n ==> !Eq(AMiller.Points(p, i, q).y, 0, q)
    requires Stands(Doubled(n), AMiller.Points(p, n, q), AMiller.Chain(p, n, s, q).f, t, p, s, q)
    ensures Stands(Doubled(n + 1), AMiller.Points(p, n + 1, q), AMiller.Chain(p, n + 1, s, q).f, u, p, s, q)
  {
    hide OnCurve, PlaceOf, Prime, Ratio, Mul2, LineOf, AMiller.LineFi, Slope, DoublePt, Eq, ValueOf;
    DoubledPlace(p, n + 1, q);
    AMiller.ChainPoints(p, n, s, q);
    var m, c := AMiller.Chain(p, n, s, q), Doubled(n);
    SlopedDouble(m.pt, q);
    u := SumStands(c, m.pt, m.f, t, c, m.pt, m.f, t, Slope(m.pt, 1, q), p, s, q);
  }

  lemma SignedStands(c: Build, m: AMiller.Miller, t: int, sign1: int, p: Pt, s: Pt, q: int) returns (u: int)
    requires Prime(q) && q % 4 == 3 && OnCurve(p, 1, 0, q) && OnCurve(s, 1, 0, q) && !Eq(s.y, 0, q)
    requires Stands(c, m.pt, m.f, t, p, s, q) && (sign1 < 0 ==> !Eq(Norm(m.f, -1), 0, q))
    ensures var m1 := AMiller.Signed(m, sign1, q); Stands(SignedBuild(c, sign1), m1.pt, m1.f, u, p, s, q)
  {
    PrimeBig(q);
    u := t;
    ChainVertical(c, p, s, q);
    var z := BaseOf(VerticalOf(PlaceOf(c, p, 1, q)), s);
    hide OnCurve, Prime, Ratio, Mul2, EvalFi, BaseOf, Inv2, Norm;
    if sign1 < 0 {
      RatioInverse(m.f, ValueOf(c, p, s, q), t, z, q);
      u := Inv(t, q) * z;
    }
  }

  // The points whose sum the pairings leave out: 2^exp2 P and +-2^exp1 P.
  lemma RunPlaces(p: Pt, e: AMiller.Params, q: int)
    requires q > 0 && e.exp1 <= e.exp2 && forall i :: 0 <= i < e.exp2 ==> !Eq(AMiller.Points(p, i, q).y, 0, q)
    ensures PlaceOf(Doubled(e.exp2), p, 1, q) == Finite(AMiller.Points(p, e.exp2, q))
    ensures PlaceOf(SignedBuild(Doubled(e.exp1), e.sign1), p, 1, q) == Finite(AMiller.SignedPoint(AMiller.Points(p, e.exp1, q), e.sign1))
    ensures Index(Doubled(e.exp2)) == Two(e.exp2) && Index(SignedBuild(Doubled(e.exp1), e.sign1)) == SignOf(e.sign1) * Two(e.exp1)
  {
    DoubledPlace(p, e.exp2, q);
    DoubledPlace(p, e.exp1, q);
    DoubledIndex(e.exp2);
    DoubledIndex(e.exp1);
  }

  /** The textbook value of the pairings is the Miller function of index 2^exp2 + sign1 2^exp1, up to a base-field factor. */
  lemma RunJoined(p: Pt, s: Pt, e: AMiller.Params, q: int) returns (t: int)
    requires Prime(q) && q % 4 == 3 && OnCurve(p, 1, 0, q) && OnCurve(s, 1, 0, q) && !Eq(s.y, 0, q)
    requires e.exp1 <= e.exp2 && FinitePoints(p, e, q)
    ensures Index(Joined(e.exp2, e.exp1, e.sign1)) == Two(e.exp2) + SignOf(e.sign1) * Two(e.exp1)
    ensures Ratio(AMiller.Textbook(p, s, e, q), ValueOf(Joined(e.exp2, e.exp1, e.sign1), p, s, q), t, q)
  {
    PrimeBig(q);
    JoinedIndex(e.exp2, e.exp1, e.sign1);
    TextbookNonzero(p, s, e, q);
    AMiller.ChainPoints(p, e.exp2, s, q);
    AMiller.ChainPoints(p, e.exp1, s, q);
    var m, n1 := AMiller.Chain(p, e.exp2, s, q), AMiller.Chain(p, e.exp1, s, q);
    var m1 := AMiller.Signed(n1, e.sign1, q);
    SlopedChord(m.pt, m1.pt, n1.pt.x, q);
    hide OnCurve, Prime, Ratio, Mul2, LineOf, AMiller.LineFi, AMiller.Chain, AMiller.Points, Inv2, Norm, ChordSlope, Eq, Stands, ValueOf, Two;
    var t2 := ChainStands(p, e.exp2, s, q);
    var t1 := ChainStands(p, e.exp1, s, q);
    t1 := SignedStands(Doubled(e.exp1), n1, t1, e.sign1, p, s, q);
    t := SumStands(Doubled(e.exp2), m.pt, m.f, t2, SignedBuild(Doubled(e.exp1), e.sign1), m1.pt, m1.f, t1,
                   ChordSlope(m.pt, m1.pt, q), p, s, q);
  }

  lemma SlopedChord(v: Pt, w: Pt, x: int, q: int)
    requires q > 0 && !Eq(x, v.x, q) && x == w.x
    ensures LineOf(Finite(v), Finite(w), 1, q) == Sloped(v, ChordSlope(v, w, q))
  {
    if Eq(v.x, x, q) { EqSym(v.x, x, q); }
  }

  // ---------- the last addition ----------

  lemma LineNotZero(c: Build, d: Build, p: Pt, s: Pt, q: int)
    requires Prime(q) && q % 4 == 3 && OnCurve(p, 1, 0, q) && OnCurve(s, 1, 0, q) && !Eq(s.y, 0, q)
    ensures !Eq(Norm(EvalFi(LineOf(PlaceOf(c, p, 1, q), PlaceOf(d, p, 1, q), 1, q), s), -1), 0, q)
  {
    ChainVertical(c, p, s, q);
    ChainVertical(d, p, s, q);
    var l := LineOf(PlaceOf(c, p, 1, q), PlaceOf(d, p, 1, q), 1, q);
    hide OnCurve, PlaceOf, Prime, Eq, ChordSlope, Slope;
    if l.Sloped? {
      LineNonzero(l.v, l.l, s, q);
      assert EvalFi(l, s) == AMiller.LineFi(l.v, l.l, s);
    } else {
      BaseNonzero(BaseOf(l, s), q);
    }
  }

  lemma BaseNonzero(z: int, q: int)
    requires Prime(q) && !Eq(z, 0, q)
    ensures !Eq(Norm(F2(z, 0), -1), 0, q)
  {
    NonzeroProduct(z, z, q);
    assert Norm(F2(z, 0), -1) == z * z;
  }

  // No value of a chain is zero.
  lemma {:induction false} ValueNonzero(c: Build, p: Pt, s: Pt, q: int)
    requires Prime(q) && q % 4 == 3 && OnCurve(p, 1, 0, q) && OnCurve(s, 1, 0, q) && !Eq(s.y, 0, q)
    ensures !Eq(Norm(ValueOf(c, p, s, q).v, -1), 0, q) && !Eq(Norm(ValueOf(c, p, s, q).vd, -1), 0, q)
  {
    PrimeBig(q);
    hide OnCurve, PlaceOf, Prime, Eq, Norm, Mul2, LineOf, EvalFi, BaseOf;
    match c
    case Start =>
      OneNonzero(q);
    case Opposite(d) =>
      ValueNonzero(d, p, s, q);
      ChainVertical(d, p, s, q);
      var z := BaseOf(VerticalOf(PlaceOf(d, p, 1, q)), s);
      BaseNonzero(z, q);
      ProductNonzero(ValueOf(d, p, s, q).v, F2(z, 0), q);
    case Sum(d, e) =>
      ValueNonzero(d, p, s, q);
      ValueNonzero(e, p, s, q);
      LineNotZero(d, e, p, s, q);
      ChainVertical(c, p, s, q);
      var z, l := BaseOf(VerticalOf(PlaceOf(c, p, 1, q)), s), EvalFi(LineOf(PlaceOf(d, p, 1, q), PlaceOf(e, p, 1, q), 1, q), s);
      BaseNonzero(z, q);
      var m, m1 := ValueOf(d, p, s, q), ValueOf(e, p, s, q);
      ProductNonzero(m.v, m1.v, q);
      ProductNonzero(m.vd, m1.vd, q);
      ProductNonzero(Mul2(m.v, m1.v, -1), l, q);
      ProductNonzero(Mul2(m.vd, m1.vd, -1), F2(z, 0), q);
  }

  // Base-field factors keep a ratio.
  lemma RatioBase(f: F2, w: Value, t: int, b: int, b': int, q: int)
    requires Prime(q) && q > 0 && Ratio(f, w, t, q) && !Eq(b, 0, q) && !Eq(b', 0, q)
    ensures Ratio(f, Value(Scale(b, w.v), Scale(b', w.vd)), t * b' * Inv(b, q), q)
  {
    var k, fd := Inv(b, q), Mul2(f, w.vd, -1);
    InvPrime(b, q);
    ProductIsOne(b, k, q);
    NonzeroProduct(t, b', q);
    NonzeroProduct(t * b', k, q);
    AMiller.ScaleMul(1, f, b', w.vd, -1);
    assert Scale(1, f) == f && 1 * b' == b';
    hide Prime, Inv, Mul2;
    Rebased(fd.re, w.v.re, t, b, b', k, q);
    Rebased(fd.im, w.v.im, t, b, b', k, q);
  }

  lemma Rebased(x: int, v: int, t: int, b: int, b': int, k: int, q: int)
    requires q > 0 && Eq(x, t * v, q) && Eq(b * k, 1, q)
    ensures Eq(b' * x, t * b' * k * (b * v), q)
  {
    Combine2(b', x - t * v, -(t * b' * v), b * k - 1, q);
    RebasedIdentity(x, v, t, b, b', k);
  }

  lemma RebasedIdentity(x: int, v: int, t: int, b: int, b': int, k: int)
    ensures b' * (x - t * v) + -(t * b' * v) * (b * k - 1) == b' * x - t * b' * k * (b * v)
  {}

  // Adding +-P to a chain that reaches infinity by it multiplies by base-field factors only.
  lemma LastFactors(c: Build, p: Pt, s: Pt, sign0: int, q: int) returns (b: int, b': int)
    requires Prime(q) && q % 4 == 3 && OnCurve(p, 1, 0, q) && OnCurve(s, 1, 0, q) && !Eq(s.y, 0, q)
    requires PlaceOf(c, p, 1, q).Finite? && PlaceOf(Sum(c, SignedBuild(Start, sign0)), p, 1, q).Infinity?
    ensures !Eq(b, 0, q) && !Eq(b', 0, q)
    ensures var m := ValueOf(c, p, s, q);
            ValueOf(Sum(c, SignedBuild(Start, sign0)), p, s, q) == Value(Scale(b, m.v), Scale(b', m.vd))
  {
    PrimeBig(q);
    OneFactor(1, q);
    var d, m := SignedBuild(Start, sign0), ValueOf(c, p, s, q);
    ChainVertical(c, p, s, q);
    ChainVertical(Start, p, s, q);
    b := BaseOf(VerticalOf(PlaceOf(c, p, 1, q)), s);
    b' := if sign0 < 0 then BaseOf(VerticalOf(Finite(p)), s) else 1;
    UprightLast(c, sign0, p, s, q);
    BaseTimes(m.v, b);
    MulOne(m.v, -1);
    MulOne(F2(b', 0), -1);
    MulOne(Mul2(m.vd, F2(b', 0), -1), -1);
    BaseTimes(m.vd, b');
    MulOne(m.vd, -1);
    assert Scale(1, m.vd) == m.vd;
  }

  lemma UprightLast(c: Build, sign0: int, p: Pt, s: Pt, q: int)
    requires q > 0 && PlaceOf(c, p, 1, q).Finite? && PlaceOf(Sum(c, SignedBuild(Start, sign0)), p, 1, q).Infinity?
    ensures var d, m, z := SignedBuild(Start, sign0), ValueOf(c, p, s, q), VerticalOf(PlaceOf(c, p, 1, q));
            && ValueOf(d, p, s, q) == Value(One, if sign0 < 0 then Mul2(One, EvalFi(VerticalOf(Finite(p)), s), -1) else One)
            && ValueOf(Sum(c, d), p, s, q)
               == Value(Mul2(Mul2(m.v, One, -1), EvalFi(z, s), -1), Mul2(Mul2(m.vd, ValueOf(d, p, s, q).vd, -1), One, -1))
  {
    hide Mul2, Eq, ChordSlope, Slope;
    var d := SignedBuild(Start, sign0);
    assert PlaceOf(Start, p, 1, q) == Finite(p) && ValueOf(Start, p, s, q) == Value(One, One);
    assert EvalFi(VerticalOf(Infinity), s) == One;
    SumPlace(c, d, p, q);
  }

  /** For rP = O the textbook value is the Miller function of index r = 2^exp2 + sign1 2^exp1 + sign0, for either sign0,
      up to a base-field factor: the last line is a vertical. */
  lemma RunWhole(p: Pt, s: Pt, e: AMiller.Params, sign0: int, q: int) returns (t: int)
    requires Prime(q) && q % 4 == 3 && OnCurve(p, 1, 0, q) && OnCurve(s, 1, 0, q) && !Eq(s.y, 0, q)
    requires e.exp1 <= e.exp2 && FinitePoints(p, e, q) && PlaceOf(RunBuild(e, sign0), p, 1, q).Infinity?
    ensures Index(RunBuild(e, sign0)) == Order(e, sign0)
    ensures Ratio(AMiller.Textbook(p, s, e, q), ValueOf(RunBuild(e, sign0), p, s, q), t, q)
  {
    PrimeBig(q);
    WholeIndex(e.exp2, e.exp1, e.sign1, sign0);
    var c := Joined(e.exp2, e.exp1, e.sign1);
    JoinedFinite(p, e, sign0, q);
    hide OnCurve, Prime, Ratio, AMiller.Textbook, FinitePoints, ValueOf, Eq, Two, PlaceOf;
    t := RunJoined(p, s, e, q);
    var b, b' := LastFactors(c, p, s, sign0, q);
    RatioBase(AMiller.Textbook(p, s, e, q), ValueOf(c, p, s, q), t, b, b', q);
    t := t * b' * Inv(b, q);
  }

  lemma JoinedFinite(p: Pt, e: AMiller.Params, sign0: int, q: int)
    requires q > 0 && e.exp1 <= e.exp2 && FinitePoints(p, e, q)
    ensures PlaceOf(Joined(e.exp2, e.exp1, e.sign1), p, 1, q).Finite?
  {
    RunPlaces(p, e, q);
    var v, w := AMiller.Points(p, e.exp2, q), AMiller.SignedPoint(AMiller.Points(p, e.exp1, q), e.sign1);
    SlopedChord(v, w, w.x, q);
  }

  function Order(e: AMiller.Params, sign0: int): int { Two(e.exp2) + SignOf(e.sign1) * Two(e.exp1) + SignOf(sign0) }

  function RunBuild(e: AMiller.Params, sign0: int): Build { Whole(e.exp2, e.exp1, e.sign1, sign0) }

  // A chain's value as an element
  function Quotient(w: Value, q: int): F2
    requires q > 0
  {
    Mul2(w.v, Inv2(w.vd, -1, q), -1)
  }

  lemma RatioScaled(f: F2, w: Value, t: int, q: int)
    requires Prime(q) && q > 0 && Ratio(f, w, t, q) && !Eq(Norm(w.vd, -1), 0, q)
    ensures AMiller.Scaled(f, Quotient(w, q), t, q)
  {
    var i := Inv2(w.vd, -1, q);
    InverseProduct2(w.vd, -1, q);
    hide Inv2, Prime;
    Refl2(f, q); Refl2(i, q);
    // f = f (vd i) = (f vd) i = t v i
    CongMul2(f, f, Mul2(w.vd, i, -1), One, -1, q);
    MulOne(f, -1);
    MulAssoc(f, w.vd, i, -1);
    CongMul2(Mul2(f, w.vd, -1), Scale(t, w.v), i, i, -1, q);
    AMiller.ScaleMul(t, w.v, 1, i, -1);
    assert Scale(1, i) == i && t * 1 == t;
    var g := Mul2(f, Mul2(w.vd, i, -1), -1);
    Sym2(g, f, q);
    Trans2(f, g, Scale(t, Quotient(w, q)), q);
  }

  // Elements that differ by a base-field factor have one exponentiation.
  lemma SameTate(f: F2, m: F2, t: int, k: nat, q: int)
    requires Prime(q) && q > 0 && AMiller.Scaled(f, m, t, q) && !Eq(Norm(m, -1), 0, q)
    ensures Eq2(AMiller.TateExp(f, k, q), AMiller.TateExp(m, k, q), q)
  {
    AMiller.FactorRemoved(f, m, t, q);
    hide Norm, Inv2, Mul2;
    CongPow2(Mul2(Conj(f), Inv2(f, -1, q), -1), Mul2(Conj(m), Inv2(m, -1, q), -1), k, -1, q);
  }

  /** What the pairings return is f_r at the distorted point, raised to q - 1 and to the cofactor. */
  lemma TateIndex(p: Pt, s: Pt, e: AMiller.Params, sign0: int, k: nat, q: int)
    requires Prime(q) && q % 4 == 3 && OnCurve(p, 1, 0, q) && OnCurve(s, 1, 0, q) && !Eq(s.y, 0, q)
    requires e.exp1 <= e.exp2 && FinitePoints(p, e, q) && PlaceOf(RunBuild(e, sign0), p, 1, q).Infinity?
    ensures Index(RunBuild(e, sign0)) == Order(e, sign0)
    ensures var w := ValueOf(RunBuild(e, sign0), p, s, q);
            !Eq(Norm(w.vd, -1), 0, q) && Eq2(AMiller.TateExp(AMiller.Textbook(p, s, e, q), k, q), AMiller.TateExp(Quotient(w, q), k, q), q)
  {
    PrimeBig(q);
    hide OnCurve, Prime, Ratio, AMiller.Textbook, FinitePoints, ValueOf, Eq, PlaceOf, Norm, AMiller.TateExp, Quotient, RunBuild, Order, AMiller.Scaled;
    var t := RunWhole(p, s, e, sign0, q);
    var w := ValueOf(RunBuild(e, sign0), p, s, q);
    ValueNonzero(RunBuild(e, sign0), p, s, q);
    RatioScaled(AMiller.Textbook(p, s, e, q), w, t, q);
    QuotientNonzero(w, q);
    SameTate(AMiller.Textbook(p, s, e, q), Quotient(w, q), t, k, q);
  }

  /** With the cofactor k = (q + 1) / r that is the Tate pairing f_r^((q^2 - 1) / r). */
  lemma TatePairing(p: Pt, s: Pt, e: AMiller.Params, sign0: int, k: nat, q: int, n: nat)
    requires Prime(q) && q % 4 == 3 && OnCurve(p, 1, 0, q) && OnCurve(s, 1, 0, q) && !Eq(s.y, 0, q)
    requires e.exp1 <= e.exp2 && FinitePoints(p, e, q) && PlaceOf(RunBuild(e, sign0), p, 1, q).Infinity?
    requires Order(e, sign0) * n == q * q - 1 && Order(e, sign0) * k == q + 1
    ensures Eq2(AMiller.TateExp(AMiller.Textbook(p, s, e, q), k, q), Pow2(Quotient(ValueOf(RunBuild(e, sign0), p, s, q), q), n, -1), q)
  {
    PrimeBig(q);
    Exponent(Order(e, sign0), k, q, n);
    hide OnCurve, Prime, AMiller.Textbook, FinitePoints, ValueOf, Eq, PlaceOf, Norm, AMiller.TateExp, Quotient, RunBuild, Order, Pow2;
    TateIndex(p, s, e, sign0, k, q);
    var w := ValueOf(RunBuild(e, sign0), p, s, q);
    ValueNonzero(RunBuild(e, sign0), p, s, q);
    QuotientNonzero(w, q);
    Frobenius.TatePower(Quotient(w, q), k, q, n);
    Trans2(AMiller.TateExp(AMiller.Textbook(p, s, e, q), k, q), AMiller.TateExp(Quotient(w, q), k, q), Pow2(Quotient(w, q), n, -1), q);
  }

  lemma Exponent(r: int, k: int, q: int, n: int)
    requires r * n == q * q - 1 && r * k == q + 1 && q > 1
    ensures n == (q - 1) * k
  {
    assert r * ((q - 1) * k) == (q - 1) * (r * k);
    assert (q - 1) * (q + 1) == q * q - 1;
    FactorNonzero(r, k);
    Same(r, n, (q - 1) * k);
  }

  lemma FactorNonzero(r: int, k: int)
    ensures r * k != 0 ==> r != 0
  {}

  lemma Same(r: int, x: int, y: int)
    requires r != 0 && r * x == r * y
    ensures x == y
  {}

  lemma QuotientNonzero(w: Value, q: int)
    requires Prime(q) && q > 2 && !Eq(Norm(w.v, -1), 0, q) && !Eq(Norm(w.vd, -1), 0, q)
    ensures !Eq(Norm(Quotient(w, q), -1), 0, q)
  {
    InverseNonzero(w.vd, q);
    hide Norm, Inv2, Mul2;
    ProductNonzero(w.v, Inv2(w.vd, -1, q), q);
  }

  /** The chain of index r ends at infinity exactly for rP = O. */
  lemma RunEnds(p: Pt, e: AMiller.Params, sign0: int, q: int, f: int -> Place)
    requires q > 0 && Multiples(f, p, 1, q)
    ensures PlaceOf(RunBuild(e, sign0), p, 1, q).Infinity? <==> f(Order(e, sign0)).Infinity?
  {
    WholeIndex(e.exp2, e.exp1, e.sign1, sign0);
    ChainPlace(RunBuild(e, sign0), f, p, 1, q);
  }

  // ---------- the norm of a chain's value ----------

  lemma SlopedNorm(v: Pt, w: Pt, u: Pt, l: int, s: Pt, q: int)
    requires q > 0 && OnLine(v, w, u, l, 1, 0, q) && OnCurve(s, 1, 0, q)
    ensures Eq(Norm(AMiller.LineFi(v, l, s), -1), -1 * ((-s.x - v.x) * (-s.x - w.x) * (-s.x - u.x)), q)
  {
    var x := -s.x;
    var k, c, d := LineY(v, l, x), Cubic(x, 1, 0), (x - v.x) * (x - w.x) * (x - u.x);
    assert MeetsAt(v, l, v.x, w.x, u.x, 1, 0, q, x);
    hide Meets;
    OddCubic(s.x);
    assert LineAt(v, l, Pt(x, 0)) == -k;
    assert -k * -k == k * k;
    hide Cubic, LineY, LineAt;
    var k2, y2 := k * k, s.y * s.y;
    assert Norm(AMiller.LineFi(v, l, s), -1) == k2 + y2;
    hide Norm;
    Combine2(-1, (c - k2) - d, 1, y2 - -c, q);
    assert -1 * ((c - k2) - d) + 1 * (y2 - -c) == (k2 + y2) - -1 * d;
  }

  lemma LineNormFi(p: Place, r: Place, s: Pt, q: int)
    requires Prime(q) && q % 2 == 1 && OnCurveAt(p, 1, 0, q) && OnCurveAt(r, 1, 0, q) && OnCurve(s, 1, 0, q)
    ensures var l := LineOf(p, r, 1, q);
            Eq(Norm(EvalFi(l, s), -1),
               Verticals(LineSign(l), BaseOf(VerticalOf(p), s), BaseOf(VerticalOf(r), s), BaseOf(VerticalOf(SumOf(p, r, 1, q)), s)), q)
  {
    PrimeBig(q);
    hide Prime, OnCurve, AddPt, DoublePt, Eq, Slope, ChordSlope, AMiller.LineFi;
    var l := LineOf(p, r, 1, q);
    if p.Infinity? {
      VerticalNorm(BaseOf(VerticalOf(r), s), q);
    } else if r.Infinity? {
      VerticalNorm(BaseOf(VerticalOf(p), s), q);
    } else {
      var v, w := p.pt, r.pt;
      if l.Sloped? { assert EvalFi(l, s) == AMiller.LineFi(l.v, l.l, s); }
      if !Eq(v.x, w.x, q) {
        ChordIsLine(v, w, 1, 0, q);
        SlopedNorm(v, w, AddPt(v, w, q), ChordSlope(v, w, q), s, q);
      } else if Eq(v.y, w.y, q) && !Eq(v.y, 0, q) {
        TangentIsLine(v, w, 1, 0, q);
        SlopedNorm(v, w, DoublePt(v, 1, q), Slope(v, 1, q), s, q);
      } else {
        EqRefl(-s.x, q); EqRefl(-s.x - v.x, q);
        EqAdd(-s.x, -s.x, v.x, w.x, q);
        EqMul(-s.x - v.x, -s.x - v.x, -s.x - v.x, -s.x - w.x, q);
        assert (-s.x - v.x) * (-s.x - w.x) * 1 == (-s.x - v.x) * (-s.x - w.x);
      }
    }
  }

  lemma VerticalNorm(z: int, q: int)
    requires q > 0
    ensures Norm(F2(z, 0), -1) == z * z && Eq(z * z, 1 * (1 * z * z), q) && Eq(z * z, 1 * (z * 1 * z), q)
  {
    assert 1 * (1 * z * z) == z * z && 1 * (z * 1 * z) == z * z;
    EqRefl(z * z, q);
  }

  function Signs(a: int, b: int, c: int): int { a * b * c }

  function Verticals(sign: int, x: int, y: int, z: int): int { sign * (x * y * z) }

  function ChainSign(c: Build, p: Pt, q: int): int
    requires q > 0
  {
    match c
    case Start => 1
    case Opposite(d) => ChainSign(d, p, q)
    case Sum(d, e) => Signs(ChainSign(d, p, q), ChainSign(e, p, q), LineSign(LineOf(PlaceOf(d, p, 1, q), PlaceOf(e, p, 1, q), 1, q)))
  }

  lemma {:induction false} ChainSignUnit(c: Build, p: Pt, q: int)
    requires q > 0
    ensures ChainSign(c, p, q) == 1 || ChainSign(c, p, q) == -1
  {
    hide LineOf, PlaceOf;
    match c
    case Start =>
    case Opposite(d) => ChainSignUnit(d, p, q);
    case Sum(d, e) => ChainSignUnit(d, p, q); ChainSignUnit(e, p, q);
  }

  // u z / w is x^(plus - minus) up to a sign.
  ghost predicate Balanced(u: int, w: int, z: int, sign: int, x: int, plus: nat, minus: nat, q: int)
    requires q > 0
  {
    Eq(u * z * Pow(x, minus), sign * (w * Pow(x, plus)), q)
  }

  ghost predicate BalancedFor(w: Value, z: int, sign: int, x: int, plus: nat, minus: nat, q: int)
    requires q > 0
  {
    Balanced(Norm(w.v, -1), Norm(w.vd, -1), z, sign, x, plus, minus, q)
  }

  ghost predicate BalancedAt(c: Build, p: Pt, s: Pt, q: int)
    requires q > 0
  {
    BalancedFor(ValueOf(c, p, s, q), BaseOf(VerticalOf(PlaceOf(c, p, 1, q)), s), ChainSign(c, p, q), -s.x - p.x, Plus(c), Minus(c), q)
  }

  /** The norm of a chain's value is, up to sign, the vertical through P to the power of the index, over the vertical
      through the chain's place. */
  lemma {:induction false} ValueNorm(c: Build, p: Pt, s: Pt, q: int)
    requires Prime(q) && q % 2 == 1 && OnCurve(p, 1, 0, q) && OnCurve(s, 1, 0, q)
    ensures BalancedAt(c, p, s, q) && (ChainSign(c, p, q) == 1 || ChainSign(c, p, q) == -1)
  {
    PrimeBig(q);
    ChainSignUnit(c, p, q);
    match c
    case Start =>
      BalancedStart(-s.x - p.x, q);
    case Opposite(d) =>
      hide BalancedAt;
      ValueNorm(d, p, s, q);
      OppositeNorm(d, p, s, q);
    case Sum(d, e) =>
      hide BalancedAt, LineBalanced;
      ValueNorm(d, p, s, q);
      ValueNorm(e, p, s, q);
      SumLineNorm(d, e, p, s, q);
      SumNorm(d, e, p, s, q);
  }

  lemma OppositeNorm(d: Build, p: Pt, s: Pt, q: int)
    requires q > 0 && BalancedAt(d, p, s, q)
    ensures BalancedAt(Opposite(d), p, s, q)
  {
    hide LineOf, SumOf, Norm, Mul2, Balanced;
    var w, z := ValueOf(d, p, s, q), BaseOf(VerticalOf(PlaceOf(d, p, 1, q)), s);
    assert VerticalOf(PlaceOf(Opposite(d), p, 1, q)) == VerticalOf(PlaceOf(d, p, 1, q));
    assert EvalFi(VerticalOf(PlaceOf(d, p, 1, q)), s) == F2(z, 0);
    ChainSignUnit(d, p, q);
    NormMul(w.v, F2(z, 0), -1);
    VerticalNorm(z, q);
    hide Eval, PlaceOf;
    BalancedInverse(Norm(w.v, -1), Norm(w.vd, -1), z, ChainSign(d, p, q), -s.x - p.x, Plus(d), Minus(d), q);
  }

  lemma SumNorm(d: Build, e: Build, p: Pt, s: Pt, q: int)
    requires q > 0 && LineBalanced(d, e, p, s, q) && BalancedAt(d, p, s, q) && BalancedAt(e, p, s, q)
    ensures BalancedAt(Sum(d, e), p, s, q)
  {
    hide LineOf, SumOf, VerticalOf, Norm, Mul2, BalancedFor, Eq, ValueOf, PlaceOf, EvalFi, BaseOf, ChainSign, LineSign, Plus, Minus, Signs, Verticals;
    SumValue(d, e, p, s, q);
    SumCounts(d, e, p, q);
    var pd, pe, pc := PlaceOf(d, p, 1, q), PlaceOf(e, p, 1, q), PlaceOf(Sum(d, e), p, 1, q);
    var l := LineOf(pd, pe, 1, q);
    SumBalanced(ValueOf(d, p, s, q), BaseOf(VerticalOf(pd), s), ChainSign(d, p, q), ValueOf(e, p, s, q), BaseOf(VerticalOf(pe), s),
                ChainSign(e, p, q), EvalFi(l, s), BaseOf(VerticalOf(pc), s), LineSign(l), -s.x - p.x, Plus(d), Minus(d), Plus(e), Minus(e), q);
  }

  lemma SumCounts(d: Build, e: Build, p: Pt, q: int)
    requires q > 0
    ensures var l := LineOf(PlaceOf(d, p, 1, q), PlaceOf(e, p, 1, q), 1, q);
            ChainSign(Sum(d, e), p, q) == Signs(ChainSign(d, p, q), ChainSign(e, p, q), LineSign(l))
    ensures Plus(Sum(d, e)) == Plus(d) + Plus(e) && Minus(Sum(d, e)) == Minus(d) + Minus(e)
  {
    hide LineOf, PlaceOf, LineSign, Signs;
  }

  lemma SumBalanced(u: Value, zd: int, sg: int, w: Value, ze: int, sh: int, k: F2, z: int, ls: int,
                    x: int, m: nat, n: nat, m1: nat, n1: nat, q: int)
    requires q > 0 && BalancedFor(u, zd, sg, x, m, n, q) && BalancedFor(w, ze, sh, x, m1, n1, q)
    requires Eq(Norm(k, -1), Verticals(ls, zd, ze, z), q)
    ensures BalancedFor(Value(Mul2(Mul2(u.v, w.v, -1), k, -1), Mul2(Mul2(u.vd, w.vd, -1), F2(z, 0), -1)), z, Signs(sg, sh, ls), x, m + m1, n + n1, q)
  {
    hide Norm, Mul2, Balanced, Eq;
    SumValueNorm(u, w, k, z, q);
    BalancedSum(Norm(u.v, -1), Norm(u.vd, -1), zd, sg, Norm(w.v, -1), Norm(w.vd, -1), ze, sh, Norm(k, -1), z, ls, x, m, n, m1, n1, q);
  }

  // The norm of the line of a sum
  ghost predicate LineBalanced(d: Build, e: Build, p: Pt, s: Pt, q: int)
    requires q > 0
  {
    var l := LineOf(PlaceOf(d, p, 1, q), PlaceOf(e, p, 1, q), 1, q);
    var zd, ze := BaseOf(VerticalOf(PlaceOf(d, p, 1, q)), s), BaseOf(VerticalOf(PlaceOf(e, p, 1, q)), s);
    Eq(Norm(EvalFi(l, s), -1), Verticals(LineSign(l), zd, ze, BaseOf(VerticalOf(PlaceOf(Sum(d, e), p, 1, q)), s)), q)
  }

  lemma SumLineNorm(d: Build, e: Build, p: Pt, s: Pt, q: int)
    requires Prime(q) && q % 2 == 1 && OnCurve(p, 1, 0, q) && OnCurve(s, 1, 0, q)
    ensures LineBalanced(d, e, p, s, q)
  {
    PrimeBig(q);
    ChainOnCurve(d, p, 1, 0, q);
    ChainOnCurve(e, p, 1, 0, q);
    SumPlace(d, e, p, q);
    hide OnCurve, Prime, LineOf, SumOf, PlaceOf, Norm, Eq, EvalFi, Verticals, BaseOf, VerticalOf, LineSign;
    LineNormFi(PlaceOf(d, p, 1, q), PlaceOf(e, p, 1, q), s, q);
  }

  lemma SumValue(d: Build, e: Build, p: Pt, s: Pt, q: int)
    requires q > 0
    ensures var l, u, w := LineOf(PlaceOf(d, p, 1, q), PlaceOf(e, p, 1, q), 1, q), ValueOf(d, p, s, q), ValueOf(e, p, s, q);
            var z := BaseOf(VerticalOf(PlaceOf(Sum(d, e), p, 1, q)), s);
            ValueOf(Sum(d, e), p, s, q) == Value(Mul2(Mul2(u.v, w.v, -1), EvalFi(l, s), -1), Mul2(Mul2(u.vd, w.vd, -1), F2(z, 0), -1))
  {
    hide LineOf, PlaceOf, Mul2, BaseOf;
    assert EvalFi(VerticalOf(PlaceOf(Sum(d, e), p, 1, q)), s) == F2(BaseOf(VerticalOf(PlaceOf(Sum(d, e), p, 1, q)), s), 0);
  }

  lemma SumValueNorm(u: Value, w: Value, l: F2, z: int, q: int)
    requires q > 0
    ensures Norm(Mul2(Mul2(u.v, w.v, -1), l, -1), -1) == Norm(u.v, -1) * Norm(w.v, -1) * Norm(l, -1)
    ensures Norm(Mul2(Mul2(u.vd, w.vd, -1), F2(z, 0), -1), -1) == Norm(u.vd, -1) * Norm(w.vd, -1) * (z * z)
  {
    NormMul(u.v, w.v, -1);
    NormMul(Mul2(u.v, w.v, -1), l, -1);
    NormMul(u.vd, w.vd, -1);
    NormMul(Mul2(u.vd, w.vd, -1), F2(z, 0), -1);
    VerticalNorm(z, q);
  }

  lemma BalancedStart(x: int, q: int)
    requires q > 0
    ensures Balanced(Norm(One, -1), Norm(One, -1), x, 1, x, 1, 0, q)
  {
    PowSucc(x, 0);
    hide Pow;
    assert 1 * x * 1 == 1 * (1 * (x * 1));
    EqRefl(x, q);
  }

  lemma BalancedInverse(u: int, w: int, z: int, sign: int, x: int, plus: nat, minus: nat, q: int)
    requires q > 0 && Balanced(u, w, z, sign, x, plus, minus, q) && (sign == 1 || sign == -1)
    ensures Balanced(w, u * (z * z), z, sign, x, minus, plus, q)
  {
    var a, b := Pow(x, minus), Pow(x, plus);
    hide Pow;
    Combine(-sign * z, u * z * a - sign * (w * b), q);
    InverseIdentity(u, w, z, sign, a, b);
  }

  lemma InverseIdentity(u: int, w: int, z: int, sign: int, a: int, b: int)
    requires sign * sign == 1
    ensures -sign * z * (u * z * a - sign * (w * b)) == w * z * b - sign * (u * (z * z) * a)
  {
    assert -sign * z * (u * z * a) == -(sign * (u * (z * z) * a));
    assert -sign * z * (sign * (w * b)) == -(sign * sign) * (w * z * b);
  }

  lemma BalancedSum(u: int, u': int, z: int, sg: int, w: int, w': int, y: int, sh: int, l: int, t: int, ls: int,
                    x: int, m: nat, n: nat, m1: nat, n1: nat, q: int)
    requires q > 0 && Balanced(u, u', z, sg, x, m, n, q) && Balanced(w, w', y, sh, x, m1, n1, q)
    requires Eq(l, ls * (z * y * t), q)
    ensures Balanced(u * w * l, u' * w' * (t * t), t, sg * sh * ls, x, m + m1, n + n1, q)
  {
    Residues.PowAdd(x, m, m1); Residues.PowAdd(x, n, n1);
    var a, b, a1, b1 := Pow(x, n), Pow(x, m), Pow(x, n1), Pow(x, m1);
    hide Pow;
    EqMul(u * z * a, sg * (u' * b), w * y * a1, sh * (w' * b1), q);
    var o, r := u * w * t * (a * a1), ls * (t * t);
    EqRefl(o, q); EqRefl(r, q);
    EqMul(o, o, l, ls * (z * y * t), q);
    EqMul(r, r, u * z * a * (w * y * a1), sg * (u' * b) * (sh * (w' * b1)), q);
    hide Eq;
    SumTerms(u, w, l, t, a * a1);
    SumMiddle(u, w, t, a, a1, ls, z, y);
    SumRight(u', w', t, b, b1, ls, sg, sh);
    EqTrans(u * w * l * t * (a * a1), o * (ls * (z * y * t)), r * (sg * (u' * b) * (sh * (w' * b1))), q);
  }

  lemma SumTerms(u: int, w: int, l: int, t: int, a: int)
    ensures u * w * l * t * a == u * w * t * a * l
  {}

  lemma SumMiddle(u: int, w: int, t: int, a: int, a1: int, ls: int, z: int, y: int)
    ensures u * w * t * (a * a1) * (ls * (z * y * t)) == ls * (t * t) * (u * z * a * (w * y * a1))
  {}

  lemma SumRight(u: int, w: int, t: int, b: int, b1: int, ls: int, sg: int, sh: int)
    ensures ls * (t * t) * (sg * (u * b) * (sh * (w * b1))) == sg * sh * ls * (u * w * (t * t) * (b * b1))
  {}

  // ---------- the stored lines ----------

  // The line a x + b y + c = 0 goes through v.
  predicate Through(k: AMiller.Coeff, v: Pt) { k.a * v.x + k.b * v.y + k.c == 0 }

  lemma ChordThrough(v: Pt, w: Pt)
    ensures Through(AMiller.ChordCoeff(v, w), v) && Through(AMiller.ChordCoeff(v, w), w)
  {
    ChordAt(v.x, v.y, w.x, w.y);
  }

  lemma ChordAt(x: int, y: int, u: int, w: int)
    ensures (y - w) * x + (u - x) * y + (x * w - y * u) == 0 && (y - w) * u + (u - x) * w + (x * w - y * u) == 0
  {}

  // The line goes through v with the slope (3 x^2 + 1) / (2 y).
  predicate IsTangent(k: AMiller.Coeff, v: Pt) { Through(k, v) && k.b == 2 * v.y && k.a == -(3 * (v.x * v.x) + 1) }

  lemma TangentThrough(v: Pt)
    ensures IsTangent(AMiller.TangentCoeff(v), v)
  {
    assert 2 * v.y * v.y == (2 * v.y) * v.y;
  }

  /** The records of pp_init are the tangents at 2^i P and, last, a line through 2^exp2 P and sign1 2^exp1 P. */
  lemma TableLines(coeff: seq<AMiller.Coeff>, p: Pt, e: AMiller.Params, q: int)
    requires q > 0 && e.exp1 <= e.exp2 && FinitePoints(p, e, q) && AMiller.Table(coeff, p, e, q)
    ensures var c, c1 := Doubled(e.exp2), SignedBuild(Doubled(e.exp1), e.sign1);
            && Index(c) == Two(e.exp2) && Index(c1) == SignOf(e.sign1) * Two(e.exp1)
            && PlaceOf(c, p, 1, q).Finite? && PlaceOf(c1, p, 1, q).Finite?
            && Through(coeff[e.exp2], PlaceOf(c, p, 1, q).pt) && Through(coeff[e.exp2], PlaceOf(c1, p, 1, q).pt)
            && !Eq(coeff[e.exp2].b, 0, q)
    ensures forall i :: 0 <= i < e.exp2 ==>
            PlaceOf(Doubled(i), p, 1, q).Finite? && IsTangent(coeff[i], PlaceOf(Doubled(i), p, 1, q).pt)
  {
    RunPlaces(p, e, q);
    var v, w := AMiller.Points(p, e.exp2, q), AMiller.SignedPoint(AMiller.Points(p, e.exp1, q), e.sign1);
    ChordThrough(v, w);
    hide Through, PlaceOf, AMiller.Points, AMiller.TangentCoeff, IsTangent;
    assert coeff[e.exp2] == AMiller.ChordCoeff(v, w);
    forall i | 0 <= i < e.exp2
      ensures PlaceOf(Doubled(i), p, 1, q) == Finite(AMiller.Points(p, i, q)) && IsTangent(coeff[i], AMiller.Points(p, i, q))
    {
      DoubledPlace(p, i, q);
      TangentThrough(AMiller.Points(p, i, q));
    }
  }
}
