/** The addition of ecc/curve.c is the chord and tangent law of y^2 = x^3 + a x + b: the line through the
    operands meets the curve in them and in the negative of the sum, and in nothing else. */
module CurveLaw {
  import opened Modular
  import opened Curve

  function Cubic(x: int, a: int, b: int): int { x * x * x + a * x + b }

  ghost predicate OnCurve(v: Pt, a: int, b: int, q: int)
    requires q > 0
  {
    Eq(v.y * v.y, Cubic(v.x, a, b), q)
  }

  // The ordinate at x of the line of slope l through v.
  function LineY(v: Pt, l: int, x: int): int { v.y + l * (x - v.x) }

  // The three abscissas where the line meets the curve, with multiplicity.
  ghost predicate MeetsAt(v: Pt, l: int, x1: int, x2: int, x3: int, a: int, b: int, q: int, x: int)
    requires q > 0
  {
    Eq(Cubic(x, a, b) - LineY(v, l, x) * LineY(v, l, x), (x - x1) * (x - x2) * (x - x3), q)
  }

  ghost predicate Meets(v: Pt, l: int, x1: int, x2: int, x3: int, a: int, b: int, q: int)
    requires q > 0
  {
    forall x: int :: MeetsAt(v, l, x1, x2, x3, a, b, q, x)
  }

  // ---------- the difference is linear ----------

  // With x3 = l^2 - x1 - x2 the difference of the two cubics in x is c1 x + c0.
  function Linear1(x1: int, x2: int, x3: int, y: int, l: int, a: int): int {
    a - 2 * (l * (y - l * x1)) - (x1 * x2 + x1 * x3 + x2 * x3)
  }

  function Linear0(x1: int, x2: int, x3: int, y: int, l: int, b: int): int {
    b - (y - l * x1) * (y - l * x1) + x1 * x2 * x3
  }

  lemma Difference(x1: int, x2: int, y: int, l: int, a: int, b: int, x: int)
    ensures var x3 := l * l - x1 - x2; var v := Pt(x1, y);
            Cubic(x, a, b) - LineY(v, l, x) * LineY(v, l, x) - (x - x1) * (x - x2) * (x - x3)
            == Linear1(x1, x2, x3, y, l, a) * x + Linear0(x1, x2, x3, y, l, b)
  {
    var x3, k := l * l - x1 - x2, y - l * x1;
    assert LineY(Pt(x1, y), l, x) == k + l * x;
    SquareLine(k, l, x);
    ExpandRoots(x, x1, x2, x3);
    assert (x1 + x2 + x3) * (x * x) == l * l * (x * x);
    assert (a - 2 * (l * k) - (x1 * x2 + x1 * x3 + x2 * x3)) * x == a * x - 2 * (l * k) * x - (x1 * x2 + x1 * x3 + x2 * x3) * x;
  }

  lemma SquareLine(k: int, l: int, x: int)
    ensures (k + l * x) * (k + l * x) == k * k + 2 * (l * k) * x + l * l * (x * x)
  {
    assert (l * x) * (l * x) == l * l * (x * x);
    assert k * (l * x) == (l * k) * x;
  }

  lemma ExpandRoots(x: int, x1: int, x2: int, x3: int)
    ensures (x - x1) * (x - x2) * (x - x3)
         == x * x * x - (x1 + x2 + x3) * (x * x) + (x1 * x2 + x1 * x3 + x2 * x3) * x - x1 * x2 * x3
  {
    var s, p := x1 + x2, x1 * x2;
    assert (x - x1) * (x - x2) == x * x - s * x + p;
    assert (x * x - s * x + p) * (x - x3) == x * x * x - (s + x3) * (x * x) + (p + s * x3) * x - p * x3 by { ExpandLast(x, s, p, x3); }
    assert s * x3 == x1 * x3 + x2 * x3;
  }

  lemma ExpandLast(x: int, s: int, p: int, t: int)
    ensures (x * x - s * x + p) * (x - t) == x * x * x - (s + t) * (x * x) + (p + s * t) * x - p * t
  {}

  lemma LinearZero(c1: int, c0: int, q: int)
    requires q > 0 && Eq(c1, 0, q) && Eq(c0, 0, q)
    ensures forall x: int :: Eq(c1 * x + c0, 0, q)
  {
    forall x: int ensures Eq(c1 * x + c0, 0, q) {
      Combine2(x, c1 - 0, 1, c0 - 0, q);
      assert x * (c1 - 0) + 1 * (c0 - 0) == c1 * x + c0 - 0;
    }
  }

  // Zero at x1 and with c1 = 0: zero everywhere.
  lemma MeetsFrom(x1: int, x2: int, y: int, l: int, a: int, b: int, q: int)
    requires q > 0 && OnCurve(Pt(x1, y), a, b, q) && Eq(Linear1(x1, x2, l * l - x1 - x2, y, l, a), 0, q)
    ensures Meets(Pt(x1, y), l, x1, x2, l * l - x1 - x2, a, b, q)
  {
    var x3 := l * l - x1 - x2;
    var c1, c0 := Linear1(x1, x2, x3, y, l, a), Linear0(x1, x2, x3, y, l, b);
    Difference(x1, x2, y, l, a, b, x1);
    hide Linear1, Linear0, Cubic;
    assert LineY(Pt(x1, y), l, x1) == y by { assert l * 0 == 0; }
    assert (x1 - x1) * (x1 - x2) * (x1 - x3) == 0;
    Combine2(-1, y * y - Cubic(x1, a, b), -x1, c1 - 0, q);
    assert -1 * (y * y - Cubic(x1, a, b)) + -x1 * (c1 - 0) == c0 - 0 by { assert -x1 * c1 == -(c1 * x1); }
    LinearZero(c1, c0, q);
    forall x: int ensures MeetsAt(Pt(x1, y), l, x1, x2, x3, a, b, q, x) {
      Difference(x1, x2, y, l, a, b, x);
      assert Eq(c1 * x + c0, 0, q);
    }
  }

  // ---------- chords ----------

  lemma ChordLine(v: Pt, w: Pt, q: int)
    requires Prime(q) && q > 0 && !Eq(w.x, v.x, q)
    ensures Eq(LineY(v, ChordSlope(v, w, q), w.x), w.y, q)
  {
    assert w.x - v.x - 0 == w.x - v.x;
    ChordFact(v, w, q);
    var l := ChordSlope(v, w, q);
    assert l * (w.x - v.x) == (w.x - v.x) * l;
    assert LineY(v, l, w.x) - w.y == (w.x - v.x) * l - (w.y - v.y);
  }

  lemma ChordLinear(v: Pt, w: Pt, a: int, b: int, q: int)
    requires Prime(q) && q > 0 && OnCurve(v, a, b, q) && OnCurve(w, a, b, q) && !Eq(w.x, v.x, q)
    ensures var l := ChordSlope(v, w, q); Eq(Linear1(v.x, w.x, l * l - v.x - w.x, v.y, l, a), 0, q)
  {
    var l := ChordSlope(v, w, q);
    var x3 := l * l - v.x - w.x;
    var c1, c0 := Linear1(v.x, w.x, x3, v.y, l, a), Linear0(v.x, w.x, x3, v.y, l, b);
    ChordLine(v, w, q);
    Difference(v.x, w.x, v.y, l, a, b, v.x);
    Difference(v.x, w.x, v.y, l, a, b, w.x);
    hide Linear1, Linear0, Cubic, ChordSlope, Prime;
    assert v == Pt(v.x, v.y);
    assert LineY(v, l, v.x) == v.y by { assert l * 0 == 0; }
    assert (v.x - v.x) * (v.x - w.x) * (v.x - x3) == 0 && (w.x - v.x) * (w.x - w.x) * (w.x - x3) == 0;
    TwoRoots(c1, c0, v.x, w.x, v.y, w.y, LineY(v, l, w.x), Cubic(v.x, a, b), Cubic(w.x, a, b), q);
  }

  // c1 x + c0 vanishes at two abscissas.
  lemma TwoRoots(c1: int, c0: int, x1: int, x2: int, y1: int, y2: int, k: int, u1: int, u2: int, q: int)
    requires Prime(q) && q > 0 && !Eq(x2, x1, q) && Eq(y1 * y1, u1, q) && Eq(y2 * y2, u2, q) && Eq(k, y2, q)
    requires u1 - y1 * y1 == c1 * x1 + c0 && u2 - k * k == c1 * x2 + c0
    ensures Eq(c1, 0, q)
  {
    hide Prime;
    EqMul(k, y2, k, y2, q);
    var k2, s1, s2 := k * k, y1 * y1, y2 * y2;
    Combine3(1, s1 - u1, -1, s2 - u2, -1, k2 - s2, q);
    assert c1 * (x2 - x1) - 0 == 1 * (s1 - u1) + -1 * (s2 - u2) + -1 * (k2 - s2);
    NoZeroDivisors(c1, x2 - x1, q);
    assert x2 - x1 - 0 == x2 - x1;
  }

  /** The chord meets the curve in both operands and in the negative of their sum, which is on the curve. */
  lemma {:induction false} ChordLaw(v: Pt, w: Pt, a: int, b: int, q: int)
    requires Prime(q) && q > 0 && OnCurve(v, a, b, q) && OnCurve(w, a, b, q) && !Eq(w.x, v.x, q)
    ensures var l, s := ChordSlope(v, w, q), AddPt(v, w, q);
            && Meets(v, l, v.x, w.x, s.x, a, b, q) && Eq(LineY(v, l, w.x), w.y, q) && LineY(v, l, s.x) == -s.y && OnCurve(s, a, b, q)
  {
    var l, s := ChordSlope(v, w, q), AddPt(v, w, q);
    hide Prime, ChordSlope, Linear1;
    ChordLine(v, w, q);
    ChordLinear(v, w, a, b, q);
    assert v == Pt(v.x, v.y);
    MeetsFrom(v.x, w.x, v.y, l, a, b, q);
    ThirdOnCurve(v, w.x, l, a, b, q);
  }

  // The reflected third point is on the curve.
  lemma ThirdOnCurve(v: Pt, x2: int, l: int, a: int, b: int, q: int)
    requires q > 0 && Meets(v, l, v.x, x2, l * l - v.x - x2, a, b, q)
    ensures var s := Third(v, x2, l); s.x == l * l - v.x - x2 && LineY(v, l, s.x) == -s.y && OnCurve(s, a, b, q)
  {
    var s := Third(v, x2, l);
    assert LineY(v, l, s.x) == -s.y by { assert (v.x - s.x) * l == -(l * (s.x - v.x)); }
    assert MeetsAt(v, l, v.x, x2, s.x, a, b, q, s.x);
    assert (s.x - v.x) * (s.x - x2) * (s.x - s.x) == 0;
    assert -s.y * -s.y == s.y * s.y;
    hide Cubic;
    EqSym(Cubic(s.x, a, b) - s.y * s.y, 0, q);
    assert 0 - (Cubic(s.x, a, b) - s.y * s.y) == s.y * s.y - Cubic(s.x, a, b);
  }

  // ---------- tangents ----------

  lemma TangentLinear(v: Pt, a: int, q: int)
    requires Prime(q) && q > 0 && !Eq(2 * v.y, 0, q)
    ensures var l := Slope(v, a, q); Eq(Linear1(v.x, v.x, l * l - v.x - v.x, v.y, l, a), 0, q)
  {
    SlopeFact(v, a, q);
    var l := Slope(v, a, q);
    hide Slope, Prime;
    Combine(-1, 2 * v.y * l - (3 * v.x * v.x + a), q);
    TangentTerms(v.x, v.y, l, a);
  }

  lemma TangentTerms(x: int, y: int, l: int, a: int)
    ensures Linear1(x, x, l * l - x - x, y, l, a) == -1 * (2 * y * l - (3 * x * x + a))
  {
    var t := l * l - x - x;
    assert x * t == x * (l * l) - 2 * (x * x);
    assert l * (y - l * x) == l * y - x * (l * l);
    assert 2 * y * l == 2 * (l * y) && 3 * x * x == 3 * (x * x);
  }

  /** The tangent meets the curve twice in the point and in the negative of its double. */
  lemma {:induction false} TangentLaw(v: Pt, a: int, b: int, q: int)
    requires Prime(q) && q % 2 == 1 && OnCurve(v, a, b, q) && !Eq(v.y, 0, q)
    ensures var l, s := Slope(v, a, q), DoublePt(v, a, q);
            Meets(v, l, v.x, v.x, s.x, a, b, q) && LineY(v, l, s.x) == -s.y && OnCurve(s, a, b, q)
  {
    var l := Slope(v, a, q);
    TwoNonzero(v.y, q);
    hide Prime, Slope, Linear1;
    TangentLinear(v, a, q);
    assert v == Pt(v.x, v.y);
    MeetsFrom(v.x, v.x, v.y, l, a, b, q);
    ThirdOnCurve(v, v.x, l, a, b, q);
  }

  // ---------- lines as functions on the curve ----------

  /** The line function at a point of the curve times its value at the negative point has its zeros exactly at the
      abscissas where the line meets the curve. */
  lemma {:induction false} LineNorm(v: Pt, l: int, x1: int, x2: int, x3: int, s: Pt, a: int, b: int, q: int)
    requires q > 0 && Meets(v, l, x1, x2, x3, a, b, q) && OnCurve(s, a, b, q)
    ensures Eq(LineAt(v, l, s) * LineAt(v, l, Pt(s.x, -s.y)), -((s.x - x1) * (s.x - x2) * (s.x - x3)), q)
  {
    var k := LineY(v, l, s.x);
    assert LineAt(v, l, s) == s.y - k && LineAt(v, l, Pt(s.x, -s.y)) == -s.y - k;
    assert MeetsAt(v, l, x1, x2, x3, a, b, q, s.x);
    hide Cubic;
    var w := (s.x - x1) * (s.x - x2) * (s.x - x3);
    Combine2(-1, s.y * s.y - Cubic(s.x, a, b), -1, (Cubic(s.x, a, b) - k * k) - w, q);
    assert (s.y - k) * (-s.y - k) == k * k - s.y * s.y;
    assert -1 * (s.y * s.y - Cubic(s.x, a, b)) + -1 * ((Cubic(s.x, a, b) - k * k) - w) == (k * k - s.y * s.y) - -w;
  }

  // ---------- the group law ----------

  // Two points of the curve with one abscissa are equal or opposite.
  lemma SameAbscissa(v: Pt, w: Pt, a: int, b: int, q: int)
    requires Prime(q) && q > 0 && OnCurve(v, a, b, q) && OnCurve(w, a, b, q) && Eq(v.x, w.x, q)
    ensures Eq(v.y, w.y, q) || Eq(v.y, -w.y, q)
  {
    CubicCong(v.x, w.x, a, b, q);
    hide Cubic;
    EqSym(w.y * w.y, Cubic(w.x, a, b), q);
    EqTrans(v.y * v.y, Cubic(v.x, a, b), Cubic(w.x, a, b), q);
    EqTrans(v.y * v.y, Cubic(w.x, a, b), w.y * w.y, q);
    assert (v.y - w.y) * (v.y + w.y) == v.y * v.y - w.y * w.y;
    NoZeroDivisors(v.y - w.y, v.y + w.y, q);
    assert v.y - -w.y == v.y + w.y - 0;
  }

  lemma CubicCong(x: int, x': int, a: int, b: int, q: int)
    requires q > 0 && Eq(x, x', q)
    ensures Eq(Cubic(x, a, b), Cubic(x', a, b), q)
  {
    EqMul(x, x', x, x', q);
    EqMul(x * x, x' * x', x, x', q);
    EqRefl(a, q);
    EqMul(a, a, x, x', q);
    EqAdd(x * x * x, x' * x' * x', a * x, a * x', q);
    assert (x * x * x + a * x + b) - (x' * x' * x' + a * x' + b) == (x * x * x + a * x) - (x' * x' * x' + a * x');
  }

  ghost predicate OnCurveAt(p: Place, a: int, b: int, q: int)
    requires q > 0
  {
    p.Finite? ==> OnCurve(p.pt, a, b, q)
  }

  // s is the sum of p and r: infinity is neutral, opposite points add to infinity, and otherwise one line meets the
  // curve in p, r and the negative of s; a double is the tangent's.
  ghost predicate IsSum(p: Place, r: Place, s: Place, a: int, b: int, q: int)
    requires q > 0
  {
    if p.Infinity? then SamePlace(s, r, q)
    else if r.Infinity? then SamePlace(s, p, q)
    else if Eq(p.pt.x, r.pt.x, q) && Eq(p.pt.y, -r.pt.y, q) then s.Infinity?
    else s.Finite? && exists l :: OnLine(p.pt, r.pt, s.pt, l, a, b, q)
  }

  ghost predicate OnLine(p: Pt, r: Pt, s: Pt, l: int, a: int, b: int, q: int)
    requires q > 0
  {
    Meets(p, l, p.x, r.x, s.x, a, b, q) && Eq(LineY(p, l, r.x), r.y, q) && Eq(LineY(p, l, s.x), -s.y, q)
  }

  lemma PlaceRefl(p: Place, q: int)
    requires q > 0
    ensures SamePlace(p, p, q)
  {
    if p.Finite? { SameRefl(p.pt, q); }
  }

  // The tangent is a line through both representatives of its point.
  lemma TangentIsLine(v: Pt, w: Pt, a: int, b: int, q: int)
    requires Prime(q) && q % 2 == 1 && OnCurve(v, a, b, q) && !Eq(v.y, 0, q) && SamePt(v, w, q)
    ensures OnLine(v, w, DoublePt(v, a, q), Slope(v, a, q), a, b, q) && OnCurve(DoublePt(v, a, q), a, b, q)
  {
    var l, s := Slope(v, a, q), DoublePt(v, a, q);
    TangentLaw(v, a, b, q);
    hide OnCurve, Prime, DoublePt, Slope, Cubic;
    forall x: int ensures MeetsAt(v, l, v.x, w.x, s.x, a, b, q, x) {
      assert MeetsAt(v, l, v.x, v.x, s.x, a, b, q, x);
      var u, u' := x - v.x, x - w.x;
      EqRefl(x, q);
      EqAdd(x, x, v.x, w.x, q);
      EqRefl(u, q);
      EqMul(u, u, u, u', q);
      EqRefl(x - s.x, q);
      EqMul(u * u, u * u', x - s.x, x - s.x, q);
      EqTrans(Cubic(x, a, b) - LineY(v, l, x) * LineY(v, l, x), u * u * (x - s.x), u * u' * (x - s.x), q);
    }
    EqSym(v.x, w.x, q);
    Combine2(l, w.x - v.x, 1, v.y - w.y, q);
    assert l * (w.x - v.x) + 1 * (v.y - w.y) == LineY(v, l, w.x) - w.y;
    EqRefl(-s.y, q);
  }

  // A point is not its own negative unless y = 0.
  lemma NotOwnNegative(y: int, z: int, q: int)
    requires Prime(q) && q % 2 == 1 && Eq(y, z, q) && Eq(y, -z, q)
    ensures Eq(y, 0, q)
  {
    Combine2(1, y - z, 1, y - -z, q);
    assert 1 * (y - z) + 1 * (y - -z) == 2 * y - 0;
    if !Eq(y, 0, q) { TwoNonzero(y, q); }
  }

  /** SumOf, which curve_mul computes, is the group law: it adds any two points of the curve to a point of the curve
      by the line through them. */
  lemma {:induction false} SumLaw(p: Place, r: Place, a: int, b: int, q: int)
    requires Prime(q) && q % 2 == 1 && OnCurveAt(p, a, b, q) && OnCurveAt(r, a, b, q)
    ensures IsSum(p, r, SumOf(p, r, a, q), a, b, q) && OnCurveAt(SumOf(p, r, a, q), a, b, q)
  {
    PrimeBig(q);
    hide Prime, OnCurve, AddPt, DoublePt, Eq;
    PlaceRefl(p, q); PlaceRefl(r, q);
    if p.Finite? && r.Finite? {
      var v, w := p.pt, r.pt;
      if !Eq(v.x, w.x, q) {
        ChordIsLine(v, w, a, b, q);
      } else {
        SameAbscissa(v, w, a, b, q);
        if Eq(v.y, w.y, q) && !Eq(v.y, 0, q) {
          if Eq(v.y, -w.y, q) { NotOwnNegative(v.y, w.y, q); }
          TangentIsLine(v, w, a, b, q);
        } else if Eq(v.y, w.y, q) {
          ZeroNegative(v.y, w.y, q);
        }
      }
    }
  }

  lemma ZeroNegative(y: int, z: int, q: int)
    requires q > 0 && Eq(y, z, q) && Eq(y, 0, q)
    ensures Eq(y, -z, q)
  {
    Combine2(2, y - 0, -1, y - z, q);
    assert 2 * (y - 0) + -1 * (y - z) == y - -z;
  }

  lemma ChordIsLine(v: Pt, w: Pt, a: int, b: int, q: int)
    requires Prime(q) && q > 0 && OnCurve(v, a, b, q) && OnCurve(w, a, b, q) && !Eq(v.x, w.x, q)
    ensures OnLine(v, w, AddPt(v, w, q), ChordSlope(v, w, q), a, b, q) && OnCurve(AddPt(v, w, q), a, b, q)
  {
    if Eq(w.x, v.x, q) { EqSym(w.x, v.x, q); }
    ChordLaw(v, w, a, b, q);
    EqRefl(-AddPt(v, w, q).y, q);
  }

  // ---------- the law fixes the sum ----------

  lemma ShiftedCubic(v: Pt, l: int, h: int, a: int, b: int)
    ensures Cubic(v.x + h, a, b) - LineY(v, l, v.x + h) * LineY(v, l, v.x + h)
         == Cubic(v.x, a, b) - v.y * v.y + (3 * v.x * v.x + a - 2 * v.y * l) * h + (3 * v.x - l * l) * (h * h) + h * h * h
  {
    var x := v.x;
    CubicShift(x, h, a, b);
    SquareLine(v.y, l, h);
    assert LineY(v, l, x + h) == v.y + l * h;
    hide Cubic, LineY;
    ShiftedTerms(3 * x * x + a, v.y, l, h, 3 * x, h * h);
  }

  lemma ShiftedTerms(n: int, y: int, l: int, h: int, t: int, h2: int)
    ensures (n - 2 * y * l) * h + (t - l * l) * h2 == n * h + t * h2 - 2 * (y * l) * h - l * l * h2
  {
    assert 2 * y * l == 2 * (y * l);
  }

  lemma CubicShift(x: int, h: int, a: int, b: int)
    ensures Cubic(x + h, a, b) == Cubic(x, a, b) + (3 * x * x + a) * h + 3 * x * (h * h) + h * h * h
  {
    CubeSum(x, h);
  }

  lemma CubeSum(x: int, h: int)
    ensures (x + h) * (x + h) * (x + h) == x * x * x + 3 * x * x * h + 3 * x * (h * h) + h * h * h
  {
    assert (x + h) * (x + h) == x * x + 2 * x * h + h * h;
  }

  // A line that meets the curve twice in v has the slope of the tangent.
  lemma DoubleContact(v: Pt, w: Pt, l: int, s: int, a: int, b: int, q: int)
    requires Prime(q) && q % 2 == 1 && OnCurve(v, a, b, q) && Eq(v.x, w.x, q) && Meets(v, l, v.x, w.x, s, a, b, q)
    ensures Eq(2 * v.y * l, 3 * v.x * v.x + a, q)
  {
    PrimeBig(q);
    var c, e := 3 * v.x * v.x + a - 2 * v.y * l, 2 * v.x - l * l + s;
    Contact(v, w, l, s, 1, a, b, q);
    Contact(v, w, l, s, -1, a, b, q);
    Combine2(1, c * 1 + e * 1, -1, c * -1 + e * 1, q);
    assert 1 * (c * 1 + e * 1) + -1 * (c * -1 + e * 1) == 2 * c - 0;
    if !Eq(c, 0, q) { TwoNonzero(c, q); }
    EqSym(c, 0, q);
    assert 0 - c == 2 * v.y * l - (3 * v.x * v.x + a);
  }

  lemma Contact(v: Pt, w: Pt, l: int, s: int, h: int, a: int, b: int, q: int)
    requires q > 0 && OnCurve(v, a, b, q) && Eq(v.x, w.x, q) && Meets(v, l, v.x, w.x, s, a, b, q)
    ensures ((3 * v.x * v.x + a - 2 * v.y * l) * h + (2 * v.x - l * l + s) * (h * h)) % q == 0
  {
    ShiftedCubic(v, l, h, a, b);
    var x, c := v.x, 3 * v.x * v.x + a - 2 * v.y * l;
    assert MeetsAt(v, l, v.x, w.x, s, a, b, q, x + h);
    hide Meets, MeetsAt;
    var d := Cubic(x + h, a, b) - LineY(v, l, x + h) * LineY(v, l, x + h);
    var u := (x + h - x) * (x + h - w.x) * (x + h - s);
    hide Cubic, LineY;
    Combine3(1, d - u, 1, v.y * v.y - Cubic(x, a, b), h * (x + h - s), x - w.x, q);
    ContactTerms(x, w.x, s, h, l);
    assert 1 * (d - u) + 1 * (v.y * v.y - Cubic(x, a, b)) + h * (x + h - s) * (x - w.x)
           == c * h + (2 * x - l * l + s) * (h * h);
  }

  lemma ContactTerms(x: int, w: int, s: int, h: int, l: int)
    ensures h * (x + h - w) * (x + h - s) - h * (x + h - s) * (x - w) == h * h * (x + h - s)
    ensures (3 * x - l * l) * (h * h) + h * h * h - h * h * (x + h - s) == (2 * x - l * l + s) * (h * h)
  {}

  lemma NegativeZero(x: int, q: int)
    requires q > 0
    ensures Eq(-x, 0, q) <==> Eq(x, 0, q)
  {
    EqRefl(0, q);
    if Eq(x, 0, q) { EqAdd(0, 0, x, 0, q); }
    if Eq(-x, 0, q) { EqAdd(0, 0, -x, 0, q); }
  }

  // An abscissa that is neither x1 nor x2.
  lemma ThirdAbscissa(x1: int, x2: int, q: int) returns (x: int)
    requires Prime(q) && q % 2 == 1
    ensures !Eq(x - x1, 0, q) && !Eq(x - x2, 0, q)
  {
    PrimeBig(q);
    OneFactor(1, q);
    x := x1 + 1;
    if Eq(x - x2, 0, q) {
      x := x1 - 1;
      TwoNonzero(1, q);
      NegativeZero(1, q);
      if Eq(x - x2, 0, q) {
        Combine2(1, x1 + 1 - x2, -1, x1 - 1 - x2, q);
        assert 1 * (x1 + 1 - x2) + -1 * (x1 - 1 - x2) == 2 * 1 - 0;
      }
    }
  }

  // One slope, one third intersection.
  lemma SameSlopeSamePoint(v: Pt, w: Pt, s: Pt, s': Pt, l: int, l': int, a: int, b: int, q: int)
    requires Prime(q) && q % 2 == 1 && Eq(l, l', q) && OnLine(v, w, s, l, a, b, q) && OnLine(v, w, s', l', a, b, q)
    ensures SamePt(s, s', q)
  {
    PrimeBig(q);
    var x := ThirdAbscissa(v.x, w.x, q);
    var k, k', u := LineY(v, l, x), LineY(v, l', x), (x - v.x) * (x - w.x);
    assert MeetsAt(v, l, v.x, w.x, s.x, a, b, q, x) && MeetsAt(v, l', v.x, w.x, s'.x, a, b, q, x);
    Combine(x - v.x, l - l', q);
    assert (x - v.x) * (l - l') == k - k';
    EqMul(k, k', k, k', q);
    var c := Cubic(x, a, b);
    hide Meets, Cubic;
    Combine3(-1, (c - k * k) - u * (x - s.x), 1, (c - k' * k') - u * (x - s'.x), -1, k * k - k' * k', q);
    assert -1 * ((c - k * k) - u * (x - s.x)) + 1 * ((c - k' * k') - u * (x - s'.x)) + -1 * (k * k - k' * k') == u * (x - s.x) - u * (x - s'.x);
    NonzeroProduct(x - v.x, x - w.x, q);
    Cancel(u, x - s.x, x - s'.x, q);
    EqRefl(x, q);
    EqAdd(x, x, x - s.x, x - s'.x, q);
    Ordinate(v, l, l', s, s', q);
  }

  lemma Ordinate(v: Pt, l: int, l': int, s: Pt, s': Pt, q: int)
    requires q > 0 && Eq(l, l', q) && Eq(s.x, s'.x, q) && Eq(LineY(v, l, s.x), -s.y, q) && Eq(LineY(v, l', s'.x), -s'.y, q)
    ensures Eq(s.y, s'.y, q)
  {
    EqRefl(v.x, q); EqRefl(v.y, q);
    EqAdd(s.x, s'.x, v.x, v.x, q);
    EqMul(l, l', s.x - v.x, s'.x - v.x, q);
    EqAdd(v.y, v.y, l * (s.x - v.x), l' * (s'.x - v.x), q);
    var k, k' := LineY(v, l, s.x), LineY(v, l', s'.x);
    hide LineY;
    Combine3(1, k - -s.y, -1, k' - -s'.y, -1, k - k', q);
    assert 1 * (k - -s.y) + -1 * (k' - -s'.y) + -1 * (k - k') == s.y - s'.y;
  }

  /** No second point is the sum of p and r. */
  lemma {:induction false} SumUnique(p: Place, r: Place, s: Place, s': Place, a: int, b: int, q: int)
    requires Prime(q) && q % 2 == 1 && OnCurveAt(p, a, b, q) && IsSum(p, r, s, a, b, q) && IsSum(p, r, s', a, b, q)
    ensures SamePlace(s, s', q)
  {
    PrimeBig(q);
    hide Prime, Eq, OnCurve, OnLine, SamePt;
    if p.Infinity? {
      PlaceJoin(s, r, s', q);
    } else if r.Infinity? {
      PlaceJoin(s, p, s', q);
    } else if !(Eq(p.pt.x, r.pt.x, q) && Eq(p.pt.y, -r.pt.y, q)) {
      var l :| OnLine(p.pt, r.pt, s.pt, l, a, b, q);
      var l' :| OnLine(p.pt, r.pt, s'.pt, l', a, b, q);
      SameSlope(p.pt, r.pt, s.pt, s'.pt, l, l', a, b, q);
      SameSlopeSamePoint(p.pt, r.pt, s.pt, s'.pt, l, l', a, b, q);
    }
  }

  lemma PlaceJoin(s: Place, r: Place, s': Place, q: int)
    requires q > 0 && SamePlace(s, r, q) && SamePlace(s', r, q)
    ensures SamePlace(s, s', q)
  {
    if r.Finite? {
      EqSym(s'.pt.x, r.pt.x, q); EqSym(s'.pt.y, r.pt.y, q);
      EqTrans(s.pt.x, r.pt.x, s'.pt.x, q); EqTrans(s.pt.y, r.pt.y, s'.pt.y, q);
    }
  }

  lemma SameSlope(v: Pt, w: Pt, s: Pt, s': Pt, l: int, l': int, a: int, b: int, q: int)
    requires Prime(q) && q % 2 == 1 && OnCurve(v, a, b, q) && !(Eq(v.x, w.x, q) && Eq(v.y, -w.y, q))
    requires OnLine(v, w, s, l, a, b, q) && OnLine(v, w, s', l', a, b, q)
    ensures Eq(l, l', q)
  {
    PrimeBig(q);
    hide OnCurve, Prime, Meets;
    if Eq(v.x, w.x, q) {
      hide Eq;
      SameOrdinate(v, w, l, q);
      if Eq(v.y, 0, q) { ZeroNegative(v.y, w.y, q); }
      SameTangent(v, w, s, s', l, l', a, b, q);
    } else {
      SameChord(v, w, l, l', q);
    }
  }

  lemma SameTangent(v: Pt, w: Pt, s: Pt, s': Pt, l: int, l': int, a: int, b: int, q: int)
    requires Prime(q) && q % 2 == 1 && OnCurve(v, a, b, q) && Eq(v.x, w.x, q) && !Eq(v.y, 0, q)
    requires OnLine(v, w, s, l, a, b, q) && OnLine(v, w, s', l', a, b, q)
    ensures Eq(l, l', q)
  {
    PrimeBig(q);
    hide OnCurve, Prime, Meets, Eq;
    DoubleContact(v, w, l, s.x, a, b, q);
    DoubleContact(v, w, l', s'.x, a, b, q);
    EqSym(2 * v.y * l', 3 * v.x * v.x + a, q);
    EqTrans(2 * v.y * l, 3 * v.x * v.x + a, 2 * v.y * l', q);
    TwoNonzero(v.y, q);
    Cancel(2 * v.y, l, l', q);
  }

  lemma SameChord(v: Pt, w: Pt, l: int, l': int, q: int)
    requires Prime(q) && q > 0 && !Eq(v.x, w.x, q) && Eq(LineY(v, l, w.x), w.y, q) && Eq(LineY(v, l', w.x), w.y, q)
    ensures Eq(l, l', q)
  {
    hide Prime;
    var d := w.x - v.x;
    Combine2(1, LineY(v, l, w.x) - w.y, -1, LineY(v, l', w.x) - w.y, q);
    assert 1 * (LineY(v, l, w.x) - w.y) + -1 * (LineY(v, l', w.x) - w.y) == d * l - d * l';
    NegativeZero(v.x - w.x, q);
    Cancel(d, l, l', q);
  }

  lemma SameOrdinate(v: Pt, w: Pt, l: int, q: int)
    requires q > 0 && Eq(v.x, w.x, q) && Eq(LineY(v, l, w.x), w.y, q)
    ensures Eq(v.y, w.y, q)
  {
    Combine2(l, v.x - w.x, 1, LineY(v, l, w.x) - w.y, q);
    assert l * (v.x - w.x) + 1 * (LineY(v, l, w.x) - w.y) == v.y - w.y;
  }
}
