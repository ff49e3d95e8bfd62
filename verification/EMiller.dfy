/** The Miller loops of the type E pairing (ecc/e_param.c): the Jacobian one and the
    affine one both compute the textbook Miller quotient f(QR)/f(R). */
module EMiller {
  import opened Modular
  import opened Curve

  // ---------- the textbook quotient ----------

  // A point of the doubling chain with the numerator and denominator collected so far.
  datatype Miller = Miller(pt: Pt, v: int, vd: int)

  // Square, multiply by the tangent, divide by the vertical at the doubled point.
  function Step(m: Miller, a: int, num: Pt, den: Pt, q: int): Miller
    requires q > 0
  {
    var l, pt := Slope(m.pt, a, q), DoublePt(m.pt, a, q);
    Miller(pt,
           m.v * m.v * LineAt(m.pt, l, num) * (den.x - pt.x),
           m.vd * m.vd * LineAt(m.pt, l, den) * (num.x - pt.x))
  }

  function Chain(p: Pt, n: nat, a: int, num: Pt, den: Pt, q: int): Miller
    requires q > 0
  {
    if n == 0 then Miller(p, 1, 1) else Step(Chain(p, n - 1, a, num, den, q), a, num, den, q)
  }

  // The first summand of r = +-2^exp1 + 2^exp2 +- 1: the chain value, or its inverse at the negated point.
  function Signed(m: Miller, sign1: int, num: Pt, den: Pt): Miller {
    if sign1 < 0 then
      Miller(Pt(m.pt.x, -m.pt.y), m.vd * (den.x - m.pt.x), m.v * (num.x - m.pt.x))
    else m
  }

  // The chord through both summands and the vertical at their sum.
  function Join(m: Miller, m1: Miller, num: Pt, den: Pt, q: int): Miller
    requires q > 0
  {
    var l, pt := ChordSlope(m.pt, m1.pt, q), AddPt(m.pt, m1.pt, q);
    Miller(pt,
           m.v * m1.v * LineAt(m.pt, l, num) * (den.x - pt.x),
           m.vd * m1.vd * LineAt(m.pt, l, den) * (num.x - pt.x))
  }

  function Last(m: Miller, p: Pt, sign0: int, num: Pt, den: Pt): Miller {
    if sign0 > 0 then Miller(m.pt, m.v * (num.x - p.x), m.vd * (den.x - p.x)) else m
  }

  datatype Params = Params(exp1: nat, exp2: nat, sign1: int, sign0: int)

  function Len(e: Params): nat { if e.exp1 < e.exp2 then e.exp2 else e.exp1 }

  function Textbook(p: Pt, a: int, num: Pt, den: Pt, e: Params, q: int): Miller
    requires q > 0
  {
    var m1 := Signed(Chain(p, e.exp1, a, num, den, q), e.sign1, num, den);
    Last(Join(Chain(p, Len(e), a, num, den, q), m1, num, den, q), p, e.sign0, num, den)
  }

  // No inversion of the run meets zero.
  ghost predicate Regular(p: Pt, a: int, num: Pt, den: Pt, e: Params, q: int)
    requires q > 0
  {
    && (forall i :: 0 <= i < Len(e) ==> !Eq(Chain(p, i, a, num, den, q).pt.y, 0, q))
    && !Eq(Signed(Chain(p, e.exp1, a, num, den, q), e.sign1, num, den).pt.x, Chain(p, Len(e), a, num, den, q).pt.x, q)
    && !Eq(Textbook(p, a, num, den, e, q).vd, 0, q)
  }

  // ---------- common factors cancel ----------

  // v and vd are rv and rvd up to one nonzero factor s.
  ghost predicate Scaled(v: int, vd: int, m: Miller, s: int, q: int)
    requires q > 0
  {
    !Eq(s, 0, q) && Eq(v, s * m.v, q) && Eq(vd, s * m.vd, q)
  }

  lemma Product3(v: int, sv: int, rv: int, w: int, sw: int, rw: int, t: int, st: int, rt: int, q: int)
    requires q > 0 && Eq(v, sv * rv, q) && Eq(w, sw * rw, q) && Eq(t, st * rt, q)
    ensures Eq(v * w * t, (sv * sw * st) * (rv * rw * rt), q)
  {
    EqMul(v, sv * rv, w, sw * rw, q);
    EqMul(v * w, sv * rv * (sw * rw), t, st * rt, q);
    Product3Identity(sv, rv, sw, rw, st, rt);
  }

  lemma Product3Identity(sv: int, rv: int, sw: int, rw: int, st: int, rt: int)
    ensures sv * rv * (sw * rw) * (st * rt) == (sv * sw * st) * (rv * rw * rt)
  {}

  // Multiplying both sides by a line and a vertical, each known up to a common factor.
  lemma ScaledStep(v: int, vd: int, m: Miller, s: int, v1: int, vd1: int, m1: Miller, s1: int,
                   ln: int, ld: int, rn: int, rd: int, t: int, un: int, ud: int, wn: int, wd: int, w: int, q: int)
    requires Prime(q) && Scaled(v, vd, m, s, q) && Scaled(v1, vd1, m1, s1, q)
    requires !Eq(t, 0, q) && Eq(ln, t * rn, q) && Eq(ld, t * rd, q)
    requires !Eq(w, 0, q) && Eq(un, w * wn, q) && Eq(ud, w * wd, q)
    ensures Scaled(v * v1 * ln * ud, vd * vd1 * ld * un,
                   Miller(m.pt, m.v * m1.v * rn * wd, m.vd * m1.vd * rd * wn), s * s1 * t * w, q)
  {
    NonzeroProduct(s, s1, q);
    NonzeroProduct(s * s1, t, q);
    NonzeroProduct(s * s1 * t, w, q);
    Product3(v, s, m.v, v1, s1, m1.v, ln, t, rn, q);
    Product3(vd, s, m.vd, vd1, s1, m1.vd, ld, t, rd, q);
    Product2(v * v1 * ln, s * s1 * t, m.v * m1.v * rn, ud, w, wd, q);
    Product2(vd * vd1 * ld, s * s1 * t, m.vd * m1.vd * rd, un, w, wn, q);
  }

  lemma Product2(v: int, sv: int, rv: int, w: int, sw: int, rw: int, q: int)
    requires q > 0 && Eq(v, sv * rv, q) && Eq(w, sw * rw, q)
    ensures Eq(v * w, (sv * sw) * (rv * rw), q)
  {
    EqMul(v, sv * rv, w, sw * rw, q);
    Product2Identity(sv, rv, sw, rw);
  }

  lemma Product2Identity(sv: int, rv: int, sw: int, rw: int)
    ensures sv * rv * (sw * rw) == (sv * sw) * (rv * rw)
  {}

  // The common factor cancels in the final quotient.
  lemma ScaledQuotient(v: int, vd: int, m: Miller, s: int, q: int)
    requires Prime(q) && Scaled(v, vd, m, s, q) && !Eq(m.vd, 0, q)
    ensures Eq(v * Inv(vd, q), m.v * Inv(m.vd, q), q)
  {
    NonzeroProduct(s, m.vd, q);
    NonzeroCong(vd, s * m.vd, q);
    EqRefl(m.vd, q);
    EqRefl(m.v, q);
    EqMul(v, s * m.v, m.vd, m.vd, q);
    EqMul(vd, s * m.vd, m.v, m.v, q);
    EqSym(m.v * vd, m.v * (s * m.vd), q) by { assert m.v * vd == vd * m.v && m.v * (s * m.vd) == s * m.vd * m.v; }
    assert s * m.v * m.vd == m.v * (s * m.vd);
    EqTrans(v * m.vd, m.v * (s * m.vd), m.v * vd, q);
    QuotientEq(v, vd, m.v, m.vd, q);
  }

  // ---------- e_miller_affine ----------

  // do_tangent, multiplied by 2*Zy to avoid the division
  method TangentAffine(e: int, edenom: int, zx: int, zy: int, cca: int, num: Pt, den: Pt) returns (e': int, edenom': int)
    ensures e' == e * TangentPoly(zx, zy, cca, num) && edenom' == edenom * TangentPoly(zx, zy, cca, den)
  {
    var a := zx * zx;
    a := a * 3;
    a := a + cca;
    a := -a;
    var b := zy + zy;
    var e0 := b * zy;
    var c := a * zx;
    c := c + e0;
    c := -c;
    assert a == -(3 * zx * zx + cca) && b == 2 * zy && c == -(2 * zy * zy + -(3 * zx * zx + cca) * zx);
    e0 := a * num.x;
    var e1 := b * num.y;
    e0 := e0 + e1;
    e0 := e0 + c;
    e' := e * e0;
    e0 := a * den.x;
    e1 := b * den.y;
    e0 := e0 + e1;
    e0 := e0 + c;
    edenom' := edenom * e0;
  }

  // do_line, multiplied by B.x - A.x to avoid the division
  method Line(e: int, edenom: int, v: Pt, w: Pt, num: Pt, den: Pt) returns (e': int, edenom': int)
    ensures e' == e * ChordPoly(v, w, num) && edenom' == edenom * ChordPoly(v, w, den)
  {
    var b := w.x - v.x;
    var a := v.y - w.y;
    var c := v.x * w.y;
    var e0 := v.y * w.x;
    c := c - e0;
    e0 := a * num.x;
    var e1 := b * num.y;
    e0 := e0 + e1;
    e0 := e0 + c;
    e' := e * e0;
    e0 := a * den.x;
    e1 := b * den.y;
    e0 := e0 + e1;
    e0 := e0 + c;
    edenom' := edenom * e0;
  }

  // do_vertical of the projective loop; the affine one is the case z2 = 1
  method Vertical(e: int, edenom: int, ax: int, z2: int, num: Pt, den: Pt) returns (e': int, edenom': int)
    ensures e' == e * (num.x * z2 - ax) && edenom' == edenom * (den.x * z2 - ax)
  {
    var e0 := num.x * z2;
    e0 := e0 - ax;
    e' := e * e0;
    e0 := den.x * z2;
    e0 := e0 - ax;
    edenom' := edenom * e0;
  }

  // One doubling of the affine loop keeps v and vd at the textbook values up to a factor.
  lemma AffineStep(v: int, vd: int, m: Miller, s: int, a: int, num: Pt, den: Pt, q: int)
    requires Prime(q) && q % 2 == 1 && Scaled(v, vd, m, s, q) && !Eq(m.pt.y, 0, q)
    ensures var m' := Step(m, a, num, den, q);
            Scaled(v * v * TangentPoly(m.pt.x, m.pt.y, a, num) * (den.x * 1 - m'.pt.x),
                   vd * vd * TangentPoly(m.pt.x, m.pt.y, a, den) * (num.x * 1 - m'.pt.x),
                   m', s * s * (2 * m.pt.y) * 1, q)
  {
    TwoNonzero(m.pt.y, q);
    TangentScale(m.pt, a, num, q);
    TangentScale(m.pt, a, den, q);
    var l, pt := Slope(m.pt, a, q), DoublePt(m.pt, a, q);
    OneFactor(num.x - pt.x, q);
    OneFactor(den.x - pt.x, q);
    ScaledStep(v, vd, m, s, v, vd, m, s,
               TangentPoly(m.pt.x, m.pt.y, a, num), TangentPoly(m.pt.x, m.pt.y, a, den), LineAt(m.pt, l, num), LineAt(m.pt, l, den),
               2 * m.pt.y, num.x * 1 - pt.x, den.x * 1 - pt.x, num.x - pt.x, den.x - pt.x, 1, q);
  }

  // Loop body of e_miller_affine: square, tangent, double, vertical.
  method AffineRound(z: Point, v: int, vd: int, cca: int, num: Pt, den: Pt, q: int, ghost m: Miller, ghost s: int)
    returns (v': int, vd': int, ghost s': int)
    requires Prime(q) && q % 2 == 1 && !z.inf && z.At() == m.pt && !Eq(m.pt.y, 0, q) && Scaled(v, vd, m, s, q)
    modifies z
    ensures !z.inf && z.At() == Step(m, cca, num, den, q).pt
    ensures Scaled(v', vd', Step(m, cca, num, den, q), s', q)
  {
    AffineStep(v, vd, m, s, cca, num, den, q);
    s' := s * s * (2 * m.pt.y) * 1;
    v' := v * v;
    vd' := vd * vd;
    v', vd' := TangentAffine(v', vd', z.x, z.y, cca, num, den);
    z.Double(z, cca, q);
    vd', v' := Vertical(vd', v', z.x, 1, num, den);
  }

  // Sign handling after the first chain: keep the pair, or swap it and divide by the vertical.
  method SplitSign(z: Point, z1: Point, v: int, vd: int, sign1: int, num: Pt, den: Pt, q: int, ghost m: Miller, ghost s: int)
    returns (v1: int, vd1: int)
    requires q > 1 && !z.inf && z1 != z && Scaled(v, vd, m, s, q)
    requires SamePt(z.At(), m.pt, q)
    modifies z1
    ensures !z1.inf && SamePt(z1.At(), Signed(m, sign1, num, den).pt, q)
    ensures Scaled(v1, vd1, Signed(m, sign1, num, den), s, q)
  {
    if sign1 < 0 {
      v1 := vd;
      vd1 := v;
      vd1, v1 := Vertical(vd1, v1, z.x, 1, num, den);
      z1.Negate(z);
      SwapScaled(v, vd, m, s, num.x * 1 - z.x, den.x * 1 - z.x, num.x - m.pt.x, den.x - m.pt.x, q) by {
        EqRefl(num.x, q); EqRefl(den.x, q);
        EqAdd(num.x, num.x, z.x, m.pt.x, q);
        EqAdd(den.x, den.x, z.x, m.pt.x, q);
      }
      EqRefl(0, q);
      EqAdd(0, 0, z.y, m.pt.y, q);
    } else {
      v1 := v;
      vd1 := vd;
      z1.Set(z);
    }
  }

  lemma SwapScaled(v: int, vd: int, m: Miller, s: int, un: int, ud: int, wn: int, wd: int, q: int)
    requires q > 0 && Scaled(v, vd, m, s, q) && Eq(un, wn, q) && Eq(ud, wd, q)
    ensures Scaled(vd * ud, v * un, Miller(m.pt, m.vd * wd, m.v * wn), s, q)
  {
    EqMul(vd, s * m.vd, ud, wd, q);
    EqMul(v, s * m.v, un, wn, q);
    assert s * m.vd * wd == s * (m.vd * wd);
    assert s * m.v * wn == s * (m.v * wn);
  }

  // The join, from points that are the textbook ones up to representatives.
  lemma JoinScaled(v: int, vd: int, m: Miller, s: int, v1: int, vd1: int, m1: Miller, s1: int, z: Pt, z1: Pt, num: Pt, den: Pt, q: int)
    requires Prime(q) && Scaled(v, vd, m, s, q) && Scaled(v1, vd1, m1, s1, q)
    requires SamePt(z, m.pt, q) && SamePt(z1, m1.pt, q) && !Eq(m1.pt.x, m.pt.x, q)
    ensures !Eq(z.x, z1.x, q)
    ensures var x := AddPt(z, z1, q).x;
            Scaled(v * v1 * ChordPoly(z, z1, num) * (den.x * 1 - x), vd * vd1 * ChordPoly(z, z1, den) * (num.x * 1 - x),
                   Join(m, m1, num, den, q), s * s1 * (z1.x - z.x) * 1, q)
  {
    var t, l, l0 := z1.x - z.x, ChordSlope(z, z1, q), ChordSlope(m.pt, m1.pt, q);
    EqAdd(z1.x, m1.pt.x, z.x, m.pt.x, q);
    NonzeroCong(t, m1.pt.x - m.pt.x, q);
    if Eq(z.x, z1.x, q) { EqSym(z.x, z1.x, q); }
    AddCong(z, m.pt, z1, m1.pt, q);
    ChordLine(z, m.pt, z1, m1.pt, num, q);
    ChordLine(z, m.pt, z1, m1.pt, den, q);
    var x, x0 := AddPt(z, z1, q).x, AddPt(m.pt, m1.pt, q).x;
    EqRefl(num.x, q); EqRefl(den.x, q);
    EqAdd(num.x, num.x, x, x0, q);
    EqAdd(den.x, den.x, x, x0, q);
    OneFactor(0, q);
    ScaledStep(v, vd, m, s, v1, vd1, m1, s1, ChordPoly(z, z1, num), ChordPoly(z, z1, den),
               LineAt(m.pt, l0, num), LineAt(m.pt, l0, den), t,
               num.x * 1 - x, den.x * 1 - x, num.x - x0, den.x - x0, 1, q);
  }

  lemma ChordLine(z: Pt, v: Pt, z1: Pt, w: Pt, s: Pt, q: int)
    requires Prime(q) && SamePt(z, v, q) && SamePt(z1, w, q) && !Eq(z1.x - z.x, 0, q)
    ensures Eq(ChordPoly(z, z1, s), (z1.x - z.x) * LineAt(v, ChordSlope(v, w, q), s), q)
  {
    var t, l, l0 := z1.x - z.x, ChordSlope(z, z1, q), ChordSlope(v, w, q);
    ChordScale(z, z1, s, q);
    AddCong(z, v, z1, w, q);
    LineCong(z, v, l, l0, s, q);
    EqRefl(t, q);
    EqMul(t, t, LineAt(z, l, s), LineAt(v, l0, s), q);
    EqTrans(ChordPoly(z, z1, s), t * LineAt(z, l, s), t * LineAt(v, l0, s), q);
  }

  // Everything after the loops, common to both versions: affine points that agree with the
  // textbook ones modulo q, and pairs that agree up to a factor.
  method Finish(z: Point, z1: Point, v: int, vd: int, v1: int, vd1: int, cca: int, num: Pt, den: Pt, px: int, sign0: int, q: int,
                ghost m: Miller, ghost m1: Miller, ghost s: int, ghost s1: int, ghost p: Pt) returns (res: int)
    requires Prime(q) && !z.inf && !z1.inf && z != z1 && px == p.x
    requires Scaled(v, vd, m, s, q) && Scaled(v1, vd1, m1, s1, q)
    requires SamePt(z.At(), m.pt, q) && SamePt(z1.At(), m1.pt, q)
    requires !Eq(m1.pt.x, m.pt.x, q)
    requires !Eq(Last(Join(m, m1, num, den, q), p, sign0, num, den).vd, 0, q)
    modifies z
    ensures Eq(res, Last(Join(m, m1, num, den, q), p, sign0, num, den).v * Inv(Last(Join(m, m1, num, den, q), p, sign0, num, den).vd, q), q)
  {
    ghost var j := Join(m, m1, num, den, q);
    JoinScaled(v, vd, m, s, v1, vd1, m1, s1, z.At(), z1.At(), num, den, q);
    ghost var sj := s * s1 * (z1.x - z.x) * 1;
    var e, ed := v * v1, vd * vd1;
    e, ed := Line(e, ed, z.At(), z1.At(), num, den);
    z.Add(z, z1, cca, q);
    ed, e := Vertical(ed, e, z.x, 1, num, den);
    if sign0 > 0 {
      LastScaled(e, ed, j, sj, num.x - px, den.x - px, q);
      e, ed := Vertical(e, ed, px, 1, num, den);
    }
    ScaledQuotient(e, ed, Last(j, p, sign0, num, den), sj, q);
    ed := Inv(ed, q);
    res := e * ed;
  }

  lemma LastScaled(v: int, vd: int, m: Miller, s: int, wn: int, wd: int, q: int)
    requires q > 0 && Scaled(v, vd, m, s, q)
    ensures Scaled(v * wn, vd * wd, Miller(m.pt, m.v * wn, m.vd * wd), s, q)
  {
    EqRefl(wn, q); EqRefl(wd, q);
    EqMul(v, s * m.v, wn, wn, q);
    EqMul(vd, s * m.vd, wd, wd, q);
    assert s * m.v * wn == s * (m.v * wn);
    assert s * m.vd * wd == s * (m.vd * wd);
  }

  // The value both loops return, the textbook quotient f(QR)/f(R).
  function Quotient(p: Pt, a: int, num: Pt, den: Pt, e: Params, q: int): int
    requires q > 0
  {
    Textbook(p, a, num, den, e, q).v * Inv(Textbook(p, a, num, den, e, q).vd, q)
  }

  lemma StartScaled(p: Pt, q: int)
    requires q > 1
    ensures Scaled(1, 1, Miller(p, 1, 1), 1, q)
  {
    OneFactor(1, q);
  }

  lemma ChainNext(p: Pt, n: nat, a: int, num: Pt, den: Pt, q: int)
    requires q > 0
    ensures Chain(p, 0, a, num, den, q) == Miller(p, 1, 1)
    ensures Chain(p, n + 1, a, num, den, q) == Step(Chain(p, n, a, num, den, q), a, num, den, q)
  {}

  // What a regular run needs in each round and at the end.
  lemma RegularFacts(p: Pt, a: int, num: Pt, den: Pt, e: Params, q: int)
    requires q > 1 && Regular(p, a, num, den, e, q)
    ensures forall i :: 0 <= i < Len(e) ==> !Eq(Chain(p, i, a, num, den, q).pt.y, 0, q)
    ensures var m, m1 := Chain(p, Len(e), a, num, den, q), Signed(Chain(p, e.exp1, a, num, den, q), e.sign1, num, den);
            && !Eq(m1.pt.x, m.pt.x, q) && !Eq(Last(Join(m, m1, num, den, q), p, e.sign0, num, den).vd, 0, q)
            && Quotient(p, a, num, den, e, q)
               == Last(Join(m, m1, num, den, q), p, e.sign0, num, den).v * Inv(Last(Join(m, m1, num, den, q), p, e.sign0, num, den).vd, q)
  {}

  /** e_miller_affine computes the textbook quotient. */
  method MillerAffine(p: Pt, cca: int, num: Pt, den: Pt, e: Params, q: int) returns (res: int)
    requires Prime(q) && q % 2 == 1 && Regular(p, cca, num, den, e, q)
    ensures Eq(res, Quotient(p, cca, num, den, e, q), q)
  {
    hide Prime, Eq, Scaled, Jacobian, Step, Chain, Regular, Join, Last, Signed, Inv, Quotient;
    PrimeBig(q);
    RegularFacts(p, cca, num, den, e, q);
    ChainNext(p, 0, cca, num, den, q);
    var z := new Point(p.x, p.y);
    var z1 := new Point(p.x, p.y);
    var v, vd := 1, 1;
    ghost var s := 1;
    StartScaled(p, q);
    var i := 0;
    while i < e.exp1
      invariant 0 <= i <= e.exp1
      invariant !z.inf && z.At() == Chain(p, i, cca, num, den, q).pt
      invariant Scaled(v, vd, Chain(p, i, cca, num, den, q), s, q)
    {
      ChainNext(p, i, cca, num, den, q);
      v, vd, s := AffineRound(z, v, vd, cca, num, den, q, Chain(p, i, cca, num, den, q), s);
      i := i + 1;
    }
    ghost var s1, m1 := s, Signed(Chain(p, e.exp1, cca, num, den, q), e.sign1, num, den);
    SameRefl(z.At(), q);
    var v1, vd1 := SplitSign(z, z1, v, vd, e.sign1, num, den, q, Chain(p, i, cca, num, den, q), s);
    while i < e.exp2
      invariant e.exp1 <= i <= Len(e)
      invariant !z.inf && z.At() == Chain(p, i, cca, num, den, q).pt
      invariant Scaled(v, vd, Chain(p, i, cca, num, den, q), s, q)
      invariant !z1.inf && SamePt(z1.At(), m1.pt, q)
    {
      ChainNext(p, i, cca, num, den, q);
      v, vd, s := AffineRound(z, v, vd, cca, num, den, q, Chain(p, i, cca, num, den, q), s);
      i := i + 1;
    }
    SameRefl(z.At(), q);
    res := Finish(z, z1, v, vd, v1, vd1, cca, num, den, p.x, e.sign0, q, Chain(p, i, cca, num, den, q), m1, s, s1, p);
  }

  // ---------- e_miller_proj ----------

  // do_tangent on Jacobian coordinates
  method TangentProj(e: int, edenom: int, zx: int, zy: int, z: int, z2: int, cca: int, num: Pt, den: Pt)
    returns (e': int, edenom': int)
    requires z2 == z * z
    ensures e' == e * ProjTangentPoly(zx, zy, z, cca, num) && edenom' == edenom * ProjTangentPoly(zx, zy, z, cca, den)
  {
    var a := z2 * z2;
    a := a * cca;
    var b := zx * zx;
    var e0 := b + b;
    b := b + e0;
    a := a + b;
    a := -a;
    e0 := zy + zy;
    b := e0 * z2;
    b := b * z;
    var c := zx * a;
    assert a == -(cca * (z * z * (z * z)) + 3 * (zx * zx)) && b == 2 * zy * (z * z) * z;
    a := a * z2;
    e0 := e0 * zy;
    c := c + e0;
    c := -c;
    e0 := a * num.x;
    var e1 := b * num.y;
    e0 := e0 + e1;
    e0 := e0 + c;
    e' := e * e0;
    e0 := a * den.x;
    e1 := b * den.y;
    e0 := e0 + e1;
    e0 := e0 + c;
    edenom' := edenom * e0;
  }

  // proj_double; the program's scratch e2 and e3 are the line coefficients a and b
  method ProjDouble(x: int, y: int, z: int, z2: int, cca: int) returns (x': int, y': int, z': int, z2': int)
    requires z2 == z * z
    ensures var n := 3 * (x * x) + cca * (z * z * (z * z));
            x' == DoubleX(n, x, y) && y' == DoubleY(n, x, y) && z' == 2 * (y * z) && z2' == z' * z'
  {
    var e0 := x * x;
    var e1 := e0 + e0;
    e0 := e0 + e1;
    e1 := z2 * z2;
    e1 := e1 * cca;
    e0 := e0 + e1;
    ghost var n := e0;
    z' := y * z;
    z' := z' + z';
    z2' := z' * z';
    var e2 := y * y;
    e1 := x * e2;
    e1 := e1 + e1;
    e1 := e1 + e1;
    assert e1 == 4 * (x * (y * y));
    var e3 := e1 + e1;
    x' := e0 * e0;
    x' := x' - e3;
    e2 := e2 * e2;
    e2 := e2 + e2;
    e2 := e2 + e2;
    e2 := e2 + e2;
    assert e2 == 8 * (y * y * (y * y));
    e1 := e1 - x';
    e0 := e0 * e1;
    y' := e0 - e2;
  }

  // One doubling of the Jacobian loop: tangent and vertical carry the factors 2y z^6 and w^2,
  // the same in v and vd.
  lemma ProjStep(x: int, y: int, z: int, v: int, vd: int, m: Miller, s: int, a: int, num: Pt, den: Pt, q: int)
    requires Prime(q) && q % 2 == 1 && Scaled(v, vd, m, s, q) && !Eq(m.pt.y, 0, q) && Jacobian(x, y, z, m.pt, q)
    ensures var n := 3 * (x * x) + a * (z * z * (z * z));
            var w, x', y' := 2 * (y * z), DoubleX(n, x, y), DoubleY(n, x, y);
            && Jacobian(x', y', w, DoublePt(m.pt, a, q), q)
            && Scaled(v * v * ProjTangentPoly(x, y, z, a, num) * (den.x * (w * w) - x'),
                      vd * vd * ProjTangentPoly(x, y, z, a, den) * (num.x * (w * w) - x'),
                      Step(m, a, num, den, q), s * s * (z * z * z * (z * z * z) * (2 * m.pt.y)) * (w * w), q)
  {
    JacobianDouble(x, y, z, m.pt, a, q);
    var n := 3 * (x * x) + a * (z * z * (z * z));
    var w, x', l, pt := 2 * (y * z), DoubleX(n, x, y), Slope(m.pt, a, q), DoublePt(m.pt, a, q);
    var t := z * z * z * (z * z * z) * (2 * m.pt.y);
    TwoNonzero(m.pt.y, q);
    CubeNonzero(z, q);
    CubeNonzero(w, q);
    NonzeroProduct(z * z * z, z * z * z, q);
    NonzeroProduct(z * z * z * (z * z * z), 2 * m.pt.y, q);
    ProjTangentScale(x, y, z, m.pt, a, num, q);
    ProjTangentScale(x, y, z, m.pt, a, den, q);
    VerticalScale(num.x, w, x', pt.x, q);
    VerticalScale(den.x, w, x', pt.x, q);
    ScaledStep(v, vd, m, s, v, vd, m, s, ProjTangentPoly(x, y, z, a, num), ProjTangentPoly(x, y, z, a, den),
               LineAt(m.pt, l, num), LineAt(m.pt, l, den), t,
               num.x * (w * w) - x', den.x * (w * w) - x', num.x - pt.x, den.x - pt.x, w * w, q);
  }

  lemma VerticalScale(sx: int, w: int, x: int, px: int, q: int)
    requires q > 0 && Eq(x, px * (w * w), q)
    ensures Eq(sx * (w * w) - x, (w * w) * (sx - px), q)
  {
    EqRefl(sx * (w * w), q);
    EqAdd(sx * (w * w), sx * (w * w), x, px * (w * w), q);
    assert sx * (w * w) - px * (w * w) == (w * w) * (sx - px);
  }

  // Loop body of e_miller_proj: square, tangent, double, vertical.
  method ProjRound(zx: int, zy: int, z: int, z2: int, v: int, vd: int, cca: int, num: Pt, den: Pt, q: int, ghost m: Miller, ghost s: int)
    returns (zx': int, zy': int, z': int, z2': int, v': int, vd': int, ghost s': int)
    requires Prime(q) && q % 2 == 1 && z2 == z * z && Jacobian(zx, zy, z, m.pt, q)
    requires !Eq(m.pt.y, 0, q) && Scaled(v, vd, m, s, q)
    ensures z2' == z' * z' && Jacobian(zx', zy', z', Step(m, cca, num, den, q).pt, q)
    ensures Scaled(v', vd', Step(m, cca, num, den, q), s', q)
  {
    ProjStep(zx, zy, z, v, vd, m, s, cca, num, den, q);
    v' := v * v;
    vd' := vd * vd;
    v', vd' := TangentProj(v', vd', zx, zy, z, z2, cca, num, den);
    zx', zy', z', z2' := ProjDouble(zx, zy, z, z2, cca);
    vd', v' := Vertical(vd', v', zx', z2', num, den);
    s' := s * s * (z * z * z * (z * z * z) * (2 * m.pt.y)) * (z' * z');
  }

  /** e_miller_proj computes the textbook quotient, whatever the z coordinates were. */
  method MillerProj(p: Pt, cca: int, num: Pt, den: Pt, e: Params, q: int) returns (res: int)
    requires Prime(q) && q % 2 == 1 && Regular(p, cca, num, den, e, q)
    ensures Eq(res, Quotient(p, cca, num, den, e, q), q)
  {
    hide Prime, Eq, Scaled, Jacobian, Step, Chain, Regular, Join, Last, Signed, Inv, Quotient;
    PrimeBig(q);
    RegularFacts(p, cca, num, den, e, q);
    ChainNext(p, 0, cca, num, den, q);
    var bigZ := new Point(p.x, p.y);
    var bigZ1 := new Point(p.x, p.y);
    var z, z2, v, vd := 1, 1, 1, 1;
    ghost var s := 1;
    StartScaled(p, q);
    SameRefl(p, q);
    AffineIsJacobian(p.x, p.y, p, q);
    var i := 0;
    while i < e.exp1
      invariant 0 <= i <= e.exp1 && z2 == z * z && !bigZ.inf
      invariant Jacobian(bigZ.x, bigZ.y, z, Chain(p, i, cca, num, den, q).pt, q)
      invariant Scaled(v, vd, Chain(p, i, cca, num, den, q), s, q)
    {
      ChainNext(p, i, cca, num, den, q);
      bigZ.x, bigZ.y, z, z2, v, vd, s := ProjRound(bigZ.x, bigZ.y, z, z2, v, vd, cca, num, den, q, Chain(p, i, cca, num, den, q), s);
      i := i + 1;
    }
    bigZ.x, bigZ.y, z, z2 := ToAffine(bigZ.x, bigZ.y, z, q, Chain(p, i, cca, num, den, q).pt);
    ghost var s1, m1 := s, Signed(Chain(p, e.exp1, cca, num, den, q), e.sign1, num, den);
    var v1, vd1 := SplitSign(bigZ, bigZ1, v, vd, e.sign1, num, den, q, Chain(p, i, cca, num, den, q), s);
    AffineIsJacobian(bigZ.x, bigZ.y, Chain(p, i, cca, num, den, q).pt, q);
    while i < e.exp2
      invariant e.exp1 <= i <= Len(e) && z2 == z * z && !bigZ.inf
      invariant Jacobian(bigZ.x, bigZ.y, z, Chain(p, i, cca, num, den, q).pt, q)
      invariant Scaled(v, vd, Chain(p, i, cca, num, den, q), s, q)
      invariant !bigZ1.inf && SamePt(bigZ1.At(), m1.pt, q)
    {
      ChainNext(p, i, cca, num, den, q);
      bigZ.x, bigZ.y, z, z2, v, vd, s := ProjRound(bigZ.x, bigZ.y, z, z2, v, vd, cca, num, den, q, Chain(p, i, cca, num, den, q), s);
      i := i + 1;
    }
    bigZ.x, bigZ.y, z, z2 := ToAffine(bigZ.x, bigZ.y, z, q, Chain(p, i, cca, num, den, q).pt);
    res := Finish(bigZ, bigZ1, v, vd, v1, vd1, cca, num, den, p.x, e.sign0, q, Chain(p, i, cca, num, den, q), m1, s, s1, p);
  }

  /** The projective and the affine loop return the same element. */
  method MillersAgree(p: Pt, cca: int, num: Pt, den: Pt, e: Params, q: int) returns (affine: int, proj: int)
    requires Prime(q) && q % 2 == 1 && Regular(p, cca, num, den, e, q)
    ensures Eq(affine, proj, q)
  {
    assert q > 0;
    hide Regular, Quotient, Prime, Eq;
    affine := MillerAffine(p, cca, num, den, e, q);
    proj := MillerProj(p, cca, num, den, e, q);
    ghost var r := Quotient(p, cca, num, den, e, q);
    EqSym(proj, r, q);
    EqTrans(affine, r, proj, q);
  }
}
