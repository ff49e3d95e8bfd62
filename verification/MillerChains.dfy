/** Miller functions by index: f_1 = 1, f_(-n) = 1 / (f_n v_n) and f_(m+n) = f_m f_n l / v, with l the line through mP and
    nP and v the vertical at their sum. A chain says how an index is built; nothing here depends on a pairing's parameters. */
module MillerChains {
  import opened Bits
  import opened Modular
  import opened Curve
  import opened CurveLaw

  datatype Build = Start | Opposite(of: Build) | Sum(left: Build, right: Build)

  function Index(c: Build): int {
    match c
    case Start => 1
    case Opposite(d) => -Index(d)
    case Sum(d, e) => Index(d) + Index(e)
  }

  // How often P and how often -P enters.
  function Plus(c: Build): nat {
    match c
    case Start => 1
    case Opposite(d) => Minus(d)
    case Sum(d, e) => Plus(d) + Plus(e)
  }

  function Minus(c: Build): nat {
    match c
    case Start => 0
    case Opposite(d) => Plus(d)
    case Sum(d, e) => Minus(d) + Minus(e)
  }

  lemma {:induction false} IndexCounts(c: Build)
    ensures Index(c) == Plus(c) - Minus(c)
  {
    match c
    case Start =>
    case Opposite(d) => IndexCounts(d);
    case Sum(d, e) => IndexCounts(d); IndexCounts(e);
  }

  // ---------- the points ----------

  function Negative(p: Place): Place {
    if p.Infinity? then Infinity else Finite(Pt(p.pt.x, -p.pt.y))
  }

  function PlaceOf(c: Build, p: Pt, a: int, q: int): Place
    requires q > 0
  {
    match c
    case Start => Finite(p)
    case Opposite(d) => Negative(PlaceOf(d, p, a, q))
    case Sum(d, e) => SumOf(PlaceOf(d, p, a, q), PlaceOf(e, p, a, q), a, q)
  }

  lemma NegativeOnCurve(p: Place, a: int, b: int, q: int)
    requires q > 0 && OnCurveAt(p, a, b, q)
    ensures OnCurveAt(Negative(p), a, b, q)
  {
    if p.Finite? { assert -p.pt.y * -p.pt.y == p.pt.y * p.pt.y; }
  }

  lemma {:induction false} ChainOnCurve(c: Build, p: Pt, a: int, b: int, q: int)
    requires Prime(q) && q % 2 == 1 && OnCurve(p, a, b, q)
    ensures OnCurveAt(PlaceOf(c, p, a, q), a, b, q)
  {
    PrimeBig(q);
    hide OnCurve, SumOf, Prime;
    match c
    case Start =>
    case Opposite(d) =>
      ChainOnCurve(d, p, a, b, q);
      NegativeOnCurve(PlaceOf(d, p, a, q), a, b, q);
    case Sum(d, e) =>
      ChainOnCurve(d, p, a, b, q);
      ChainOnCurve(e, p, a, b, q);
      SumLaw(PlaceOf(d, p, a, q), PlaceOf(e, p, a, q), a, b, q);
  }

  // f(n) is nP in the group of the curve.
  ghost predicate MultiplesAt(f: int -> Place, m: int, n: int, a: int, q: int)
    requires q > 0
  {
    SamePlace(f(m + n), SumOf(f(m), f(n), a, q), q) && SamePlace(f(-n), Negative(f(n)), q)
  }

  ghost predicate Multiples(f: int -> Place, p: Pt, a: int, q: int)
    requires q > 0
  {
    SamePlace(f(1), Finite(p), q) && forall m: int, n: int :: MultiplesAt(f, m, n, a, q)
  }

  /** A chain of index n ends at nP. */
  lemma {:induction false} ChainPlace(c: Build, f: int -> Place, p: Pt, a: int, q: int)
    requires q > 0 && Multiples(f, p, a, q)
    ensures SamePlace(PlaceOf(c, p, a, q), f(Index(c)), q)
  {
    hide SumOf, SamePlace, Negative;
    match c
    case Start =>
      SamePlaceSym(f(1), Finite(p), q);
    case Opposite(d) =>
      ChainPlace(d, f, p, a, q);
      NegativeCong(PlaceOf(d, p, a, q), f(Index(d)), q);
      assert MultiplesAt(f, 0, Index(d), a, q);
      PlaceJoin(PlaceOf(c, p, a, q), Negative(f(Index(d))), f(Index(c)), q);
    case Sum(d, e) =>
      ChainPlace(d, f, p, a, q);
      ChainPlace(e, f, p, a, q);
      SumCong(PlaceOf(d, p, a, q), f(Index(d)), PlaceOf(e, p, a, q), f(Index(e)), a, q);
      assert MultiplesAt(f, Index(d), Index(e), a, q);
      PlaceJoin(PlaceOf(c, p, a, q), SumOf(f(Index(d)), f(Index(e)), a, q), f(Index(c)), q);
  }

  lemma SamePlaceSym(p: Place, r: Place, q: int)
    requires q > 0 && SamePlace(p, r, q)
    ensures SamePlace(r, p, q)
  {
    if p.Finite? { EqSym(p.pt.x, r.pt.x, q); EqSym(p.pt.y, r.pt.y, q); }
  }

  lemma NegativeCong(p: Place, p': Place, q: int)
    requires q > 0 && SamePlace(p, p', q)
    ensures SamePlace(Negative(p), Negative(p'), q)
  {
    if p.Finite? {
      EqRefl(0, q);
      EqAdd(0, 0, p.pt.y, p'.pt.y, q);
    }
  }

  lemma SumCong(p: Place, p': Place, r: Place, r': Place, a: int, q: int)
    requires q > 0 && SamePlace(p, p', q) && SamePlace(r, r', q)
    ensures SamePlace(SumOf(p, r, a, q), SumOf(p', r', a, q), q)
  {
    hide AddPt, DoublePt, Eq;
    if p.Finite? && r.Finite? {
      var v, v', w, w' := p.pt, p'.pt, r.pt, r'.pt;
      SameIff(v.x, v'.x, w.x, w'.x, q);
      SameIff(v.y, v'.y, w.y, w'.y, q);
      NonzeroCong(v.y, v'.y, q);
      AddCong(v, v', w, w', q);
      DoubleCong(v, v', a, q);
    }
  }

  lemma SameIff(x: int, x': int, y: int, y': int, q: int)
    requires q > 0 && Eq(x, x', q) && Eq(y, y', q)
    ensures Eq(x, y, q) <==> Eq(x', y', q)
  {
    EqAdd(x, x', y, y', q);
    NonzeroCong(x - y, x' - y', q);
    assert x - y - 0 == x - y && x' - y' - 0 == x' - y';
  }

  lemma DoubleCong(v: Pt, v': Pt, a: int, q: int)
    requires q > 0 && SamePt(v, v', q)
    ensures SamePt(DoublePt(v, a, q), DoublePt(v', a, q), q)
  {
    EqMul(v.x, v'.x, v.x, v'.x, q);
    Combine2(3, v.x * v.x - v'.x * v'.x, 0, 0, q) by { ModZero(0, 0, q); }
    assert 3 * (v.x * v.x - v'.x * v'.x) + 0 * 0 == (3 * v.x * v.x + a) - (3 * v'.x * v'.x + a);
    EqAdd(v.y, v'.y, v.y, v'.y, q);
    InvCong(2 * v.y, 2 * v'.y, q);
    var i := Inv(2 * v.y, q);
    hide Inv;
    EqRefl(i, q);
    EqMul(3 * v.x * v.x + a, 3 * v'.x * v'.x + a, i, i, q);
    ThirdCong(v, v', v.x, v'.x, Slope(v, a, q), Slope(v', a, q), q);
  }

  // ---------- the lines ----------

  datatype Line = Sloped(v: Pt, l: int) | Upright(x: int) | Constant

  function VerticalOf(p: Place): Line {
    if p.Infinity? then Constant else Upright(p.pt.x)
  }

  // The line through two places: the chord, the tangent, or a vertical.
  function LineOf(p: Place, r: Place, a: int, q: int): Line
    requires q > 0
  {
    if p.Infinity? then VerticalOf(r)
    else if r.Infinity? then VerticalOf(p)
    else if !Eq(p.pt.x, r.pt.x, q) then Sloped(p.pt, ChordSlope(p.pt, r.pt, q))
    else if Eq(p.pt.y, r.pt.y, q) && !Eq(p.pt.y, 0, q) then Sloped(p.pt, Slope(p.pt, a, q))
    else Upright(p.pt.x)
  }

  function Eval(l: Line, s: Pt): int {
    match l
    case Sloped(v, k) => LineAt(v, k, s)
    case Upright(x) => s.x - x
    case Constant => 1
  }

  function Mirror(s: Pt): Pt { Pt(s.x, -s.y) }

  // The value at s of the vertical through p, of the vertical through r and of that through their sum.
  function ThreeVerticals(p: Place, r: Place, s: Pt, a: int, q: int): int
    requires q > 0
  {
    Eval(VerticalOf(p), s) * Eval(VerticalOf(r), s) * Eval(VerticalOf(SumOf(p, r, a, q)), s)
  }

  function LineSign(l: Line): int { if l.Sloped? then -1 else 1 }

  /** A line through p and r times its mirror image is the three verticals, up to a sign that does not depend on s. */
  lemma {:induction false} LineVerticals(p: Place, r: Place, s: Pt, a: int, b: int, q: int)
    requires Prime(q) && q % 2 == 1 && OnCurveAt(p, a, b, q) && OnCurveAt(r, a, b, q) && OnCurve(s, a, b, q)
    ensures var l := LineOf(p, r, a, q);
            Eq(Eval(l, s) * Eval(l, Mirror(s)), LineSign(l) * ThreeVerticals(p, r, s, a, q), q)
  {
    PrimeBig(q);
    hide Prime, OnCurve, AddPt, DoublePt, Eq, Slope, ChordSlope, LineAt;
    if p.Infinity? {
      var u := Eval(VerticalOf(r), s);
      assert 1 * u * u == u * u;
      EqRefl(u * u, q);
    } else if r.Infinity? {
      var u := Eval(VerticalOf(p), s);
      assert u * 1 * u == u * u;
      EqRefl(u * u, q);
    } else {
      var v, w := p.pt, r.pt;
      if !Eq(v.x, w.x, q) {
        ChordIsLine(v, w, a, b, q);
        SlopedVerticals(v, w, AddPt(v, w, q), ChordSlope(v, w, q), s, a, b, q);
      } else if Eq(v.y, w.y, q) && !Eq(v.y, 0, q) {
        TangentIsLine(v, w, a, b, q);
        SlopedVerticals(v, w, DoublePt(v, a, q), Slope(v, a, q), s, a, b, q);
      } else {
        EqRefl(s.x, q); EqRefl(s.x - v.x, q);
        EqAdd(s.x, s.x, v.x, w.x, q);
        EqMul(s.x - v.x, s.x - v.x, s.x - v.x, s.x - w.x, q);
        assert (s.x - v.x) * (s.x - w.x) * 1 == (s.x - v.x) * (s.x - w.x);
      }
    }
  }

  lemma SlopedVerticals(v: Pt, w: Pt, t: Pt, l: int, s: Pt, a: int, b: int, q: int)
    requires q > 0 && OnLine(v, w, t, l, a, b, q) && OnCurve(s, a, b, q)
    ensures Eq(LineAt(v, l, s) * LineAt(v, l, Mirror(s)), -1 * ((s.x - v.x) * (s.x - w.x) * (s.x - t.x)), q)
  {
    LineNorm(v, l, v.x, w.x, t.x, s, a, b, q);
  }

  // ---------- doubling chains ----------

  function Doubled(n: nat): Build { if n == 0 then Start else Sum(Doubled(n - 1), Doubled(n - 1)) }

  function SignedBuild(c: Build, sign: int): Build { if sign < 0 then Opposite(c) else c }

  function SignOf(sign: int): int { if sign < 0 then -1 else 1 }

  lemma {:induction false} DoubledIndex(n: nat)
    ensures Index(Doubled(n)) == Two(n)
  {
    if n > 0 { DoubledIndex(n - 1); }
  }

  // 2^n + sign1 2^m, the sum the pairings build
  function Joined(n: nat, m: nat, sign1: int): Build { Sum(Doubled(n), SignedBuild(Doubled(m), sign1)) }

  lemma JoinedIndex(n: nat, m: nat, sign1: int)
    ensures Index(Joined(n, m, sign1)) == Two(n) + SignOf(sign1) * Two(m)
  {
    DoubledIndex(n);
    DoubledIndex(m);
  }

  // 2^n + sign1 2^m + sign0
  function Whole(n: nat, m: nat, sign1: int, sign0: int): Build { Sum(Joined(n, m, sign1), SignedBuild(Start, sign0)) }

  lemma WholeIndex(n: nat, m: nat, sign1: int, sign0: int)
    ensures Index(Whole(n, m, sign1, sign0)) == Two(n) + SignOf(sign1) * Two(m) + SignOf(sign0)
  {
    JoinedIndex(n, m, sign1);
  }
}
