/** Affine and Jacobian points of y^2 = x^3 + a x + b over F_q, and the lines Miller
    loops evaluate (ecc/curve.c, ecc/e_param.c, ecc/a_param.c). */
module Curve {
  import opened Modular

  datatype Pt = Pt(x: int, y: int)

  // Slope of the tangent at (x, y): the lambda of double_no_check.
  function Slope(v: Pt, a: int, q: int): int
    requires q > 0
  {
    (3 * v.x * v.x + a) * Inv(2 * v.y, q)
  }

  function ChordSlope(v: Pt, w: Pt, q: int): int
    requires q > 0
  {
    (w.y - v.y) * Inv(w.x - v.x, q)
  }

  // Third intersection of the line of slope l through v, reflected.
  function Third(v: Pt, wx: int, l: int): Pt {
    var x := l * l - v.x - wx;
    Pt(x, (v.x - x) * l - v.y)
  }

  function DoublePt(v: Pt, a: int, q: int): Pt
    requires q > 0
  {
    Third(v, v.x, Slope(v, a, q))
  }

  function AddPt(v: Pt, w: Pt, q: int): Pt
    requires q > 0
  {
    Third(v, w.x, ChordSlope(v, w, q))
  }

  // The line through v with slope l, at the point s.
  function LineAt(v: Pt, l: int, s: Pt): int {
    (s.y - v.y) - l * (s.x - v.x)
  }

  lemma SlopeFact(v: Pt, a: int, q: int)
    requires Prime(q) && !Eq(2 * v.y, 0, q)
    ensures Eq(2 * v.y * Slope(v, a, q), 3 * v.x * v.x + a, q)
  {
    var i := Inv(2 * v.y, q);
    InvPrime(2 * v.y, q);
    Combine(3 * v.x * v.x + a, 2 * v.y * i - 1, q);
    SlopeIdentity(3 * v.x * v.x + a, 2 * v.y, i);
  }

  lemma ChordFact(v: Pt, w: Pt, q: int)
    requires Prime(q) && !Eq(w.x - v.x, 0, q)
    ensures Eq((w.x - v.x) * ChordSlope(v, w, q), w.y - v.y, q)
  {
    var i := Inv(w.x - v.x, q);
    InvPrime(w.x - v.x, q);
    Combine(w.y - v.y, (w.x - v.x) * i - 1, q);
    SlopeIdentity(w.y - v.y, w.x - v.x, i);
  }

  // Two pairs of coordinates of the same point.
  ghost predicate SamePt(v: Pt, w: Pt, q: int)
    requires q > 0
  {
    Eq(v.x, w.x, q) && Eq(v.y, w.y, q)
  }

  lemma InvCong(a: int, b: int, q: int)
    requires q > 0 && Eq(a, b, q)
    ensures Inv(a, q) == Inv(b, q)
  {
    EqIffMod(a, b, q);
  }

  lemma LineCong(v: Pt, v': Pt, l: int, l': int, s: Pt, q: int)
    requires q > 0 && SamePt(v, v', q) && Eq(l, l', q)
    ensures Eq(LineAt(v, l, s), LineAt(v', l', s), q)
  {
    EqRefl(s.x, q); EqRefl(s.y, q);
    EqAdd(s.x, s.x, v.x, v'.x, q);
    EqAdd(s.y, s.y, v.y, v'.y, q);
    EqMul(l, l', s.x - v.x, s.x - v'.x, q);
    EqAdd(s.y - v.y, s.y - v'.y, l * (s.x - v.x), l' * (s.x - v'.x), q);
  }

  lemma ThirdCong(v: Pt, v': Pt, wx: int, wx': int, l: int, l': int, q: int)
    requires q > 0 && SamePt(v, v', q) && Eq(wx, wx', q) && Eq(l, l', q)
    ensures SamePt(Third(v, wx, l), Third(v', wx', l'), q)
  {
    EqMul(l, l', l, l', q);
    EqAdd(l * l, l' * l', v.x, v'.x, q);
    EqAdd(l * l - v.x, l' * l' - v'.x, wx, wx', q);
    var x, x' := l * l - v.x - wx, l' * l' - v'.x - wx';
    EqAdd(v.x, v'.x, x, x', q);
    EqMul(v.x - x, v'.x - x', l, l', q);
    EqAdd((v.x - x) * l, (v'.x - x') * l', v.y, v'.y, q);
  }

  lemma AddCong(v: Pt, v': Pt, w: Pt, w': Pt, q: int)
    requires q > 0 && SamePt(v, v', q) && SamePt(w, w', q)
    ensures Eq(ChordSlope(v, w, q), ChordSlope(v', w', q), q)
    ensures SamePt(AddPt(v, w, q), AddPt(v', w', q), q)
  {
    EqAdd(w.x, w'.x, v.x, v'.x, q);
    EqAdd(w.y, w'.y, v.y, v'.y, q);
    InvCong(w.x - v.x, w'.x - v'.x, q);
    EqRefl(Inv(w.x - v.x, q), q);
    EqMul(w.y - v.y, w'.y - v'.y, Inv(w.x - v.x, q), Inv(w.x - v.x, q), q);
    ThirdCong(v, v', w.x, w'.x, ChordSlope(v, w, q), ChordSlope(v', w', q), q);
  }

  // ---------- Jacobian coordinates: (X, Y, z) stands for (X/z^2, Y/z^3) ----------

  ghost predicate Jacobian(x: int, y: int, z: int, v: Pt, q: int)
    requires q > 0
  {
    && !Eq(z, 0, q)
    && Eq(x, v.x * (z * z), q)
    && Eq(y, v.y * (z * z * z), q)
  }

  // 3x^2 + a z^4 with the coordinates of the affine point.
  lemma JacobianNumerator(x: int, y: int, z: int, v: Pt, a: int, q: int)
    requires Prime(q) && Jacobian(x, y, z, v, q) && !Eq(2 * v.y, 0, q)
    ensures Eq(3 * (x * x) + a * (z * z * (z * z)), Slope(v, a, q) * (2 * (y * z)), q)
  {
    SlopeFact(v, a, q);
    var l, d := Slope(v, a, q), z * z;
    Combine3(3 * (x + v.x * d), x - v.x * d, -(d * d), 2 * v.y * l - (3 * v.x * v.x + a), -(2 * l * z), y - v.y * (d * z), q);
    NumeratorIdentity(x, y, z, v.x, v.y, a, l, d);
  }

  lemma NumeratorIdentity(x: int, y: int, z: int, vx: int, vy: int, a: int, l: int, d: int)
    requires d == z * z
    ensures 3 * (x + vx * d) * (x - vx * d) + -(d * d) * (2 * vy * l - (3 * vx * vx + a)) + -(2 * l * z) * (y - vy * (d * z))
            == 3 * (x * x) + a * (d * d) - l * (2 * (y * z))
  {
    assert z * (d * z) == d * d;
  }

  // The coordinates proj_double computes.
  function DoubleX(e: int, x: int, y: int): int { e * e - 2 * (4 * (x * (y * y))) }

  function DoubleY(e: int, x: int, y: int): int {
    e * (4 * (x * (y * y)) - DoubleX(e, x, y)) - 8 * (y * y * (y * y))
  }

  /** Jacobian doubling stands for affine doubling. */
  lemma JacobianDouble(x: int, y: int, z: int, v: Pt, a: int, q: int)
    requires Prime(q) && q % 2 == 1 && Jacobian(x, y, z, v, q) && !Eq(v.y, 0, q)
    ensures var e := 3 * (x * x) + a * (z * z * (z * z));
            Jacobian(DoubleX(e, x, y), DoubleY(e, x, y), 2 * (y * z), DoublePt(v, a, q), q)
  {
    TwoNonzero(v.y, q);
    JacobianNumerator(x, y, z, v, a, q);
    var e, l, w, d := 3 * (x * x) + a * (z * z * (z * z)), Slope(v, a, q), 2 * (y * z), z * z;
    // 4xy^2 = vx w^2 and 8y^4 = vy w^3
    Combine(4 * (y * y), x - v.x * d, q);
    CrossIdentity(x, y, z, v.x, d, w);
    assert Eq(4 * (x * (y * y)), v.x * (w * w), q);
    Combine(8 * (y * y * y), y - v.y * (d * z), q);
    QuarticIdentity(y, z, v.y, d, w);
    assert Eq(8 * (y * y * (y * y)), v.y * (w * w * w), q);
    DoubledX(e, x, y, l, w, v.x, q);
    DoubledY(e, x, y, l, w, v, q);
    assert !Eq(w, 0, q) by {
      CubeNonzero(z, q);
      NonzeroProduct(v.y, z * z * z, q);
      NonzeroCong(y, v.y * (z * z * z), q);
      NonzeroProduct(y, z, q);
      TwoNonzero(y * z, q);
    }
  }

  lemma CubeNonzero(z: int, q: int)
    requires Prime(q) && !Eq(z, 0, q)
    ensures !Eq(z * z, 0, q) && !Eq(z * z * z, 0, q)
  {
    NonzeroProduct(z, z, q);
    NonzeroProduct(z * z, z, q);
  }

  lemma CrossIdentity(x: int, y: int, z: int, vx: int, d: int, w: int)
    requires d == z * z && w == 2 * (y * z)
    ensures 4 * (y * y) * (x - vx * d) == 4 * (x * (y * y)) - vx * (w * w)
  {}

  lemma QuarticIdentity(y: int, z: int, vy: int, d: int, w: int)
    requires d == z * z && w == 2 * (y * z)
    ensures 8 * (y * y * y) * (y - vy * (d * z)) == 8 * (y * y * (y * y)) - vy * (w * w * w)
  {}

  lemma DoubledX(e: int, x: int, y: int, l: int, w: int, vx: int, q: int)
    requires q > 0 && Eq(e, l * w, q) && Eq(4 * (x * (y * y)), vx * (w * w), q)
    ensures Eq(DoubleX(e, x, y), (l * l - vx - vx) * (w * w), q)
  {
    var c := 4 * (x * (y * y));
    Combine2(e + l * w, e - l * w, -2, c - vx * (w * w), q);
    DoubledXIdentity(e, l, w, c, vx);
  }

  lemma DoubledXIdentity(e: int, l: int, w: int, c: int, vx: int)
    ensures (e + l * w) * (e - l * w) + -2 * (c - vx * (w * w)) == (e * e - 2 * c) - (l * l - vx - vx) * (w * w)
  {}

  lemma DoubledY(e: int, x: int, y: int, l: int, w: int, v: Pt, q: int)
    requires q > 0 && Eq(e, l * w, q) && Eq(4 * (x * (y * y)), v.x * (w * w), q)
    requires Eq(8 * (y * y * (y * y)), v.y * (w * w * w), q)
    requires Eq(DoubleX(e, x, y), (l * l - v.x - v.x) * (w * w), q)
    ensures Eq(DoubleY(e, x, y), ((v.x - (l * l - v.x - v.x)) * l - v.y) * (w * w * w), q)
  {
    var c, x2, r := 4 * (x * (y * y)), DoubleX(e, x, y), l * l - v.x - v.x;
    EqAdd(c, v.x * (w * w), x2, r * (w * w), q);
    EqMul(e, l * w, c - x2, v.x * (w * w) - r * (w * w), q);
    EqAdd(e * (c - x2), l * w * (v.x * (w * w) - r * (w * w)), 8 * (y * y * (y * y)), v.y * (w * w * w), q);
    DoubledYIdentity(l, w, v.x, r, v.y);
  }

  lemma DoubledYIdentity(l: int, w: int, vx: int, r: int, vy: int)
    ensures l * w * (vx * (w * w) - r * (w * w)) - vy * (w * w * w) == ((vx - r) * l - vy) * (w * w * w)
  {}

  // ---------- lines, cleared of denominators ----------

  // a*sx + b*sy + c for the tangent at (x, y), multiplied by 2y.
  function TangentPoly(x: int, y: int, a: int, s: Pt): int {
    -(3 * x * x + a) * s.x + 2 * y * s.y + -(2 * y * y + -(3 * x * x + a) * x)
  }

  lemma TangentScale(v: Pt, a: int, s: Pt, q: int)
    requires Prime(q) && !Eq(2 * v.y, 0, q)
    ensures Eq(TangentPoly(v.x, v.y, a, s), 2 * v.y * LineAt(v, Slope(v, a, q), s), q)
  {
    SlopeFact(v, a, q);
    var l := Slope(v, a, q);
    Combine(s.x - v.x, 2 * v.y * l - (3 * v.x * v.x + a), q);
    TangentIdentity(v.x, v.y, a, s.x, s.y, l);
  }

  lemma TangentIdentity(x: int, y: int, a: int, sx: int, sy: int, l: int)
    ensures (sx - x) * (2 * y * l - (3 * x * x + a))
            == (-(3 * x * x + a) * sx + 2 * y * sy + -(2 * y * y + -(3 * x * x + a) * x)) - 2 * y * ((sy - y) - l * (sx - x))
  {}

  // The same line from Jacobian coordinates, as compute_abc_tangent_proj and do_tangent form it.
  function ProjTangentPoly(x: int, y: int, z: int, a: int, s: Pt): int {
    var n := -(a * (z * z * (z * z)) + 3 * (x * x));
    n * (z * z) * s.x + 2 * y * (z * z) * z * s.y + -(x * n + 2 * y * y)
  }

  lemma ProjTangentScale(x: int, y: int, z: int, v: Pt, a: int, s: Pt, q: int)
    requires Prime(q) && Jacobian(x, y, z, v, q) && !Eq(2 * v.y, 0, q)
    ensures Eq(ProjTangentPoly(x, y, z, a, s), z * z * z * (z * z * z) * (2 * v.y) * LineAt(v, Slope(v, a, q), s), q)
  {
    var d, t, x0, y0 := z * z, z * z * z, v.x * (z * z), v.y * (z * z * z);
    var n, n0 := a * (d * d) + 3 * (x * x), a * (d * d) + 3 * (x0 * x0);
    Combine(3 * (x + x0), x - x0, q);
    assert 3 * (x + x0) * (x - x0) == n - n0;
    EqRefl(d * s.x, q);
    EqAdd(d * s.x, d * s.x, x, x0, q);
    EqMul(n, n0, d * s.x - x, d * s.x - x0, q);
    Combine(2 * t * s.y - 2 * (y + y0), y - y0, q);
    LinearInY(y, y0, t, s.y);
    EqAdd(2 * t * s.y * y - 2 * (y * y), 2 * t * s.y * y0 - 2 * (y0 * y0), n * (d * s.x - x), n0 * (d * s.x - x0), q);
    ProjIdentity1(x, y, z, a, s.x, s.y, n, d, t);
    ProjIdentity2(v.x, v.y, z, a, s.x, s.y, d, t);
    TangentScale(v, a, s, q);
    EqRefl(t * t, q);
    EqMul(t * t, t * t, TangentPoly(v.x, v.y, a, s), 2 * v.y * LineAt(v, Slope(v, a, q), s), q);
    EqTrans(ProjTangentPoly(x, y, z, a, s), t * t * TangentPoly(v.x, v.y, a, s), t * t * (2 * v.y * LineAt(v, Slope(v, a, q), s)), q);
    assert t * t * (2 * v.y * LineAt(v, Slope(v, a, q), s)) == t * t * (2 * v.y) * LineAt(v, Slope(v, a, q), s);
  }

  lemma LinearInY(y: int, y0: int, t: int, sy: int)
    ensures (2 * t * sy - 2 * (y + y0)) * (y - y0) == (2 * t * sy * y - 2 * (y * y)) - (2 * t * sy * y0 - 2 * (y0 * y0))
  {}

  lemma ProjIdentity1(x: int, y: int, z: int, a: int, sx: int, sy: int, n: int, d: int, t: int)
    requires d == z * z && t == d * z && n == a * (d * d) + 3 * (x * x)
    ensures ProjTangentPoly(x, y, z, a, Pt(sx, sy)) == (2 * t * sy * y - 2 * (y * y)) - n * (d * sx - x)
  {}

  lemma ProjIdentity2(vx: int, vy: int, z: int, a: int, sx: int, sy: int, d: int, t: int)
    requires d == z * z && t == d * z
    ensures (2 * t * sy * (vy * t) - 2 * ((vy * t) * (vy * t))) - (a * (d * d) + 3 * ((vx * d) * (vx * d))) * (d * sx - vx * d)
            == t * t * TangentPoly(vx, vy, a, Pt(sx, sy))
  {
    CubeSquare(z, d, t);
    PullOut(a, vx, sx, d);
    Collect(vx, vy, a, sx, sy, t * t, t);
  }

  lemma CubeSquare(z: int, d: int, t: int)
    requires d == z * z && t == d * z
    ensures t * t == d * d * d
  {}

  lemma PullOut(a: int, vx: int, sx: int, d: int)
    ensures (a * (d * d) + 3 * ((vx * d) * (vx * d))) * (d * sx - vx * d) == (3 * vx * vx + a) * (sx - vx) * (d * d * d)
  {}

  lemma Collect(vx: int, vy: int, a: int, sx: int, sy: int, u: int, t: int)
    requires u == t * t
    ensures (2 * t * sy * (vy * t) - 2 * ((vy * t) * (vy * t))) - (3 * vx * vx + a) * (sx - vx) * u
            == u * TangentPoly(vx, vy, a, Pt(sx, sy))
  {
    assert 2 * t * sy * (vy * t) == 2 * sy * vy * u;
    assert (vy * t) * (vy * t) == vy * vy * u;
  }

  // a*sx + b*sy + c for the chord through v and w, multiplied by w.x - v.x.
  function ChordPoly(v: Pt, w: Pt, s: Pt): int {
    (v.y - w.y) * s.x + (w.x - v.x) * s.y + (v.x * w.y - v.y * w.x)
  }

  lemma ChordScale(v: Pt, w: Pt, s: Pt, q: int)
    requires Prime(q) && !Eq(w.x - v.x, 0, q)
    ensures Eq(ChordPoly(v, w, s), (w.x - v.x) * LineAt(v, ChordSlope(v, w, q), s), q)
  {
    ChordFact(v, w, q);
    var l := ChordSlope(v, w, q);
    Combine(s.x - v.x, (w.x - v.x) * l - (w.y - v.y), q);
    ChordIdentity(v.x, v.y, w.x, w.y, s.x, s.y, l);
  }

  lemma ChordIdentity(vx: int, vy: int, wx: int, wy: int, sx: int, sy: int, l: int)
    ensures (sx - vx) * ((wx - vx) * l - (wy - vy))
            == ((vy - wy) * sx + (wx - vx) * sy + (vx * wy - vy * wx)) - (wx - vx) * ((sy - vy) - l * (sx - vx))
  {}

  lemma OneFactor(x: int, q: int)
    requires q > 1
    ensures !Eq(1, 0, q) && Eq(x, 1 * x, q)
  {
    EqRefl(x, q);
    EqIffMod(1, 0, q);
    SmallMod(1, q); SmallMod(0, q);
  }

  lemma SameRefl(v: Pt, q: int)
    requires q > 0
    ensures SamePt(v, v, q)
  {
    EqRefl(v.x, q); EqRefl(v.y, q);
  }

  // to_affine
  method ToAffine(zx: int, zy: int, z: int, q: int, ghost v: Pt) returns (zx': int, zy': int, z': int, z2': int)
    requires Prime(q) && Jacobian(zx, zy, z, v, q)
    ensures z' == 1 && z2' == 1 && SamePt(Pt(zx', zy'), v, q)
  {
    var zi := Inv(z, q);
    var e0 := zi * zi;
    zx' := zx * e0;
    e0 := e0 * zi;
    zy' := zy * e0;
    InvPrime(z, q);
    Unscale(zx, v.x, z, zi, zy, v.y, q);
    z', z2' := 1, 1;
  }

  lemma Unscale(x: int, vx: int, z: int, i: int, y: int, vy: int, q: int)
    requires q > 0 && Eq(z * i, 1, q) && Eq(x, vx * (z * z), q) && Eq(y, vy * (z * z * z), q)
    ensures Eq(x * (i * i), vx, q) && Eq(y * (i * i * i), vy, q)
  {
    var u := z * i;
    EqMul(u, 1, u, 1, q);
    EqMul(u * u, 1, u, 1, q);
    Combine2(i * i, x - vx * (z * z), vx, u * u - 1, q);
    Combine2(i * i * i, y - vy * (z * z * z), vy, u * u * u - 1, q);
    UnscaleIdentity(x, vx, z, i, y, vy);
  }

  lemma UnscaleIdentity(x: int, vx: int, z: int, i: int, y: int, vy: int)
    ensures (i * i) * (x - vx * (z * z)) + vx * ((z * i) * (z * i) - 1) == x * (i * i) - vx
    ensures (i * i * i) * (y - vy * (z * z * z)) + vy * ((z * i) * (z * i) * (z * i) - 1) == y * (i * i * i) - vy
  {}

  lemma AffineIsJacobian(x: int, y: int, v: Pt, q: int)
    requires q > 1 && SamePt(Pt(x, y), v, q)
    ensures Jacobian(x, y, 1, v, q)
  {
    OneFactor(0, q);
    assert v.x * (1 * 1) == v.x && v.y * (1 * 1 * 1) == v.y;
  }

  // ---------- points in place (ecc/curve.c) ----------

  lemma SlopeShape(x: int, y: int, l: int, a: int, q: int)
    requires q > 0 && l == (x * x * 3 + a) * Inv(y + y, q)
    ensures l == Slope(Pt(x, y), a, q)
  {
    assert y + y == 2 * y && x * x * 3 == 3 * x * x;
  }

  datatype Place = Finite(pt: Pt) | Infinity

  ghost predicate SamePlace(p: Place, r: Place, q: int)
    requires q > 0
  {
    match p
    case Infinity => r.Infinity?
    case Finite(v) => r.Finite? && SamePt(v, r.pt, q)
  }

  // curve_mul on values
  function SumOf(p: Place, r: Place, a: int, q: int): Place
    requires q > 0
  {
    if p.Infinity? then r
    else if r.Infinity? then p
    else if !Eq(p.pt.x, r.pt.x, q) then Finite(AddPt(p.pt, r.pt, q))
    else if Eq(p.pt.y, r.pt.y, q) && !Eq(p.pt.y, 0, q) then Finite(DoublePt(p.pt, a, q))
    else Infinity
  }

  class Point {
    var inf: bool
    var x: int
    var y: int

    constructor (x: int, y: int)
      ensures !inf && this.x == x && this.y == y
    {
      this.inf, this.x, this.y := false, x, y;
    }

    function At(): Pt reads this { Pt(x, y) }

    function Where(): Place reads this { if inf then Infinity else Finite(At()) }

    // double_no_check; p may be this
    method DoubleNoCheck(p: Point, a: int, q: int)
      requires q > 0
      modifies this
      ensures !inf && At() == DoublePt(old(p.At()), a, q)
    {
      hide Inv, Slope;
      var lambda := p.x * p.x;
      lambda := lambda * 3;
      lambda := lambda + a;
      var e0 := p.y + p.y;
      e0 := Inv(e0, q);
      lambda := lambda * e0;
      var e1 := p.x + p.x;
      e0 := lambda * lambda;
      e0 := e0 - e1;
      e1 := p.x - e0;
      e1 := e1 * lambda;
      e1 := e1 - p.y;
      SlopeShape(p.x, p.y, lambda, a, q);
      x := e0;
      y := e1;
      inf := false;
    }

    // curve_double
    method Double(p: Point, a: int, q: int)
      requires q > 0
      modifies this
      ensures inf <==> old(p.inf) || Eq(old(p.y), 0, q)
      ensures !inf ==> At() == DoublePt(old(p.At()), a, q)
    {
      if p.inf || Eq(p.y, 0, q) {
        inf := true;
      } else {
        DoubleNoCheck(p, a, q);
      }
    }

    // curve_mul, the group law; p and r may be this
    method Add(p: Point, r: Point, a: int, q: int)
      requires q > 0
      modifies this
      ensures old(p.inf) ==> (inf <==> old(r.inf)) && (!inf ==> At() == old(r.At()))
      ensures !old(p.inf) && old(r.inf) ==> !inf && At() == old(p.At())
      ensures !old(p.inf) && !old(r.inf) && !Eq(old(p.x), old(r.x), q)
              ==> !inf && At() == AddPt(old(p.At()), old(r.At()), q)
      ensures !old(p.inf) && !old(r.inf) && Eq(old(p.x), old(r.x), q)
              ==> if Eq(old(p.y), old(r.y), q) && !Eq(old(p.y), 0, q)
                  then !inf && At() == DoublePt(old(p.At()), a, q) else inf
      ensures Where() == SumOf(old(p.Where()), old(r.Where()), a, q)
    {
      if p.inf {
        Set(r);
      } else if r.inf {
        Set(p);
      } else if Eq(p.x, r.x, q) {
        if Eq(p.y, r.y, q) && !Eq(p.y, 0, q) {
          DoubleNoCheck(p, a, q);
        } else {
          inf := true;
        }
      } else {
        var e0 := r.x - p.x;
        e0 := Inv(e0, q);
        var lambda := r.y - p.y;
        lambda := lambda * e0;
        e0 := lambda * lambda;
        e0 := e0 - p.x;
        e0 := e0 - r.x;
        var e1 := p.x - e0;
        e1 := e1 * lambda;
        e1 := e1 - p.y;
        x := e0;
        y := e1;
        inf := false;
      }
    }

    // curve_set
    method Set(p: Point)
      modifies this
      ensures inf <==> old(p.inf)
      ensures !inf ==> At() == old(p.At())
    {
      if p.inf {
        inf := true;
      } else {
        inf, x, y := false, p.x, p.y;
      }
    }

    // curve_invert
    method Negate(p: Point)
      modifies this
      ensures inf <==> old(p.inf)
      ensures !inf ==> At() == Pt(old(p.x), -old(p.y))
    {
      if p.inf {
        inf := true;
      } else {
        inf, x, y := false, p.x, -p.y;
      }
    }
  }
}
