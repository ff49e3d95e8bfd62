/** The group of nonsingular points of y^2 = x^3 + x^2 over F_q (ecc/singular.c) and its
    isomorphism with the multiplicative group of F_q. */
module Singular {
  import opened Modular

  datatype SnPt = Infinity | Affine(x: int, y: int)

  // ---------- values the routines write ----------

  // The line of slope l through (x1, y1) meets the curve again, reflected, at this point.
  function Third(x1: int, y1: int, x2: int, l: int): SnPt {
    var x3 := l * l - x1 - x2 - 1;
    Affine(x3, (x1 - x3) * l - y1)
  }

  function Tangent(x: int, y: int, q: int): int
    requires q > 0
  {
    (3 * x + 2) * x * Inv(2 * y, q)
  }

  function Chord(p: SnPt, r: SnPt, q: int): int
    requires q > 0 && p.Affine? && r.Affine?
  {
    (r.y - p.y) * Inv(r.x - p.x, q)
  }

  function Twice(p: SnPt, q: int): SnPt
    requires q > 0
  {
    if p.Infinity? || Eq(p.y, 0, q) then Infinity else Third(p.x, p.y, p.x, Tangent(p.x, p.y, q))
  }

  function Sum(p: SnPt, r: SnPt, q: int): SnPt
    requires q > 0
  {
    if p.Infinity? then r
    else if r.Infinity? then p
    else if Eq(p.x, r.x, q) then
      (if Eq(p.y, r.y, q) && !Eq(p.y, 0, q) then Third(p.x, p.y, p.x, Tangent(p.x, p.y, q)) else Infinity)
    else Third(p.x, p.y, r.x, Chord(p, r, q))
  }

  function Negate(p: SnPt): SnPt {
    if p.Infinity? then Infinity else Affine(p.x, -p.y)
  }

  function ToField(p: SnPt, q: int): int
    requires q > 0
  {
    if p.Infinity? then 1 else (p.y + p.x) * Inv(p.y - p.x, q)
  }

  function ToPoint(a: int, q: int): SnPt
    requires q > 0
  {
    if Eq(a, 1, q) then Infinity
    else
      var i := Inv(a - 1, q);
      Affine(i * i * (4 * a), (a + 1) * (4 * a) * i * (i * i))
  }

  // ---------- the group ----------

  // On the curve and not the node.
  ghost predicate Point(p: SnPt, q: int)
    requires q > 0
  {
    p.Infinity? || (Eq(p.y * p.y, p.x * p.x * p.x + p.x * p.x, q) && !(Eq(p.x, 0, q) && Eq(p.y, 0, q)))
  }

  ghost predicate Same(p: SnPt, r: SnPt, q: int)
    requires q > 0
  {
    if p.Infinity? || r.Infinity? then p == r else Eq(p.x, r.x, q) && Eq(p.y, r.y, q)
  }

  // Away from the node x, y - x and y + x are all nonzero, as (y - x)(y + x) = x^3.
  lemma Units(p: SnPt, q: int)
    requires Prime(q) && Point(p, q) && p.Affine?
    ensures !Eq(p.x, 0, q) && !Eq(p.y - p.x, 0, q) && !Eq(p.y + p.x, 0, q)
    ensures Eq((p.y - p.x) * (p.y + p.x), p.x * p.x * p.x, q)
  {
    var x, y := p.x, p.y;
    CurveIdentity(x, y);
    if Eq(x, 0, q) {
      Combine2(1, y * y - (x * x * x + x * x), x * x + x, x, q);
      assert 1 * (y * y - (x * x * x + x * x)) + (x * x + x) * x == y * y;
      NoZeroDivisors(y, y, q);
    }
    NonzeroProduct(x, x, q);
    NonzeroProduct(x * x, x, q);
    NonzeroCong((y - x) * (y + x), x * x * x, q);
    if Eq(y - x, 0, q) { Combine(y + x, y - x, q); MulSwap(y + x, y - x); }
    if Eq(y + x, 0, q) { Combine(y - x, y + x, q); }
  }

  lemma MulSwap(a: int, b: int)
    ensures a * b == b * a
  {}

  lemma CurveIdentity(x: int, y: int)
    ensures (y - x) * (y + x) - x * x * x == y * y - (x * x * x + x * x)
  {}

  // ---------- lines and the map ----------

  // The coefficients of x^3 + x^2 - (l x + n)^2 are the symmetric functions of its roots.
  ghost predicate Roots(l: int, n: int, x1: int, x2: int, x3: int, q: int)
    requires q > 0
  {
    && Eq(x1 + x2 + x3, l * l - 1, q)
    && Eq(x1 * x2 + x1 * x3 + x2 * x3, -(2 * l * n), q)
    && Eq(x1 * x2 * x3, n * n, q)
  }

  // For e = 1 and e = -1 the product of y_i + e x_i over the three roots is n^3.
  lemma RootProduct(l: int, n: int, x1: int, x2: int, x3: int, e: int, q: int)
    requires q > 0 && Roots(l, n, x1, x2, x3, q) && e * e == 1
    ensures Eq(((l + e) * x1 + n) * ((l + e) * x2 + n) * ((l + e) * x3 + n), n * n * n, q)
  {
    var m := l + e;
    Combine3(m * m * m, x1 * x2 * x3 - n * n, m * m * n, x1 * x2 + x1 * x3 + x2 * x3 - -(2 * l * n),
             m * n * n, x1 + x2 + x3 - (l * l - 1), q);
    ProductExpand(m, n, x1, x2, x3);
    CoefficientIdentity(l, n, e);
    Assemble(m * m * m, x1 * x2 * x3, n * n, m * m * n, x1 * x2 + x1 * x3 + x2 * x3, -(2 * l * n), m * n * n, x1 + x2 + x3,
             l * l - 1, n * n * n, (m * x1 + n) * (m * x2 + n) * (m * x3 + n));
  }

  lemma Assemble(c3: int, e3: int, k3: int, c2: int, e2: int, k2: int, c1: int, e1: int, k1: int, n3: int, p: int)
    requires p == c3 * e3 + c2 * e2 + c1 * e1 + n3 && c3 * k3 + c2 * k2 + c1 * k1 == 0
    ensures c3 * (e3 - k3) + c2 * (e2 - k2) + c1 * (e1 - k1) == p - n3
  {}

  lemma ProductExpand(m: int, n: int, x1: int, x2: int, x3: int)
    ensures (m * x1 + n) * (m * x2 + n) * (m * x3 + n)
            == m * m * m * (x1 * x2 * x3) + m * m * n * (x1 * x2 + x1 * x3 + x2 * x3) + m * n * n * (x1 + x2 + x3) + n * n * n
  {
    ShiftExpand(m * x1, m * x2, m * x3, n);
    PullFactors(m, x1, x2, x3, n);
  }

  lemma ShiftExpand(a: int, b: int, c: int, n: int)
    ensures (a + n) * (b + n) * (c + n) == a * b * c + n * (a * b + a * c + b * c) + n * n * (a + b + c) + n * n * n
  {}

  lemma PullFactors(m: int, x1: int, x2: int, x3: int, n: int)
    ensures (m * x1) * (m * x2) * (m * x3) == m * m * m * (x1 * x2 * x3)
    ensures n * ((m * x1) * (m * x2) + (m * x1) * (m * x3) + (m * x2) * (m * x3)) == m * m * n * (x1 * x2 + x1 * x3 + x2 * x3)
    ensures n * n * (m * x1 + m * x2 + m * x3) == m * n * n * (x1 + x2 + x3)
  {
    PullCube(m, x1, x2, x3);
    PullSquare(m, x1, x2); PullSquare(m, x1, x3); PullSquare(m, x2, x3);
    PullSum(m, n, x1 * x2, x1 * x3, x2 * x3);
    PullLinear(m, n, x1, x2, x3);
  }

  lemma PullCube(m: int, a: int, b: int, c: int)
    ensures (m * a) * (m * b) * (m * c) == m * m * m * (a * b * c)
  {}

  lemma PullSquare(m: int, a: int, b: int)
    ensures (m * a) * (m * b) == m * m * (a * b)
  {}

  lemma PullSum(m: int, n: int, u: int, v: int, w: int)
    ensures n * (m * m * u + m * m * v + m * m * w) == m * m * n * (u + v + w)
  {}

  lemma PullLinear(m: int, n: int, a: int, b: int, c: int)
    ensures n * n * (m * a + m * b + m * c) == m * n * n * (a + b + c)
  {}

  lemma CoefficientIdentity(l: int, n: int, e: int)
    requires e * e == 1
    ensures var m := l + e;
            m * m * m * (n * n) + m * m * n * -(2 * l * n) + m * n * n * (l * l - 1) == 0
  {
    var m := l + e;
    assert m * m - 2 * l * m + (l * l - 1) == 0;
    Factor(m, n, l);
  }

  lemma Factor(m: int, n: int, l: int)
    ensures m * m * m * (n * n) + m * m * n * -(2 * l * n) + m * n * n * (l * l - 1) == m * n * n * (m * m - 2 * l * m + (l * l - 1))
  {}

  // Roots from two points of the curve on a line, and the third abscissa the program computes.
  lemma ChordRoots(x1: int, y1: int, x2: int, y2: int, l: int, q: int)
    requires Prime(q) && !Eq(x2 - x1, 0, q) && Eq((x2 - x1) * l, y2 - y1, q)
    requires Eq(y1 * y1, x1 * x1 * x1 + x1 * x1, q) && Eq(y2 * y2, x2 * x2 * x2 + x2 * x2, q)
    ensures Roots(l, y1 - l * x1, x1, x2, l * l - x1 - x2 - 1, q)
  {
    var n, x3 := y1 - l * x1, l * l - x1 - x2 - 1;
    assert x1 + x2 + x3 == l * l - 1;
    EqRefl(l * l - 1, q);
    // (x2 - x1) * (e2 + 2 l n) = 0
    var e2 := x1 * x2 + x1 * x3 + x2 * x3;
    Combine3(1, y2 * y2 - (x2 * x2 * x2 + x2 * x2), -1, y1 * y1 - (x1 * x1 * x1 + x1 * x1),
             y2 + y1 + l * (x2 - x1), (x2 - x1) * l - (y2 - y1), q);
    SecantIdentity(x1, y1, x2, y2, l, x3);
    NoZeroDivisors(x2 - x1, e2 + 2 * l * n, q);
    assert Eq(e2, -(2 * l * n), q) by { assert e2 + 2 * l * n - 0 == e2 - -(2 * l * n); }
    ThirdSymmetric(x1, y1, x2, x3, l, n, q);
  }

  lemma SecantIdentity(x1: int, y1: int, x2: int, y2: int, l: int, x3: int)
    requires x3 == l * l - x1 - x2 - 1
    ensures 1 * (y2 * y2 - (x2 * x2 * x2 + x2 * x2)) + -1 * (y1 * y1 - (x1 * x1 * x1 + x1 * x1))
            + (y2 + y1 + l * (x2 - x1)) * ((x2 - x1) * l - (y2 - y1))
            == (x2 - x1) * (x1 * x2 + x1 * x3 + x2 * x3 + 2 * l * (y1 - l * x1))
  {}

  // x1 x2 x3 = n^2 from the other two symmetric functions and the first point.
  lemma ThirdSymmetric(x1: int, y1: int, x2: int, x3: int, l: int, n: int, q: int)
    requires q > 0 && x1 + x2 + x3 == l * l - 1 && n == y1 - l * x1
    requires Eq(y1 * y1, x1 * x1 * x1 + x1 * x1, q) && Eq(x1 * x2 + x1 * x3 + x2 * x3, -(2 * l * n), q)
    ensures Eq(x1 * x2 * x3, n * n, q)
  {
    Combine2(-1, y1 * y1 - (x1 * x1 * x1 + x1 * x1), x1, x1 * x2 + x1 * x3 + x2 * x3 - -(2 * l * n), q);
    ThirdIdentity(x1, y1, x2, x3, l, n);
  }

  lemma ThirdIdentity(x1: int, y1: int, x2: int, x3: int, l: int, n: int)
    requires x1 == l * l - 1 - x2 - x3 && n == y1 - l * x1
    ensures -1 * (y1 * y1 - (x1 * x1 * x1 + x1 * x1)) + x1 * (x1 * x2 + x1 * x3 + x2 * x3 - -(2 * l * n)) == x1 * x2 * x3 - n * n
  {
    ThirdExpand(x1, y1, x2 * x3, l);
    assert x2 + x3 == l * l - 1 - x1;
    assert x1 * x2 + x1 * x3 == x1 * (x2 + x3);
  }

  lemma ThirdExpand(x: int, y: int, e: int, l: int)
    ensures -1 * (y * y - (x * x * x + x * x)) + x * (x * (l * l - 1 - x) + e - -(2 * l * (y - l * x)))
            == x * e - (y - l * x) * (y - l * x)
  {}

  lemma TangentRoots(x1: int, y1: int, l: int, q: int)
    requires Prime(q) && Eq(2 * y1 * l, (3 * x1 + 2) * x1, q)
    requires Eq(y1 * y1, x1 * x1 * x1 + x1 * x1, q)
    ensures Roots(l, y1 - l * x1, x1, x1, l * l - x1 - x1 - 1, q)
  {
    var n, x3 := y1 - l * x1, l * l - x1 - x1 - 1;
    EqRefl(l * l - 1, q);
    Combine(1, 2 * y1 * l - (3 * x1 + 2) * x1, q);
    TangentIdentity(x1, y1, l);
    ThirdSymmetric(x1, y1, x1, x3, l, n, q);
  }

  lemma TangentIdentity(x1: int, y1: int, l: int)
    ensures var x3 := l * l - x1 - x1 - 1;
            1 * (2 * y1 * l - (3 * x1 + 2) * x1) == x1 * x1 + x1 * x3 + x1 * x3 - -(2 * l * (y1 - l * x1))
  {}

  /** Three collinear points multiply to 1 under the map: what the program returns for the sum
      is a nonsingular point of the curve and its image is the product of the images. */
  lemma CollinearSum(p: SnPt, r: SnPt, l: int, q: int)
    requires Prime(q) && q % 2 == 1 && Point(p, q) && Point(r, q) && p.Affine? && r.Affine?
    requires Eq(r.y, l * r.x + (p.y - l * p.x), q)
    requires Roots(l, p.y - l * p.x, p.x, r.x, l * l - p.x - r.x - 1, q)
    ensures Point(Third(p.x, p.y, r.x, l), q)
    ensures Eq(ToField(Third(p.x, p.y, r.x, l), q), ToField(p, q) * ToField(r, q), q)
  {
    var n, s := p.y - l * p.x, Third(p.x, p.y, r.x, l);
    CollinearPoint(p, r, l, q);
    Units(p, q); Units(r, q); Units(s, q);
    hide Prime, Inv, Third, Roots, Point, Eq;
    NonzeroProduct(p.y - p.x, r.y - r.x, q);
    QuotientEq(s.y + s.x, s.y - s.x, (p.y + p.x) * (r.y + r.x), (p.y - p.x) * (r.y - r.x), q);
    SplitQuotient(p.y + p.x, p.y - p.x, r.y + r.x, r.y - r.x, q);
    EqTrans(ToField(s, q), (p.y + p.x) * (r.y + r.x) * Inv((p.y - p.x) * (r.y - r.x), q), ToField(p, q) * ToField(r, q), q);
  }

  lemma CollinearPoint(p: SnPt, r: SnPt, l: int, q: int)
    requires Prime(q) && q % 2 == 1 && Point(p, q) && Point(r, q) && p.Affine? && r.Affine?
    requires Eq(r.y, l * r.x + (p.y - l * p.x), q)
    requires Roots(l, p.y - l * p.x, p.x, r.x, l * l - p.x - r.x - 1, q)
    ensures var s := Third(p.x, p.y, r.x, l);
            && Point(s, q)
            && Eq((s.y + s.x) * ((p.y - p.x) * (r.y - r.x)), (p.y + p.x) * (r.y + r.x) * (s.y - s.x), q)
  {
    var n, s := p.y - l * p.x, Third(p.x, p.y, r.x, l);
    ThirdOrdinate(p.x, p.y, s.x, l);
    ThirdOnCurve(l, n, p.x, r.x, s.x, s.y, q);
    ThirdNotNode(p, r, s, l, n, q);
    RootProduct(l, n, p.x, r.x, s.x, -1, q);
    RootProduct(l, n, p.x, r.x, s.x, 1, q);
    CollinearCross(p, r, s, l, n, q);
  }

  lemma ThirdOrdinate(px: int, py: int, sx: int, l: int)
    ensures (px - sx) * l - py == -(l * sx + (py - l * px))
  {}

  // (a c)/(b d) = (a/b)(c/d)
  lemma SplitQuotient(a: int, b: int, c: int, d: int, q: int)
    requires Prime(q) && !Eq(b, 0, q) && !Eq(d, 0, q)
    ensures Eq(a * c * Inv(b * d, q), a * Inv(b, q) * (c * Inv(d, q)), q)
  {
    NonzeroProduct(b, d, q);
    InvPrime(b, q); InvPrime(d, q); InvPrime(b * d, q);
    var i, j, k := Inv(b, q), Inv(d, q), Inv(b * d, q);
    // k = k (b i)(d j) = i j
    EqMul(b * i, 1, d * j, 1, q);
    Combine2(-(a * c * k), b * i * (d * j) - 1, a * c * i * j, b * d * k - 1, q);
    SplitIdentity(a, b, c, d, i, j, k);
  }

  lemma SplitIdentity(a: int, b: int, c: int, d: int, i: int, j: int, k: int)
    ensures -(a * c * k) * (b * i * (d * j) - 1) + a * c * i * j * (b * d * k - 1) == a * c * k - a * i * (c * j)
  {
    assert a * c * k * (b * i * (d * j)) == a * c * i * j * (b * d * k);
    assert a * i * (c * j) == a * c * i * j;
  }

  lemma ThirdOnCurve(l: int, n: int, x1: int, x2: int, x3: int, y3: int, q: int)
    requires q > 0 && Roots(l, n, x1, x2, x3, q) && y3 == -(l * x3 + n)
    ensures Eq(y3 * y3, x3 * x3 * x3 + x3 * x3, q)
  {
    Combine3(x3 * x3, x1 + x2 + x3 - (l * l - 1), -x3, x1 * x2 + x1 * x3 + x2 * x3 - -(2 * l * n),
             1, x1 * x2 * x3 - n * n, q);
    CubicIdentity(l, n, x1, x2, x3);
    EqSym(x3 * x3 * x3 + x3 * x3, y3 * y3, q);
  }

  lemma CubicIdentity(l: int, n: int, x1: int, x2: int, x3: int)
    ensures x3 * x3 * (x1 + x2 + x3 - (l * l - 1)) + -x3 * (x1 * x2 + x1 * x3 + x2 * x3 - -(2 * l * n)) + 1 * (x1 * x2 * x3 - n * n)
            == (x3 * x3 * x3 + x3 * x3) - (-(l * x3 + n)) * (-(l * x3 + n))
  {}

  // Were the third point the node, the line would pass through it and meet the curve only there.
  lemma ThirdNotNode(p: SnPt, r: SnPt, s: SnPt, l: int, n: int, q: int)
    requires Prime(q) && Point(p, q) && Point(r, q) && p.Affine? && r.Affine? && s.Affine?
    requires Roots(l, n, p.x, r.x, s.x, q) && s.y == -(l * s.x + n)
    ensures !(Eq(s.x, 0, q) && Eq(s.y, 0, q))
  {
    Units(p, q); Units(r, q);
    NonzeroProduct(p.x, r.x, q);
    if Eq(s.x, 0, q) && Eq(s.y, 0, q) {
      // n = 0, hence p.x * r.x = 0
      Combine2(-1, s.y, -l, s.x, q);
      assert -1 * s.y + -l * s.x == n;
      Combine3(1, p.x * r.x + p.x * s.x + r.x * s.x - -(2 * l * n), -(2 * l), n, -(p.x + r.x), s.x, q);
      NodeIdentity(p.x, r.x, s.x, l, n);
    }
  }

  lemma NodeIdentity(x1: int, x2: int, x3: int, l: int, n: int)
    ensures 1 * (x1 * x2 + x1 * x3 + x2 * x3 - -(2 * l * n)) + -(2 * l) * n + -(x1 + x2) * x3 == x1 * x2
  {}

  lemma CollinearCross(p: SnPt, r: SnPt, s: SnPt, l: int, n: int, q: int)
    requires q > 0 && p.Affine? && r.Affine? && s.Affine?
    requires p.y == l * p.x + n && Eq(r.y, l * r.x + n, q) && s.y == -(l * s.x + n)
    requires Eq(((l + -1) * p.x + n) * ((l + -1) * r.x + n) * ((l + -1) * s.x + n), n * n * n, q)
    requires Eq(((l + 1) * p.x + n) * ((l + 1) * r.x + n) * ((l + 1) * s.x + n), n * n * n, q)
    ensures Eq((s.y + s.x) * ((p.y - p.x) * (r.y - r.x)), (p.y + p.x) * (r.y + r.x) * (s.y - s.x), q)
  {
    var u, d := (l + -1) * s.x + n, r.y - (l * r.x + n);
    var w := (l + 1) * s.x + n;
    Combine3(-1, ((l + -1) * p.x + n) * ((l + -1) * r.x + n) * u - n * n * n,
             1, ((l + 1) * p.x + n) * ((l + 1) * r.x + n) * w - n * n * n,
             -(u * (p.y - p.x)) + w * (p.y + p.x), d, q);
    CrossIdentity(p.x, p.y, r.x, r.y, s.x, s.y, l, n);
  }

  lemma CrossIdentity(px: int, py: int, rx: int, ry: int, sx: int, sy: int, l: int, n: int)
    requires py == l * px + n && sy == -(l * sx + n)
    ensures var u, w, d := (l + -1) * sx + n, (l + 1) * sx + n, ry - (l * rx + n);
            -1 * (((l + -1) * px + n) * ((l + -1) * rx + n) * u - n * n * n)
            + 1 * (((l + 1) * px + n) * ((l + 1) * rx + n) * w - n * n * n)
            + (-(u * (py - px)) + w * (py + px)) * d
            == (sy + sx) * ((py - px) * (ry - rx)) - (py + px) * (ry + rx) * (sy - sx)
  {
    var u, w, d := (l + -1) * sx + n, (l + 1) * sx + n, ry - (l * rx + n);
    assert u == -(sy + sx) && w == -(sy - sx);
    assert (l + -1) * px + n == py - px && (l + 1) * px + n == py + px;
    assert (l + -1) * rx + n == ry - rx - d && (l + 1) * rx + n == ry + rx - d;
    CrossExpand(sy + sx, sy - sx, py - px, py + px, ry - rx, ry + rx, d, n);
  }

  lemma CrossExpand(a: int, b: int, e: int, f: int, g: int, h: int, d: int, n: int)
    ensures -1 * (e * (g - d) * -a - n * n * n) + 1 * (f * (h - d) * -b - n * n * n) + (-(-a * e) + -b * f) * d
            == a * (e * g) - f * h * b
  {}

  // ---------- the isomorphism ----------

  lemma TangentSum(p: SnPt, q: int)
    requires Prime(q) && q % 2 == 1 && Point(p, q) && p.Affine? && !Eq(p.y, 0, q)
    ensures Point(Third(p.x, p.y, p.x, Tangent(p.x, p.y, q)), q)
    ensures Eq(ToField(Third(p.x, p.y, p.x, Tangent(p.x, p.y, q)), q), ToField(p, q) * ToField(p, q), q)
  {
    var l := Tangent(p.x, p.y, q);
    TwoNonzero(p.y, q);
    InvPrime(2 * p.y, q);
    var i := Inv(2 * p.y, q);
    Combine((3 * p.x + 2) * p.x, 2 * p.y * i - 1, q);
    SlopeIdentity((3 * p.x + 2) * p.x, 2 * p.y, i);
    TangentRoots(p.x, p.y, l, q);
    EqRefl(p.y, q);
    assert l * p.x + (p.y - l * p.x) == p.y;
    CollinearSum(p, p, l, q);
  }

  lemma ChordSum(p: SnPt, r: SnPt, q: int)
    requires Prime(q) && q % 2 == 1 && Point(p, q) && Point(r, q) && p.Affine? && r.Affine? && !Eq(p.x, r.x, q)
    ensures Point(Third(p.x, p.y, r.x, Chord(p, r, q)), q)
    ensures Eq(ToField(Third(p.x, p.y, r.x, Chord(p, r, q)), q), ToField(p, q) * ToField(r, q), q)
  {
    var l, d := Chord(p, r, q), r.x - p.x;
    if Eq(d, 0, q) { EqSym(r.x, p.x, q) by { assert d - 0 == r.x - p.x; } }
    InvPrime(d, q);
    var i := Inv(d, q);
    Combine(r.y - p.y, d * i - 1, q);
    SlopeIdentity(r.y - p.y, d, i);
    ChordRoots(p.x, p.y, r.x, r.y, l, q);
    EqSym(d * l, r.y - p.y, q);
    OnChord(p.x, p.y, r.x, r.y, l);
    CollinearSum(p, r, l, q);
  }

  lemma OnChord(px: int, py: int, rx: int, ry: int, l: int)
    ensures (ry - py) - (rx - px) * l == ry - (l * rx + (py - l * px))
  {}

  // Two points with one abscissa are equal or opposite.
  lemma SameAbscissa(p: SnPt, r: SnPt, q: int)
    requires Prime(q) && Point(p, q) && Point(r, q) && p.Affine? && r.Affine? && Eq(p.x, r.x, q)
    ensures Eq(p.y, r.y, q) || Eq(p.y, -r.y, q)
  {
    EqMul(p.x, r.x, p.x, r.x, q);
    EqMul(p.x * p.x, r.x * r.x, p.x, r.x, q);
    EqAdd(p.x * p.x * p.x, r.x * r.x * r.x, p.x * p.x, r.x * r.x, q);
    EqTrans(p.y * p.y, p.x * p.x * p.x + p.x * p.x, r.x * r.x * r.x + r.x * r.x, q);
    EqSym(r.y * r.y, r.x * r.x * r.x + r.x * r.x, q);
    EqTrans(p.y * p.y, r.x * r.x * r.x + r.x * r.x, r.y * r.y, q);
    assert p.y * p.y - r.y * r.y == (p.y - r.y) * (p.y - -r.y) - 0;
    NoZeroDivisors(p.y - r.y, p.y - -r.y, q);
  }

  // Opposite points have inverse images.
  lemma OppositeImages(p: SnPt, r: SnPt, q: int)
    requires Prime(q) && Point(p, q) && Point(r, q) && p.Affine? && r.Affine?
    requires Eq(p.x, r.x, q) && Eq(p.y, -r.y, q)
    ensures Eq(ToField(p, q) * ToField(r, q), 1, q)
  {
    Units(p, q); Units(r, q);
    InvPrime(p.y - p.x, q); InvPrime(r.y - r.x, q);
    var i, j := Inv(p.y - p.x, q), Inv(r.y - r.x, q);
    EqAdd(p.y, -r.y, p.x, r.x, q);
    // p.y + p.x = -(r.y - r.x) and p.y - p.x = -(r.y + r.x)
    var u, w := p.y - p.x, r.y - r.x;
    EqMul(u * i, 1, w * j, 1, q);
    Combine3(i * j * (r.y + r.x), (p.y + p.x) - (-r.y + r.x), -(i * j * w), (p.y - p.x) - (-r.y - r.x), 1, u * i * (w * j) - 1, q);
    OppositeIdentity(p.x, p.y, r.x, r.y, i, j);
  }

  lemma OppositeIdentity(px: int, py: int, rx: int, ry: int, i: int, j: int)
    ensures i * j * (ry + rx) * ((py + px) - (-ry + rx)) + -(i * j * (ry - rx)) * ((py - px) - (-ry - rx))
            + 1 * ((py - px) * i * ((ry - rx) * j) - 1)
            == (py + px) * i * ((ry + rx) * j) - 1
  {
    OppositeExpand(py + px, py - px, ry + rx, ry - rx, i * j);
    assert (py - px) * i * ((ry - rx) * j) == i * j * ((py - px) * (ry - rx));
    assert (py + px) * i * ((ry + rx) * j) == i * j * ((py + px) * (ry + rx));
  }

  lemma OppositeExpand(a: int, b: int, c: int, d: int, k: int)
    ensures k * c * (a + d) + -(k * d) * (b + c) + (k * (b * d) - 1) == k * (a * c) - 1
  {}

  // ---------- main results ----------

  /** The map turns the program's addition into field multiplication, in every branch. */
  lemma MapAdd(p: SnPt, r: SnPt, q: int)
    requires Prime(q) && q % 2 == 1 && Point(p, q) && Point(r, q)
    ensures Point(Sum(p, r, q), q)
    ensures Eq(ToField(Sum(p, r, q), q), ToField(p, q) * ToField(r, q), q)
  {
    if p.Infinity? || r.Infinity? {
      EqRefl(ToField(p, q) * ToField(r, q), q);
    } else if Eq(p.x, r.x, q) {
      if Eq(p.y, r.y, q) && !Eq(p.y, 0, q) {
        TangentSum(p, q);
        SameImage(p, r, q);
        EqRefl(ToField(p, q), q);
        EqMul(ToField(p, q), ToField(p, q), ToField(p, q), ToField(r, q), q);
        EqTrans(ToField(Sum(p, r, q), q), ToField(p, q) * ToField(p, q), ToField(p, q) * ToField(r, q), q);
      } else {
        SameAbscissa(p, r, q);
        if Eq(p.y, r.y, q) { ZeroOpposite(p.y, r.y, q); }
        OppositeImages(p, r, q);
        EqSym(ToField(p, q) * ToField(r, q), 1, q);
      }
    } else {
      ChordSum(p, r, q);
    }
  }

  lemma ZeroOpposite(a: int, b: int, q: int)
    requires q > 0 && Eq(a, b, q) && Eq(a, 0, q)
    ensures Eq(a, -b, q)
  {
    Combine2(2, a, -1, a - b, q);
    assert 2 * a + -1 * (a - b) == a - -b;
  }

  // The map only depends on the point, not on representatives.
  lemma SameImage(p: SnPt, r: SnPt, q: int)
    requires q > 0 && Same(p, r, q)
    ensures Eq(ToField(p, q), ToField(r, q), q)
  {
    if p.Infinity? {
      EqRefl(1, q);
    } else {
      EqAdd(p.y, r.y, p.x, r.x, q);
      EqIffMod(p.y - p.x, r.y - r.x, q);
      EqRefl(Inv(p.y - p.x, q), q);
      EqMul(p.y + p.x, r.y + r.x, Inv(p.y - p.x, q), Inv(r.y - r.x, q), q);
    }
  }

  /** Doubling becomes squaring. */
  lemma MapDouble(p: SnPt, q: int)
    requires Prime(q) && q % 2 == 1 && Point(p, q)
    ensures Point(Twice(p, q), q)
    ensures Eq(ToField(Twice(p, q), q), ToField(p, q) * ToField(p, q), q)
  {
    MapAdd(p, p, q);
    if p.Affine? { EqRefl(p.x, q); EqRefl(p.y, q); }
  }

  /** Negation becomes inversion. */
  lemma MapNegate(p: SnPt, q: int)
    requires Prime(q) && q % 2 == 1 && Point(p, q)
    ensures Point(Negate(p), q)
    ensures Eq(ToField(p, q) * ToField(Negate(p), q), 1, q)
  {
    if p.Infinity? {
      EqRefl(1, q);
    } else {
      var r := Negate(p);
      assert r.y * r.y == p.y * p.y;
      if Eq(r.y, 0, q) {
        Combine(-1, r.y, q);
        assert -1 * r.y == p.y;
      }
      EqRefl(p.x, q); EqRefl(p.y, q);
      OppositeImages(p, r, q);
    }
  }

  // Images of points are nonzero, and only the point at infinity maps to 1.
  lemma ImageRange(p: SnPt, q: int)
    requires Prime(q) && q % 2 == 1 && Point(p, q)
    ensures !Eq(ToField(p, q), 0, q)
    ensures Eq(ToField(p, q), 1, q) <==> p.Infinity?
  {
    MapNegate(p, q);
    var a, b := ToField(p, q), ToField(Negate(p), q);
    OneNotZero(a * b, q);
    EqRefl(b, q);
    if Eq(a, 0, q) { EqMul(a, 0, b, b, q); }
    if p.Infinity? {
      EqRefl(1, q);
    } else {
      Units(p, q);
      InvPrime(p.y - p.x, q);
      var d, i := p.y - p.x, Inv(p.y - p.x, q);
      TwoNonzero(p.x, q);
      if Eq(a, 1, q) {
        // (y + x) - (y - x) = 2x
        Combine2(d, a - 1, -(p.y + p.x), d * i - 1, q);
        ImageIdentity(p.x, p.y, i);
      }
    }
  }

  lemma ImageIdentity(x: int, y: int, i: int)
    ensures (y - x) * ((y + x) * i - 1) + -(y + x) * ((y - x) * i - 1) == 2 * x - 0
  {}

  lemma OneNotZero(a: int, q: int)
    requires q > 1
    ensures !(Eq(a, 1, q) && Eq(a, 0, q))
  {
    if Eq(a, 1, q) && Eq(a, 0, q) {
      EqSym(a, 1, q);
      EqTrans(1, a, 0, q);
      EqSmall(1, 0, q);
    }
  }

  /** From field to curve and back; the image of a is a nonsingular point exactly when a is a unit. */
  lemma FieldRoundTrip(a: int, q: int)
    requires Prime(q) && q % 2 == 1
    ensures Point(ToPoint(a, q), q) <==> !Eq(a, 0, q)
    ensures !Eq(a, 0, q) ==> Eq(ToField(ToPoint(a, q), q), a, q)
  {
    if Eq(a, 1, q) {
      OneNotZero(a, q);
      EqSym(a, 1, q);
    } else {
      var i, p := Inv(a - 1, q), ToPoint(a, q);
      assert !Eq(a - 1, 0, q) by { assert a - 1 - 0 == a - 1; }
      InvPrime(a - 1, q);
      ToPointOnCurve(a, i, q);
      ToPointShape(a, i, q);
      if Eq(a, 0, q) {
        Combine(4 * (i * i), a, q);
        Combine((a + 1) * 4 * i * (i * i), a, q);
        ZeroShape(a, i);
      } else {
        UnitAbscissa(a, i, q);
        assert Point(p, q);
        FieldBack(p, a, q);
      }
    }
  }

  lemma UnitAbscissa(a: int, i: int, q: int)
    requires Prime(q) && q % 2 == 1 && !Eq(a, 0, q) && Eq((a - 1) * i, 1, q)
    ensures !Eq(i * i * (4 * a), 0, q)
  {
    hide Prime;
    PrimeBig(q);
    TwoNonzero(a, q);
    TwoNonzero(2 * a, q);
    NonzeroInverse(a - 1, i, q);
    NonzeroProduct(i, i, q);
    NonzeroProduct(i * i, 4 * a, q) by { assert 2 * (2 * a) == 4 * a; }
  }

  // (y + x) 1 = a (y - x)
  lemma FieldBack(p: SnPt, a: int, q: int)
    requires Prime(q) && q % 2 == 1 && p.Affine? && Point(p, q) && Eq(p.y + p.x, a * (p.y - p.x), q)
    ensures Eq(ToField(p, q), a, q)
  {
    hide Prime, Eq, Inv, Point;
    PrimeBig(q);
    Units(p, q);
    QuotientBack(p.y + p.x, p.y - p.x, a, q);
  }

  lemma QuotientBack(u: int, d: int, a: int, q: int)
    requires Prime(q) && q > 1 && !Eq(d, 0, q) && Eq(u, a * d, q)
    ensures Eq(u * Inv(d, q), a, q)
  {
    hide Prime, Inv;
    InvPrime(d, q);
    Combine2(Inv(d, q), u - a * d, a, d * Inv(d, q) - 1, q);
    BackIdentity(u, d, a, Inv(d, q));
  }

  lemma ZeroShape(a: int, i: int)
    ensures 4 * (i * i) * a == i * i * (4 * a) - 0
    ensures (a + 1) * 4 * i * (i * i) * a == (a + 1) * (4 * a) * i * (i * i) - 0
  {}

  lemma BackIdentity(u: int, d: int, a: int, j: int)
    ensures j * (u - a * d) + a * (d * j - 1) == u * j - a
  {}

  lemma NonzeroInverse(x: int, i: int, q: int)
    requires q > 1 && Eq(x * i, 1, q)
    ensures !Eq(i, 0, q)
  {
    OneNotZero(x * i, q);
    EqRefl(x, q);
    if Eq(i, 0, q) { EqMul(x, x, i, 0, q); }
  }

  // x = 4a/(a-1)^2, y = 4a(a+1)/(a-1)^3: y + x = 8a^2/(a-1)^3 and y - x = 8a/(a-1)^3.
  lemma ToPointShape(a: int, i: int, q: int)
    requires q > 0 && Eq((a - 1) * i, 1, q)
    ensures var x, y := i * i * (4 * a), (a + 1) * (4 * a) * i * (i * i);
            Eq(y + x, a * (y - x), q)
  {
    var x, y := i * i * (4 * a), (a + 1) * (4 * a) * i * (i * i);
    Combine(-(x * (a + 1)), (a - 1) * i - 1, q);
    ShapeIdentity(a, i);
  }

  lemma ShapeIdentity(a: int, i: int)
    ensures var x, y := i * i * (4 * a), (a + 1) * (4 * a) * i * (i * i);
            -(x * (a + 1)) * ((a - 1) * i - 1) == (y + x) - a * (y - x)
  {
    ShapeFactor(a, i);
    ShapeExpand(a, i, i * i * (4 * a));
  }

  lemma ShapeFactor(a: int, i: int)
    ensures (a + 1) * (4 * a) * i * (i * i) == i * i * (4 * a) * (a + 1) * i
  {}

  lemma ShapeExpand(a: int, i: int, x: int)
    ensures -(x * (a + 1)) * ((a - 1) * i - 1) == (x * (a + 1) * i + x) - a * (x * (a + 1) * i - x)
  {}

  lemma ToPointOnCurve(a: int, i: int, q: int)
    requires q > 0 && Eq((a - 1) * i, 1, q)
    ensures var x, y := i * i * (4 * a), (a + 1) * (4 * a) * i * (i * i);
            Eq(y * y, x * x * x + x * x, q)
  {
    // y = x (a+1) i and x + 1 = ((a+1) i)^2
    var x, w := i * i * (4 * a), (a + 1) * i;
    Combine(-(x * x) * ((a - 1) * i + 1), (a - 1) * i - 1, q);
    OnCurveIdentity(a, i, x);
    EqSym(x * x * x + x * x, x * w * (x * w), q);
  }

  lemma OnCurveIdentity(a: int, i: int, x: int)
    requires x == i * i * (4 * a)
    ensures (a + 1) * (4 * a) * i * (i * i) == x * ((a + 1) * i)
    ensures -(x * x) * ((a - 1) * i + 1) * ((a - 1) * i - 1) == (x * x * x + x * x) - x * ((a + 1) * i) * (x * ((a + 1) * i))
  {
    ConjugateSquares(a, i);
    RegroupFactors(a + 1, 4 * a, i);
    SquareSplit(x, (a + 1) * i, (a - 1) * i);
  }

  lemma ConjugateSquares(a: int, i: int)
    ensures ((a + 1) * i) * ((a + 1) * i) - ((a - 1) * i) * ((a - 1) * i) == i * i * (4 * a)
  {
    var u, w := (a + 1) * i, (a - 1) * i;
    assert u * u - w * w == (u + w) * (u - w);
    assert u + w == 2 * a * i && u - w == 2 * i;
    assert 2 * a * i * (2 * i) == i * i * (4 * a);
  }

  lemma RegroupFactors(u: int, w: int, i: int)
    ensures u * w * i * (i * i) == i * i * w * (u * i)
  {
    assert u * w * i * (i * i) == (i * i) * (w * (u * i));
  }

  lemma SquareSplit(x: int, u: int, w: int)
    requires u * u - w * w == x
    ensures -(x * x) * (w + 1) * (w - 1) == (x * x * x + x * x) - x * u * (x * u)
  {
    assert (w + 1) * (w - 1) == u * u - x - 1;
    assert -(x * x) * (w + 1) * (w - 1) == -(x * x) * ((w + 1) * (w - 1));
    assert x * u * (x * u) == x * x * (u * u);
  }

  /** From curve to field and back. */
  lemma PointRoundTrip(p: SnPt, q: int)
    requires Prime(q) && q % 2 == 1 && Point(p, q)
    ensures Same(ToPoint(ToField(p, q), q), p, q)
  {
    ImageRange(p, q);
    if p.Affine? {
      Units(p, q);
      InvPrime(p.y - p.x, q);
      var a := ToField(p, q);
      assert !Eq(a - 1, 0, q) by { assert a - 1 - 0 == a - 1; }
      InvPrime(a - 1, q);
      BackPoint(a, p.x, p.y, Inv(p.y - p.x, q), Inv(a - 1, q), q);
    }
  }

  lemma BackPoint(a: int, x: int, y: int, j: int, i: int, q: int)
    requires Prime(q) && q % 2 == 1 && !Eq(x, 0, q)
    requires Eq((y - x) * (y + x), x * x * x, q)
    requires Eq((y - x) * j, 1, q) && a == (y + x) * j && Eq((a - 1) * i, 1, q)
    ensures Eq(i * i * (4 * a), x, q) && Eq((a + 1) * (4 * a) * i * (i * i), y, q)
  {
    // (a - 1) d = 2x, so 2 x i = d
    var d := y - x;
    Combine(y + x, d * j - 1, q);
    ImageTimes(x, y, j);
    assert Eq(a * d, y + x, q);
    Combine2(-i, a * d - (y + x), d, (a - 1) * i - 1, q);
    HalfIdentity(a, d, x, y, i);
    BackX(a, x, y, i, q);
    BackY(a, x, y, i, q);
  }

  lemma ImageTimes(x: int, y: int, j: int)
    ensures (y + x) * ((y - x) * j - 1) == (y + x) * j * (y - x) - (y + x)
  {}

  lemma HalfIdentity(a: int, d: int, x: int, y: int, i: int)
    requires d == y - x
    ensures -i * (a * d - (y + x)) + d * ((a - 1) * i - 1) == 2 * x * i - d
  {}

  // x' = 4 a i^2 with a d = y + x and 2 x i = d: x^2 x' = a d^2 = d (y + x) = x^3.
  lemma BackX(a: int, x: int, y: int, i: int, q: int)
    requires Prime(q) && !Eq(x, 0, q) && Eq(2 * x * i, y - x, q) && Eq(a * (y - x), y + x, q)
    requires Eq((y - x) * (y + x), x * x * x, q)
    ensures Eq(i * i * (4 * a), x, q)
  {
    var d, w := y - x, 2 * x * i;
    Combine3(a * (w + d), w - d, d, a * d - (y + x), 1, d * (y + x) - x * x * x, q);
    BackXIdentity(a, x, y, i, d, w);
    NonzeroProduct(x, x, q);
    Cancel(x * x, i * i * (4 * a), x, q);
  }

  lemma BackXIdentity(a: int, x: int, y: int, i: int, d: int, w: int)
    requires w == 2 * x * i && d == y - x
    ensures a * (w + d) * (w - d) + d * (a * d - (y + x)) + 1 * (d * (y + x) - x * x * x) == x * x * (i * i * (4 * a)) - x * x * x
  {
    assert a * (w * w) == x * x * (i * i * (4 * a));
    assert a * (w + d) * (w - d) == a * (w * w) - a * d * d;
  }

  lemma BackY(a: int, x: int, y: int, i: int, q: int)
    requires Prime(q) && !Eq(x, 0, q) && Eq(2 * x * i, y - x, q) && Eq(a * (y - x), y + x, q)
    requires Eq(i * i * (4 * a), x, q) && q % 2 == 1
    ensures Eq((a + 1) * (4 * a) * i * (i * i), y, q)
  {
    // y' = x' (a + 1) i, and 2 x (a + 1) i = (a + 1) d = 2 y
    var d, x' := y - x, i * i * (4 * a);
    Combine3(2 * (a + 1) * i, x' - x, a + 1, 2 * x * i - d, 1, a * d - (y + x), q);
    BackYIdentity(a, x, y, i, d, x');
    hide Prime, Eq;
    TwoUnit(q);
    Cancel(2, x' * (a + 1) * i, y, q);
    BackYShape(a, i);
  }

  lemma TwoUnit(q: int)
    requires Prime(q) && q % 2 == 1
    ensures !Eq(2, 0, q)
  {
    if Eq(2, 0, q) { EqSmall(2, 0, q); }
  }

  lemma BackYShape(a: int, i: int)
    ensures (a + 1) * (4 * a) * i * (i * i) == i * i * (4 * a) * (a + 1) * i
  {
    var u, w := a + 1, 4 * a;
    assert u * w * i * (i * i) == (i * i) * (u * w) * i;
    assert (i * i) * (u * w) == (i * i) * w * u;
  }

  lemma BackYIdentity(a: int, x: int, y: int, i: int, d: int, x': int)
    requires d == y - x
    ensures 2 * (a + 1) * i * (x' - x) + (a + 1) * (2 * x * i - d) + 1 * (a * d - (y + x)) == 2 * (x' * (a + 1) * i) - 2 * y
  {
    BackYTerms(a + 1, i, x, x', d);
    assert (a + 1) * d == a * d + d;
  }

  lemma BackYTerms(b: int, i: int, x: int, x': int, d: int)
    ensures 2 * b * i * (x' - x) == 2 * (x' * b * i) - 2 * (x * b * i) && b * (2 * x * i - d) == 2 * (x * b * i) - b * d
  {
    assert 2 * b * i * (x' - x) == 2 * (b * i) * x' - 2 * (b * i) * x;
    assert x' * b * i == (b * i) * x' && x * b * i == (b * i) * x;
    assert b * (2 * x * i) == 2 * (x * b * i);
  }

  /** The map separates points. */
  lemma MapInjective(p: SnPt, r: SnPt, q: int)
    requires Prime(q) && q % 2 == 1 && Point(p, q) && Point(r, q)
    ensures Same(p, r, q) <==> Eq(ToField(p, q), ToField(r, q), q)
  {
    if Same(p, r, q) { SameImage(p, r, q); }
    var a, b := ToField(p, q), ToField(r, q);
    if Eq(a, b, q) {
      PointRoundTrip(p, q); PointRoundTrip(r, q);
      SamePreimage(a, b, q);
      SameTrans(p, ToPoint(a, q), ToPoint(b, q), r, q);
    }
  }

  lemma SamePreimage(a: int, b: int, q: int)
    requires q > 0 && Eq(a, b, q)
    ensures Same(ToPoint(a, q), ToPoint(b, q), q)
  {
    EqRefl(1, q);
    EqAdd(a, b, 1, 1, q);
    EqIffMod(a - 1, b - 1, q);
    EqIffMod(a, 1, q); EqIffMod(b, 1, q); EqIffMod(a, b, q);
    if !Eq(a, 1, q) {
      var i := Inv(a - 1, q);
      EqRefl(4, q); EqRefl(i * i, q); EqRefl(i, q);
      EqMul(4, 4, a, b, q);
      EqMul(i * i, i * i, 4 * a, 4 * b, q);
      EqMul(a + 1, b + 1, 4 * a, 4 * b, q);
      EqMul((a + 1) * (4 * a), (b + 1) * (4 * b), i, i, q);
      EqMul((a + 1) * (4 * a) * i, (b + 1) * (4 * b) * i, i * i, i * i, q);
    }
  }

  lemma SameTrans(p: SnPt, a: SnPt, b: SnPt, r: SnPt, q: int)
    requires q > 0 && Same(a, p, q) && Same(a, b, q) && Same(b, r, q)
    ensures Same(p, r, q)
  {
    if p.Affine? {
      EqSym(a.x, p.x, q); EqSym(a.y, p.y, q);
      EqTrans(p.x, a.x, b.x, q); EqTrans(p.y, a.y, b.y, q);
      EqTrans(p.x, b.x, r.x, q); EqTrans(p.y, b.y, r.y, q);
    }
  }

  /** The program's addition is associative on nonsingular points. */
  lemma AddAssociative(p: SnPt, r: SnPt, s: SnPt, q: int)
    requires Prime(q) && q % 2 == 1 && Point(p, q) && Point(r, q) && Point(s, q)
    ensures Same(Sum(Sum(p, r, q), s, q), Sum(p, Sum(r, s, q), q), q)
  {
    hide Sum, ToField, Point, Same, Eq;
    MapAdd(p, r, q); MapAdd(r, s, q);
    MapAdd(Sum(p, r, q), s, q); MapAdd(p, Sum(r, s, q), q);
    var a, b, c := ToField(p, q), ToField(r, q), ToField(s, q);
    EqRefl(a, q); EqRefl(c, q);
    var l, m := Sum(Sum(p, r, q), s, q), Sum(p, Sum(r, s, q), q);
    EqMul(ToField(Sum(p, r, q), q), a * b, c, c, q);
    EqTrans(ToField(l, q), ToField(Sum(p, r, q), q) * c, a * b * c, q);
    EqMul(a, a, ToField(Sum(r, s, q), q), b * c, q);
    EqTrans(ToField(m, q), a * ToField(Sum(r, s, q), q), a * (b * c), q);
    assert a * b * c == a * (b * c);
    EqSym(ToField(m, q), a * b * c, q);
    EqTrans(ToField(l, q), a * b * c, ToField(m, q), q);
    MapInjective(l, m, q);
  }

  // ---------- the routines, writing their results in place ----------

  class PointCell {
    var infFlag: bool
    var x: int
    var y: int

    constructor ()
      ensures At() == Infinity
    {
      infFlag, x, y := true, 0, 0;
    }

    function At(): SnPt reads this { if infFlag then Infinity else Affine(x, y) }

    // sn_set
    method Set(a: PointCell)
      modifies this
      ensures At() == old(a.At())
    {
      if a.infFlag {
        infFlag := true;
      } else {
        infFlag, x, y := false, a.x, a.y;
      }
    }

    // sn_double_no_check; p may be this
    method DoubleNoCheck(p: PointCell, q: int)
      requires q > 0
      modifies this
      ensures At() == Third(old(p.x), old(p.y), old(p.x), Tangent(old(p.x), old(p.y), q))
    {
      var lambda := p.x * 3;
      var e0 := 2;
      lambda := lambda + e0;
      lambda := lambda * p.x;
      e0 := p.y + p.y;
      e0 := Inv(e0, q);
      assert p.y + p.y == 2 * p.y;
      lambda := lambda * e0;
      assert lambda == Tangent(p.x, p.y, q);
      var e1 := p.x + p.x;
      e0 := lambda * lambda;
      e0 := e0 - e1;
      e1 := 1;
      e0 := e0 - e1;
      e1 := p.x - e0;
      e1 := e1 * lambda;
      e1 := e1 - p.y;
      x := e0;
      y := e1;
      infFlag := false;
    }

    // sn_double
    method Double(a: PointCell, q: int)
      requires q > 0
      modifies this
      ensures At() == Twice(old(a.At()), q)
    {
      if a.infFlag || Eq(a.y, 0, q) {
        infFlag := true;
      } else {
        DoubleNoCheck(a, q);
      }
    }

    // sn_add; a and b may be this
    method Add(a: PointCell, b: PointCell, q: int)
      requires q > 0
      modifies this
      ensures At() == Sum(old(a.At()), old(b.At()), q)
    {
      if a.infFlag {
        Set(b);
      } else if b.infFlag {
        Set(a);
      } else if Eq(a.x, b.x, q) {
        if Eq(a.y, b.y, q) {
          if Eq(a.y, 0, q) {
            infFlag := true;
          } else {
            DoubleNoCheck(a, q);
          }
        } else {
          infFlag := true;
        }
      } else {
        var e0 := b.x - a.x;
        e0 := Inv(e0, q);
        var lambda := b.y - a.y;
        lambda := lambda * e0;
        e0 := lambda * lambda;
        e0 := e0 - a.x;
        e0 := e0 - b.x;
        var e1 := 1;
        e0 := e0 - e1;
        e1 := a.x - e0;
        e1 := e1 * lambda;
        e1 := e1 - a.y;
        x := e0;
        y := e1;
        infFlag := false;
      }
    }

    // sn_invert
    method Invert(a: PointCell)
      modifies this
      ensures At() == Negate(old(a.At()))
    {
      if a.infFlag {
        infFlag := true;
      } else {
        infFlag, x, y := false, a.x, -a.y;
      }
    }

    // sn_field_to_point
    method FromField(a: int, q: int)
      requires q > 0
      modifies this
      ensures At() == ToPoint(a, q)
    {
      if Eq(a, 1, q) {
        infFlag := true;
        return;
      }
      var e1 := 1;
      var e0 := a - e1;
      e0 := Inv(e0, q);
      var e2 := a * 4;
      y := a + e1;
      e1 := e0 * e0;
      x := e1 * e2;
      y := y * e2;
      y := y * e0;
      y := y * e1;
      infFlag := false;
    }

    // sn_point_to_field
    method IntoField(q: int) returns (out: int)
      requires q > 0
      ensures out == ToField(At(), q)
    {
      if infFlag {
        out := 1;
        return;
      }
      var e0 := y + x;
      var e1 := y - x;
      e1 := Inv(e1, q);
      out := e0 * e1;
    }
  }
}
