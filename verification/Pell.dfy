/** The continued-fraction Pell solver general_pell (ecc/mnt.c).

    The solver walks the reduced surds (P + sqrt D)/Q. Each pass keeps the norm equation of the
    convergents; the walk is injective on finitely many states, so it returns to the state in
    which x^2 - D y^2 = 1, and no smaller solution exists. */
module Pell {
  import opened Modular

  // D is not a square and a0 is its integer square root.
  ghost predicate Root(dd: int, a0: int) {
    a0 >= 1 && a0 * a0 < dd < (a0 + 1) * (a0 + 1)
  }

  // One pass: P_i, Q_i-1, Q_i, the convergents before and at i, and the sign (-1)^(i+1).
  datatype Cf = Cf(p: int, q0: int, q1: int, xm: int, ym: int, x: int, y: int, d: int)

  function Quot(c: Cf, a0: int): int
    requires c.q1 != 0
  {
    (a0 + c.p) / c.q1
  }

  function Start(dd: int, a0: int): Cf { Cf(a0, 1, dd - a0 * a0, 1, 0, a0, 1, -1) }

  function Next(c: Cf, dd: int, a0: int): Cf
    requires c.q1 != 0
  {
    var a := Quot(c, a0);
    var p := a * c.q1 - c.p;
    Cf(p, c.q1, (dd - p * p) / c.q1, c.x, c.y, a * c.x + c.xm, a * c.y + c.ym, -c.d)
  }

  // 0 < P < sqrt D and sqrt D - P < Q < sqrt D + P, in integers.
  ghost predicate Reduced(p: int, q: int, a0: int) {
    0 < p <= a0 && a0 - p < q <= a0 + p
  }

  ghost predicate Inv(c: Cf, dd: int, a0: int) {
    && Reduced(c.p, c.q1, a0) && Reduced(c.p, c.q0, a0) && c.q0 >= 1 && c.q1 >= 1
    && c.q0 * c.q1 == dd - c.p * c.p
    && (c.d == 1 || c.d == -1)
    && c.x * c.x - dd * (c.y * c.y) == c.d * c.q1
    && c.xm * c.xm - dd * (c.ym * c.ym) == -(c.d * c.q0)
    && c.x * c.xm - dd * (c.y * c.ym) == -(c.d * c.p)
    && c.x * c.ym - c.y * c.xm == c.d
    && c.x >= 1 && c.y >= 1 && c.xm >= 1 && c.ym >= 0
  }

  lemma StartInv(dd: int, a0: int)
    requires Root(dd, a0)
    ensures Inv(Start(dd, a0), dd, a0)
  {
    assert (a0 + 1) * (a0 + 1) == a0 * a0 + 2 * a0 + 1;
  }

  // ---------- the walk on reduced surds ----------

  // Euclidean division by a positive Q, as mpz_tdiv_q does on nonnegative operands.
  lemma Division(n: int, q: int) returns (r: int)
    requires q > 0
    ensures n == (n / q) * q + r && 0 <= r < q
  {
    r := n % q;
  }

  lemma NextReduced(p: int, q0: int, q1: int, dd: int, a0: int, a: int, p': int, q': int)
    requires Root(dd, a0) && Reduced(p, q1, a0) && q0 >= 1 && q1 >= 1 && q0 * q1 == dd - p * p
    requires a == (a0 + p) / q1 && p' == a * q1 - p && q' == (dd - p' * p') / q1
    ensures a >= 1 && q1 * q' == dd - p' * p' && q' >= 1
    ensures Reduced(p', q1, a0) && Reduced(p', q', a0)
    ensures q' == q0 - a * a * q1 + 2 * a * p
  {
    var r := Division(a0 + p, q1);
    assert p' == a0 - r;
    if a <= 0 { MulMono(a, 0, q1); }
    if p' <= 0 {
      // then q1 > a0, so a = 1 and p' = q1 - p > 0
      if a >= 2 { MulMono(2, a, q1); }
    }
    var k := q0 - a * a * q1 + 2 * a * p;
    NextQ(p, q0, q1, dd, a, p');
    assert q1 * k == dd - p' * p';
    DivExact(dd - p' * p', q1, k);
    MulMono(p', a0, p'); MulMono(p', a0, a0);
    assert q1 * k > 0;
    if k <= 0 { MulMono(k, 0, q1); }
    MulMono(1, a, q1);
    NextBounds(p', q1, k, dd, a0);
  }

  lemma NextQ(p: int, q0: int, q1: int, dd: int, a: int, p': int)
    requires q0 * q1 == dd - p * p && p' == a * q1 - p
    ensures q1 * (q0 - a * a * q1 + 2 * a * p) == dd - p' * p'
  {
    assert p' * p' == a * a * q1 * q1 - 2 * a * q1 * p + p * p;
    assert q1 * (q0 - a * a * q1 + 2 * a * p) == q0 * q1 - a * a * q1 * q1 + 2 * a * p * q1;
  }

  lemma DivExact(n: int, q: int, k: int)
    requires q > 0 && n == q * k
    ensures n / q == k
  {
    var r := Division(n, q);
    assert (k - n / q) * q == r;
    SmallMultiple(k - n / q, q);
  }

  // The product Q Q' = D - P'^2 lies between the products of the bounds.
  lemma NextBounds(p': int, q: int, q': int, dd: int, a0: int)
    requires Root(dd, a0) && 0 < p' <= a0 && q >= 1 && q' >= 1 && q * q' == dd - p' * p'
    requires a0 - p' < q <= a0 + p'
    ensures a0 - p' < q' <= a0 + p'
  {
    assert (a0 - p') * (a0 + p') == a0 * a0 - p' * p';
    assert (a0 + p' + 1) * (a0 - p' + 1) == (a0 + 1) * (a0 + 1) - p' * p';
    MulMono(q, a0 + p', q');
    MulMono(a0 - p' + 1, q, q');
    if q' <= a0 - p' { MulMono(q', a0 - p', a0 + p'); }
    if q' >= a0 + p' + 1 { MulMono(a0 + p' + 1, q', a0 - p' + 1); }
  }

  /** Each pass keeps the norm equations, exact divisions and bounds. */
  lemma NextInv(c: Cf, dd: int, a0: int)
    requires Root(dd, a0) && Inv(c, dd, a0)
    ensures Inv(Next(c, dd, a0), dd, a0)
    ensures Quot(c, a0) >= 1
    ensures Next(c, dd, a0).q1 * c.q1 == dd - Next(c, dd, a0).p * Next(c, dd, a0).p
  {
    var a, n := Quot(c, a0), Next(c, dd, a0);
    NextReduced(c.p, c.q0, c.q1, dd, a0, a, n.p, n.q1);
    NextNorm(c.x, c.xm, c.y, c.ym, dd, a, c.d, c.p, c.q0, c.q1);
    NextCross(c.x, c.xm, c.y, c.ym, dd, a, c.d, c.p, c.q1);
    NextDet(c.x, c.xm, c.y, c.ym, a, c.d);
    MulMono(1, a, c.x); MulMono(1, a, c.y);
  }

  lemma NextNorm(x: int, xm: int, y: int, ym: int, dd: int, a: int, d: int, p: int, q0: int, q1: int)
    requires x * x - dd * (y * y) == d * q1 && xm * xm - dd * (ym * ym) == -(d * q0) && x * xm - dd * (y * ym) == -(d * p)
    ensures (a * x + xm) * (a * x + xm) - dd * ((a * y + ym) * (a * y + ym)) == -d * (q0 - a * a * q1 + 2 * a * p)
  {
    NormExpand(x, xm, y, ym, dd, a);
    assert a * a * (d * q1) + 2 * a * -(d * p) + -(d * q0) == -d * (q0 - a * a * q1 + 2 * a * p);
  }

  lemma NormExpand(x: int, xm: int, y: int, ym: int, dd: int, a: int)
    ensures (a * x + xm) * (a * x + xm) - dd * ((a * y + ym) * (a * y + ym))
            == a * a * (x * x - dd * (y * y)) + 2 * a * (x * xm - dd * (y * ym)) + (xm * xm - dd * (ym * ym))
  {}

  lemma NextCross(x: int, xm: int, y: int, ym: int, dd: int, a: int, d: int, p: int, q1: int)
    requires x * x - dd * (y * y) == d * q1 && x * xm - dd * (y * ym) == -(d * p)
    ensures (a * x + xm) * x - dd * ((a * y + ym) * y) == -(-d * (a * q1 - p))
  {
    assert (a * x + xm) * x - dd * ((a * y + ym) * y) == a * (x * x - dd * (y * y)) + (x * xm - dd * (y * ym));
    assert a * (d * q1) + -(d * p) == -(-d * (a * q1 - p));
  }

  lemma NextDet(x: int, xm: int, y: int, ym: int, a: int, d: int)
    requires x * ym - y * xm == d
    ensures (a * x + xm) * y - (a * y + ym) * x == -d
  {
    assert (a * x + xm) * y - (a * y + ym) * x == -(x * ym - y * xm);
  }

  // ---------- termination ----------

  // What determines the rest of the walk.
  datatype State = State(p: int, q: int, d: int)

  function StateOf(c: Cf): State { State(c.p, c.q1, c.d) }

  function NextState(s: State, dd: int, a0: int): State
    requires s.q != 0
  {
    var p := (a0 + s.p) / s.q * s.q - s.p;
    State(p, (dd - p * p) / s.q, -s.d)
  }

  ghost predicate Good(s: State, dd: int, a0: int) {
    && Reduced(s.p, s.q, a0) && s.q >= 1 && (s.d == 1 || s.d == -1)
    && exists q0 :: Before(s, q0, dd, a0)
  }

  // The denominator of the previous surd.
  ghost predicate Before(s: State, q0: int, dd: int, a0: int) {
    q0 >= 1 && Reduced(s.p, q0, a0) && q0 * s.q == dd - s.p * s.p
  }

  lemma GoodState(c: Cf, dd: int, a0: int)
    requires Inv(c, dd, a0)
    ensures Good(StateOf(c), dd, a0)
  {
    assert Before(StateOf(c), c.q0, dd, a0);
  }

  // Two numbers in (a0 - q, a0] that differ by a multiple of q are equal.
  lemma WindowUnique(p: int, r: int, a: int, b: int, q: int, a0: int)
    requires q >= 1 && a0 - q < p <= a0 && a0 - q < r <= a0 && a * q - p == b * q - r
    ensures p == r
  {
    assert p - r == (a - b) * q;
    SmallMultiple(a - b, q);
  }

  /** The step on reduced surds is injective. */
  lemma NextInjective(s: State, t: State, dd: int, a0: int)
    requires Root(dd, a0) && Good(s, dd, a0) && Good(t, dd, a0)
    requires NextState(s, dd, a0) == NextState(t, dd, a0)
    ensures s == t
  {
    var sq :| Before(s, sq, dd, a0);
    var tq :| Before(t, tq, dd, a0);
    var n := NextState(s, dd, a0);
    NextReduced(s.p, sq, s.q, dd, a0, (a0 + s.p) / s.q, n.p, n.q);
    NextReduced(t.p, tq, t.q, dd, a0, (a0 + t.p) / t.q, n.p, n.q);
    SameFactor(s.q, t.q, n.q);
    WindowUnique(s.p, t.p, (a0 + s.p) / s.q, (a0 + t.p) / t.q, s.q, a0);
  }

  lemma SameFactor(a: int, b: int, c: int)
    requires c >= 1 && a * c == b * c
    ensures a == b
  {
    assert (a - b) * c == 0;
    SmallMultiple(a - b, c);
  }

  // The state in which the solver stops: P = a0, Q = 1, positive sign.
  function Stop(a0: int): State { State(a0, 1, 1) }

  // The program's test 2*a0 == a1 && d == 1 recognises exactly that state.
  lemma StopTest(c: Cf, dd: int, a0: int)
    requires Root(dd, a0) && Inv(c, dd, a0)
    ensures 2 * a0 == Quot(c, a0) && c.d == 1 <==> StateOf(c) == Stop(a0)
  {
    var r := Division(a0 + c.p, c.q1);
    StopBound(c.p, c.q1, a0, Quot(c, a0), r);
  }

  lemma StopBound(p: int, q: int, a0: int, a: int, r: int)
    requires a0 >= 1 && Reduced(p, q, a0) && q >= 1 && a0 + p == a * q + r && 0 <= r < q
    ensures 2 * a0 == a <==> q == 1 && p == a0
  {
    if a == 2 * a0 && q >= 2 { MulMono(2, q, 2 * a0); }
    if q == 1 { assert a * q == a; }
  }

  lemma StopGood(dd: int, a0: int)
    requires Root(dd, a0)
    ensures Good(Stop(a0), dd, a0)
    ensures NextState(Stop(a0), dd, a0) == StateOf(Start(dd, a0))
  {
    assert (a0 + 1) * (a0 + 1) == a0 * a0 + 2 * a0 + 1;
    assert Before(Stop(a0), dd - a0 * a0, dd, a0);
    assert (a0 + a0) / 1 * 1 - a0 == a0;
  }

  // All states lie in a finite box.
  ghost function Box(a0: int): set<State> {
    set p, q, d | 1 <= p <= a0 && 1 <= q <= 2 * a0 && -1 <= d <= 1 :: State(p, q, d)
  }

  lemma GoodInBox(s: State, dd: int, a0: int)
    requires Good(s, dd, a0)
    ensures s in Box(a0)
  {}

  // The states seen so far: each the successor of the one before, all different, none the stop state.
  ghost predicate Walk(h: seq<State>, dd: int, a0: int) {
    && |h| >= 1 && h[0] == StateOf(Start(dd, a0))
    && (forall i :: 0 <= i < |h| ==> Good(h[i], dd, a0))
    && (forall i :: 0 <= i < |h| - 1 ==> h[i] != Stop(a0) && h[i + 1] == NextState(h[i], dd, a0))
  }

  ghost function Seen(h: seq<State>): set<State> { set s | s in h }

  /** A walk that has not stopped reaches a state it has not seen: the step is injective and
      the start is the successor of the stop state. */
  lemma Fresh(h: seq<State>, j: nat, dd: int, a0: int)
    requires Root(dd, a0) && Walk(h, dd, a0) && j < |h|
    requires h[|h| - 1] != Stop(a0) && (forall i, k :: 0 <= i < k < |h| ==> h[i] != h[k])
    ensures h[j] != NextState(h[|h| - 1], dd, a0)
  {
    var last := h[|h| - 1];
    if h[j] == NextState(last, dd, a0) {
      if j == 0 {
        StopGood(dd, a0);
        NextInjective(last, Stop(a0), dd, a0);
      } else {
        NextInjective(last, h[j - 1], dd, a0);
      }
    }
  }

  // ---------- minimality ----------

  ghost predicate Unit(x: int, y: int, dd: int) { x >= 1 && y >= 1 && x * x - dd * (y * y) == 1 }

  // (u, w) in the basis of the last two convergents.
  function Alpha(c: Cf, u: int, w: int): int { c.d * (u * c.ym - w * c.xm) }

  function Beta(c: Cf, u: int, w: int): int { c.d * (w * c.x - u * c.y) }

  // A solution lies in the cone of the last two convergents.
  ghost predicate InCone(c: Cf, u: int, w: int) { Alpha(c, u, w) >= 1 && Beta(c, u, w) >= 0 }

  lemma Coordinates(c: Cf, u: int, w: int, dd: int, a0: int)
    requires Inv(c, dd, a0)
    ensures u == Alpha(c, u, w) * c.x + Beta(c, u, w) * c.xm
    ensures w == Alpha(c, u, w) * c.y + Beta(c, u, w) * c.ym
  {
    CramerIdentity(c.d, u, w, c.x, c.xm, c.y, c.ym);
    SignSquare(c.d, u); SignSquare(c.d, w);
  }

  lemma SignSquare(d: int, u: int)
    requires d == 1 || d == -1
    ensures d * (u * d) == u
  {}

  lemma CramerIdentity(d: int, u: int, w: int, x: int, xm: int, y: int, ym: int)
    ensures d * (u * ym - w * xm) * x + d * (w * x - u * y) * xm == d * (u * (x * ym - y * xm))
    ensures d * (u * ym - w * xm) * y + d * (w * x - u * y) * ym == d * (w * (x * ym - y * xm))
  {}

  // The norm of a solution in these coordinates.
  lemma NormForm(c: Cf, u: int, w: int, dd: int, a0: int)
    requires Inv(c, dd, a0) && Unit(u, w, dd)
    ensures var al, be := Alpha(c, u, w), Beta(c, u, w);
            al * al * c.q1 - 2 * (al * be) * c.p - be * be * c.q0 == c.d
  {
    Coordinates(c, u, w, dd, a0);
    var al, be := Alpha(c, u, w), Beta(c, u, w);
    FormExpand(al, be, c.x, c.xm, c.y, c.ym, dd);
    FormSign(al, be, c.d, c.q1, c.p, c.q0);
  }

  lemma FormExpand(al: int, be: int, x: int, xm: int, y: int, ym: int, dd: int)
    ensures (al * x + be * xm) * (al * x + be * xm) - dd * ((al * y + be * ym) * (al * y + be * ym))
            == al * al * (x * x - dd * (y * y)) + 2 * (al * be) * (x * xm - dd * (y * ym)) + be * be * (xm * xm - dd * (ym * ym))
  {
    SquareSum(al, x, be, xm);
    SquareSum(al, y, be, ym);
    Distribute(al * al, x * x, y * y, 2 * (al * be), x * xm, y * ym, be * be, xm * xm, ym * ym, dd);
  }

  lemma SquareSum(a: int, x: int, b: int, y: int)
    ensures (a * x + b * y) * (a * x + b * y) == a * a * (x * x) + 2 * (a * b) * (x * y) + b * b * (y * y)
  {}

  lemma Distribute(a: int, x: int, y: int, b: int, u: int, v: int, c: int, w: int, z: int, dd: int)
    ensures (a * x + b * u + c * w) - dd * (a * y + b * v + c * z) == a * (x - dd * y) + b * (u - dd * v) + c * (w - dd * z)
  {}

  lemma FormSign(al: int, be: int, d: int, q1: int, p: int, q0: int)
    requires d == 1 || d == -1
    ensures al * al * (d * q1) + 2 * (al * be) * -(d * p) + be * be * -(d * q0) == d * (al * al * q1 - 2 * (al * be) * p - be * be * q0)
    ensures d * (al * al * q1 - 2 * (al * be) * p - be * be * q0) == 1 <==> al * al * q1 - 2 * (al * be) * p - be * be * q0 == d
  {}

  // No integer t fits between the two bounds a reduced surd leaves.
  lemma Squeeze(t: int, be: int, p: int, q: int, q': int, dd: int, a0: int)
    requires be >= 1 && q >= 1 && 0 < p <= a0 && a0 - p < q' && q <= a0 + p && q * q' == dd - p * p
    requires t * t == dd * (be * be) - q
    ensures !(0 <= t <= be * p - q)
  {
    if 0 <= t <= be * p - q {
      SquareMono(t, be * p - q);
      SqueezeForm(t, be, p, q, q', dd);
      SqueezeBound(be, p, q, q', a0);
    }
  }

  lemma SqueezeForm(t: int, be: int, p: int, q: int, q': int, dd: int)
    requires q >= 1 && q * q' == dd - p * p && t * t == dd * (be * be) - q && t * t <= (be * p - q) * (be * p - q)
    ensures q' * (be * be) + 2 * (be * p) <= q + 1
  {
    SqueezeExpand(be, p, q, q', dd);
    CancelLe(q' * (be * be) + 2 * (be * p), q + 1, q);
  }

  lemma SqueezeBound(be: int, p: int, q: int, q': int, a0: int)
    requires be >= 1 && q >= 1 && 0 < p <= a0 && a0 - p < q' && q <= a0 + p
    requires q' * (be * be) + 2 * (be * p) <= q + 1
    ensures be * p < q
  {
    if be >= 2 {
      MulMono(2, be, p);
      MulMono(1, be, be);
      MulMono(1, be * be, q');
    }
  }

  lemma SqueezeExpand(be: int, p: int, q: int, q': int, dd: int)
    requires q * q' == dd - p * p
    ensures dd * (be * be) - (be * p - q) * (be * p - q) == q * (q' * (be * be) + 2 * (be * p)) - q * q
  {
    assert (be * p - q) * (be * p - q) == p * p * (be * be) - 2 * q * (be * p) + q * q;
    assert (dd - p * p) * (be * be) == q * (q' * (be * be));
  }

  lemma CancelLe(a: int, b: int, c: int)
    requires c >= 1 && a * c <= b * c
    ensures a <= b
  {
    if a >= b + 1 { MulMono(b + 1, a, c); }
  }

  // The next coordinates are again nonnegative.
  lemma ConeStep(al: int, be: int, p: int, q0: int, q1: int, d: int, dd: int, a0: int, a: int)
    requires Root(dd, a0) && Reduced(p, q1, a0) && Reduced(p, q0, a0) && q0 >= 1 && q1 >= 1 && q0 * q1 == dd - p * p
    requires a == (a0 + p) / q1 && (d == 1 || d == -1) && al >= 1 && be >= 1
    requires al * al * q1 - 2 * (al * be) * p - be * be * q0 == d
    ensures al >= a * be
  {
    var p' := a * q1 - p;
    NextReduced(p, q0, q1, dd, a0, a, p', (dd - p' * p') / q1);
    CompleteSquare(al, be, p, q0, q1, d, dd);
    if al <= a * be - 1 {
      ConeBounds(al, be, p, q1, a);
      ConeImpossible(al * q1 - be * p, be, p, q0, p', (dd - p' * p') / q1, q1, d, dd, a0);
    }
  }

  lemma ConeBounds(al: int, be: int, p: int, q1: int, a: int)
    requires al >= 1 && q1 >= 1 && al <= a * be - 1
    ensures q1 - be * p <= al * q1 - be * p <= be * (a * q1 - p) - q1
  {
    MulMono(al, a * be - 1, q1);
    MulMono(1, al, q1);
    assert (a * be - 1) * q1 - be * p == be * (a * q1 - p) - q1;
  }

  lemma ConeImpossible(t: int, be: int, p: int, q0: int, p': int, q': int, q1: int, d: int, dd: int, a0: int)
    requires Root(dd, a0) && Reduced(p, q1, a0) && Reduced(p, q0, a0) && Reduced(p', q1, a0) && Reduced(p', q', a0)
    requires be >= 1 && q1 >= 1 && q1 * q0 == dd - p * p && q1 * q' == dd - p' * p'
    requires (d == 1 || d == -1) && t * t == dd * (be * be) + d * q1
    ensures !(q1 - be * p <= t <= be * p' - q1)
  {
    if d == -1 {
      Squeeze(t, be, p', q1, q', dd, a0);
      NegSquare(t);
      Squeeze(-t, be, p, q1, q0, dd, a0);
    } else {
      SquareBound(t, be, if t >= 0 then p' else p, dd, a0);
      MulMono(0, be, p); MulMono(0, be, p');
    }
  }

  lemma NegSquare(t: int)
    ensures -t * -t == t * t
  {}

  lemma CompleteSquare(al: int, be: int, p: int, q0: int, q1: int, d: int, dd: int)
    requires q0 * q1 == dd - p * p && al * al * q1 - 2 * (al * be) * p - be * be * q0 == d
    ensures (al * q1 - be * p) * (al * q1 - be * p) == dd * (be * be) + d * q1
  {
    assert (al * al * q1 - 2 * (al * be) * p - be * be * q0) * q1 == d * q1;
    assert (al * q1 - be * p) * (al * q1 - be * p) == (al * al * q1 - 2 * (al * be) * p - be * be * q0) * q1 + (p * p + q0 * q1) * (be * be);
  }

  // |t| at most be*p contradicts t^2 > dd*be^2.
  lemma SquareBound(t: int, be: int, p: int, dd: int, a0: int)
    requires Root(dd, a0) && be >= 1 && 0 < p <= a0 && t * t > dd * (be * be)
    ensures !(-(be * p) <= t <= be * p)
  {
    var w := be * p;
    assert w * w == p * p * (be * be);
    SquareMono(p, a0);
    MulMono(p * p, dd, be * be);
    if 0 <= t <= w { SquareMono(t, w); }
    if -w <= t < 0 { SquareMono(-t, w); }
  }

  /** Until the solver stops, every solution of x^2 - D y^2 = 1 stays in the cone of the convergents. */
  lemma ConeNext(c: Cf, u: int, w: int, dd: int, a0: int)
    requires Root(dd, a0) && Inv(c, dd, a0) && Unit(u, w, dd) && InCone(c, u, w) && StateOf(c) != Stop(a0)
    ensures InCone(Next(c, dd, a0), u, w)
  {
    var al, be, a := Alpha(c, u, w), Beta(c, u, w), Quot(c, a0);
    NormForm(c, u, w, dd, a0);
    if be == 0 {
      UnitForm(al, c.q1, c.d);
    } else {
      ConeStep(al, be, c.p, c.q0, c.q1, c.d, dd, a0, a);
      NextCoordinates(c.d, u, w, c.x, c.xm, c.y, c.ym, a);
    }
  }

  lemma UnitForm(al: int, q1: int, d: int)
    requires al >= 1 && q1 >= 1 && (d == 1 || d == -1) && al * al * q1 - 2 * (al * 0) * 0 - 0 == d
    ensures q1 == 1 && d == 1
  {
    MulMono(1, al, al); MulMono(1, al * al, q1);
  }

  lemma NextCoordinates(d: int, u: int, w: int, x: int, xm: int, y: int, ym: int, a: int)
    ensures -d * (u * y - w * x) == d * (w * x - u * y)
    ensures -d * (w * (a * x + xm) - u * (a * y + ym)) == d * (u * ym - w * xm) - a * (d * (w * x - u * y))
  {}

  lemma ConeStart(u: int, w: int, dd: int, a0: int)
    requires Root(dd, a0) && Unit(u, w, dd)
    ensures InCone(Start(dd, a0), u, w)
  {
    // u > a0 * w as u^2 > a0^2 w^2
    SquareProduct(a0, w);
    MulMono(a0 * a0, dd, w * w);
    if u <= a0 * w { SquareMono(u, a0 * w); }
  }

  lemma SquareProduct(a: int, w: int)
    ensures (a * w) * (a * w) == a * a * (w * w)
  {}

  /** At the stop state every solution is at least the convergent. */
  lemma ConeMinimal(c: Cf, u: int, w: int, dd: int, a0: int)
    requires Inv(c, dd, a0) && InCone(c, u, w)
    ensures u >= c.x && w >= c.y
  {
    Coordinates(c, u, w, dd, a0);
    MulMono(1, Alpha(c, u, w), c.x); MulMono(1, Alpha(c, u, w), c.y);
    MulMono(0, Beta(c, u, w), c.xm); MulMono(0, Beta(c, u, w), c.ym);
  }

  // ---------- the solver ----------

  ghost predicate Square(n: int) { exists r :: r >= 0 && n == Times(r, r) }

  // mpz_sqrt
  method Isqrt(n: nat) returns (r: nat)
    ensures r * r <= n < (r + 1) * (r + 1)
  {
    r := 0;
    while (r + 1) * (r + 1) <= n
      invariant r * r <= n
      decreases n - r * r
    {
      r := r + 1;
    }
  }

  function Abs(n: int): nat { if n < 0 then -n else n }

  // The f up to k, in order, whose squares divide N.
  function SquareRoots(n: int, k: nat): (r: seq<int>)
    ensures forall i :: 0 <= i < |r| ==> 1 <= r[i] <= k && Abs(n) % (r[i] * r[i]) == 0
  {
    if k == 0 then [] else
      MulMono(1, k, k);
      SquareRoots(n, k - 1) + if Abs(n) % (k * k) == 0 then [k] else []
  }

  // The square factors f^2 of N, as the program collects their roots.
  method SquareFactors(n: int) returns (listf: seq<int>, ghost k: nat)
    ensures listf == SquareRoots(n, k) && k * k <= Abs(n) < (k + 1) * (k + 1)
  {
    listf := [];
    var f := 1;
    while f * f <= Abs(n)
      invariant f >= 1 && listf == SquareRoots(n, f - 1) && (f - 1) * (f - 1) <= Abs(n)
      decreases Abs(n) + 1 - f
    {
      MulMono(1, f, f);
      if Abs(n) % (f * f) == 0 {
        listf := listf + [f];
      }
      f := f + 1;
    }
    k := f - 1;
  }

  // x^2 - D y^2 = N
  ghost predicate Solves(x: int, y: int, dd: int, n: int) { x >= 1 && y >= 1 && x * x - dd * (y * y) == n }

  ghost predicate AllSolve(xs: seq<int>, ys: seq<int>, dd: int, n: int) {
    |xs| == |ys| && forall i :: 0 <= i < |xs| ==> Solves(xs[i], ys[i], dd, n)
  }

  // A convergent of norm N/f^2 scales to a solution.
  lemma Scaled(c: Cf, f: int, dd: int, a0: int, n: int)
    requires Inv(c, dd, a0) && f >= 1 && Divides(f * f, Abs(n))
    requires c.d == (if n > 0 then 1 else -1) && c.q1 == Abs(n) / (f * f)
    ensures Solves(c.x * f, c.y * f, dd, n)
  {
    var k :| Abs(n) == Times(f * f, k);
    MulMono(1, f, f);
    DivExact(Abs(n), f * f, k);
    ScaleNorm(c.x, c.y, dd, f, c.d * k);
    MulMono(1, f, c.x); MulMono(1, f, c.y);
    SignOut(f * f, c.d, k);
  }

  lemma SignOut(a: int, d: int, k: int)
    ensures a * (d * k) == d * (a * k)
  {}

  lemma ScaleNorm(x: int, y: int, dd: int, f: int, m: int)
    requires x * x - dd * (y * y) == m
    ensures (x * f) * (x * f) - dd * ((y * f) * (y * f)) == f * f * m
  {
    assert (x * f) * (x * f) == f * f * (x * x) && (y * f) * (y * f) == f * f * (y * y);
    assert f * f * (x * x) - dd * (f * f * (y * y)) == f * f * (x * x - dd * (y * y));
  }

  function Sign(n: int): int { if n > 0 then 1 else -1 }

  // What convergent c of the right sign contributes: its multiples by the first k roots f with Q1 = N/f^2.
  function FoundX(c: Cf, listf: seq<int>, k: nat, n: int): seq<int>
    requires k <= |listf| && forall i :: 0 <= i < |listf| ==> listf[i] >= 1
  {
    if k == 0 then [] else
      MulMono(1, listf[k - 1], listf[k - 1]);
      FoundX(c, listf, k - 1, n) + if c.q1 == Abs(n) / (listf[k - 1] * listf[k - 1]) then [c.x * listf[k - 1]] else []
  }

  function FoundY(c: Cf, listf: seq<int>, k: nat, n: int): seq<int>
    requires k <= |listf| && forall i :: 0 <= i < |listf| ==> listf[i] >= 1
  {
    if k == 0 then [] else
      MulMono(1, listf[k - 1], listf[k - 1]);
      FoundY(c, listf, k - 1, n) + if c.q1 == Abs(n) / (listf[k - 1] * listf[k - 1]) then [c.y * listf[k - 1]] else []
  }

  // All contributions of a list of convergents.
  function AllX(cs: seq<Cf>, listf: seq<int>, n: int): seq<int>
    requires forall i :: 0 <= i < |listf| ==> listf[i] >= 1
  {
    if |cs| == 0 then [] else
      var c := cs[|cs| - 1];
      AllX(cs[..|cs| - 1], listf, n) + if c.d == Sign(n) then FoundX(c, listf, |listf|, n) else []
  }

  function AllY(cs: seq<Cf>, listf: seq<int>, n: int): seq<int>
    requires forall i :: 0 <= i < |listf| ==> listf[i] >= 1
  {
    if |cs| == 0 then [] else
      var c := cs[|cs| - 1];
      AllY(cs[..|cs| - 1], listf, n) + if c.d == Sign(n) then FoundY(c, listf, |listf|, n) else []
  }

  // The convergents from the first one on.
  ghost predicate Expansion(cs: seq<Cf>, dd: int, a0: int) {
    |cs| >= 1 && cs[0] == Start(dd, a0) && forall i :: 0 < i < |cs| ==> Follows(cs[i - 1], cs[i], dd, a0)
  }

  predicate Follows(c: Cf, c': Cf, dd: int, a0: int) {
    c.q1 != 0 && StateOf(c) != Stop(a0) && c' == Next(c, dd, a0)
  }

  lemma AllNext(cs: seq<Cf>, c: Cf, listf: seq<int>, n: int)
    requires forall i :: 0 <= i < |listf| ==> listf[i] >= 1
    ensures AllX(cs + [c], listf, n) == AllX(cs, listf, n) + if c.d == Sign(n) then FoundX(c, listf, |listf|, n) else []
    ensures AllY(cs + [c], listf, n) == AllY(cs, listf, n) + if c.d == Sign(n) then FoundY(c, listf, |listf|, n) else []
  {
    assert (cs + [c])[..|cs|] == cs;
  }

  // Matches of the current convergent against the square factors.
  method Collect(listf: seq<int>, xs: seq<int>, ys: seq<int>, p0: int, q0: int, bigQ: int, n: int, ghost c: Cf, dd: int, ghost a0: int)
    returns (xs': seq<int>, ys': seq<int>)
    requires forall i :: 0 <= i < |listf| ==> listf[i] >= 1 && Abs(n) % (listf[i] * listf[i]) == 0
    requires Inv(c, dd, a0) && p0 == c.x && q0 == c.y && bigQ == c.q1 && c.d == Sign(n)
    requires AllSolve(xs, ys, dd, n)
    ensures AllSolve(xs', ys', dd, n)
    ensures xs' == xs + FoundX(c, listf, |listf|, n) && ys' == ys + FoundY(c, listf, |listf|, n)
  {
    xs', ys' := xs, ys;
    for i := 0 to |listf|
      invariant AllSolve(xs', ys', dd, n)
      invariant xs' == xs + FoundX(c, listf, i, n) && ys' == ys + FoundY(c, listf, i, n)
    {
      var f := listf[i];
      MulMono(1, f, f);
      if bigQ == Abs(n) / (f * f) {
        var k := ModWitness(Abs(n), f * f);
        DividesIntro(f * f, k, Abs(n));
        Scaled(c, f, dd, a0, n);
        xs' := xs' + [p0 * f];
        ys' := ys' + [q0 * f];
      }
    }
  }

  // The history after one more pass.
  lemma WalkNext(h: seq<State>, s: State, dd: int, a0: int)
    requires Root(dd, a0) && Walk(h, dd, a0) && h[|h| - 1] != Stop(a0) && Good(s, dd, a0)
    requires s == NextState(h[|h| - 1], dd, a0) && (forall i, k :: 0 <= i < k < |h| ==> h[i] != h[k])
    ensures Walk(h + [s], dd, a0) && (forall i, k :: 0 <= i < k < |h + [s]| ==> (h + [s])[i] != (h + [s])[k])
    ensures Seen(h + [s]) == Seen(h) + {s} && s !in Seen(h) && s in Box(a0)
  {
    forall j | 0 <= j < |h| ensures h[j] != s { Fresh(h, j, dd, a0); }
    GoodInBox(s, dd, a0);
    assert forall t :: t in h + [s] <==> t in h || t == s;
  }

  // The pairs are all the matches of one full period of convergents, which ends in (minx, miny).
  ghost predicate PellList(xs: seq<int>, ys: seq<int>, minx: int, miny: int, dd: int, n: int) {
    exists cs, a0, k: nat :: FullPeriod(cs, a0, k, xs, ys, minx, miny, dd, n)
  }

  ghost predicate FullPeriod(cs: seq<Cf>, a0: int, k: nat, xs: seq<int>, ys: seq<int>, minx: int, miny: int, dd: int, n: int) {
    && Root(dd, a0) && Expansion(cs, dd, a0) && StateOf(cs[|cs| - 1]) == Stop(a0)
    && cs[|cs| - 1].x == minx && cs[|cs| - 1].y == miny
    && k * k <= Abs(n) < (k + 1) * (k + 1)
    && xs == AllX(cs, SquareRoots(n, k), n) && ys == AllY(cs, SquareRoots(n, k), n)
  }

  /** general_pell: terminates for every nonsquare D; every pair it reports solves x^2 - D y^2 = N, the pairs
      are all multiples f of convergents of one full period with f^2 Q = N, and (minx, miny) is the least positive
      solution of x^2 - D y^2 = 1. */
  method GeneralPell(dd: int, n: int) returns (xs: seq<int>, ys: seq<int>, minx: int, miny: int)
    requires dd > 0 && !Square(dd)
    ensures AllSolve(xs, ys, dd, n)
    ensures PellList(xs, ys, minx, miny, dd, n)
    ensures Unit(minx, miny, dd)
    ensures forall u, w :: Unit(u, w, dd) ==> minx <= u && miny <= w
  {
    hide Unit, InCone, Inv, AllSolve, Walk, Good, SquareRoots, AllX, AllY, FoundX, FoundY;
    var listf;
    ghost var k;
    listf, k := SquareFactors(n);
    var a0 := Isqrt(dd);
    RootOfNonsquare(dd, a0);
    ghost var c := Start(dd, a0);
    StartInv(dd, a0);
    GoodState(c, dd, a0);
    forall u, w | Unit(u, w, dd) ensures InCone(c, u, w) { ConeStart(u, w, dd, a0); }

    xs, ys := [], [];
    var p1, q1 := a0, a0 * a0;
    q1 := dd - q1;
    InvPositive(c, dd, a0);
    var a1 := a0 + p1;
    a1 := a1 / q1;
    var twiceA0 := a0 + a0;
    var x0, y0 := a0, 1;
    var x1 := a0 * a1;
    x1 := x1 + 1;
    var y1 := a1;
    var d := -1;
    ghost var h := [StateOf(c)];
    WalkStart(dd, a0);
    EmptySolves(dd, n);
    ghost var cs := [c];
    AllStart(c, listf, n);
    ghost var done: seq<Cf> := [];
    while true
      invariant cs == done + [c] && Expansion(cs, dd, a0) && xs == AllX(done, listf, n) && ys == AllY(done, listf, n)
      invariant Inv(c, dd, a0) && c.p == p1 && c.q1 == q1 && c.x == x0 && c.y == y0 && c.d == d && q1 >= 1
      invariant a1 == Quot(c, a0) && x1 == a1 * c.x + c.xm && y1 == a1 * c.y + c.ym
      invariant AllSolve(xs, ys, dd, n)
      invariant Walk(h, dd, a0) && |h| >= 1 && h[|h| - 1] == StateOf(c)
      invariant forall i, k :: 0 <= i < k < |h| ==> h[i] != h[k]
      invariant forall u, w :: Unit(u, w, dd) ==> InCone(c, u, w)
      decreases Box(a0) - Seen(h)
    {
      AllNext(done, c, listf, n);
      if d == Sign(n) {
        xs, ys := Collect(listf, xs, ys, x0, y0, q1, n, c, dd, a0);
      }
      StopTest(c, dd, a0);
      if twiceA0 == a1 && d == 1 { break; }

      ghost var c' := Next(c, dd, a0);
      NextInv(c, dd, a0);
      InvPositive(c', dd, a0);
      GoodState(c', dd, a0);
      WalkNext(h, StateOf(c'), dd, a0);
      forall u, w | Unit(u, w, dd) ensures InCone(c', u, w) { ConeNext(c, u, w, dd, a0); }
      h := h + [StateOf(c')];
      ExpansionNext(cs, c', dd, a0);
      done := cs;
      cs := cs + [c'];
      c := c';

      var oldP := p1;
      p1 := a1 * q1;
      p1 := p1 - oldP;
      var oldQ := q1;
      q1 := p1 * p1;
      q1 := dd - q1;
      q1 := q1 / oldQ;
      a1 := a0 + p1;
      a1 := a1 / q1;

      var pnext := a1 * x1;
      pnext := pnext + x0;
      x0 := x1;
      x1 := pnext;
      var qnext := a1 * y1;
      qnext := qnext + y0;
      y0 := y1;
      y1 := qnext;
      d := -d;
    }
    minx, miny := x0, y0;
    assert FullPeriod(cs, a0, k, xs, ys, minx, miny, dd, n);
    StopUnit(c, dd, a0);
    forall u, w | Unit(u, w, dd) ensures minx <= u && miny <= w { ConeMinimal(c, u, w, dd, a0); }
  }

  lemma AllStart(c: Cf, listf: seq<int>, n: int)
    requires forall i :: 0 <= i < |listf| ==> listf[i] >= 1
    ensures AllX([], listf, n) == [] && AllY([], listf, n) == [] && [] + [c] == [c]
  {}

  lemma ExpansionNext(cs: seq<Cf>, c: Cf, dd: int, a0: int)
    requires Expansion(cs, dd, a0) && cs[|cs| - 1].q1 != 0 && StateOf(cs[|cs| - 1]) != Stop(a0) && c == Next(cs[|cs| - 1], dd, a0)
    ensures Expansion(cs + [c], dd, a0)
  {}

  lemma RootOfNonsquare(dd: int, a0: nat)
    requires dd > 0 && !Square(dd) && a0 * a0 <= dd < (a0 + 1) * (a0 + 1)
    ensures Root(dd, a0)
  {
    assert a0 * a0 == Times(a0, a0);
  }

  lemma InvPositive(c: Cf, dd: int, a0: int)
    requires Inv(c, dd, a0)
    ensures c.q1 >= 1 && c.q0 >= 1
  {}

  lemma WalkStart(dd: int, a0: int)
    requires Root(dd, a0) && Good(StateOf(Start(dd, a0)), dd, a0)
    ensures Walk([StateOf(Start(dd, a0))], dd, a0)
  {}

  lemma EmptySolves(dd: int, n: int)
    ensures AllSolve([], [], dd, n)
  {}

  lemma StopUnit(c: Cf, dd: int, a0: int)
    requires Inv(c, dd, a0) && StateOf(c) == Stop(a0)
    ensures Unit(c.x, c.y, dd)
  {}
}
