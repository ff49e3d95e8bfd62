/** Every positive solution of x^2 - D y^2 = N with N^2 < D lies on the orbit, under multiplication by the least
    unit, of a pair that general_pell (ecc/mnt.c) reports. */
module PellOrbits {
  import opened Modular
  import opened Pell
  import opened Mnt

  // ---------- the norm of a point inside a cone ----------

  // The point al c + be c' of the cone of two convergents has this norm, up to the sign d.
  function Form(al: int, be: int, p: int, q0: int, q1: int): int {
    al * al * q1 - 2 * (al * be) * p - be * be * q0
  }

  // One step of the continued fraction in these coordinates.
  lemma FormNext(al: int, be: int, p: int, q0: int, q1: int, a: int)
    ensures var p', q' := a * q1 - p, q0 - a * a * q1 + 2 * a * p;
            Form(al, be, p, q0, q1) == -(be * be * q' - 2 * (be * (al - a * be)) * p' - (al - a * be) * (al - a * be) * q1)
  {
    var t := al - a * be;
    assert al == a * be + t;
    assert al * al == a * a * (be * be) + 2 * (a * (be * t)) + t * t;
    assert al * be == a * (be * be) + be * t;
    Collected(be * be, be * t, t * t, p, q0, q1, a);
  }

  lemma Collected(bb: int, bt: int, tt: int, p: int, q0: int, q1: int, a: int)
    ensures (a * a * bb + 2 * (a * bt) + tt) * q1 - 2 * (a * bb + bt) * p - bb * q0
         == -(bb * (q0 - a * a * q1 + 2 * a * p) - 2 * bt * (a * q1 - p) - tt * q1)
  {
    assert (a * a * bb + 2 * (a * bt) + tt) * q1 == bb * (a * a * q1) + 2 * (bt * (a * q1)) + tt * q1;
    assert (a * bb + bt) * p == bb * (a * p) + bt * p;
    assert bb * (q0 - a * a * q1 + 2 * a * p) == bb * q0 - bb * (a * a * q1) + bb * (2 * a * p);
    assert bt * (a * q1 - p) == bt * (a * q1) - bt * p;
    assert bb * (2 * a * p) == 2 * (bb * (a * p));
  }

  // At the edge al = 1 the norm is at least a0 + 1 in absolute value.
  lemma EdgeLarge(be: int, p: int, q0: int, q1: int, a: int, a0: int, dd: int)
    requires Root(dd, a0) && 0 < p <= a0 && q1 >= 1 && q0 >= 1 && q0 * q1 == dd - p * p && q1 <= 2 * a0
    requires a >= 1 && be >= 1 && a * be >= 2 && a * q1 <= p + a0
    ensures -Form(1, be, p, q0, q1) >= a0 + 1
  {
    // q0 > a (a0 - p)
    assert (a0 - p) * (a0 + p) == a0 * a0 - p * p;
    MulMono(a * q1, a0 + p, a0 - p);
    assert a * q1 * (a0 - p) == (a * (a0 - p)) * q1;
    if q0 <= a * (a0 - p) { MulMono(q0, a * (a0 - p), q1); }
    assert -Form(1, be, p, q0, q1) == be * be * q0 + 2 * be * p - q1;
    EdgeBound(be, p, q0, q1, a, a0);
  }

  lemma EdgeBound(be: int, p: int, q0: int, q1: int, a: int, a0: int)
    requires 0 < p <= a0 && q1 >= 1 && q0 >= a * (a0 - p) + 1 && q1 <= 2 * a0
    requires a >= 1 && be >= 1 && a * be >= 2 && a * q1 <= p + a0
    ensures be * be * q0 + 2 * be * p - q1 >= a0 + 1
  {
    var s := a0 - p;
    if be == 1 {
      MulMono(2, a, s);
      MulMono(2, a, q1);
    } else {
      LongEdge(be, p, q0, q1, a, s);
    }
  }

  lemma LongEdge(be: int, p: int, q0: int, q1: int, a: int, s: int)
    requires be >= 2 && a >= 1 && s >= 0 && p > 0 && q0 >= a * s + 1 && q1 <= 2 * (p + s)
    ensures be * be * q0 + 2 * be * p - q1 >= p + s + 1
  {
    MulMono(1, a, s);
    SquareMono(2, be);
    MulMono(4, be * be, q0) by { assert q0 >= 0; }
    MulMono(2, be, p);
    TimesAssoc(2, be, p);
  }

  // Between two edges the negated norm is at least the smaller of theirs.
  lemma Concave(al: int, m: int, be: int, p: int, q0: int, q1: int, bound: int)
    requires q1 >= 1 && 1 <= al <= m && -Form(1, be, p, q0, q1) >= bound && -Form(m, be, p, q0, q1) >= bound
    ensures -Form(al, be, p, q0, q1) >= bound
  {
    FormDifference(al, 1, be, p, q0, q1);
    FormDifference(al, m, be, p, q0, q1);
    if 2 * (be * p) >= (al + 1) * q1 {
      MulMono(0, 2 * (be * p) - (al + 1) * q1, al - 1);
    } else {
      MulMono(al + 1, al + m, q1);
      MulMono(0, (al + m) * q1 - 2 * (be * p), m - al);
    }
  }

  lemma FormDifference(al: int, m: int, be: int, p: int, q0: int, q1: int)
    ensures Form(m, be, p, q0, q1) - Form(al, be, p, q0, q1) == (m - al) * ((al + m) * q1 - 2 * (be * p))
    ensures (m - al) * ((al + m) * q1 - 2 * (be * p)) == (2 * (be * p) - (al + m) * q1) * (al - m)
  {
    assert (m - al) * ((al + m) * q1) == m * m * q1 - al * al * q1;
    assert (m - al) * (2 * (be * p)) == 2 * (m * be) * p - 2 * (al * be) * p;
    assert (m - al) * ((al + m) * q1 - 2 * (be * p)) == (m - al) * ((al + m) * q1) - (m - al) * (2 * (be * p));
  }

  // Strictly inside the part of a cone that the next cone leaves out, the norm exceeds the root of D.
  lemma InsideLarge(al: int, be: int, p: int, q0: int, q1: int, a: int, a0: int, dd: int)
    requires Root(dd, a0) && Reduced(p, q1, a0) && q1 >= 1 && q0 >= 1 && q0 * q1 == dd - p * p && a == (a0 + p) / q1
    requires be >= 1 && 1 <= al <= a * be - 1
    ensures -Form(al, be, p, q0, q1) >= a0 + 1
  {
    hide Form;
    var p' := a * q1 - p;
    var q' := (dd - p' * p') / q1;
    NextReduced(p, q0, q1, dd, a0, a, p', q');
    var r := Division(a0 + p, q1);
    EdgeLarge(be, p, q0, q1, a, a0, dd);
    Commuted(q', q1);
    EdgeLarge(be, p', q', q1, a, a0, dd);
    OtherEdge(be, p, q0, q1, a, p', q');
    Concave(al, a * be - 1, be, p, q0, q1, a0 + 1);
  }

  lemma Commuted(a: int, b: int)
    ensures a * b == b * a
  {}

  lemma OtherEdge(be: int, p: int, q0: int, q1: int, a: int, p': int, q': int)
    requires p' == a * q1 - p && q' == q0 - a * a * q1 + 2 * a * p
    ensures Form(a * be - 1, be, p, q0, q1) == Form(1, be, p', q', q1)
  {
    FormNext(a * be - 1, be, p, q0, q1, a);
    assert a * be - 1 - a * be == -1;
    assert be * -1 == -be;
    assert 2 * -be * p' == -(2 * (be * p')) && 2 * (1 * be) * p' == 2 * (be * p');
  }

  // ---------- the walk of a solution through the cones ----------

  lemma NormOf(c: Cf, x: int, y: int, dd: int, a0: int, n: int)
    requires Pell.Inv(c, dd, a0) && x * x - dd * (y * y) == n
    ensures Form(Alpha(c, x, y), Beta(c, x, y), c.p, c.q0, c.q1) == c.d * n
  {
    Coordinates(c, x, y, dd, a0);
    var al, be := Alpha(c, x, y), Beta(c, x, y);
    FormExpand(al, be, c.x, c.xm, c.y, c.ym, dd);
    FormSign(al, be, c.d, c.q1, c.p, c.q0);
    assert n == c.d * Form(al, be, c.p, c.q0, c.q1);
  }

  lemma SmallNorm(n: int, dd: int, a0: int)
    requires Root(dd, a0) && n * n < dd
    ensures -a0 <= n <= a0
  {
    if n > a0 { SquareMono(a0 + 1, n); }
    if n < -a0 { SquareMono(a0 + 1, -n); }
  }

  // A solution in the cone is a multiple of the convergent, or lies in the next cone too.
  lemma ConeOrMultiple(c: Cf, x: int, y: int, dd: int, a0: int, n: int)
    requires Root(dd, a0) && Pell.Inv(c, dd, a0) && n * n < dd && Solves(x, y, dd, n) && InCone(c, x, y)
    ensures Beta(c, x, y) >= 1 ==> Alpha(c, x, y) >= Quot(c, a0) * Beta(c, x, y) && InCone(Next(c, dd, a0), x, y)
    ensures Beta(c, x, y) == 0 ==> x == Alpha(c, x, y) * c.x && y == Alpha(c, x, y) * c.y
                                   && n == c.d * (Alpha(c, x, y) * Alpha(c, x, y) * c.q1)
  {
    var al, be, a := Alpha(c, x, y), Beta(c, x, y), Quot(c, a0);
    NormOf(c, x, y, dd, a0, n);
    SmallNorm(n, dd, a0);
    if be >= 1 {
      if al <= a * be - 1 {
        InsideLarge(al, be, c.p, c.q0, c.q1, a, a0, dd);
        SignedSmall(c.d, n, a0);
      }
      NextCoordinates(c.d, x, y, c.x, c.xm, c.y, c.ym, a);
    } else {
      Coordinates(c, x, y, dd, a0);
      assert be * c.xm == 0 && be * c.ym == 0;
      MultipleForm(al, c.p, c.q0, c.q1);
      SignedBack(c.d, al * al * c.q1, n);
    }
  }

  lemma SignedSmall(d: int, n: int, a0: int)
    requires (d == 1 || d == -1) && -a0 <= n <= a0
    ensures -a0 <= d * n <= a0
  {}

  lemma MultipleForm(al: int, p: int, q0: int, q1: int)
    ensures Form(al, 0, p, q0, q1) == al * al * q1
  {
    assert al * 0 == 0;
  }

  lemma SignedBack(d: int, v: int, n: int)
    requires (d == 1 || d == -1) && v == d * n
    ensures n == d * v
  {}

  lemma {:induction false} ExpansionInv(cs: seq<Cf>, dd: int, a0: int, i: nat)
    requires Root(dd, a0) && Expansion(cs, dd, a0) && i < |cs|
    ensures Pell.Inv(cs[i], dd, a0)
  {
    hide Pell.Inv;
    if i == 0 {
      StartInv(dd, a0);
    } else {
      ExpansionInv(cs, dd, a0, i - 1);
      assert Follows(cs[i - 1], cs[i], dd, a0);
      NextInv(cs[i - 1], dd, a0);
    }
  }

  // Every positive solution starts in the first cone.
  lemma FirstCone(x: int, y: int, dd: int, a0: int, n: int)
    requires Root(dd, a0) && n * n < dd && Solves(x, y, dd, n)
    ensures InCone(Start(dd, a0), x, y)
  {
    SmallNorm(n, dd, a0);
    if x <= a0 * y - 1 {
      SquareMono(x, a0 * y - 1);
      assert (a0 * y - 1) * (a0 * y - 1) == a0 * a0 * (y * y) - 2 * (a0 * y) + 1;
      MulMono(a0 * a0, dd, y * y);
      MulMono(1, y, a0);
    }
  }

  // Through the cones of one period: at some convergent the solution is a multiple of it, or it is past the last cone.
  lemma {:induction false} Descend(cs: seq<Cf>, dd: int, a0: int, n: int, x: int, y: int, j: nat) returns (hit: bool, i: nat)
    requires Root(dd, a0) && Expansion(cs, dd, a0) && n * n < dd && Solves(x, y, dd, n) && j < |cs| && InCone(cs[j], x, y)
    ensures i < |cs| && InCone(cs[i], x, y) && (if hit then Beta(cs[i], x, y) == 0 else i == |cs| - 1 && Beta(cs[i], x, y) >= 1)
    decreases |cs| - j
  {
    hide Pell.Inv, InCone, Solves;
    ExpansionInv(cs, dd, a0, j);
    ConeMeans(cs[j], x, y);
    if Beta(cs[j], x, y) == 0 {
      return true, j;
    }
    if j == |cs| - 1 {
      return false, j;
    }
    ConeOrMultiple(cs[j], x, y, dd, a0, n);
    assert Follows(cs[j], cs[j + 1], dd, a0);
    hit, i := Descend(cs, dd, a0, n, x, y, j + 1);
  }

  lemma ConeMeans(c: Cf, x: int, y: int)
    requires InCone(c, x, y)
    ensures Alpha(c, x, y) >= 1 && Beta(c, x, y) >= 0
  {}

  // ---------- orbits ----------

  // A pair times (minx + miny sqrt D)^k
  function Orbit(x: int, y: int, minx: int, miny: int, dd: int, k: nat): (int, int) {
    if k == 0 then (x, y) else
      var (u, w) := Orbit(x, y, minx, miny, dd, k - 1);
      (ForwardX(u, w, minx, miny, dd), ForwardY(u, w, minx, miny))
  }

  // Past the last cone, the solution divided by the unit is a smaller positive solution.
  lemma DivideUnit(c: Cf, x: int, y: int, dd: int, a0: int, n: int) returns (u: int, w: int)
    requires Root(dd, a0) && Pell.Inv(c, dd, a0) && StateOf(c) == Stop(a0) && n * n < dd && Solves(x, y, dd, n)
    requires InCone(c, x, y) && Beta(c, x, y) >= 1
    ensures Solves(u, w, dd, n) && 1 <= w < y && x == c.x * u + c.y * w * dd && y == c.x * w + c.y * u
  {
    var al, be := Alpha(c, x, y), Beta(c, x, y);
    ConeOrMultiple(c, x, y, dd, a0, n);
    assert Quot(c, a0) == 2 * a0;
    u, w := al - a0 * be, be;
    Coordinates(c, x, y, dd, a0);
    hide Alpha, Beta;
    // the convergent before the unit is the unit times -a0 + sqrt D
    PreviousOfUnit(c.x, c.y, c.xm, c.ym, dd, a0);
    UnitTimes(al, be, c.x, c.y, a0, dd);
    NormBack(c.x, c.y, u, w, x, y, dd, n);
    DivideBounds(al, be, a0, c.y, c.ym);
  }

  lemma DivideBounds(al: int, be: int, a0: int, y: int, ym: int)
    requires a0 >= 1 && be >= 1 && y >= 1 && ym >= 0 && al >= 2 * a0 * be
    ensures al - a0 * be >= 1 && be < al * y + be * ym
  {
    MulMono(1, be, a0);
    TimesAssoc(2, a0, be);
    MulMono(1, a0, be);
    MulMono(1, y, al);
    MulMono(0, be, ym);
  }

  lemma PreviousOfUnit(x: int, y: int, xm: int, ym: int, dd: int, a0: int)
    requires x * x - dd * (y * y) == 1 && x * xm - dd * (y * ym) == -a0 && x * ym - y * xm == 1
    ensures xm == -a0 * x + dd * y && ym == x - a0 * y
  {
    assert xm == xm * (x * x - dd * (y * y));
    assert ym == ym * (x * x - dd * (y * y));
    PreviousIdentity(x, y, xm, ym, dd);
    assert (x * xm - dd * (y * ym)) * x == -a0 * x && (x * xm - dd * (y * ym)) * y == -a0 * y;
    assert dd * ((x * ym - y * xm) * y) == dd * y && (x * ym - y * xm) * x == x;
  }

  lemma PreviousIdentity(x: int, y: int, xm: int, ym: int, dd: int)
    ensures xm * (x * x - dd * (y * y)) == (x * xm - dd * (y * ym)) * x + dd * ((x * ym - y * xm) * y)
    ensures ym * (x * x - dd * (y * y)) == (x * xm - dd * (y * ym)) * y + (x * ym - y * xm) * x
  {
    TimesCross(x, xm, y, ym, x, dd);
    TimesCross(x, xm, y, ym, y, dd);
    TimesDet(x, ym, y, xm, y);
    TimesDet(x, ym, y, xm, x);
    Distributed(dd, x * ym * y, y * xm * y);
    TimesCross(x, x, y, y, xm, dd);
    TimesCross(x, x, y, y, ym, dd);
    Rotations(x, y, xm, ym);
  }

  lemma TimesCross(a: int, b: int, c: int, e: int, t: int, dd: int)
    ensures (a * b - dd * (c * e)) * t == a * b * t - dd * (c * e * t)
  {}

  lemma TimesDet(a: int, b: int, c: int, e: int, t: int)
    ensures (a * b - c * e) * t == a * b * t - c * e * t
  {}

  lemma Distributed(dd: int, u: int, w: int)
    ensures dd * (u - w) == dd * u - dd * w
  {}

  lemma Rotations(x: int, y: int, xm: int, ym: int)
    ensures x * x * xm == x * xm * x && y * y * xm == y * xm * y && x * ym * y == y * ym * x
    ensures x * x * ym == x * ym * x && y * y * ym == y * ym * y && x * xm * y == y * xm * x
  {}

  lemma UnitTimes(al: int, be: int, x: int, y: int, a0: int, dd: int)
    ensures al * x + be * (-a0 * x + dd * y) == x * (al - a0 * be) + y * be * dd
    ensures al * y + be * (x - a0 * y) == x * be + y * (al - a0 * be)
  {}

  // The norm is multiplicative, and that of the unit is 1.
  lemma NormBack(a: int, b: int, u: int, w: int, x: int, y: int, dd: int, n: int)
    requires a * a - dd * (b * b) == 1 && x == a * u + b * w * dd && y == a * w + b * u && x * x - dd * (y * y) == n
    ensures u * u - dd * (w * w) == n
  {
    NormProduct(u, w, a, b, dd);
  }

  // ---------- what the solver reports ----------

  lemma {:induction false} RootListed(n: int, k: nat, f: int) returns (i: nat)
    requires 1 <= f <= k && f * f > 0 && Abs(n) % (f * f) == 0
    ensures i < |SquareRoots(n, k)| && SquareRoots(n, k)[i] == f
  {
    MulMono(1, k, k);
    if k == f {
      i := |SquareRoots(n, k - 1)|;
    } else {
      i := RootListed(n, k - 1, f);
    }
  }

  // The pair (x, y) is in both lists at the same place.
  ghost predicate Listed(xs: seq<int>, ys: seq<int>, x: int, y: int) {
    |xs| == |ys| && exists i :: 0 <= i < |xs| && xs[i] == x && ys[i] == y
  }

  lemma ListedPrefix(xs: seq<int>, ys: seq<int>, xs': seq<int>, ys': seq<int>, x: int, y: int)
    requires |xs'| == |ys'| && |xs| == |ys|
    ensures Listed(xs, ys, x, y) ==> Listed(xs + xs', ys + ys', x, y)
    ensures Listed(xs', ys', x, y) ==> Listed(xs + xs', ys + ys', x, y)
  {
    if Listed(xs, ys, x, y) {
      var i :| 0 <= i < |xs| && xs[i] == x && ys[i] == y;
      assert (xs + xs')[i] == x && (ys + ys')[i] == y;
    }
    if Listed(xs', ys', x, y) {
      var i :| 0 <= i < |xs'| && xs'[i] == x && ys'[i] == y;
      assert (xs + xs')[|xs| + i] == x && (ys + ys')[|ys| + i] == y;
    }
  }

  lemma {:induction false} FoundLengths(c: Cf, listf: seq<int>, k: nat, n: int)
    requires k <= |listf| && forall i :: 0 <= i < |listf| ==> listf[i] >= 1
    ensures |FoundX(c, listf, k, n)| == |FoundY(c, listf, k, n)|
  {
    if k > 0 {
      MulMono(1, listf[k - 1], listf[k - 1]);
      FoundLengths(c, listf, k - 1, n);
    }
  }

  lemma {:induction false} FoundListed(c: Cf, listf: seq<int>, k: nat, n: int, j: nat)
    requires j < k <= |listf| && (forall i :: 0 <= i < |listf| ==> listf[i] >= 1)
    requires listf[j] * listf[j] > 0 && c.q1 == Abs(n) / (listf[j] * listf[j])
    ensures Listed(FoundX(c, listf, k, n), FoundY(c, listf, k, n), c.x * listf[j], c.y * listf[j])
  {
    var f := listf[k - 1];
    MulMono(1, f, f);
    FoundLengths(c, listf, k - 1, n);
    var x, y := if c.q1 == Abs(n) / (f * f) then [c.x * f] else [], if c.q1 == Abs(n) / (f * f) then [c.y * f] else [];
    if j < k - 1 {
      FoundListed(c, listf, k - 1, n, j);
    } else {
      assert x[0] == c.x * f && y[0] == c.y * f;
    }
    ListedPrefix(FoundX(c, listf, k - 1, n), FoundY(c, listf, k - 1, n), x, y, c.x * listf[j], c.y * listf[j]);
  }

  lemma {:induction false} AllLengths(cs: seq<Cf>, listf: seq<int>, n: int)
    requires forall i :: 0 <= i < |listf| ==> listf[i] >= 1
    ensures |AllX(cs, listf, n)| == |AllY(cs, listf, n)|
  {
    if |cs| > 0 {
      AllLengths(cs[..|cs| - 1], listf, n);
      FoundLengths(cs[|cs| - 1], listf, |listf|, n);
    }
  }

  lemma {:induction false} AllListed(cs: seq<Cf>, listf: seq<int>, n: int, i: nat, x: int, y: int)
    requires i < |cs| && (forall k :: 0 <= k < |listf| ==> listf[k] >= 1) && cs[i].d == Sign(n)
    requires Listed(FoundX(cs[i], listf, |listf|, n), FoundY(cs[i], listf, |listf|, n), x, y)
    ensures Listed(AllX(cs, listf, n), AllY(cs, listf, n), x, y)
  {
    var m := |cs| - 1;
    AllLengths(cs[..m], listf, n);
    FoundLengths(cs[m], listf, |listf|, n);
    if i < m { AllListed(cs[..m], listf, n, i, x, y); }
    var on := cs[m].d == Sign(n);
    ListedPrefix(AllX(cs[..m], listf, n), AllY(cs[..m], listf, n),
                 if on then FoundX(cs[m], listf, |listf|, n) else [], if on then FoundY(cs[m], listf, |listf|, n) else [], x, y);
  }

  lemma MultipleNorm(f: int, q: int, d: int, n: int, k: nat)
    requires f >= 1 && q >= 1 && (d == 1 || d == -1) && n == d * (f * f * q) && k * k <= Abs(n) < (k + 1) * (k + 1)
    ensures f <= k && f * f > 0 && d == Sign(n) && Abs(n) % (f * f) == 0 && q == Abs(n) / (f * f)
  {
    MulMono(1, f, f);
    MulMono(1, q, f * f);
    Commuted(q, f * f);
    ModZero(Abs(n), q, f * f);
    DivExact(Abs(n), f * f, q);
    if f > k { SquareMono(k + 1, f); }
  }

  // A multiple f of a convergent that solves the equation is reported.
  lemma MultipleReported(cs: seq<Cf>, i: nat, f: int, k: nat, n: int)
    requires i < |cs| && f >= 1 && cs[i].q1 >= 1 && (cs[i].d == 1 || cs[i].d == -1) && n == cs[i].d * (f * f * cs[i].q1)
    requires k * k <= Abs(n) < (k + 1) * (k + 1)
    ensures Listed(AllX(cs, SquareRoots(n, k), n), AllY(cs, SquareRoots(n, k), n), cs[i].x * f, cs[i].y * f)
  {
    hide AllX, AllY, SquareRoots, FoundX, FoundY, Listed;
    MultipleNorm(f, cs[i].q1, cs[i].d, n, k);
    var j := RootListed(n, k, f);
    FoundListed(cs[i], SquareRoots(n, k), |SquareRoots(n, k)|, n, j);
    AllListed(cs, SquareRoots(n, k), n, i, cs[i].x * f, cs[i].y * f);
  }

  /** Every positive solution of x^2 - D y^2 = N, for N^2 < D, is a reported pair times a power of the least unit. */
  lemma {:induction false} OrbitsComplete(xs: seq<int>, ys: seq<int>, minx: int, miny: int, dd: int, n: int, x: int, y: int) returns (i: nat, k: nat)
    requires PellList(xs, ys, minx, miny, dd, n) && n * n < dd && Solves(x, y, dd, n)
    ensures i < |xs| == |ys| && Orbit(xs[i], ys[i], minx, miny, dd, k) == (x, y)
    decreases y
  {
    var cs: seq<Cf>, a0: int, kk: nat :| FullPeriod(cs, a0, kk, xs, ys, minx, miny, dd, n);
    hide Pell.Inv, InCone, Solves, PellList, AllX, AllY, SquareRoots, Expansion;
    FirstConvergent(cs, dd, a0);
    FirstCone(x, y, dd, a0, n);
    var hit, j := Descend(cs, dd, a0, n, x, y, 0);
    ExpansionInv(cs, dd, a0, j);
    if hit {
      ConeMeans(cs[j], x, y);
      ConeOrMultiple(cs[j], x, y, dd, a0, n);
      InvParts(cs[j], dd, a0);
      MultipleReported(cs, j, Alpha(cs[j], x, y), kk, n);
      Commute(Alpha(cs[j], x, y), cs[j].x);
      Commute(Alpha(cs[j], x, y), cs[j].y);
      i :| 0 <= i < |xs| && xs[i] == x && ys[i] == y;
      k := 0;
    } else {
      var u, w := DivideUnit(cs[j], x, y, dd, a0, n);
      i, k := OrbitsComplete(xs, ys, minx, miny, dd, n, u, w);
      k := k + 1;
    }
  }

  lemma Commute(a: int, b: int)
    ensures a * b == b * a
  {}

  lemma FirstConvergent(cs: seq<Cf>, dd: int, a0: int)
    requires Expansion(cs, dd, a0)
    ensures |cs| >= 1 && cs[0] == Start(dd, a0)
  {}

  lemma InvParts(c: Cf, dd: int, a0: int)
    requires Pell.Inv(c, dd, a0)
    ensures c.q1 >= 1 && (c.d == 1 || c.d == -1)
  {}

  // ---------- the rounds of find_mnt6_curve ----------

  lemma {:induction false} RoundIsOrbit(rounds: seq<Round>, d: int, d3: int, bitlimit: nat, minx: int, miny: int, k: nat, i: nat)
    requires Rounds(rounds, d, d3, bitlimit, minx, miny) && k < |rounds| && i < |rounds[0].xs|
    ensures |rounds[k].xs| == |rounds[k].ys| == |rounds[0].xs| == |rounds[0].ys|
    ensures Orbit(rounds[0].xs[i], rounds[0].ys[i], minx, miny, d3, k) == (rounds[k].xs[i], rounds[k].ys[i])
  {
    assert AllSolve(rounds[k].xs, rounds[k].ys, d3, -8);
    if k > 0 {
      RoundIsOrbit(rounds, d, d3, bitlimit, minx, miny, k - 1, i);
      assert RoundOk(rounds[k - 1], rounds[k], d, d3, bitlimit, minx, miny);
    }
  }

  /** find_mnt6_curve misses no orbit: for D3 above 64 every solution of U^2 - D3 V^2 = -8 is the one that some
      round holds at some place, or belongs to a round after the last. */
  lemma {:induction false} NoSolutionSkipped(rounds: seq<Round>, d: int, d3: int, bitlimit: nat, minx: int, miny: int, x: int, y: int) returns (i: nat, k: nat)
    requires rounds != [] && Rounds(rounds, d, d3, bitlimit, minx, miny) && PellList(rounds[0].xs, rounds[0].ys, minx, miny, d3, -8)
    requires d3 > 64 && Solves(x, y, d3, -8)
    ensures i < |rounds[0].xs| == |rounds[0].ys| && Orbit(rounds[0].xs[i], rounds[0].ys[i], minx, miny, d3, k) == (x, y)
    ensures k < |rounds| ==> |rounds[k].xs| == |rounds[k].ys| == |rounds[0].xs| && rounds[k].xs[i] == x && rounds[k].ys[i] == y
  {
    i, k := OrbitsComplete(rounds[0].xs, rounds[0].ys, minx, miny, d3, -8, x, y);
    if k < |rounds| { RoundIsOrbit(rounds, d, d3, bitlimit, minx, miny, k, i); }
  }
}
