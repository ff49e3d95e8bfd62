/** The values of D3 up to 64 in find_mnt6_curve (ecc/mnt.c), where norm -8 is not small: no curve is missed,
    but for the two values 17 and 41, which only a wrap of 3D in 32 bits can give. */
module PellSmall {
  import opened Modular
  import opened Pell
  import opened Mnt
  import opened PellOrbits

  // ---------- which D3 can give a usable U ----------

  lemma OddSquare(x: int)
    requires x % 2 == 1
    ensures Eq(x * x, 1, 8)
  {
    EqMod(x, 8);
    EqSym(x % 8, x, 8);
    EqMul(x, x % 8, x, x % 8, 8);
    var r := x % 8;
    assert r == 1 || r == 3 || r == 5 || r == 7;
    assert Eq(r * r, 1, 8);
    EqTrans(x * x, r * r, 1, 8);
  }

  lemma EvenProduct(d: int, y: int)
    ensures y % 2 == 0 ==> (d * (y * y)) % 2 == 0
  {
    if y % 2 == 0 {
      var m := y / 2;
      assert d * (y * y) == 2 * (2 * (d * (m * m)));
    }
  }

  // U prime to 6 makes D3 = 1 modulo 8.
  lemma UsableModEight(x: int, y: int, d3: int)
    requires x * x - d3 * (y * y) == -8 && x % 2 == 1
    ensures d3 % 8 == 1
  {
    OddSquare(x);
    EvenProduct(d3, y);
    var k := EqElim(x * x, 1, 8);
    OddSquare(y);
    EqRefl(d3, 8);
    EqMul(d3, d3, y * y, 1, 8);
    EqSym(d3 * (y * y), d3 * 1, 8);
    EqIntro(d3 * (y * y), x * x, 1, 8);
    EqTrans(d3, d3 * (y * y), x * x, 8);
    EqTrans(d3, x * x, 1, 8);
    EqIffMod(d3, 1, 8);
  }

  lemma SmallValues(d3: int, a0: int)
    requires Root(d3, a0) && d3 <= 64 && d3 % 8 == 1
    ensures d3 == 17 || d3 == 33 || d3 == 41 || d3 == 57
  {
    if a0 >= 8 { MulMono(8, a0, a0); MulMono(8, a0, 8); }
    assert a0 == 1 || a0 == 2 || a0 == 3 || a0 == 4 || a0 == 5 || a0 == 6 || a0 == 7;
  }

  // ---------- dividing by the unit ----------

  lemma DivideBack(m: int, k: int, dd: int, x: int, y: int, u: int, w: int)
    requires m * m - dd * (k * k) == 1 && u == m * x - k * y * dd && w == m * y - k * x
    ensures m * u + k * w * dd == x && m * w + k * u == y && u * u - dd * (w * w) == x * x - dd * (y * y)
  {
    DivideIdentity(m, k, dd, x, y);
    assert (m * m - dd * (k * k)) * x == x && (m * m - dd * (k * k)) * y == y;
    NormBack(m, k, u, w, x, y, dd, x * x - dd * (y * y));
  }

  lemma DivideIdentity(m: int, k: int, dd: int, x: int, y: int)
    ensures m * (m * x - k * y * dd) + k * (m * y - k * x) * dd == (m * m - dd * (k * k)) * x
    ensures m * (m * y - k * x) + k * (m * x - k * y * dd) == (m * m - dd * (k * k)) * y
  {
    TimesDifference(m, m, x, k * y * dd);
    TimesDifference(k, m, y, k * x);
    TimesDifference(m, m, y, k * x);
    TimesDifference(k, m, x, k * y * dd);
    DifferenceTimes(k * (m * y), k * (k * x), dd);
    DifferenceTimes(m * m, dd * (k * k), x);
    DifferenceTimes(m * m, dd * (k * k), y);
    CrossFactors(m, k, x, y, dd);
  }

  lemma TimesDifference(a: int, b: int, x: int, c: int)
    ensures a * (b * x - c) == a * (b * x) - a * c
  {}

  lemma DifferenceTimes(a: int, b: int, t: int)
    ensures (a - b) * t == a * t - b * t
  {}

  lemma CrossFactors(m: int, k: int, x: int, y: int, dd: int)
    ensures m * (m * x) == m * m * x && m * (m * y) == m * m * y
    ensures m * (k * y * dd) == k * (m * y) * dd && m * (k * x) == k * (m * x)
    ensures k * (k * x) * dd == dd * (k * k) * x && k * (k * y * dd) == dd * (k * k) * y
  {
    TimesAssoc(m, m, x);
    TimesAssoc(m, m, y);
    FourFactors(m, k, y, dd);
    FourFactors(k, k, x, dd);
    FourFactors(k, k, y, dd);
    assert m * (k * x) == k * (m * x);
  }

  lemma FourFactors(m: int, k: int, y: int, d: int)
    ensures m * (k * y * d) == k * (m * y) * d && k * (m * y) * d == d * (k * m) * y
  {
    assert m * (k * y * d) == (m * (k * y)) * d;
    assert k * (m * y) == (k * m) * y;
    assert m * (k * y) == k * (m * y);
    assert (k * m) * y * d == d * (k * m) * y;
  }

  lemma Squared(c: int, x: int)
    ensures (c * x) * (c * x) == c * c * (x * x)
  {}

  lemma BetweenSquares(x: int, k: int)
    requires x >= 1 && k >= 0
    ensures !(k * k < x * x < (k + 1) * (k + 1))
  {
    if x <= k { SquareMono(x, k); } else { SquareMono(k + 1, x); }
  }

  lemma RootUnique(x: int, k: int)
    requires x >= 0 && k >= 0 && x * x == k * k
    ensures x == k
  {
    if x < k { MulMono(x + 1, k, k); MulMono(x, x + 1, x); MulMono(x, k, x + 1); }
    if k < x { MulMono(k + 1, x, x); MulMono(k, k + 1, k); MulMono(k, x, k + 1); }
  }

  // ---------- D3 = 33 ----------

  // The solutions (5, 1) and (17, 3), and all others on their orbits under 23 + 4 sqrt 33.
  function First33(i: nat): (int, int) { if i == 0 then (5, 1) else (17, 3) }

  lemma {:induction false} Orbits33(x: int, y: int) returns (i: nat, k: nat)
    requires Solves(x, y, 33, -8)
    ensures i <= 1 && Orbit(First33(i).0, First33(i).1, 23, 4, 33, k) == (x, y)
    decreases y
  {
    if y == 1 {
      RootUnique(x, 5);
      return 0, 0;
    }
    var u, w := 23 * x - 4 * y * 33, 23 * y - 4 * x;
    DivideBack(23, 4, 33, x, y, u, w);
    Smaller33(x, y, u, w);
    if u >= 1 {
      i, k := Orbits33(u, w);
      k := k + 1;
    } else {
      Negative33(-u, w, y);
      i, k := 1, 0;
    }
  }

  lemma Smaller33(x: int, y: int, u: int, w: int)
    requires Solves(x, y, 33, -8) && y >= 2 && w == 23 * y - 4 * x && u * u - 33 * (w * w) == -8
    ensures 1 <= w < y && u != 0
  {
    Squared(23, y);
    Squared(4, x);
    Squared(2, x);
    Squared(11, y);
    SquareMono(2, y);
    if w <= 0 { SquareMono(23 * y, 4 * x); }
    if w >= y { SquareMono(2 * x, 11 * y); }
  }

  lemma Negative33(u: int, w: int, y: int)
    requires u >= 1 && w >= 1 && u * u - 33 * (w * w) == -8 && y == 23 * w - 4 * u && w < y
    ensures u == 5 && w == 1
  {
    SquareMono(2 * u, 11 * w);
    Squared(2, u);
    Squared(11, w);
    if w >= 2 { SquareMono(2, w); }
    RootUnique(u, 5);
  }

  // ---------- D3 = 57 ----------

  // The solutions (7, 1) and (83, 11), and all others on their orbits under 151 + 20 sqrt 57.
  function First57(i: nat): (int, int) { if i == 0 then (7, 1) else (83, 11) }

  lemma Start57(x: int, y: int)
    requires Solves(x, y, 57, -8) && y <= 3
    ensures x == 7 && y == 1
  {
    if y == 1 {
      RootUnique(x, 7);
    } else if y == 2 {
      BetweenSquares(x, 14);
    } else {
      assert y == 3;
      BetweenSquares(x, 22);
    }
  }

  lemma {:induction false} Orbits57(x: int, y: int) returns (i: nat, k: nat)
    requires Solves(x, y, 57, -8)
    ensures i <= 1 && Orbit(First57(i).0, First57(i).1, 151, 20, 57, k) == (x, y)
    decreases y
  {
    if y <= 3 {
      Start57(x, y);
      return 0, 0;
    }
    var u, w := 151 * x - 20 * y * 57, 151 * y - 20 * x;
    DivideBack(151, 20, 57, x, y, u, w);
    Smaller57(x, y, u, w);
    if u >= 1 {
      i, k := Orbits57(u, w);
      k := k + 1;
    } else {
      Negative57(-u, w, y);
      i, k := 1, 0;
    }
  }

  lemma Smaller57(x: int, y: int, u: int, w: int)
    requires Solves(x, y, 57, -8) && y >= 4 && w == 151 * y - 20 * x && u * u - 57 * (w * w) == -8
    ensures 1 <= w < y && u != 0
  {
    Squared(151, y);
    Squared(20, x);
    Squared(2, x);
    Squared(15, y);
    SquareMono(4, y);
    if w <= 0 { SquareMono(151 * y, 20 * x); }
    if w >= y { SquareMono(2 * x, 15 * y); }
  }

  lemma Negative57(u: int, w: int, y: int)
    requires u >= 1 && w >= 1 && u * u - 57 * (w * w) == -8 && y == 151 * w - 20 * u && w < y
    ensures u == 7 && w == 1
  {
    SquareMono(2 * u, 15 * w);
    Squared(2, u);
    Squared(15, w);
    if w >= 4 { SquareMono(4, w); }
    Start57(u, w);
  }

  // ---------- what the solver reports ----------

  // One convergent more.
  lemma Expanded(cs: seq<Cf>, dd: int, a0: int, i: nat, c: Cf)
    requires Expansion(cs, dd, a0) && StateOf(cs[|cs| - 1]) == Stop(a0) && i < |cs| && cs[i] == c && StateOf(c) != Stop(a0) && c.q1 != 0
    ensures i + 1 < |cs| && cs[i + 1] == Next(c, dd, a0)
  {
    assert i < |cs| - 1;
    assert Follows(cs[i], cs[i + 1], dd, a0);
  }

  lemma Ended(cs: seq<Cf>, dd: int, a0: int, i: nat)
    requires Expansion(cs, dd, a0) && i < |cs| && StateOf(cs[i]) == Stop(a0)
    ensures |cs| == i + 1
  {
    assert i + 1 >= |cs| || Follows(cs[i], cs[i + 1], dd, a0);
  }

  // A pass with quotient a.
  lemma NextIs(c: Cf, dd: int, a0: int, a: int, p: int, q: int)
    requires c.q1 > 0 && a * c.q1 <= a0 + c.p < a * c.q1 + c.q1 && p == a * c.q1 - c.p && c.q1 * q == dd - p * p
    ensures Next(c, dd, a0) == Cf(p, c.q1, q, c.x, c.y, a * c.x + c.xm, a * c.y + c.ym, -c.d)
  {
    var k := (a0 + c.p) / c.q1;
    var r := Division(a0 + c.p, c.q1);
    assert (k - a) * c.q1 == a0 + c.p - r - a * c.q1;
    SmallMultiple(k - a, c.q1);
    DivExact(dd - p * p, c.q1, q);
  }

  lemma Period33(cs: seq<Cf>)
    requires Expansion(cs, 33, 5) && StateOf(cs[|cs| - 1]) == Stop(5)
    ensures |cs| == 4 && cs[0] == Cf(5, 1, 8, 1, 0, 5, 1, -1) && cs[2] == Cf(3, 3, 8, 6, 1, 17, 3, -1) && cs[3] == Cf(5, 8, 1, 17, 3, 23, 4, 1)
  {
    Expanded(cs, 33, 5, 0, Cf(5, 1, 8, 1, 0, 5, 1, -1));
    Expanded(cs, 33, 5, 1, Cf(3, 8, 3, 5, 1, 6, 1, 1));
    Expanded(cs, 33, 5, 2, Cf(3, 3, 8, 6, 1, 17, 3, -1));
    Ended(cs, 33, 5, 3);
  }

  lemma Steps57()
    ensures Next(Cf(7, 1, 8, 1, 0, 7, 1, -1), 57, 7) == Cf(1, 8, 7, 7, 1, 8, 1, 1)
    ensures Next(Cf(1, 8, 7, 7, 1, 8, 1, 1), 57, 7) == Cf(6, 7, 3, 8, 1, 15, 2, -1)
    ensures Next(Cf(6, 7, 3, 8, 1, 15, 2, -1), 57, 7) == Cf(6, 3, 7, 15, 2, 68, 9, 1)
    ensures Next(Cf(6, 3, 7, 15, 2, 68, 9, 1), 57, 7) == Cf(1, 7, 8, 68, 9, 83, 11, -1)
    ensures Next(Cf(1, 7, 8, 68, 9, 83, 11, -1), 57, 7) == Cf(7, 8, 1, 83, 11, 151, 20, 1)
  {
    hide Next;
    NextIs(Cf(7, 1, 8, 1, 0, 7, 1, -1), 57, 7, 1, 1, 7);
    NextIs(Cf(1, 8, 7, 7, 1, 8, 1, 1), 57, 7, 1, 6, 3);
    NextIs(Cf(6, 7, 3, 8, 1, 15, 2, -1), 57, 7, 4, 6, 7);
    NextIs(Cf(6, 3, 7, 15, 2, 68, 9, 1), 57, 7, 1, 1, 8);
    NextIs(Cf(1, 7, 8, 68, 9, 83, 11, -1), 57, 7, 1, 7, 1);
  }

  lemma Period57(cs: seq<Cf>)
    requires Expansion(cs, 57, 7) && StateOf(cs[|cs| - 1]) == Stop(7)
    ensures |cs| == 6 && cs[0] == Cf(7, 1, 8, 1, 0, 7, 1, -1) && cs[4] == Cf(1, 7, 8, 68, 9, 83, 11, -1) && cs[5] == Cf(7, 8, 1, 83, 11, 151, 20, 1)
  {
    Steps57();
    hide Next;
    Expanded(cs, 57, 7, 0, Cf(7, 1, 8, 1, 0, 7, 1, -1));
    Expanded(cs, 57, 7, 1, Cf(1, 8, 7, 7, 1, 8, 1, 1));
    Expanded(cs, 57, 7, 2, Cf(6, 7, 3, 8, 1, 15, 2, -1));
    Expanded(cs, 57, 7, 3, Cf(6, 3, 7, 15, 2, 68, 9, 1));
    Expanded(cs, 57, 7, 4, Cf(1, 7, 8, 68, 9, 83, 11, -1));
    Ended(cs, 57, 7, 5);
  }

  lemma Period17(cs: seq<Cf>)
    requires Expansion(cs, 17, 4) && StateOf(cs[|cs| - 1]) == Stop(4)
    ensures forall i :: 0 <= i < |cs| ==> cs[i].q1 == 1
  {
    Expanded(cs, 17, 4, 0, Cf(4, 1, 1, 1, 0, 4, 1, -1));
    Ended(cs, 17, 4, 1);
  }

  lemma Steps41()
    ensures Next(Cf(6, 1, 5, 1, 0, 6, 1, -1), 41, 6) == Cf(4, 5, 5, 6, 1, 13, 2, 1)
    ensures Next(Cf(4, 5, 5, 6, 1, 13, 2, 1), 41, 6) == Cf(6, 5, 1, 13, 2, 32, 5, -1)
    ensures Next(Cf(6, 5, 1, 13, 2, 32, 5, -1), 41, 6) == Cf(6, 1, 5, 32, 5, 397, 62, 1)
    ensures Next(Cf(6, 1, 5, 32, 5, 397, 62, 1), 41, 6) == Cf(4, 5, 5, 397, 62, 826, 129, -1)
    ensures Next(Cf(4, 5, 5, 397, 62, 826, 129, -1), 41, 6) == Cf(6, 5, 1, 826, 129, 2049, 320, 1)
  {
    hide Next;
    NextIs(Cf(6, 1, 5, 1, 0, 6, 1, -1), 41, 6, 2, 4, 5);
    NextIs(Cf(4, 5, 5, 6, 1, 13, 2, 1), 41, 6, 2, 6, 1);
    NextIs(Cf(6, 5, 1, 13, 2, 32, 5, -1), 41, 6, 12, 6, 5);
    NextIs(Cf(6, 1, 5, 32, 5, 397, 62, 1), 41, 6, 2, 4, 5);
    NextIs(Cf(4, 5, 5, 397, 62, 826, 129, -1), 41, 6, 2, 6, 1);
  }

  lemma Period41(cs: seq<Cf>)
    requires Expansion(cs, 41, 6) && StateOf(cs[|cs| - 1]) == Stop(6)
    ensures forall i :: 0 <= i < |cs| ==> cs[i].q1 == 1 || cs[i].q1 == 5
  {
    Steps41();
    hide Next;
    Expanded(cs, 41, 6, 0, Cf(6, 1, 5, 1, 0, 6, 1, -1));
    Expanded(cs, 41, 6, 1, Cf(4, 5, 5, 6, 1, 13, 2, 1));
    Expanded(cs, 41, 6, 2, Cf(6, 5, 1, 13, 2, 32, 5, -1));
    Expanded(cs, 41, 6, 3, Cf(6, 1, 5, 32, 5, 397, 62, 1));
    Expanded(cs, 41, 6, 4, Cf(4, 5, 5, 397, 62, 826, 129, -1));
    Ended(cs, 41, 6, 5);
  }

  lemma RootIs(dd: int, a0: int, r: int)
    requires Root(dd, a0) && Root(dd, r)
    ensures a0 == r
  {
    if a0 < r { SquareMono(a0 + 1, r); }
    if r < a0 { SquareMono(r + 1, a0); }
  }

  // A convergent of norm -8 is reported as it is.
  lemma EightReported(cs: seq<Cf>, i: nat, k: nat)
    requires i < |cs| && cs[i].q1 == 8 && cs[i].d == -1 && k * k <= 8 < (k + 1) * (k + 1)
    ensures Listed(AllX(cs, SquareRoots(-8, k), -8), AllY(cs, SquareRoots(-8, k), -8), cs[i].x, cs[i].y)
  {
    hide AllX, AllY, SquareRoots, Listed;
    MultipleReported(cs, i, 1, k, -8);
    assert cs[i].x * 1 == cs[i].x && cs[i].y * 1 == cs[i].y;
  }

  lemma Reported33(xs: seq<int>, ys: seq<int>, minx: int, miny: int)
    requires PellList(xs, ys, minx, miny, 33, -8)
    ensures minx == 23 && miny == 4 && Listed(xs, ys, 5, 1) && Listed(xs, ys, 17, 3)
  {
    hide AllX, AllY, SquareRoots, Listed, Expansion;
    var cs: seq<Cf>, a0: int, k: nat :| FullPeriod(cs, a0, k, xs, ys, minx, miny, 33, -8);
    RootIs(33, a0, 5);
    Period33(cs);
    EightReported(cs, 0, k);
    EightReported(cs, 2, k);
  }

  lemma Reported57(xs: seq<int>, ys: seq<int>, minx: int, miny: int)
    requires PellList(xs, ys, minx, miny, 57, -8)
    ensures minx == 151 && miny == 20 && Listed(xs, ys, 7, 1) && Listed(xs, ys, 83, 11)
  {
    hide AllX, AllY, SquareRoots, Listed, Expansion;
    var cs: seq<Cf>, a0: int, k: nat :| FullPeriod(cs, a0, k, xs, ys, minx, miny, 57, -8);
    RootIs(57, a0, 7);
    Period57(cs);
    EightReported(cs, 0, k);
    EightReported(cs, 4, k);
  }

  lemma {:induction false} NoneFound(c: Cf, listf: seq<int>, k: nat)
    requires k <= |listf| && (forall i :: 0 <= i < |listf| ==> listf[i] == 1 || listf[i] == 2) && c.q1 != 8 && c.q1 != 2
    ensures FoundX(c, listf, k, -8) == []
  {
    if k > 0 {
      NoneFound(c, listf, k - 1);
      assert 8 / (1 * 1) == 8 && 8 / (2 * 2) == 2;
    }
  }

  lemma {:induction false} NoneReported(cs: seq<Cf>, listf: seq<int>)
    requires (forall i :: 0 <= i < |listf| ==> listf[i] == 1 || listf[i] == 2) && forall i :: 0 <= i < |cs| ==> cs[i].q1 != 8 && cs[i].q1 != 2
    ensures AllX(cs, listf, -8) == []
  {
    if |cs| > 0 {
      NoneReported(cs[..|cs| - 1], listf);
      NoneFound(cs[|cs| - 1], listf, |listf|);
    }
  }

  lemma RootsOfEight(k: nat)
    requires k * k <= 8 < (k + 1) * (k + 1)
    ensures forall i :: 0 <= i < |SquareRoots(-8, k)| ==> SquareRoots(-8, k)[i] == 1 || SquareRoots(-8, k)[i] == 2
  {
    if k >= 3 { SquareMono(3, k); }
  }

  /** For D3 = 17 and D3 = 41 nothing is reported. */
  lemma {:induction false} NothingReported(xs: seq<int>, ys: seq<int>, minx: int, miny: int, d3: int)
    requires PellList(xs, ys, minx, miny, d3, -8) && (d3 == 17 || d3 == 41)
    ensures xs == []
  {
    hide AllX, AllY, SquareRoots, Expansion;
    var cs: seq<Cf>, a0: int, k: nat :| FullPeriod(cs, a0, k, xs, ys, minx, miny, d3, -8);
    if d3 == 17 {
      RootIs(17, a0, 4);
      Period17(cs);
    } else {
      RootIs(41, a0, 6);
      Period41(cs);
    }
    RootsOfEight(k);
    NoneReported(cs, SquareRoots(-8, k));
  }

  // ---------- no curve is missed ----------

  lemma FromListed(xs: seq<int>, ys: seq<int>, x: int, y: int) returns (i: nat)
    requires Listed(xs, ys, x, y)
    ensures i < |xs| == |ys| && xs[i] == x && ys[i] == y
  {
    i :| 0 <= i < |xs| && xs[i] == x && ys[i] == y;
  }

  lemma NotRejected(x: int)
    requires !Rejected(x)
    ensures x % 2 == 1
  {}

  /** Every solution whose U gives a curve is a reported pair times a power of the least unit, unless D3 is 17 or 41. */
  lemma {:induction false} NoCurveMissed(xs: seq<int>, ys: seq<int>, minx: int, miny: int, d3: int, x: int, y: int) returns (i: nat, k: nat)
    requires PellList(xs, ys, minx, miny, d3, -8) && Solves(x, y, d3, -8) && !Rejected(x) && d3 != 17 && d3 != 41
    ensures i < |xs| == |ys| && Orbit(xs[i], ys[i], minx, miny, d3, k) == (x, y)
  {
    if d3 > 64 {
      i, k := OrbitsComplete(xs, ys, minx, miny, d3, -8, x, y);
    } else {
      NotRejected(x);
      UsableModEight(x, y, d3);
      RootOfList(xs, ys, minx, miny, d3);
      hide PellList, Orbit, Listed, Rejected;
      if d3 == 33 {
        Reported33(xs, ys, minx, miny);
        var j;
        j, k := Orbits33(x, y);
        i := FromListed(xs, ys, First33(j).0, First33(j).1);
      } else {
        Reported57(xs, ys, minx, miny);
        var j;
        j, k := Orbits57(x, y);
        i := FromListed(xs, ys, First57(j).0, First57(j).1);
      }
    }
  }

  lemma RootOfList(xs: seq<int>, ys: seq<int>, minx: int, miny: int, d3: int)
    requires PellList(xs, ys, minx, miny, d3, -8) && d3 <= 64 && d3 % 8 == 1
    ensures d3 == 17 || d3 == 33 || d3 == 41 || d3 == 57
  {
    hide Expansion, AllX, AllY, SquareRoots;
    var cs: seq<Cf>, a0: int, k: nat :| FullPeriod(cs, a0, k, xs, ys, minx, miny, d3, -8);
    SmallValues(d3, a0);
  }

  /** So find_mnt6_curve tries, or comes to after its last round, every solution that gives a curve, for every D
      whose 3D fits 32 bits. */
  lemma {:induction false} EveryCurveReached(d: nat, xs: seq<int>, ys: seq<int>, minx: int, miny: int, x: int, y: int) returns (i: nat, k: nat)
    requires 3 * d < 0x1_0000_0000 && PellList(xs, ys, minx, miny, d * 3 % 0x1_0000_0000, -8)
    requires Solves(x, y, 3 * d, -8) && !Rejected(x)
    ensures i < |xs| == |ys| && Orbit(xs[i], ys[i], minx, miny, 3 * d, k) == (x, y)
  {
    i, k := NoCurveMissed(xs, ys, minx, miny, 3 * d, x, y);
  }

  /** For D = 1431655779 the 32-bit product 3D is 41: the solution 19^2 - 41 3^2 = -8 gives an accepted curve of
      43 points over F_37, and general_pell reports nothing. */
  lemma {:induction false} CurveMissed(xs: seq<int>, ys: seq<int>, minx: int, miny: int)
    requires PellList(xs, ys, minx, miny, 1431655779 * 3 % 0x1_0000_0000, -8)
    ensures xs == [] && Solves(19, 3, 1431655779 * 3 % 0x1_0000_0000, -8)
    ensures Accepted(CmInfo(6, 1431655779, 37, 43, 1, 43), 1431655779, 19) && !Rejected(19)
  {
    NothingReported(xs, ys, minx, miny, 41);
    forall e | 2 <= e <= 24 ensures 37 % e != 0 && 43 % e != 0 {
      assert e == 2 || e == 3 || e == 4 || e == 5 || e == 6 || e == 7 || e == 8 || e == 9 || e == 10 || e == 11 || e == 12 || e == 13
          || e == 14 || e == 15 || e == 16 || e == 17 || e == 18 || e == 19 || e == 20 || e == 21 || e == 22 || e == 23 || e == 24;
    }
    PrimeBelow625(37);
    PrimeBelow625(43);
    OneBelow(43);
    OneBelow(0x1_0000);
    DividesIntro(43, 31, 37 * 37 - 37 + 1);
    assert FieldSize(19) == 37 && OrderOf(19) == 43;
    assert Splits(43, 1, 43);
  }
}
