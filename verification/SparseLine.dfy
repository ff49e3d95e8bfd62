/** The sparse line multiplication of type F pairings (ecc/f_param.c): six terms against the full
    product in F_q2[X]/(X^6 - na). */
module SparseLine {
  import opened Quadratic

  function Add2(a: F2, b: F2): F2 { F2(a.re + b.re, a.im + b.im) }

  const Zero2 := F2(0, 0)

  // Terms v_j w_k, j below n, with j + k = i or, scaled by na, j + k = i + 6.
  function Wrapped(v: seq<F2>, w: seq<F2>, na: F2, i: nat, n: nat, d: int): F2
    requires |v| == 6 && |w| == 6 && i < 6 && n <= 6
  {
    if n == 0 then Zero2 else
      var j := n - 1;
      Add2(Wrapped(v, w, na, i, j, d),
           if j <= i then Mul2(v[j], w[i - j], d) else Mul2(Mul2(v[j], w[i + 6 - j], d), na, d))
  }

  // The product of two elements modulo X^6 - na.
  function FullProduct(v: seq<F2>, w: seq<F2>, na: F2, d: int): (r: seq<F2>)
    requires |v| == 6 && |w| == 6
    ensures |r| == 6
  {
    seq(6, i requires 0 <= i < 6 => Wrapped(v, w, na, i, 6, d))
  }

  // The line c + b Qy X^3 + a Qx X^4.
  function Line(a: int, b: int, c: int, qx: F2, qy: F2): (r: seq<F2>)
    ensures |r| == 6
  {
    [F2(c, 0), Zero2, Zero2, Scale(b, qy), Scale(a, qx), Zero2]
  }

  lemma MulZero(a: F2, d: int)
    ensures Mul2(a, Zero2, d) == Zero2 && Mul2(Zero2, a, d) == Zero2
  {}

  lemma AddZero(a: F2)
    ensures Add2(a, Zero2) == a && Add2(Zero2, a) == a
  {}

  // The three terms of coefficient i that meet a nonzero coefficient of the line.
  function XTerm(v: seq<F2>, a: int, qx: F2, na: F2, i: nat, d: int): F2
    requires |v| == 6 && i < 6
  {
    var x := Mul2(v[(i + 2) % 6], Scale(a, qx), d);
    if i < 4 then Mul2(x, na, d) else x
  }

  function YTerm(v: seq<F2>, b: int, qy: F2, na: F2, i: nat, d: int): F2
    requires |v| == 6 && i < 6
  {
    var y := Mul2(v[(i + 3) % 6], Scale(b, qy), d);
    if i < 3 then Mul2(y, na, d) else y
  }

  function Summand(v: seq<F2>, w: seq<F2>, na: F2, i: nat, j: nat, d: int): F2
    requires |v| == 6 && |w| == 6 && i < 6 && j < 6
  {
    if j <= i then Mul2(v[j], w[i - j], d) else Mul2(Mul2(v[j], w[i + 6 - j], d), na, d)
  }

  lemma WrappedStep(v: seq<F2>, w: seq<F2>, na: F2, i: nat, j: nat, d: int)
    requires |v| == 6 && |w| == 6 && i < 6 && j < 6
    ensures Wrapped(v, w, na, i, j + 1, d) == Add2(Wrapped(v, w, na, i, j, d), Summand(v, w, na, i, j, d))
  {}

  lemma SummandOfLine(v: seq<F2>, a: int, b: int, c: int, qx: F2, qy: F2, na: F2, d: int, i: nat, j: nat)
    requires |v| == 6 && i < 6 && j < 6
    ensures Summand(v, Line(a, b, c, qx, qy), na, i, j, d)
         == if j == (i + 2) % 6 then XTerm(v, a, qx, na, i, d) else if j == (i + 3) % 6 then YTerm(v, b, qy, na, i, d)
            else if j == i then Mul2(v[i], F2(c, 0), d) else Zero2
  {
    hide Mul2, Scale;
    var w := Line(a, b, c, qx, qy);
    var k := if j <= i then i - j else i + 6 - j;
    MulZero(v[j], d);
    MulZero(na, d);
    assert k == 0 <==> j == i;
    assert k == 3 <==> j == (i + 3) % 6;
    assert k == 4 <==> j == (i + 2) % 6;
    assert w[0] == F2(c, 0) && w[1] == Zero2 && w[2] == Zero2 && w[3] == Scale(b, qy) && w[4] == Scale(a, qx) && w[5] == Zero2;
  }

  // The sum of those of three terms whose positions are below n.
  function Partial(x: F2, y: F2, z: F2, jx: nat, jy: nat, jz: nat, n: nat): F2 {
    Add2(Add2(if jx < n then x else Zero2, if jy < n then y else Zero2), if jz < n then z else Zero2)
  }

  lemma AddAssoc(a: F2, b: F2, c: F2)
    ensures Add2(Add2(a, b), c) == Add2(a, Add2(b, c)) && Add2(a, b) == Add2(b, a)
  {}

  lemma PartialNone(x: F2, y: F2, z: F2, jx: nat, jy: nat, jz: nat)
    ensures Partial(x, y, z, jx, jy, jz, 0) == Zero2
  {
    hide Add2;
    AddZero(Zero2);
  }

  lemma PartialStep(x: F2, y: F2, z: F2, jx: nat, jy: nat, jz: nat, j: nat)
    requires jx != jy && jy != jz && jx != jz
    ensures Partial(x, y, z, jx, jy, jz, j + 1)
         == Add2(Partial(x, y, z, jx, jy, jz, j), if j == jx then x else if j == jy then y else if j == jz then z else Zero2)
  {
    hide Add2;
    var p, r, t := if jx < j then x else Zero2, if jy < j then y else Zero2, if jz < j then z else Zero2;
    AddZero(r); AddZero(p); AddZero(x); AddZero(Add2(p, r)); AddZero(Add2(Add2(p, r), t));
    if j == jx {
      AddAssoc(Add2(r, t), x, x);
      AddAssoc(x, r, t);
    } else if j == jy {
      AddAssoc(p, t, y);
      AddAssoc(p, y, t);
      AddAssoc(t, y, y);
    }
  }

  lemma {:induction false} LineTerms(v: seq<F2>, a: int, b: int, c: int, qx: F2, qy: F2, na: F2, d: int, i: nat, n: nat)
    requires |v| == 6 && i < 6 && n <= 6
    ensures Wrapped(v, Line(a, b, c, qx, qy), na, i, n, d)
         == Partial(XTerm(v, a, qx, na, i, d), YTerm(v, b, qy, na, i, d), Mul2(v[i], F2(c, 0), d), (i + 2) % 6, (i + 3) % 6, i, n)
  {
    hide Wrapped, Mul2, Line, XTerm, YTerm, Summand, Partial, Add2;
    var jx, jy := (i + 2) % 6, (i + 3) % 6;
    assert jx != jy && jx != i && jy != i;
    var x, y, z := XTerm(v, a, qx, na, i, d), YTerm(v, b, qy, na, i, d), Mul2(v[i], F2(c, 0), d);
    if n == 0 {
      NoTerms(v, Line(a, b, c, qx, qy), na, i, d);
      PartialNone(x, y, z, jx, jy, i);
    } else {
      LineTerms(v, a, b, c, qx, qy, na, d, i, n - 1);
      WrappedStep(v, Line(a, b, c, qx, qy), na, i, n - 1, d);
      SummandOfLine(v, a, b, c, qx, qy, na, d, i, n - 1);
      PartialStep(x, y, z, jx, jy, i, n - 1);
    }
  }

  lemma NoTerms(v: seq<F2>, w: seq<F2>, na: F2, i: nat, d: int)
    requires |v| == 6 && |w| == 6 && i < 6
    ensures Wrapped(v, w, na, i, 0, d) == Zero2
  {}

  // Multiplication by an element of the base field.
  lemma ScaleMul(a: F2, b: F2, s: int, d: int)
    ensures Scale(s, Mul2(a, b, d)) == Mul2(a, Scale(s, b), d)
    ensures Scale(s, Mul2(a, b, d)) == Mul2(Scale(s, a), b, d)
    ensures Scale(s, a) == Mul2(a, F2(s, 0), d)
  {
    ScaleCoord(a.re, a.im, b.re, b.im, s, d);
    ScaleCoord(a.re, a.im, b.im, b.re, s, 1);
    TimesZero(d, a.im);
    TimesZero(1, a.re);
  }

  lemma ScaleCoord(x: int, y: int, u: int, v: int, s: int, d: int)
    ensures s * (x * u + d * (y * v)) == x * (s * u) + d * (y * (s * v))
    ensures s * (x * u + d * (y * v)) == (s * x) * u + d * ((s * y) * v)
  {}

  lemma TimesZero(d: int, y: int)
    ensures d * (y * 0) == 0
  {}

  lemma Distribute2(a: F2, b: F2, c: F2, d: int)
    ensures Mul2(Add2(a, b), c, d) == Add2(Mul2(a, c, d), Mul2(b, c, d))
  {
    DistributeCoord(a.re, b.re, c.re, a.im, b.im, c.im, d);
    DistributeCoord(a.re, b.re, c.im, a.im, b.im, c.re, 1);
  }

  lemma DistributeCoord(a: int, b: int, c: int, a': int, b': int, c': int, d: int)
    ensures (a + b) * c + d * ((a' + b') * c') == (a * c + d * (a' * c')) + (b * c + d * (b' * c'))
  {}

  // do_term: coefficient i from coefficients j and k; flag 1 twists the first term, flag 2 both.
  method DoTerm(e0: array<F2>, v: array<F2>, i: nat, j: nat, k: nat, flag: nat, a: int, b: int, c: int, qx: F2, qy: F2, na: F2, d: int)
    requires e0 != v && e0.Length == 6 && v.Length == 6 && i < 6 && j == (i + 2) % 6 && k == (i + 3) % 6
    requires flag == if i < 3 then 2 else if i < 4 then 1 else 0
    modifies e0
    ensures e0[i] == Wrapped(v[..], Line(a, b, c, qx, qy), na, i, 6, d)
    ensures forall n :: 0 <= n < 6 && n != i ==> e0[n] == old(e0[n])
  {
    hide Wrapped, Mul2, Line, Add2, Scale;
    var e1 := Mul2(v[j], qx, d);
    if flag == 1 { e1 := Mul2(e1, na, d); }
    ghost var t := e1;
    e1 := Scale(a, e1);
    var e2 := Mul2(v[k], qy, d);
    e2 := Scale(b, e2);
    e2 := Add2(e2, e1);
    if flag == 2 { e2 := Mul2(e2, na, d); }
    var e3 := Scale(c, v[i]);
    e2 := Add2(e2, e3);
    e0[i] := e2;
    LineTerms(v[..], a, b, c, qx, qy, na, d, i, 6);
    ScaleMul(v[j], qx, a, d);
    ScaleMul(Mul2(v[j], qx, d), na, a, d);
    ScaleMul(v[k], qy, b, d);
    ScaleMul(v[i], qx, c, d);
    ghost var x, y := Mul2(v[j], Scale(a, qx), d), Mul2(v[k], Scale(b, qy), d);
    Distribute2(y, x, na, d);
    AddAssoc(y, x, Zero2);
    AddAssoc(Mul2(y, na, d), Mul2(x, na, d), Zero2);
    AddAssoc(y, Mul2(x, na, d), Zero2);
  }

  /** f_miller_evalfn: v becomes v times the line. */
  method EvalLine(v: array<F2>, a: int, b: int, c: int, qx: F2, qy: F2, na: F2, d: int)
    requires v.Length == 6
    modifies v
    ensures v[..] == FullProduct(old(v[..]), Line(a, b, c, qx, qy), na, d)
  {
    hide Wrapped, Line;
    var e0 := new F2[6](_ => Zero2);
    DoTerm(e0, v, 0, 2, 3, 2, a, b, c, qx, qy, na, d);
    DoTerm(e0, v, 1, 3, 4, 2, a, b, c, qx, qy, na, d);
    DoTerm(e0, v, 2, 4, 5, 2, a, b, c, qx, qy, na, d);
    DoTerm(e0, v, 3, 5, 0, 1, a, b, c, qx, qy, na, d);
    DoTerm(e0, v, 4, 0, 1, 0, a, b, c, qx, qy, na, d);
    DoTerm(e0, v, 5, 1, 2, 0, a, b, c, qx, qy, na, d);
    ghost var was := v[..];
    forall n | 0 <= n < 6 { v[n] := e0[n]; }
    assert forall n :: 0 <= n < 6 ==> v[n] == Wrapped(was, Line(a, b, c, qx, qy), na, n, 6, d);
  }
}
