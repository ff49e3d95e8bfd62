/** The dedicated routines for extensions of degree 3 and 6 (arith/poly.c), in place on coefficient
    arrays, and inversion in F_q[x]/(m). */
module Karatsuba {
  import opened Modular
  import opened Residues
  import opened Poly
  import opened PolyDivision
  import opened PolyInverse
  import opened PolyMod

  // The five coefficients of the product of two polynomials of degree 2.
  predicate Prod3(a: seq<int>, b: seq<int>, p: seq<int>) {
    && |a| == 3 && |b| == 3 && |p| == 5
    && p[0] == a[0] * b[0]
    && p[1] == a[0] * b[1] + a[1] * b[0]
    && p[2] == a[0] * b[2] + a[1] * b[1] + a[2] * b[0]
    && p[3] == a[1] * b[2] + a[2] * b[1]
    && p[4] == a[2] * b[2]
  }

  lemma Conv2(a: seq<int>, b: seq<int>, i: nat)
    requires |a| == 3 && |b| == 3
    ensures Conv(a, b, i, i + 1) == if i == 0 then a[0] * b[0] else if i == 1 then a[0] * b[1] + a[1] * b[0]
                                    else if i == 2 then a[0] * b[2] + a[1] * b[1] + a[2] * b[0]
                                    else if i == 3 then a[1] * b[2] + a[2] * b[1] else if i == 4 then a[2] * b[2] else 0
  {
    ConvPrefix(a, b, i, i + 1);
  }

  // Terms with an index past the ends vanish.
  lemma {:induction false} ConvPrefix(a: seq<int>, b: seq<int>, i: nat, n: nat)
    requires |a| == 3 && |b| == 3 && n <= i + 1
    ensures Conv(a, b, i, n) == (if n > 0 && i < 3 then a[0] * b[i] else 0)
                              + (if n > 1 && i - 1 < 3 then a[1] * b[i - 1] else 0)
                              + (if n > 2 && i - 2 < 3 then a[2] * b[i - 2] else 0)
  {
    if n > 0 {
      ConvPrefix(a, b, i, n - 1);
      ConvTerm(a, b, i, n - 1);
    }
  }

  lemma Prod3Value(a: seq<int>, b: seq<int>, p: seq<int>)
    requires Prod3(a, b, p)
    ensures forall x: int :: Eval(p, x) == Eval(a, x) * Eval(b, x)
  {
    hide Eval, Mul, Conv;
    forall i: nat ensures Coeff(p, i) == Coeff(Mul(a, b), i) {
      MulIsConv(a, b, i);
      Conv2(a, b, i);
    }
    forall x: int ensures Eval(p, x) == Eval(a, x) * Eval(b, x) {
      EvalCoeff(p, Mul(a, b), x);
      EvalMul(a, b, x);
    }
  }

  lemma Cross(a: int, b: int, c: int, d: int)
    ensures (a + b) * (c + d) == a * c + a * d + b * c + b * d
  {}

  /** kar_poly_2: six multiplications; dst may be s1 or s2 at offset 0. */
  method KarPoly2(dst: array<int>, s1: array<int>, o1: nat, s2: array<int>, o2: nat, scratch: array<int>) returns (c3: int, c4: int)
    requires dst.Length >= 3 && s1.Length >= o1 + 3 && s2.Length >= o2 + 3 && scratch.Length >= 3
    requires scratch != dst && scratch != s1 && scratch != s2 && (dst == s1 ==> o1 == 0) && (dst == s2 ==> o2 == 0)
    modifies dst, scratch
    ensures Prod3(old(s1[o1..o1 + 3]), old(s2[o2..o2 + 3]), [dst[0], dst[1], dst[2], c3, c4])
    ensures dst[3..] == old(dst[3..])
  {
    ghost var a0, a1, a2, b0, b1, b2 := s1[o1], s1[o1 + 1], s1[o1 + 2], s2[o2], s2[o2 + 1], s2[o2 + 2];
    c3 := s1[o1] + s1[o1 + 1];
    c4 := s2[o2] + s2[o2 + 1];
    scratch[2] := c3 * c4;
    c3 := s1[o1] + s1[o1 + 2];
    c4 := s2[o2] + s2[o2 + 2];
    scratch[1] := c3 * c4;
    c3 := s1[o1 + 1] + s1[o1 + 2];
    c4 := s2[o2 + 1] + s2[o2 + 2];
    scratch[0] := c3 * c4;
    Cross(a0, a1, b0, b1); Cross(a0, a2, b0, b2); Cross(a1, a2, b1, b2);

    dst[1] := s1[o1 + 1] * s2[o2 + 1];
    dst[0] := s1[o1] * s2[o2];
    c4 := s1[o1 + 2] * s2[o2 + 2];
    c3 := dst[1] + c4;
    c3 := scratch[0] - c3;
    dst[2] := c4 + dst[0];
    scratch[1] := scratch[1] - dst[2];
    dst[2] := dst[1] + scratch[1];
    scratch[2] := scratch[2] - dst[0];
    dst[1] := scratch[2] - dst[1];
  }

  // polymod_const_mul and polymod_add into res
  method AddConst(res: array<int>, c: int, row: seq<int>)
    requires |row| == res.Length
    modifies res
    ensures res[..] == Plus(old(res[..]), c, row)
  {
    for j := 0 to res.Length
      invariant forall k :: 0 <= k < res.Length ==> res[k] == if k < j then old(res[k]) + c * row[k] else old(res[k])
    {
      res[j] := res[j] + c * row[j];
    }
  }

  // low + high is the product and the result folds high in.
  lemma Degree3Done(a: seq<int>, b: seq<int>, low: seq<int>, c3: int, c4: int, r: seq<int>, xpwr: seq<seq<int>>, m: seq<int>, q: int)
    requires Prod3(a, b, low + [c3, c4]) && |low| == 3 && XPowers(xpwr, m, 3, q)
    requires r == Plus(Plus(low, c3, xpwr[0]), c4, xpwr[1])
    ensures MEq(Mul(a, b), r, m, q)
  {
    hide MEq, Eval, Mul;
    var high := [c3, c4];
    FoldedTwo(low, high, xpwr);
    FoldedReduces(low, high, xpwr, m, 3, q, 2);
    assert high[..2] == high;
    Prod3Value(a, b, low + high);
    forall x: int ensures Eval(low + high, x) == Eval(Mul(a, b), x) { EvalMul(a, b, x); }
    SameModulo(low + high, Mul(a, b), r, m, q);
  }

  lemma FoldedTwo(low: seq<int>, high: seq<int>, xpwr: seq<seq<int>>)
    requires |high| == 2 && |xpwr| >= 2 && |xpwr[0]| == |low| && |xpwr[1]| == |low|
    ensures Folded(low, high, xpwr, 2) == Plus(Plus(low, high[0], xpwr[0]), high[1], xpwr[1])
  {
    hide Plus;
    assert Folded(low, high, xpwr, 1) == Plus(Folded(low, high, xpwr, 0), high[0], xpwr[0]);
  }

  /** polymod_mul_degree3; res may be e or f */
  method PolymodMulDegree3(res: array<int>, e: array<int>, f: array<int>, xpwr: seq<seq<int>>, ghost m: seq<int>, ghost q: int)
    requires res.Length == 3 && e.Length == 3 && f.Length == 3 && XPowers(xpwr, m, 3, q)
    modifies res
    ensures MEq(Mul(old(e[..]), old(f[..])), res[..], m, q)
  {
    hide MEq, Mul;
    ghost var a, b := e[..], f[..];
    assert e[0..3] == a && f[0..3] == b;
    var p0 := new int[3];
    var c3, c4 := KarPoly2(res, e, 0, f, 0, p0);
    ghost var low := res[..];
    assert [res[0], res[1], res[2], c3, c4] == low + [c3, c4];
    AddConst(res, c3, xpwr[0]);
    AddConst(res, c4, xpwr[1]);
    Degree3Done(a, b, low, c3, c4, res[..], xpwr, m, q);
  }

  /** polymod_square_degree3; res may be e */
  method PolymodSquareDegree3(res: array<int>, e: array<int>, xpwr: seq<seq<int>>, ghost m: seq<int>, ghost q: int)
    requires res.Length == 3 && e.Length == 3 && XPowers(xpwr, m, 3, q)
    modifies res
    ensures MEq(Mul(old(e[..]), old(e[..])), res[..], m, q)
  {
    hide MEq, Mul;
    ghost var a := e[..];
    var p0 := new int[2];
    p0[0] := e[0] * e[1];
    p0[1] := e[0] * e[2];
    res[0] := e[0] * e[0];
    var c2 := e[1] * e[2];
    var c0 := e[2] * e[2];
    res[2] := e[1] * e[1];
    res[1] := p0[0] + p0[0];
    p0[1] := p0[1] + p0[1];
    res[2] := res[2] + p0[1];
    ghost var low := res[..];
    AddConst(res, c0, xpwr[1]);
    c2 := c2 + c2;
    AddConst(res, c2, xpwr[0]);
    SquareProducts(a[0], a[1], a[2]);
    assert Prod3(a, a, low + [c2, c0]);
    PlusSwap(low, c0, xpwr[1], c2, xpwr[0]);
    Degree3Done(a, a, low, c2, c0, res[..], xpwr, m, q);
  }

  lemma SquareProducts(a: int, b: int, c: int)
    ensures b * a == a * b && c * a == a * c && c * b == b * c
  {}

  lemma PlusSwap(low: seq<int>, c: int, r: seq<int>, d: int, s: seq<int>)
    requires |r| == |low| && |s| == |low|
    ensures Plus(Plus(low, c, r), d, s) == Plus(Plus(low, d, s), c, r)
  {}

  // ---------- degree 6 ----------

  // s0 + x^3 (s2 - s0 - s1) + x^6 s1 for s2 = (a0 + a1)(b0 + b1)
  function Combined(s0: seq<int>, s1: seq<int>, s2: seq<int>): seq<int>
    requires |s0| == 5 && |s1| == 5 && |s2| == 5
  {
    [s0[0], s0[1], s0[2], s0[3] - s0[0] - s1[0] + s2[0], s0[4] - s0[1] - s1[1] + s2[1], s2[2] - s0[2] - s1[2],
     s2[3] - s0[3] - s1[3] + s1[0], s2[4] - s0[4] - s1[4] + s1[1], s1[2], s1[3], s1[4]]
  }

  ghost predicate IsSum(c: seq<int>, a: seq<int>, b: seq<int>) {
    forall x: int :: Eval(c, x) == Eval(a, x) + Eval(b, x)
  }

  lemma AddIsSum(a: seq<int>, b: seq<int>)
    ensures IsSum(Add(a, b), a, b)
  {
    forall x: int ensures Eval(Add(a, b), x) == Eval(a, x) + Eval(b, x) { EvalAdd(a, b, x); }
  }

  lemma CombinedShape(s0: seq<int>, s1: seq<int>, s2: seq<int>) returns (mid: seq<int>, lower: seq<int>)
    requires |s0| == 5 && |s1| == 5 && |s2| == 5
    ensures forall x: int :: Eval(mid, x) == Eval(s2, x) - Eval(s0, x) - Eval(s1, x)
    ensures IsSum(Combined(s0, s1, s2), lower, [0, 0, 0, 0, 0, 0] + s1) && IsSum(lower, s0, [0, 0, 0] + mid)
  {
    hide Add, Scale, Eval, Combined;
    var neg := Add(Scale(-1, s0), Scale(-1, s1));
    mid := Add(s2, neg);
    forall x: int ensures Eval(mid, x) == Eval(s2, x) - Eval(s0, x) - Eval(s1, x) { MidValue(s0, s1, s2, x); }
    forall i | 0 <= i < 5 ensures mid[i] == s2[i] - s0[i] - s1[i] {
      assert neg[i] == -1 * s0[i] + -1 * s1[i];
    }
    var shifted := [0, 0, 0] + mid;
    lower := Add(s0, shifted);
    AddIsSum(s0, shifted);
    AddIsSum(lower, [0, 0, 0, 0, 0, 0] + s1);
    assert |lower| == 8 && lower[0] == s0[0] && lower[1] == s0[1] && lower[2] == s0[2];
    assert lower[3] == s0[3] + mid[0] && lower[4] == s0[4] + mid[1];
    assert lower[5] == mid[2] && lower[6] == mid[3] && lower[7] == mid[4];
    CombinedTop(s0, s1, s2, lower);
  }

  lemma CombinedTop(s0: seq<int>, s1: seq<int>, s2: seq<int>, lower: seq<int>)
    requires |s0| == 5 && |s1| == 5 && |s2| == 5 && |lower| == 8
    requires lower[0] == s0[0] && lower[1] == s0[1] && lower[2] == s0[2]
    requires lower[3] == s0[3] + (s2[0] - s0[0] - s1[0]) && lower[4] == s0[4] + (s2[1] - s0[1] - s1[1])
    requires lower[5] == s2[2] - s0[2] - s1[2] && lower[6] == s2[3] - s0[3] - s1[3] && lower[7] == s2[4] - s0[4] - s1[4]
    ensures Combined(s0, s1, s2) == Add(lower, [0, 0, 0, 0, 0, 0] + s1)
  {
    hide Add, Combined;
    var all := Add(lower, [0, 0, 0, 0, 0, 0] + s1);
    var c := Combined(s0, s1, s2);
    CombinedEntries(s0, s1, s2);
    forall i | 0 <= i < 11 ensures all[i] == c[i] {
      assert all[i] == Coeff(lower, i) + (if i < 6 then 0 else s1[i - 6]);
    }
  }

  lemma CombinedEntries(s0: seq<int>, s1: seq<int>, s2: seq<int>)
    requires |s0| == 5 && |s1| == 5 && |s2| == 5
    ensures var c := Combined(s0, s1, s2);
            && |c| == 11 && c[0] == s0[0] && c[1] == s0[1] && c[2] == s0[2] && c[3] == s0[3] - s0[0] - s1[0] + s2[0]
            && c[4] == s0[4] - s0[1] - s1[1] + s2[1] && c[5] == s2[2] - s0[2] - s1[2] && c[6] == s2[3] - s0[3] - s1[3] + s1[0]
            && c[7] == s2[4] - s0[4] - s1[4] + s1[1] && c[8] == s1[2] && c[9] == s1[3] && c[10] == s1[4]
  {}

  /** The three products of halves make the product of the wholes. */
  lemma {:induction false} KaratsubaSplit(a0: seq<int>, a1: seq<int>, b0: seq<int>, b1: seq<int>, s0: seq<int>, s1: seq<int>, s2: seq<int>, x: int)
    requires |a0| == 3 && |b0| == 3 && |a1| == 3 && |b1| == 3 && |s0| == 5 && |s1| == 5 && |s2| == 5
    requires Prod3(a0, b0, s0) && Prod3(a1, b1, s1) && Prod3(Plus(a0, 1, a1), Plus(b0, 1, b1), s2)
    ensures Eval(Combined(s0, s1, s2), x) == Eval(Mul(a0 + a1, b0 + b1), x)
  {
    hide Eval, Mul, Add, Scale, Prod3, Plus, Pow, Combined;
    Prod3Value(a0, b0, s0); Prod3Value(a1, b1, s1); Prod3Value(Plus(a0, 1, a1), Plus(b0, 1, b1), s2);
    PlusIsAdd(a0, 1, a1); EvalAdd(a0, Scale(1, a1), x); EvalScale(1, a1, x);
    PlusIsAdd(b0, 1, b1); EvalAdd(b0, Scale(1, b1), x); EvalScale(1, b1, x);
    EvalMul(a0 + a1, b0 + b1, x);
    EvalConcat(a0, a1, x); EvalConcat(b0, b1, x);
    CombinedValue(s0, s1, s2, x);
    SplitIdentity(Eval(a0, x), Eval(a1, x), Eval(b0, x), Eval(b1, x), Pow(x, 3));
  }

  lemma CombinedValue(s0: seq<int>, s1: seq<int>, s2: seq<int>, x: int)
    requires |s0| == 5 && |s1| == 5 && |s2| == 5
    ensures Eval(Combined(s0, s1, s2), x)
         == Eval(s0, x) + Pow(x, 3) * (Eval(s2, x) - Eval(s0, x) - Eval(s1, x)) + Pow(x, 3) * Pow(x, 3) * Eval(s1, x)
  {
    hide Eval, Pow, Combined;
    var mid, lower := CombinedShape(s0, s1, s2);
    ShiftedBy3(mid, x);
    ShiftedBy6(s1, x);
  }

  lemma MidValue(s0: seq<int>, s1: seq<int>, s2: seq<int>, x: int)
    ensures Eval(Add(s2, Add(Scale(-1, s0), Scale(-1, s1))), x) == Eval(s2, x) - Eval(s0, x) - Eval(s1, x)
  {
    hide Eval, Add, Scale;
    EvalAdd(s2, Add(Scale(-1, s0), Scale(-1, s1)), x);
    EvalAdd(Scale(-1, s0), Scale(-1, s1), x);
    EvalScale(-1, s0, x); EvalScale(-1, s1, x);
  }

  lemma ShiftedBy3(p: seq<int>, x: int)
    ensures Eval([0, 0, 0] + p, x) == Pow(x, 3) * Eval(p, x)
  {
    hide Eval, Pow;
    EvalConcat([0, 0, 0], p, x);
    assert [0, 0, 0] == seq(3, _ => 0);
    EvalZeros(3, x);
  }

  lemma ShiftedBy6(p: seq<int>, x: int)
    ensures Eval([0, 0, 0, 0, 0, 0] + p, x) == Pow(x, 3) * Pow(x, 3) * Eval(p, x)
  {
    hide Eval, Pow;
    EvalConcat([0, 0, 0, 0, 0, 0], p, x);
    assert [0, 0, 0, 0, 0, 0] == seq(6, _ => 0);
    EvalZeros(6, x);
    PowAdd(x, 3, 3);
  }

  lemma SplitIdentity(a: int, c: int, b: int, d: int, w: int)
    ensures a * b + w * ((a + 1 * c) * (b + 1 * d) - a * b - c * d) + w * w * (c * d) == (a + w * c) * (b + w * d)
  {
    Cross(a, c, b, d);
    Cross(a, w * c, b, w * d);
    Rearranged(a, c, b, d, w);
  }

  lemma Rearranged(a: int, c: int, b: int, d: int, w: int)
    ensures (w * c) * (w * d) == w * w * (c * d)
    ensures w * (a * d + c * b) == a * (w * d) + (w * c) * b
  {}

  // The halves of the operands are added into s0 and s1.
  method AddHalves(dst: array<int>, s: array<int>)
    requires dst != s && dst.Length == 6 && s.Length == 6
    modifies dst
    ensures dst[0..3] == Plus(s[0..3], 1, s[3..6])
  {
    dst[0] := s[0] + s[3];
    dst[1] := s[1] + s[4];
    dst[2] := s[2] + s[5];
  }

  /** polymod_mul_degree6; res may be e or f */
  method PolymodMulDegree6(res: array<int>, e: array<int>, f: array<int>, xpwr: seq<seq<int>>, ghost m: seq<int>, ghost q: int)
    requires res.Length == 6 && e.Length == 6 && f.Length == 6 && XPowers(xpwr, m, 6, q)
    modifies res
    ensures MEq(Mul(old(e[..]), old(f[..])), res[..], m, q)
  {
    hide MEq, Mul, Prod3, Plus, XPowers;
    ghost var a0, a1, b0, b1 := e[0..3], e[3..6], f[0..3], f[3..6];
    assert a0 + a1 == e[..] && b0 + b1 == f[..];
    var s0, s1, s2 := ThreeProducts(e, f);
    Recombine(res, s0, s1, s2, xpwr, a0, a1, b0, b1, m, q, s0[0..5], s1[0..5], s2[0..5]);
  }

  // The products of the low halves, of the high halves and of their sums.
  method ThreeProducts(e: array<int>, f: array<int>) returns (s0: array<int>, s1: array<int>, s2: array<int>)
    requires e.Length == 6 && f.Length == 6
    ensures fresh(s0) && fresh(s1) && fresh(s2) && s0.Length == 6 && s1.Length == 6 && s2.Length == 6 && s0 != s1 && s0 != s2
    ensures Prod3(e[0..3], f[0..3], s0[0..5]) && Prod3(e[3..6], f[3..6], s1[0..5])
    ensures Prod3(Plus(e[0..3], 1, e[3..6]), Plus(f[0..3], 1, f[3..6]), s2[0..5])
  {
    hide Prod3, Plus;
    s0 := new int[6](_ => 0);
    s1 := new int[6](_ => 0);
    s2 := new int[6](_ => 0);
    var p3 := new int[6](_ => 0);
    AddHalves(s0, e);
    AddHalves(s1, f);
    KarInto(s2, s0, 0, s1, 0, p3);
    KarInto(s0, e, 0, f, 0, p3);
    KarInto(s1, e, 3, f, 3, p3);
  }

  // kar_poly_2 with the two high coefficients in cells 3 and 4 of the destination
  method KarInto(dst: array<int>, s1: array<int>, o1: nat, s2: array<int>, o2: nat, scratch: array<int>)
    requires dst.Length == 6 && s1.Length == 6 && s2.Length == 6 && scratch.Length == 6 && o1 <= 3 && o2 <= 3
    requires scratch != dst && scratch != s1 && scratch != s2 && dst != s1 && dst != s2
    modifies dst, scratch
    ensures Prod3(old(s1[o1..o1 + 3]), old(s2[o2..o2 + 3]), dst[0..5]) && |dst[0..5]| == 5
  {
    dst[3], dst[4] := KarPoly2(dst, s1, o1, s2, o2, scratch);
    assert dst[0..5] == [dst[0], dst[1], dst[2], dst[3], dst[4]];
  }

  // The rest of polymod_mul_degree6, from the three products.
  method Recombine(res: array<int>, s0: array<int>, s1: array<int>, s2: array<int>, xpwr: seq<seq<int>>,
                   ghost a0: seq<int>, ghost a1: seq<int>, ghost b0: seq<int>, ghost b1: seq<int>, ghost m: seq<int>, ghost q: int,
                   ghost t0: seq<int>, ghost t1: seq<int>, ghost t2: seq<int>)
    requires res.Length == 6 && s0.Length == 6 && s1.Length == 6 && s2.Length == 6 && XPowers(xpwr, m, 6, q)
    requires res != s0 && res != s1 && res != s2 && s0 != s1 && s0 != s2
    requires s0[0..5] == t0 && s1[0..5] == t1 && s2[0..5] == t2
    requires |a0| == 3 && |a1| == 3 && |b0| == 3 && |b1| == 3
    requires Prod3(a0, b0, t0) && Prod3(a1, b1, t1) && Prod3(Plus(a0, 1, a1), Plus(b0, 1, b1), t2)
    modifies res, s0
    ensures MEq(Mul(a0 + a1, b0 + b1), res[..], m, q)
  {
    hide MEq, Mul, Prod3, Plus;
    res[0] := s0[0];
    res[1] := s0[1];
    res[2] := s0[2];
    res[3] := s0[3] - s0[0];
    res[3] := res[3] - s1[0];
    res[3] := res[3] + s2[0];
    res[4] := s0[4] - s0[1];
    res[4] := res[4] - s1[1];
    res[4] := res[4] + s2[1];
    res[5] := s2[2] - s0[2];
    res[5] := res[5] - s1[2];
    ghost var low := res[..];

    s0[0] := s2[3] - s0[3];
    s0[0] := s0[0] - s1[3];
    s0[0] := s0[0] + s1[0];
    s0[1] := s2[4] - s0[4];
    s0[1] := s0[1] - s1[4];
    s0[1] := s0[1] + s1[1];
    ghost var high := [s0[0], s0[1], s1[2], s1[3], s1[4]];
    assert low + high == Combined(t0, t1, t2);
    AddConst(res, s0[0], xpwr[0]);
    AddConst(res, s0[1], xpwr[1]);
    AddConst(res, s1[2], xpwr[2]);
    AddConst(res, s1[3], xpwr[3]);
    AddConst(res, s1[4], xpwr[4]);
    FoldedFive(low, high, xpwr);
    Degree6Done(a0, a1, b0, b1, low, high, t0, t1, t2, xpwr, m, q);
  }

  lemma FoldedFive(low: seq<int>, high: seq<int>, xpwr: seq<seq<int>>)
    requires |high| == 5 && |xpwr| >= 5 && forall i :: 0 <= i < 5 ==> |xpwr[i]| == |low|
    ensures Folded(low, high, xpwr, 5)
         == Plus(Plus(Plus(Plus(Plus(low, high[0], xpwr[0]), high[1], xpwr[1]), high[2], xpwr[2]), high[3], xpwr[3]), high[4], xpwr[4])
  {
    hide Plus;
    assert Folded(low, high, xpwr, 1) == Plus(Folded(low, high, xpwr, 0), high[0], xpwr[0]);
    assert Folded(low, high, xpwr, 3) == Plus(Folded(low, high, xpwr, 2), high[2], xpwr[2]);
  }

  lemma Degree6Done(a0: seq<int>, a1: seq<int>, b0: seq<int>, b1: seq<int>, low: seq<int>, high: seq<int>,
                    t0: seq<int>, t1: seq<int>, t2: seq<int>, xpwr: seq<seq<int>>, m: seq<int>, q: int)
    requires |a0| == 3 && |a1| == 3 && |b0| == 3 && |b1| == 3 && |t0| == 5 && |t1| == 5 && |t2| == 5
    requires |low| == 6 && |high| == 5 && XPowers(xpwr, m, 6, q)
    requires Prod3(a0, b0, t0) && Prod3(a1, b1, t1) && Prod3(Plus(a0, 1, a1), Plus(b0, 1, b1), t2)
    requires low + high == Combined(t0, t1, t2)
    ensures MEq(Mul(a0 + a1, b0 + b1), Folded(low, high, xpwr, 5), m, q)
  {
    hide MEq, Mul, Eval, Plus, Prod3, Combined, Folded;
    FoldedReduces(low, high, xpwr, m, 6, q, 5);
    assert high[..5] == high;
    forall x: int ensures Eval(low + high, x) == Eval(Mul(a0 + a1, b0 + b1), x) {
      KaratsubaSplit(a0, a1, b0, b1, t0, t1, t2, x);
    }
    SameModulo(low + high, Mul(a0 + a1, b0 + b1), Folded(low, high, xpwr, 5), m, q);
  }

  // ---------- inversion ----------

  /** polymod_invert: an inverse exactly when the element is coprime to m; no coefficient is truncated. */
  method PolymodInvert(r: array<int>, e: array<int>, m: seq<int>, n: nat, q: int)
    requires Prime(q) && r.Length == n && e.Length == n && |m| == n + 1 && Normal(m, q)
    requires !Cong(e[..], [], q)
    modifies r
    ensures MEq(Mul(r[..], old(e[..])), [1], m, q) <==> PolyCoprime(old(e[..]), m, q)
  {
    hide MEq, Mul, Cong, PolyCoprime, Prime, Normal;
    PrimePositive(q);
    var f := RemoveLeadingZeroes(e[..], q);
    NonzeroLength(e[..], f, q);
    ghost var a := e[..];
    var r1 := PolyInvert(f, m, q);
    for i := 0 to n
      invariant forall k :: 0 <= k < i ==> r[k] == Coeff(r1, k)
    {
      r[i] := if i < |r1| then r1[i] else 0;
    }
    PaddedInverse(r[..], r1, a, f, m, q);
    CoprimeCong(a, f, m, q);
  }

  lemma NonzeroLength(e: seq<int>, f: seq<int>, q: int)
    requires q > 0 && !Cong(e, [], q) && Cong(e, f, q)
    ensures f != []
  {}

  lemma PaddedInverse(r: seq<int>, r1: seq<int>, a: seq<int>, f: seq<int>, m: seq<int>, q: int)
    requires q > 0 && |r1| <= |r| && Cong(a, f, q) && forall k :: 0 <= k < |r| ==> r[k] == Coeff(r1, k)
    ensures MEq(Mul(r, a), [1], m, q) <==> MEq(Mul(r1, f), [1], m, q)
  {
    hide Eval, Mul;
    forall x: int ensures Eval(r, x) == Eval(r1, x) { EvalCoeff(r, r1, x); }
    CongSym(a, f, q);
    if MEq(Mul(r, a), [1], m, q) { InverseCong(r, r1, a, f, m, q); }
    if MEq(Mul(r1, f), [1], m, q) { InverseCong(r1, r, f, a, m, q); }
  }

  lemma CongSym(a: seq<int>, b: seq<int>, q: int)
    requires q > 0 && Cong(a, b, q)
    ensures Cong(b, a, q)
  {
    forall i: nat ensures Eq(Coeff(b, i), Coeff(a, i), q) {
      assert Eq(Coeff(a, i), Coeff(b, i), q);
      EqSym(Coeff(a, i), Coeff(b, i), q);
    }
  }

  lemma InverseCong(r: seq<int>, r1: seq<int>, a: seq<int>, f: seq<int>, m: seq<int>, q: int)
    requires q > 0 && Cong(a, f, q) && MEq(Mul(r, a), [1], m, q) && forall x: int :: Eval(r, x) == Eval(r1, x)
    ensures MEq(Mul(r1, f), [1], m, q)
  {
    hide Eval, Mul, Gap, Add, Scale, Cong;
    var u, s :| Near(Mul(r, a), [1], m, q, u, s);
    var g := Gap(a, f, q);
    var s' := Add(s, Scale(-1, Mul(r, g)));
    forall x: int ensures Eval(Mul(r1, f), x) == Eval([1], x) + Eval(u, x) * Eval(m, x) + q * Eval(s', x) {
      EvalMul(r1, f, x); EvalMul(r, a, x); EvalGap(a, f, q, x);
      EvalAdd(s, Scale(-1, Mul(r, g)), x); EvalScale(-1, Mul(r, g), x); EvalMul(r, g, x);
      GapIdentity(Eval(r, x), Eval(f, x), Eval(g, x), q, Eval(s, x), Eval(a, x));
    }
    assert Near(Mul(r1, f), [1], m, q, u, s');
  }

  lemma GapIdentity(r: int, f: int, g: int, q: int, s: int, a: int)
    requires a == f + q * g
    ensures r * a == r * f + q * (r * g) && q * (s + -1 * (r * g)) == q * s - q * (r * g)
  {}

  lemma DivCong(d: seq<int>, a: seq<int>, f: seq<int>, q: int)
    requires q > 0 && Cong(a, f, q) && Div(d, f, q)
    ensures Div(d, a, q)
  {
    hide Eval, Gap, Add, Cong;
    var u, s :| Near(f, [], d, q, u, s);
    var s' := Add(s, Gap(a, f, q));
    forall x: int ensures Eval(a, x) == Eval([], x) + Eval(u, x) * Eval(d, x) + q * Eval(s', x) {
      EvalGap(a, f, q, x);
      EvalAdd(s, Gap(a, f, q), x);
      Distribute(Eval(s, x), Eval(Gap(a, f, q), x), q);
    }
    assert Near(a, [], d, q, u, s');
  }

  lemma CoprimeCong(a: seq<int>, f: seq<int>, m: seq<int>, q: int)
    requires q > 0 && Cong(a, f, q)
    ensures PolyCoprime(a, m, q) <==> PolyCoprime(f, m, q)
  {
    hide Cong, Div;
    CongSym(a, f, q);
    forall d ensures CommonDiv(d, a, m, q) <==> CommonDiv(d, f, m, q) {
      if Div(d, f, q) { DivCong(d, a, f, q); }
      if Div(d, a, q) { DivCong(d, f, a, q); }
    }
  }
}
