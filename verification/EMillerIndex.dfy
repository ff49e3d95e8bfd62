/** The quotient of the type E loops is f_r(QR)/f_r(R) for r = 2^exp2 + sign1 2^exp1 + sign0 (ecc/e_param.c). */
module EMillerIndex {
  import opened Modular
  import opened Bits
  import opened Residues
  import opened Curve
  import opened CurveLaw
  import opened MillerChains
  import EMiller

  // f_n(num) / f_n(den) as a numerator and a denominator
  datatype Value = Value(v: int, vd: int)

  function ValueOf(c: Build, p: Pt, a: int, num: Pt, den: Pt, q: int): Value
    requires q > 0
  {
    match c
    case Start => Value(1, 1)
    case Opposite(d) =>
      var m, z := ValueOf(d, p, a, num, den, q), VerticalOf(PlaceOf(d, p, a, q));
      Value(m.vd * Eval(z, den), m.v * Eval(z, num))
    case Sum(d, e) =>
      var m, m1 := ValueOf(d, p, a, num, den, q), ValueOf(e, p, a, num, den, q);
      var l, z := LineOf(PlaceOf(d, p, a, q), PlaceOf(e, p, a, q), a, q), VerticalOf(PlaceOf(c, p, a, q));
      Value(m.v * m1.v * Eval(l, num) * Eval(z, den), m.vd * m1.vd * Eval(l, den) * Eval(z, num))
  }

  // ---------- the run is a chain ----------

  // c stands at the run's point with the run's two values.
  ghost predicate Stands(c: Build, m: EMiller.Miller, p: Pt, a: int, num: Pt, den: Pt, q: int)
    requires q > 0
  {
    PlaceOf(c, p, a, q) == Finite(m.pt) && ValueOf(c, p, a, num, den, q) == Value(m.v, m.vd)
  }

  lemma {:induction false} ChainStands(p: Pt, n: nat, a: int, num: Pt, den: Pt, q: int)
    requires q > 0 && forall i :: 0 <= i < n ==> !Eq(EMiller.Chain(p, i, a, num, den, q).pt.y, 0, q)
    ensures Stands(Doubled(n), EMiller.Chain(p, n, a, num, den, q), p, a, num, den, q)
  {
    hide DoublePt, Slope, LineAt, Eq;
    if n > 0 {
      ChainStands(p, n - 1, a, num, den, q);
      var m := EMiller.Chain(p, n - 1, a, num, den, q);
      EqRefl(m.pt.x, q);
      EqRefl(m.pt.y, q);
    }
  }

  lemma SignedStands(c: Build, m: EMiller.Miller, sign1: int, p: Pt, a: int, num: Pt, den: Pt, q: int)
    requires q > 0 && Stands(c, m, p, a, num, den, q)
    ensures Stands(SignedBuild(c, sign1), EMiller.Signed(m, sign1, num, den), p, a, num, den, q)
  {}

  lemma JoinStands(c: Build, m: EMiller.Miller, c1: Build, m1: EMiller.Miller, p: Pt, a: int, num: Pt, den: Pt, q: int)
    requires q > 0 && Stands(c, m, p, a, num, den, q) && Stands(c1, m1, p, a, num, den, q) && !Eq(m.pt.x, m1.pt.x, q)
    ensures Stands(Sum(c, c1), EMiller.Join(m, m1, num, den, q), p, a, num, den, q)
  {}

  /** Before the last vertical the run stands at index 2^exp2 + sign1 2^exp1. */
  lemma RunJoined(p: Pt, a: int, num: Pt, den: Pt, e: EMiller.Params, q: int)
    requires q > 1 && e.exp1 <= e.exp2 && EMiller.Regular(p, a, num, den, e, q)
    ensures Stands(Joined(e.exp2, e.exp1, e.sign1), RunBefore(p, a, num, den, e, q), p, a, num, den, q)
    ensures Index(Joined(e.exp2, e.exp1, e.sign1)) == Two(e.exp2) + SignOf(e.sign1) * Two(e.exp1)
  {
    EMiller.RegularFacts(p, a, num, den, e, q);
    hide Stands, EMiller.Join, EMiller.Chain, EMiller.Last, EMiller.Regular, EMiller.Quotient, Eq, Two;
    JoinedIndex(e.exp2, e.exp1, e.sign1);
    ChainStands(p, e.exp2, a, num, den, q);
    ChainStands(p, e.exp1, a, num, den, q);
    var m, n1 := EMiller.Chain(p, e.exp2, a, num, den, q), EMiller.Chain(p, e.exp1, a, num, den, q);
    var m1 := EMiller.Signed(n1, e.sign1, num, den);
    SignedStands(Doubled(e.exp1), n1, e.sign1, p, a, num, den, q);
    NotSym(m1.pt.x, m.pt.x, q);
    JoinStands(Doubled(e.exp2), m, SignedBuild(Doubled(e.exp1), e.sign1), m1, p, a, num, den, q);
  }

  lemma NotSym(x: int, y: int, q: int)
    requires q > 0 && !Eq(x, y, q)
    ensures !Eq(y, x, q)
  {
    if Eq(y, x, q) { EqSym(y, x, q); }
  }

  function RunBefore(p: Pt, a: int, num: Pt, den: Pt, e: EMiller.Params, q: int): EMiller.Miller
    requires q > 0
  {
    EMiller.Join(EMiller.Chain(p, EMiller.Len(e), a, num, den, q),
                 EMiller.Signed(EMiller.Chain(p, e.exp1, a, num, den, q), e.sign1, num, den), num, den, q)
  }

  // What closing a chain at infinity multiplies both values by
  function Common(p: Pt, sign0: int, num: Pt, den: Pt): int {
    if sign0 > 0 then 1 else (num.x - p.x) * (den.x - p.x)
  }

  // Adding P, or -P, to a chain that stands at the other one multiplies by a vertical, or not at all.
  lemma LastStands(c: Build, m: EMiller.Miller, sign0: int, p: Pt, a: int, num: Pt, den: Pt, q: int)
    requires q > 0 && Stands(c, m, p, a, num, den, q) && sign0 != 0
    requires PlaceOf(Sum(c, SignedBuild(Start, sign0)), p, a, q).Infinity?
    ensures Eq(m.pt.x, p.x, q)
    ensures var w, t := ValueOf(Sum(c, SignedBuild(Start, sign0)), p, a, num, den, q), EMiller.Last(m, p, sign0, num, den);
            var k := Common(p, sign0, num, den);
            Eq(w.v, k * t.v, q) && Eq(w.vd, k * t.vd, q)
  {
    hide Eq, LineOf, SumOf, ValueOf, PlaceOf;
    var wn, wd := num.x - p.x, den.x - p.x;
    if sign0 > 0 {
      PlusValue(c, m, p, a, num, den, q);
      MovedVertical(m.v, num.x, m.pt.x, p.x, q);
      MovedVertical(m.vd, den.x, m.pt.x, p.x, q);
    } else {
      MinusValue(c, m, p, a, num, den, q);
      MovedVertical(m.v * wd, num.x, m.pt.x, p.x, q);
      MovedVertical(m.vd * wn, den.x, m.pt.x, p.x, q);
      assert m.v * wd * wn == wn * wd * m.v && m.vd * wn * wd == wn * wd * m.vd;
    }
  }

  lemma MovedVertical(v: int, s: int, x: int, x': int, q: int)
    requires q > 0 && Eq(x, x', q)
    ensures Eq(v * (s - x), v * (s - x'), q)
  {
    EqRefl(s, q); EqRefl(v, q);
    EqAdd(s, s, x, x', q);
    EqMul(v, v, s - x, s - x', q);
  }

  lemma PlusValue(c: Build, m: EMiller.Miller, p: Pt, a: int, num: Pt, den: Pt, q: int)
    requires q > 0 && Stands(c, m, p, a, num, den, q) && PlaceOf(Sum(c, Start), p, a, q).Infinity?
    ensures Eq(m.pt.x, p.x, q) && ValueOf(Sum(c, Start), p, a, num, den, q) == Value(m.v * (num.x - m.pt.x), m.vd * (den.x - m.pt.x))
  {
    hide LineOf, SumOf, Eq;
    LineToInfinity(m.pt, p, a, q);
    SumValue(c, Start, p, a, num, den, q);
  }

  lemma MinusValue(c: Build, m: EMiller.Miller, p: Pt, a: int, num: Pt, den: Pt, q: int)
    requires q > 0 && Stands(c, m, p, a, num, den, q) && PlaceOf(Sum(c, Opposite(Start)), p, a, q).Infinity?
    ensures Eq(m.pt.x, p.x, q)
    ensures ValueOf(Sum(c, Opposite(Start)), p, a, num, den, q)
         == Value(m.v * (den.x - p.x) * (num.x - m.pt.x), m.vd * (num.x - p.x) * (den.x - m.pt.x))
  {
    hide LineOf, SumOf, Eq;
    MinusOnePlace(p, a, num, den, q);
    var o := Opposite(Start);
    hide ValueOf, PlaceOf;
    SumPlace(c, o, p, a, q);
    LineToInfinity(m.pt, Pt(p.x, -p.y), a, q);
    SumValue(c, o, p, a, num, den, q);
  }

  lemma SumPlace(c: Build, d: Build, p: Pt, a: int, q: int)
    requires q > 0
    ensures PlaceOf(Sum(c, d), p, a, q) == SumOf(PlaceOf(c, p, a, q), PlaceOf(d, p, a, q), a, q)
  {}

  lemma MinusOnePlace(p: Pt, a: int, num: Pt, den: Pt, q: int)
    requires q > 0
    ensures PlaceOf(Opposite(Start), p, a, q) == Finite(Pt(p.x, -p.y))
    ensures ValueOf(Opposite(Start), p, a, num, den, q) == Value(den.x - p.x, num.x - p.x)
  {
    assert PlaceOf(Start, p, a, q) == Finite(p) && ValueOf(Start, p, a, num, den, q) == Value(1, 1);
  }

  lemma LineToInfinity(v: Pt, w: Pt, a: int, q: int)
    requires q > 0 && SumOf(Finite(v), Finite(w), a, q).Infinity?
    ensures LineOf(Finite(v), Finite(w), a, q) == Upright(v.x) && Eq(v.x, w.x, q)
  {}

  // What a sum that ends at infinity collects.
  lemma SumValue(c: Build, d: Build, p: Pt, a: int, num: Pt, den: Pt, q: int)
    requires q > 0 && PlaceOf(Sum(c, d), p, a, q).Infinity?
    ensures var l, m, m1 := LineOf(PlaceOf(c, p, a, q), PlaceOf(d, p, a, q), a, q), ValueOf(c, p, a, num, den, q), ValueOf(d, p, a, num, den, q);
            ValueOf(Sum(c, d), p, a, num, den, q) == Value(m.v * m1.v * Eval(l, num), m.vd * m1.vd * Eval(l, den))
  {
    hide LineOf, SumOf, PlaceOf;
    assert VerticalOf(PlaceOf(Sum(c, d), p, a, q)) == Constant;
  }

  /** The chain of index r ends at infinity exactly for rP = O. */
  lemma RunEnds(p: Pt, a: int, e: EMiller.Params, q: int, f: int -> Place)
    requires q > 0 && Multiples(f, p, a, q)
    ensures PlaceOf(RunBuild(e), p, a, q).Infinity? <==> f(Order(e)).Infinity?
  {
    WholeIndex(e.exp2, e.exp1, e.sign1, e.sign0);
    ChainPlace(RunBuild(e), f, p, a, q);
  }

  /** When the chain of index r ends at infinity, the joined point has the abscissa of P, and the run's two
      values are those of that chain, up to one common factor. */
  lemma RunIndex(p: Pt, a: int, num: Pt, den: Pt, e: EMiller.Params, q: int)
    requires q > 1 && e.exp1 <= e.exp2 && e.sign0 != 0 && EMiller.Regular(p, a, num, den, e, q)
    requires PlaceOf(RunBuild(e), p, a, q).Infinity?
    ensures Index(RunBuild(e)) == Order(e)
    ensures Eq(EMiller.Textbook(p, a, num, den, e, q).pt.x, p.x, q)
    ensures var w, t := ValueOf(RunBuild(e), p, a, num, den, q), EMiller.Textbook(p, a, num, den, e, q);
            var k := Common(p, e.sign0, num, den);
            Eq(w.v, k * t.v, q) && Eq(w.vd, k * t.vd, q)
  {
    WholeIndex(e.exp2, e.exp1, e.sign1, e.sign0);
    RunJoined(p, a, num, den, e, q);
    var m := RunBefore(p, a, num, den, e, q);
    assert EMiller.Textbook(p, a, num, den, e, q) == EMiller.Last(m, p, e.sign0, num, den);
    hide Stands, EMiller.Join, EMiller.Chain, EMiller.Regular, Eq;
    LastStands(Joined(e.exp2, e.exp1, e.sign1), m, e.sign0, p, a, num, den, q);
  }

  // The group order the parameters stand for
  function Order(e: EMiller.Params): int { Two(e.exp2) + SignOf(e.sign1) * Two(e.exp1) + SignOf(e.sign0) }

  function RunBuild(e: EMiller.Params): Build { Whole(e.exp2, e.exp1, e.sign1, e.sign0) }

  lemma RegularEnd(p: Pt, a: int, num: Pt, den: Pt, e: EMiller.Params, q: int)
    requires q > 0 && EMiller.Regular(p, a, num, den, e, q)
    ensures !Eq(EMiller.Textbook(p, a, num, den, e, q).vd, 0, q)
  {}

  lemma QuotientIs(p: Pt, a: int, num: Pt, den: Pt, e: EMiller.Params, q: int)
    requires q > 0
    ensures var t := EMiller.Textbook(p, a, num, den, e, q); EMiller.Quotient(p, a, num, den, e, q) == t.v * Inv(t.vd, q)
  {}

  /** What both loops return is f_r(QR) / f_r(R). */
  lemma QuotientIndex(p: Pt, a: int, num: Pt, den: Pt, e: EMiller.Params, q: int)
    requires Prime(q) && e.exp1 <= e.exp2 && e.sign0 != 0 && EMiller.Regular(p, a, num, den, e, q)
    requires PlaceOf(RunBuild(e), p, a, q).Infinity?
    requires e.sign0 < 0 ==> !Eq(num.x - p.x, 0, q) && !Eq(den.x - p.x, 0, q)
    ensures var w := ValueOf(RunBuild(e), p, a, num, den, q);
            !Eq(w.vd, 0, q) && Eq(EMiller.Quotient(p, a, num, den, e, q), w.v * Inv(w.vd, q), q)
  {
    hide EMiller.Textbook, EMiller.Regular, EMiller.Quotient, Prime, Eq, ValueOf, Inv, Two, Order, RunBuild, PlaceOf;
    PrimeBig(q);
    RunIndex(p, a, num, den, e, q);
    RegularEnd(p, a, num, den, e, q);
    QuotientIs(p, a, num, den, e, q);
    CommonNonzero(p, e.sign0, num, den, q);
    hide Common;
    var w, t, k := ValueOf(RunBuild(e), p, a, num, den, q), EMiller.Textbook(p, a, num, den, e, q), Common(p, e.sign0, num, den);
    NonzeroProduct(k, t.vd, q);
    NonzeroCong(w.vd, k * t.vd, q);
    assert EMiller.Scaled(w.v, w.vd, t, k, q);
    EMiller.ScaledQuotient(w.v, w.vd, t, k, q);
    EqSym(w.v * Inv(w.vd, q), t.v * Inv(t.vd, q), q);
  }

  lemma CommonNonzero(p: Pt, sign0: int, num: Pt, den: Pt, q: int)
    requires Prime(q) && (sign0 <= 0 ==> !Eq(num.x - p.x, 0, q) && !Eq(den.x - p.x, 0, q))
    ensures !Eq(Common(p, sign0, num, den), 0, q)
  {
    OneFactor(1, q);
    if sign0 <= 0 { NonzeroProduct(num.x - p.x, den.x - p.x, q); }
  }

  // ---------- the norm of a chain's value ----------

  // u is w multiplied by x^m / y^n, where the chain has left the verticals z at num and z' at den.
  ghost predicate Balanced(u: int, w: int, z: int, z': int, x: int, y: int, plus: nat, minus: nat, q: int)
    requires q > 0
  {
    Eq(u * z * (Pow(y, plus) * Pow(x, minus)), w * z' * (Pow(x, plus) * Pow(y, minus)), q)
  }

  /** The value of a chain times its value at the mirrored points is the vertical through P to the power of the index,
      over the vertical through the chain's place. */
  lemma {:induction false} ValueNorm(c: Build, p: Pt, a: int, b: int, num: Pt, den: Pt, q: int)
    requires Prime(q) && q % 2 == 1 && OnCurve(p, a, b, q) && OnCurve(num, a, b, q) && OnCurve(den, a, b, q)
    ensures var m, w, z := ValueOf(c, p, a, num, den, q), ValueOf(c, p, a, Mirror(num), Mirror(den), q), VerticalOf(PlaceOf(c, p, a, q));
            Balanced(m.v * w.v, m.vd * w.vd, Eval(z, num), Eval(z, den), num.x - p.x, den.x - p.x, Plus(c), Minus(c), q)
  {
    PrimeBig(q);
    hide OnCurve, Prime, LineOf, SumOf, Balanced;
    var x, y := num.x - p.x, den.x - p.x;
    match c
    case Start =>
      BalancedOne(x, y, q);
    case Opposite(d) =>
      ValueNorm(d, p, a, b, num, den, q);
      var m, w, z := ValueOf(d, p, a, num, den, q), ValueOf(d, p, a, Mirror(num), Mirror(den), q), VerticalOf(PlaceOf(d, p, a, q));
      assert VerticalOf(PlaceOf(c, p, a, q)) == z;
      assert Eval(z, Mirror(num)) == Eval(z, num) && Eval(z, Mirror(den)) == Eval(z, den);
      BalancedSwap(m.v, w.v, m.vd, w.vd, Eval(z, num), Eval(z, den), x, y, Plus(d), Minus(d), q);
    case Sum(d, e) =>
      ValueNorm(d, p, a, b, num, den, q);
      ValueNorm(e, p, a, b, num, den, q);
      SumNorm(d, e, p, a, b, num, den, q);
  }

  lemma BalancedOne(x: int, y: int, q: int)
    requires q > 0
    ensures Balanced(1 * 1, 1 * 1, x, y, x, y, 1, 0, q)
  {
    PowSucc(x, 0); PowSucc(y, 0);
    hide Pow;
    assert 1 * 1 * x * (y * 1) == 1 * 1 * y * (x * 1);
    EqRefl(1 * 1 * x * (y * 1), q);
  }

  lemma BalancedSwap(v: int, v': int, d: int, d': int, z: int, z': int, x: int, y: int, plus: nat, minus: nat, q: int)
    requires q > 0 && Balanced(v * v', d * d', z, z', x, y, plus, minus, q)
    ensures Balanced((d * z') * (d' * z'), (v * z) * (v' * z), z, z', x, y, minus, plus, q)
  {
    var u, w := Pow(y, plus) * Pow(x, minus), Pow(x, plus) * Pow(y, minus);
    assert u == Pow(x, minus) * Pow(y, plus) && w == Pow(y, minus) * Pow(x, plus);
    hide Pow;
    EqSym(v * v' * z * u, d * d' * z' * w, q);
    EqRefl(z * z', q);
    EqMul(z * z', z * z', d * d' * z' * w, v * v' * z * u, q);
    SwapIdentity(d, d', z, z', w);
    SwapIdentity(v, v', z', z, u);
    assert z * z' == z' * z;
  }

  lemma SwapIdentity(d: int, d': int, z: int, z': int, w: int)
    ensures z * z' * (d * d' * z' * w) == (d * z') * (d' * z') * z * w
  {}

  // The three verticals of a sum and the one that stays, on both sides.
  lemma SumNorm(d: Build, e: Build, p: Pt, a: int, b: int, num: Pt, den: Pt, q: int)
    requires Prime(q) && q % 2 == 1 && OnCurve(p, a, b, q) && OnCurve(num, a, b, q) && OnCurve(den, a, b, q)
    requires BalancedAt(d, p, a, num, den, q) && BalancedAt(e, p, a, num, den, q)
    ensures BalancedAt(Sum(d, e), p, a, num, den, q)
  {
    PrimeBig(q);
    var pd, pe := PlaceOf(d, p, a, q), PlaceOf(e, p, a, q);
    ChainOnCurve(d, p, a, b, q);
    ChainOnCurve(e, p, a, b, q);
    LineVerticals(pd, pe, num, a, b, q);
    LineVerticals(pd, pe, den, a, b, q);
    var l, z := LineOf(pd, pe, a, q), VerticalOf(SumOf(pd, pe, a, q));
    assert Eval(z, Mirror(num)) == Eval(z, num) && Eval(z, Mirror(den)) == Eval(z, den);
    var md, me := ValueOf(d, p, a, num, den, q), ValueOf(e, p, a, num, den, q);
    var wd, we := ValueOf(d, p, a, Mirror(num), Mirror(den), q), ValueOf(e, p, a, Mirror(num), Mirror(den), q);
    var zd, ze := VerticalOf(pd), VerticalOf(pe);
    var x, y := num.x - p.x, den.x - p.x;
    hide OnCurve, Prime, LineOf, SumOf, Balanced, Eval, Eq;
    BalancedSum(md.v, wd.v, md.vd, wd.vd, me.v, we.v, me.vd, we.vd, Eval(zd, num), Eval(zd, den), Eval(ze, num), Eval(ze, den),
                Eval(z, num), Eval(z, den), Eval(l, num), Eval(l, Mirror(num)), Eval(l, den), Eval(l, Mirror(den)), LineSign(l),
                x, y, Plus(d), Minus(d), Plus(e), Minus(e), q);
  }

  ghost predicate BalancedAt(c: Build, p: Pt, a: int, num: Pt, den: Pt, q: int)
    requires q > 0
  {
    var m, w, z := ValueOf(c, p, a, num, den, q), ValueOf(c, p, a, Mirror(num), Mirror(den), q), VerticalOf(PlaceOf(c, p, a, q));
    Balanced(m.v * w.v, m.vd * w.vd, Eval(z, num), Eval(z, den), num.x - p.x, den.x - p.x, Plus(c), Minus(c), q)
  }

  lemma BalancedSum(v: int, v': int, d: int, d': int, u: int, u': int, e: int, e': int, z: int, zd: int, y: int, yd: int,
                    s: int, sd: int, l: int, l': int, k: int, k': int, sg: int, x: int, w: int, m: nat, n: nat, m1: nat, n1: nat, q: int)
    requires q > 0 && Balanced(v * v', d * d', z, zd, x, w, m, n, q) && Balanced(u * u', e * e', y, yd, x, w, m1, n1, q)
    requires Eq(l * l', sg * (z * y * s), q) && Eq(k * k', sg * (zd * yd * sd), q)
    ensures Balanced((v * u * l * sd) * (v' * u' * l' * sd), (d * e * k * s) * (d' * e' * k' * s), s, sd, x, w, m + m1, n + n1, q)
  {
    var a1, a2 := Pow(w, m) * Pow(x, n), Pow(w, m1) * Pow(x, n1);
    var b1, b2 := Pow(x, m) * Pow(w, n), Pow(x, m1) * Pow(w, n1);
    PowAdd(w, m, m1); PowAdd(x, n, n1); PowAdd(x, m, m1); PowAdd(w, n, n1);
    Swap4(Pow(w, m), Pow(w, m1), Pow(x, n), Pow(x, n1));
    Swap4(Pow(x, m), Pow(x, m1), Pow(w, n), Pow(w, n1));
    hide Pow, Eq;
    // left = (v v' z a1) (u u' y a2) sg s sd s s ..., right the same with the other side of both hypotheses
    EqMul(v * v' * z * a1, d * d' * zd * b1, u * u' * y * a2, e * e' * yd * b2, q);
    var r := sg * (s * s) * (sd * sd);
    EqRefl(r, q);
    EqMul(v * v' * z * a1 * (u * u' * y * a2), d * d' * zd * b1 * (e * e' * yd * b2), r, r, q);
    SideLeft(v, v', u, u', l * l', sg, z, y, s, sd, a1, a2, q, l, l');
    SideLeft(d, d', e, e', k * k', sg, zd, yd, sd, s, b1, b2, q, k, k');
    assert sg * (sd * sd) * (s * s) == r;
    var lhs, rhs := (v * u * l * sd) * (v' * u' * l' * sd) * s * (a1 * a2), (d * e * k * s) * (d' * e' * k' * s) * sd * (b1 * b2);
    var c1, c2 := v * v' * z * a1 * (u * u' * y * a2) * r, d * d' * zd * b1 * (e * e' * yd * b2) * r;
    EqTrans(lhs, c1, c2, q);
    EqSym(rhs, c2, q);
    EqTrans(lhs, c2, rhs, q);
  }

  lemma Swap4(w: int, w1: int, x: int, x1: int)
    ensures (w * w1) * (x * x1) == (w * x) * (w1 * x1)
  {}

  lemma SideLeft(v: int, v': int, u: int, u': int, ll: int, sg: int, z: int, y: int, s: int, sd: int, a1: int, a2: int, q: int, l: int, l': int)
    requires q > 0 && ll == l * l' && Eq(ll, sg * (z * y * s), q)
    ensures Eq((v * u * l * sd) * (v' * u' * l' * sd) * s * (a1 * a2), v * v' * z * a1 * (u * u' * y * a2) * (sg * (s * s) * (sd * sd)), q)
  {
    var o := (v * v') * (u * u') * (sd * sd) * s * (a1 * a2);
    EqRefl(o, q);
    EqMul(o, o, ll, sg * (z * y * s), q);
    hide Eq;
    Regroup(v, u, l, sd, v', u', l');
    assert (v * u * l * sd) * (v' * u' * l' * sd) * s * (a1 * a2) == o * ll by { RegroupTail((v * v') * (u * u'), ll, sd * sd, s, a1 * a2); }
    Collect(v * v', u * u', sd * sd, s, a1, a2, sg, z, y);
  }

  lemma Regroup(v: int, u: int, l: int, t: int, v': int, u': int, l': int)
    ensures (v * u * l * t) * (v' * u' * l' * t) == (v * v') * (u * u') * (l * l') * (t * t)
  {}

  lemma RegroupTail(g: int, ll: int, t: int, s: int, a: int)
    ensures g * ll * t * s * a == g * t * s * a * ll
  {}

  lemma Collect(v: int, u: int, t: int, s: int, a1: int, a2: int, sg: int, z: int, y: int)
    ensures v * u * t * s * (a1 * a2) * (sg * (z * y * s)) == v * z * a1 * (u * y * a2) * (sg * (s * s) * t)
  {}

  // ---------- the norm of the quotient ----------

  // n = v / d and n' = v' / d', and the balance of v v' and d d' is that of n n'.
  lemma DivideNorm(n: int, n': int, v: int, v': int, d: int, d': int, g: int, h: int, q: int)
    requires Prime(q) && !Eq(d, 0, q) && !Eq(d', 0, q) && Eq(n, v * Inv(d, q), q) && Eq(n', v' * Inv(d', q), q)
    requires Eq(v * v' * g, d * d' * h, q)
    ensures Eq(n * n' * g, h, q)
  {
    PrimeBig(q);
    hide Prime, Inv;
    TimesBack(n, v, d, q);
    TimesBack(n', v', d', q);
    EqMul(n * d, v, n' * d', v', q);
    EqRefl(g, q);
    EqMul(n * d * (n' * d'), v * v', g, g, q);
    EqTrans(n * d * (n' * d') * g, v * v' * g, d * d' * h, q);
    hide Eq;
    NonzeroProduct(d, d', q);
    TimesShuffle(n, d, n', d', g);
    Cancel(d * d', n * n' * g, h, q);
  }

  lemma TimesShuffle(n: int, d: int, n': int, d': int, g: int)
    ensures n * d * (n' * d') * g == d * d' * (n * n' * g)
  {}

  lemma TimesBack(n: int, v: int, d: int, q: int)
    requires Prime(q) && q > 0 && !Eq(d, 0, q) && Eq(n, v * Inv(d, q), q)
    ensures Eq(n * d, v, q)
  {
    InvPrime(d, q);
    var i := Inv(d, q);
    hide Prime, Inv;
    Combine2(d, n - v * i, v, d * i - 1, q);
    TimesBackIdentity(n, v, d, i);
  }

  lemma TimesBackIdentity(n: int, v: int, d: int, i: int)
    ensures d * (n - v * i) + v * (d * i - 1) == n * d - v
  {}

  // Powers that enter with both signs cancel.
  lemma CancelMinus(k: int, x: int, y: int, r: nat, minus: nat, q: int)
    requires Prime(q) && !Eq(x, 0, q) && !Eq(y, 0, q)
    requires Eq(k * (Pow(y, r + minus) * Pow(x, minus)), Pow(x, r + minus) * Pow(y, minus), q)
    ensures Eq(k * Pow(y, r), Pow(x, r), q)
  {
    PrimeBig(q);
    PowAdd(y, r, minus);
    PowAdd(x, r, minus);
    PowNonzero(x, minus, q);
    PowNonzero(y, minus, q);
    var xm, ym := Pow(x, minus), Pow(y, minus);
    hide Pow, Prime, Eq;
    NonzeroProduct(xm, ym, q);
    CancelShuffle(k, Pow(y, r), Pow(x, r), xm, ym);
    Cancel(xm * ym, k * Pow(y, r), Pow(x, r), q);
  }

  lemma CancelShuffle(k: int, yr: int, xr: int, xm: int, ym: int)
    ensures k * (yr * ym * xm) == xm * ym * (k * yr) && xr * xm * ym == xm * ym * xr
  {}

  lemma OrderCounts(e: EMiller.Params)
    requires Order(e) >= 0
    ensures Plus(RunBuild(e)) == Order(e) + Minus(RunBuild(e))
  {
    WholeIndex(e.exp2, e.exp1, e.sign1, e.sign0);
    IndexCounts(RunBuild(e));
  }

  /** The returned element times the one returned for -QR and -R is ((x_QR - x_P) / (x_R - x_P))^r. */
  lemma QuotientNorm(p: Pt, a: int, b: int, num: Pt, den: Pt, e: EMiller.Params, q: int)
    requires Prime(q) && q % 2 == 1 && OnCurve(p, a, b, q) && OnCurve(num, a, b, q) && OnCurve(den, a, b, q)
    requires e.exp1 <= e.exp2 && e.sign0 != 0 && Order(e) >= 0
    requires EMiller.Regular(p, a, num, den, e, q) && EMiller.Regular(p, a, Mirror(num), Mirror(den), e, q)
    requires PlaceOf(RunBuild(e), p, a, q).Infinity?
    requires !Eq(num.x - p.x, 0, q) && !Eq(den.x - p.x, 0, q)
    ensures var r: nat := Order(e);
            Eq(EMiller.Quotient(p, a, num, den, e, q) * EMiller.Quotient(p, a, Mirror(num), Mirror(den), e, q) * Pow(den.x - p.x, r),
               Pow(num.x - p.x, r), q)
  {
    hide EMiller.Regular, EMiller.Quotient, Prime, Eq, ValueOf, Inv, Two, Order, RunBuild, PlaceOf, OnCurve, Pow;
    PrimeBig(q);
    var c, x, y := RunBuild(e), num.x - p.x, den.x - p.x;
    QuotientIndex(p, a, num, den, e, q);
    QuotientIndex(p, a, Mirror(num), Mirror(den), e, q);
    ValueNorm(c, p, a, b, num, den, q);
    OrderCounts(e);
    var m, w := ValueOf(c, p, a, num, den, q), ValueOf(c, p, a, Mirror(num), Mirror(den), q);
    var n, n' := EMiller.Quotient(p, a, num, den, e, q), EMiller.Quotient(p, a, Mirror(num), Mirror(den), e, q);
    var g, h := Pow(y, Plus(c)) * Pow(x, Minus(c)), Pow(x, Plus(c)) * Pow(y, Minus(c));
    assert m.v * w.v * 1 == m.v * w.v && m.vd * w.vd * 1 == m.vd * w.vd;
    DivideNorm(n, n', m.v, w.v, m.vd, w.vd, g, h, q);
    CancelMinus(n * n', x, y, Order(e), Minus(c), q);
  }
}
