/** Arithmetic in F_q[x]/(m) for m of degree n (arith/poly.c): elements are arrays of n coefficients,
    and products are reduced with the stored remainders of x^n, ..., x^(2n-1). */
module PolyMod {
  import opened Modular
  import opened Residues
  import opened Poly
  import opened PolyDivision

  // ---------- values and congruences ----------

  lemma {:induction false} EvalConcat(a: seq<int>, b: seq<int>, x: int)
    ensures Eval(a + b, x) == Eval(a, x) + Pow(x, |a|) * Eval(b, x)
  {
    if |a| == 0 {
      assert a + b == b;
    } else {
      EvalConcat(a[1..], b, x);
      assert (a + b)[1..] == a[1..] + b;
      ConcatStep(a[0], x, Eval(a[1..], x), Pow(x, |a| - 1), Eval(b, x));
    }
  }

  lemma ConcatStep(a: int, x: int, e: int, w: int, b: int)
    ensures a + x * (e + w * b) == a + x * e + (x * w) * b
  {}

  lemma {:induction false} EvalCoeff(a: seq<int>, b: seq<int>, x: int)
    requires forall i: nat :: Coeff(a, i) == Coeff(b, i)
    ensures Eval(a, x) == Eval(b, x)
    decreases |a| + |b|
  {
    if |a| + |b| > 0 {
      var a', b' := if |a| > 0 then a[1..] else [], if |b| > 0 then b[1..] else [];
      forall i: nat ensures Coeff(a', i) == Coeff(b', i) {
        assert Coeff(a, i + 1) == Coeff(a', i) && Coeff(b, i + 1) == Coeff(b', i);
      }
      EvalCoeff(a', b', x);
      EvalHead(a, x);
      EvalHead(b, x);
      assert Coeff(a, 0) == Coeff(b, 0);
    }
  }

  lemma SameModulo(a: seq<int>, a': seq<int>, b: seq<int>, m: seq<int>, q: int)
    requires MEq(a, b, m, q) && forall x: int :: Eval(a, x) == Eval(a', x)
    ensures MEq(a', b, m, q)
  {
    var u, s :| Near(a, b, m, q, u, s);
    assert Near(a', b, m, q, u, s);
  }

  lemma AddScaled(a: seq<int>, b: seq<int>, c: int, a': seq<int>, b': seq<int>, m: seq<int>, q: int)
    requires MEq(a, b, m, q) && MEq(a', b', m, q)
    ensures MEq(Add(a, Scale(c, a')), Add(b, Scale(c, b')), m, q)
  {
    hide Eval, Add, Scale;
    var u, s :| Near(a, b, m, q, u, s);
    var u', s' :| Near(a', b', m, q, u', s');
    var l, r := Add(a, Scale(c, a')), Add(b, Scale(c, b'));
    forall x: int ensures Eval(l, x) == Eval(r, x) + Eval(Add(u, Scale(c, u')), x) * Eval(m, x) + q * Eval(Add(s, Scale(c, s')), x) {
      EvalAdd(a, Scale(c, a'), x); EvalScale(c, a', x);
      EvalAdd(b, Scale(c, b'), x); EvalScale(c, b', x);
      EvalAdd(u, Scale(c, u'), x); EvalScale(c, u', x);
      EvalAdd(s, Scale(c, s'), x); EvalScale(c, s', x);
      ScaledIdentity(Eval(b, x), Eval(u, x), Eval(s, x), c, Eval(b', x), Eval(u', x), Eval(s', x), Eval(m, x), q);
    }
    assert Near(l, r, m, q, Add(u, Scale(c, u')), Add(s, Scale(c, s')));
  }

  lemma ScaledIdentity(b: int, u: int, s: int, c: int, b': int, u': int, s': int, m: int, q: int)
    ensures (b + u * m + q * s) + c * (b' + u' * m + q * s') == (b + c * b') + (u + c * u') * m + q * (s + c * s')
  {}

  lemma ModRefl(a: seq<int>, m: seq<int>, q: int)
    ensures MEq(a, a, m, q)
  {
    forall x: int ensures Eval(a, x) == Eval(a, x) + Eval([], x) * Eval(m, x) + q * Eval([], x) {
      EvalShort(x); TimesNothing(q);
      assert 0 * Eval(m, x) == 0;
    }
    assert Near(a, a, m, q, [], []);
  }

  // ---------- the stored powers ----------

  // Row i is the remainder of x^(n+i).
  ghost predicate XPowers(xpwr: seq<seq<int>>, m: seq<int>, n: nat, q: int) {
    |xpwr| == n && |m| == n + 1
    && forall i :: 0 <= i < n ==> |xpwr[i]| == n && MEq(Monomial(1, n + i), xpwr[i], m, q)
  }

  // x^n = -(m - x^n)
  lemma FirstPower(m: seq<int>, row: seq<int>, n: nat, q: int)
    requires q > 0 && |m| == n + 1 && Eq(m[n], 1, q) && |row| == n && forall j :: 0 <= j < n ==> row[j] == -m[j]
    ensures MEq(Monomial(1, n), row, m, q)
  {
    hide Eval, Pow, Scale;
    var k := EqElim(m[n], 1, q);
    assert row == Scale(-1, m[..n]);
    var s := Monomial(-k, n);
    forall x: int ensures Eval(Monomial(1, n), x) == Eval(row, x) + Eval([1], x) * Eval(m, x) + q * Eval(s, x) {
      EvalMonomial(1, n, x); EvalMonomial(-k, n, x); EvalConst(1, x);
      assert m == m[..n] + [m[n]];
      EvalSnoc(m[..n], m[n], x);
      EvalScale(-1, m[..n], x);
      FirstIdentity(Pow(x, n), Eval(m[..n], x), k, q);
    }
    assert Near(Monomial(1, n), row, m, q, [1], s);
  }

  lemma FirstIdentity(w: int, e: int, k: int, q: int)
    ensures 1 * w == -1 * e + 1 * (e + (1 + k * q) * w) + q * (-k * w)
  {}

  // x * (c_0 + ... + c_(n-1) x^(n-1)) = (0, c_0, ..., c_(n-2)) + c_(n-1) x^n
  lemma NextPower(m: seq<int>, first: seq<int>, row: seq<int>, next: seq<int>, n: nat, i: nat, q: int)
    requires n >= 1 && |first| == n && |row| == n && MEq(Monomial(1, n), first, m, q) && MEq(Monomial(1, n + i), row, m, q)
    requires next == Add([0] + row[..n - 1], Scale(row[n - 1], first))
    ensures MEq(Monomial(1, n + i + 1), next, m, q)
  {
    hide Eval, Pow, Add, Scale;
    var u1, s1 :| Near(Monomial(1, n), first, m, q, u1, s1);
    var u, s :| Near(Monomial(1, n + i), row, m, q, u, s);
    var c := row[n - 1];
    var u', s' := Add([0] + u, Scale(c, u1)), Add([0] + s, Scale(c, s1));
    forall x: int ensures Eval(Monomial(1, n + i + 1), x) == Eval(next, x) + Eval(u', x) * Eval(m, x) + q * Eval(s', x) {
      EvalMonomial(1, n, x); EvalMonomial(1, n + i, x); EvalMonomial(1, n + i + 1, x);
      PowSucc(x, n + i); PowSucc(x, n - 1);
      assert row == row[..n - 1] + [c];
      EvalSnoc(row[..n - 1], c, x);
      EvalAdd([0] + row[..n - 1], Scale(c, first), x); EvalCons(0, row[..n - 1], x); EvalScale(c, first, x);
      EvalAdd([0] + u, Scale(c, u1), x); EvalCons(0, u, x); EvalScale(c, u1, x);
      EvalAdd([0] + s, Scale(c, s1), x); EvalCons(0, s, x); EvalScale(c, s1, x);
      NextIdentity(x, Pow(x, n + i), Pow(x, n - 1), Eval(row[..n - 1], x), c, Eval(first, x), Eval(u, x), Eval(u1, x),
                   Eval(s, x), Eval(s1, x), Eval(m, x), q);
    }
    assert Near(Monomial(1, n + i + 1), next, m, q, u', s');
  }

  lemma NextIdentity(x: int, w: int, p: int, e: int, c: int, f: int, u: int, u1: int, s: int, s1: int, m: int, q: int)
    requires 1 * w == (e + c * p) + u * m + q * s && 1 * (x * p) == f + u1 * m + q * s1
    ensures 1 * (x * w) == (0 + x * e + c * f) + (0 + x * u + c * u1) * m + q * (0 + x * s + c * s1)
  {
    NextLeft(x, e, c, p, u * m, q * s);
    NextRight(c, f, u1 * m, q * s1);
    assert c * (x * p) == c * f + c * (u1 * m) + c * (q * s1);
    Distribute(x * u, c * u1, m);
    Distribute(x * s, c * s1, q);
    assert x * (u * m) == (x * u) * m && c * (u1 * m) == (c * u1) * m;
    assert x * (q * s) == (x * s) * q && c * (q * s1) == (c * s1) * q;
  }

  lemma NextLeft(x: int, e: int, c: int, p: int, um: int, qs: int)
    ensures x * ((e + c * p) + um + qs) == x * e + c * (x * p) + x * um + x * qs
  {}

  lemma NextRight(c: int, f: int, um: int, qs: int)
    ensures c * (f + um + qs) == c * f + c * um + c * qs
  {}

  lemma Distribute(a: int, b: int, c: int)
    ensures (a + b) * c == a * c + b * c && c * (a + b) == a * c + b * c
  {}

  // polymod_const_mul and polymod_add
  function Plus(a: seq<int>, c: int, b: seq<int>): (r: seq<int>)
    requires |a| == |b|
    ensures |r| == |a| && forall j :: 0 <= j < |r| ==> r[j] == a[j] + c * b[j]
  {
    seq(|a|, j requires 0 <= j < |a| => a[j] + c * b[j])
  }

  lemma PlusIsAdd(a: seq<int>, c: int, b: seq<int>)
    requires |a| == |b|
    ensures Plus(a, c, b) == Add(a, Scale(c, b))
  {
    hide Add, Scale;
  }

  // element_poly_to_polymod_truncate and element_neg
  method NegTruncated(m: seq<int>, n: nat) returns (row: seq<int>)
    requires n <= |m|
    ensures |row| == n && forall k :: 0 <= k < n ==> row[k] == -m[k]
  {
    row := [];
    for j := 0 to n
      invariant |row| == j && forall k :: 0 <= k < j ==> row[k] == -m[k]
    {
      row := row + [-m[j]];
    }
  }

  // Multiplication by x, without the coefficient of x^n.
  method ShiftUp(coeff: seq<int>) returns (coeff1: seq<int>)
    requires |coeff| >= 1
    ensures coeff1 == [0] + coeff[..|coeff| - 1]
  {
    coeff1 := [0];
    for j := 1 to |coeff|
      invariant |coeff1| == j && coeff1 == [0] + coeff[..j - 1]
    {
      coeff1 := coeff1 + [coeff[j - 1]];
      assert coeff[..j] == coeff[..j - 1] + [coeff[j - 1]];
    }
  }

  /** compute_x_powers */
  method ComputeXPowers(m: seq<int>, n: nat, q: int) returns (xpwr: seq<seq<int>>)
    requires q > 0 && n >= 1 && |m| == n + 1 && Eq(m[n], 1, q)
    ensures XPowers(xpwr, m, n, q)
  {
    hide Eq, MEq, Add, Scale, Monomial;
    var pwrn := NegTruncated(m, n);
    FirstPower(m, pwrn, n, q);
    xpwr := [pwrn];
    for i := 1 to n
      invariant |xpwr| == i && xpwr[0] == pwrn
      invariant forall k :: 0 <= k < i ==> |xpwr[k]| == n && MEq(Monomial(1, n + k), xpwr[k], m, q)
    {
      var coeff := xpwr[i - 1];
      var coeff1 := ShiftUp(coeff);
      var next := Plus(coeff1, coeff[n - 1], pwrn);
      PlusIsAdd(coeff1, coeff[n - 1], pwrn);
      NextPower(m, pwrn, coeff, next, n, i - 1, q);
      xpwr := xpwr + [next];
    }
  }

  // ---------- reduction ----------

  // low + high[0] xpwr[0] + ... + high[k-1] xpwr[k-1]
  function Folded(low: seq<int>, high: seq<int>, xpwr: seq<seq<int>>, k: nat): (r: seq<int>)
    requires k <= |high| && k <= |xpwr| && forall i :: 0 <= i < k ==> |xpwr[i]| == |low|
    ensures |r| == |low|
  {
    if k == 0 then low else Plus(Folded(low, high, xpwr, k - 1), high[k - 1], xpwr[k - 1])
  }

  /** Folding the coefficients of x^n and up into the low ones is reduction modulo m. */
  lemma {:induction false} FoldedReduces(low: seq<int>, high: seq<int>, xpwr: seq<seq<int>>, m: seq<int>, n: nat, q: int, k: nat)
    requires |low| == n && k <= |high| <= n && XPowers(xpwr, m, n, q)
    ensures MEq(low + high[..k], Folded(low, high, xpwr, k), m, q)
  {
    hide Eval, MEq, Monomial, Add, Scale, Pow;
    if k == 0 {
      assert low + high[..0] == low;
      ModRefl(low, m, q);
    } else {
      FoldedReduces(low, high, xpwr, m, n, q, k - 1);
      var p := low + high[..k - 1];
      var c := high[k - 1];
      AddScaled(p, Folded(low, high, xpwr, k - 1), c, Monomial(1, n + k - 1), xpwr[k - 1], m, q);
      PlusIsAdd(Folded(low, high, xpwr, k - 1), c, xpwr[k - 1]);
      forall x: int ensures Eval(Add(p, Scale(c, Monomial(1, n + k - 1))), x) == Eval(low + high[..k], x) {
        EvalAdd(p, Scale(c, Monomial(1, n + k - 1)), x);
        EvalScale(c, Monomial(1, n + k - 1), x);
        EvalMonomial(1, n + k - 1, x);
        EvalSnoc(p, c, x);
        assert p + [c] == low + high[..k];
      }
      SameModulo(Add(p, Scale(c, Monomial(1, n + k - 1))), low + high[..k], Folded(low, high, xpwr, k), m, q);
    }
  }

  /** The remainder of a product is unique, so all the routines agree with each other. */
  lemma {:induction false} SameRemainder(p: seq<int>, r: seq<int>, r': seq<int>, m: seq<int>, q: int)
    requires Prime(q) && |m| > 0 && Normal(m, q) && |r| < |m| && |r'| < |m| && MEq(p, r, m, q) && MEq(p, r', m, q)
    ensures Cong(r, r', q)
  {
    hide Eval, Add, Scale;
    var u, s :| Near(p, r, m, q, u, s);
    var u', s' :| Near(p, r', m, q, u', s');
    var du, ds := Add(u', Scale(-1, u)), Add(s', Scale(-1, s));
    forall x: int ensures Eval(r, x) == Eval(r', x) + Eval(du, x) * Eval(m, x) + q * Eval(ds, x) {
      EvalAdd(u', Scale(-1, u), x); EvalScale(-1, u, x);
      EvalAdd(s', Scale(-1, s), x); EvalScale(-1, s, x);
      Distribute(Eval(u', x), -1 * Eval(u, x), Eval(m, x));
      Distribute(Eval(s', x), -1 * Eval(s, x), q);
    }
    assert Near(r, r', m, q, du, ds);
    UniqueRemainder(r, r', m, q);
  }

  // The final loop of polymod_mul and polymod_square.
  method FoldHigh(low: seq<int>, high: seq<int>, xpwr: seq<seq<int>>, ghost m: seq<int>, n: nat, ghost q: int, ghost product: seq<int>) returns (prod: seq<int>)
    requires |low| == n && |high| <= n && XPowers(xpwr, m, n, q)
    requires forall x: int :: Eval(product, x) == Eval(low + high, x)
    ensures |prod| == n && MEq(product, prod, m, q)
  {
    hide Eval, MEq;
    prod := low;
    for i := 0 to |high|
      invariant |prod| == n && prod == Folded(low, high, xpwr, i)
    {
      prod := Plus(prod, high[i], xpwr[i]);
    }
    FoldedReduces(low, high, xpwr, m, n, q, |high|);
    assert low + high[..|high|] == low + high;
    SameModulo(low + high, product, prod, m, q);
  }

  // ---------- schoolbook products ----------

  // The part of the row c x^i b below x^n.
  method AddLow(dst: array<int>, c: int, i: nat, b: seq<int>) returns (j: nat)
    modifies dst
    ensures j <= |b| && (i + j <= dst.Length || j == 0) && (j < |b| ==> i + j >= dst.Length)
    ensures forall k :: 0 <= k < dst.Length ==> dst[k] == old(dst[k]) + if i <= k < i + j then c * b[k - i] else 0
  {
    j := 0;
    while j < |b| && i + j < dst.Length
      invariant 0 <= j <= |b| && (i + j <= dst.Length || j == 0)
      invariant forall k :: 0 <= k < dst.Length ==> dst[k] == old(dst[k]) + if i <= k < i + j then c * b[k - i] else 0
    {
      var c0 := c * b[j];
      dst[i + j] := dst[i + j] + c0;
      j := j + 1;
    }
  }

  // The part from x^n up.
  method AddHigh(high: array<int>, n: nat, c: int, i: nat, b: seq<int>, from: nat)
    requires from <= |b| && (from < |b| ==> i + from >= n) && i + |b| <= n + high.Length
    modifies high
    ensures forall k :: 0 <= k < high.Length ==> high[k] == old(high[k]) + if i + from <= n + k < i + |b| then c * b[n + k - i] else 0
  {
    var j := from;
    while j < |b|
      invariant from <= j <= |b|
      invariant forall k :: 0 <= k < high.Length ==> high[k] == old(high[k]) + if i + from <= n + k < i + j then c * b[n + k - i] else 0
    {
      var c0 := c * b[j];
      high[i + j - n] := high[i + j - n] + c0;
      j := j + 1;
    }
  }

  // One row c x^i b added into the accumulators dst (below x^n) and high.
  method AddRow(dst: array<int>, high: array<int>, c: int, i: nat, b: seq<int>)
    requires dst != high && i + |b| <= dst.Length + high.Length
    modifies dst, high
    ensures Subtracted(old(dst[..] + high[..]), dst[..] + high[..], -c, i, b)
  {
    ghost var was := dst[..] + high[..];
    var j := AddLow(dst, c, i, b);
    AddHigh(high, dst.Length, c, i, b, j);
    RowAdded(was, dst[..], high[..], c, i, b, j);
  }

  lemma RowAdded(was: seq<int>, low: seq<int>, high: seq<int>, c: int, i: nat, b: seq<int>, j: nat)
    requires |was| == |low| + |high| && i + |b| <= |was| && j <= |b| && (i + j <= |low| || j == 0) && (j < |b| ==> i + j >= |low|)
    requires forall k :: 0 <= k < |low| ==> low[k] == was[k] + if i <= k < i + j then c * b[k - i] else 0
    requires forall k :: 0 <= k < |high| ==> high[k] == was[|low| + k] + if i + j <= |low| + k < i + |b| then c * b[|low| + k - i] else 0
    ensures Subtracted(was, low + high, -c, i, b)
  {
    var now := low + high;
    forall k | 0 <= k < |was| ensures now[k] == if i <= k < i + |b| then was[k] - -c * b[k - i] else was[k] {
      if i <= k < i + |b| { MinusTimes(c, b[k - i]); }
      if k >= |low| { assert now[k] == high[k - |low|]; }
    }
  }

  lemma MinusTimes(c: int, b: int)
    ensures -c * b == -(c * b)
  {}

  // One more row of the product.
  lemma RowDone(s1: seq<int>, s2: seq<int>, i: nat, acc: seq<int>, acc': seq<int>)
    requires i < |s1| && Subtracted(acc, acc', -s1[i], i, s2)
    requires forall x: int :: Eval(acc, x) == Eval(s1[..i], x) * Eval(s2, x)
    ensures forall x: int :: Eval(acc', x) == Eval(s1[..i + 1], x) * Eval(s2, x)
  {
    hide Eval, Pow, Subtracted;
    forall x: int ensures Eval(acc', x) == Eval(s1[..i + 1], x) * Eval(s2, x) {
      EvalSubtracted(acc, acc', -s1[i], i, s2, x);
      assert s1[..i + 1] == s1[..i] + [s1[i]];
      EvalSnoc(s1[..i], s1[i], x);
      RowIdentity(Eval(s1[..i], x), s1[i], Pow(x, i), Eval(s2, x));
    }
  }

  lemma RowIdentity(e: int, c: int, w: int, b: int)
    ensures e * b - -c * w * b == (e + c * w) * b
  {}

  lemma NothingYet(acc: seq<int>, s1: seq<int>, s2: seq<int>)
    requires forall k :: 0 <= k < |acc| ==> acc[k] == 0
    ensures forall x: int :: Eval(acc, x) == Eval(s1[..0], x) * Eval(s2, x)
  {
    forall x: int ensures Eval(acc, x) == Eval(s1[..0], x) * Eval(s2, x) {
      assert acc == seq(|acc|, _ => 0);
      EvalZeros(|acc|, x);
      assert 0 * Eval(s2, x) == 0;
    }
  }

  /** polymod_mul; res may be e or f */
  method PolymodMul(res: array<int>, e: array<int>, f: array<int>, xpwr: seq<seq<int>>, ghost m: seq<int>, n: nat, ghost q: int)
    requires n >= 1 && res.Length == n && e.Length == n && f.Length == n && XPowers(xpwr, m, n, q)
    modifies res
    ensures MEq(Mul(old(e[..]), old(f[..])), res[..], m, q)
  {
    hide Eval, MEq, Subtracted, Mul;
    var dst := new int[n](_ => 0);
    var high := new int[n - 1](_ => 0);
    var s1, s2 := e[..], f[..];
    NothingYet(dst[..] + high[..], s1, s2);
    for i := 0 to n
      invariant s1 == old(e[..]) && s2 == old(f[..]) && e[..] == s1 && f[..] == s2
      invariant forall x: int :: Eval(dst[..] + high[..], x) == Eval(s1[..i], x) * Eval(s2, x)
    {
      ghost var acc := dst[..] + high[..];
      AddRow(dst, high, e[i], i, f[..]);
      RowDone(s1, s2, i, acc, dst[..] + high[..]);
    }
    assert s1[..n] == s1;
    forall x: int ensures Eval(Mul(s1, s2), x) == Eval(dst[..] + high[..], x) { EvalMul(s1, s2, x); }
    var prod := FoldHigh(dst[..], high[..], xpwr, m, n, q, Mul(s1, s2));
    forall k | 0 <= k < n { res[k] := prod[k]; }
    assert res[..] == prod;
  }

  // Row i of a square: s_i^2 x^(2i) and the doubled products with the later coefficients.
  lemma SquareRow(s: seq<int>, i: nat, row: seq<int>, acc: seq<int>, acc': seq<int>)
    requires i < |s| && row == [s[i]] + Scale(2, s[i + 1..]) && Subtracted(acc, acc', -s[i], 2 * i, row)
    requires forall x: int :: Eval(acc, x) == Eval(s[..i], x) * (Eval(s[..i], x) + 2 * (Pow(x, i) * Eval(s[i..], x)))
    ensures forall x: int :: Eval(acc', x) == Eval(s[..i + 1], x) * (Eval(s[..i + 1], x) + 2 * (Pow(x, i + 1) * Eval(s[i + 1..], x)))
  {
    hide Eval, Pow, Subtracted, Scale;
    forall x: int ensures Eval(acc', x) == Eval(s[..i + 1], x) * (Eval(s[..i + 1], x) + 2 * (Pow(x, i + 1) * Eval(s[i + 1..], x))) {
      EvalSubtracted(acc, acc', -s[i], 2 * i, row, x);
      PowAdd(x, i, i);
      PowSucc(x, i);
      assert s[..i + 1] == s[..i] + [s[i]];
      EvalSnoc(s[..i], s[i], x);
      assert s[i..] == [s[i]] + s[i + 1..];
      EvalCons(s[i], s[i + 1..], x);
      EvalCons(s[i], Scale(2, s[i + 1..]), x);
      EvalScale(2, s[i + 1..], x);
      SquareIdentity(Eval(s[..i], x), s[i], Pow(x, i), x, Eval(s[i + 1..], x));
    }
  }

  lemma SquareIdentity(e: int, c: int, w: int, x: int, t: int)
    ensures e * (e + 2 * (w * (c + x * t))) - -c * (w * w) * (c + x * (2 * t)) == (e + c * w) * (e + c * w + 2 * (x * w * t))
  {
    var z := x * t;
    assert -c * (w * w) * (c + x * (2 * t)) == -((c * w) * (c * w)) - 2 * ((c * w) * (w * z)) by {
      assert x * (2 * t) == 2 * z;
      SquareTail(c, w, z);
    }
    assert x * w * t == w * z;
    assert w * (c + z) == c * w + w * z;
    SquareSum(e, c * w, w * z);
  }

  lemma SquareTail(c: int, w: int, z: int)
    ensures -c * (w * w) * (c + 2 * z) == -((c * w) * (c * w)) - 2 * ((c * w) * (w * z))
  {}

  lemma SquareSum(e: int, p: int, r: int)
    ensures e * (e + 2 * (p + r)) + p * p + 2 * (p * r) == (e + p) * (e + p + 2 * r)
  {}

  lemma NoSquareYet(acc: seq<int>, s: seq<int>)
    requires forall k :: 0 <= k < |acc| ==> acc[k] == 0
    ensures forall x: int :: Eval(acc, x) == Eval(s[..0], x) * (Eval(s[..0], x) + 2 * (Pow(x, 0) * Eval(s[0..], x)))
  {
    forall x: int ensures Eval(acc, x) == Eval(s[..0], x) * (Eval(s[..0], x) + 2 * (Pow(x, 0) * Eval(s[0..], x))) {
      assert acc == seq(|acc|, _ => 0);
      EvalZeros(|acc|, x);
      assert Eval(s[..0], x) == 0;
      assert 0 * (0 + 2 * (Pow(x, 0) * Eval(s[0..], x))) == 0;
    }
  }

  lemma SquareDone(acc: seq<int>, s: seq<int>)
    requires forall x: int :: Eval(acc, x) == Eval(s[..|s|], x) * (Eval(s[..|s|], x) + 2 * (Pow(x, |s|) * Eval(s[|s|..], x)))
    ensures forall x: int :: Eval(Mul(s, s), x) == Eval(acc, x)
  {
    hide Mul, Pow;
    forall x: int ensures Eval(Mul(s, s), x) == Eval(acc, x) {
      EvalMul(s, s, x);
      assert s[..|s|] == s && s[|s|..] == [];
      TimesNothing(Pow(x, |s|));
    }
  }

  /** polymod_square; res may be e */
  method PolymodSquare(res: array<int>, e: array<int>, xpwr: seq<seq<int>>, ghost m: seq<int>, n: nat, ghost q: int)
    requires n >= 1 && res.Length == n && e.Length == n && XPowers(xpwr, m, n, q)
    modifies res
    ensures MEq(Mul(old(e[..]), old(e[..])), res[..], m, q)
  {
    hide Eval, MEq, Subtracted, Mul, Pow, Scale;
    var dst := new int[n](_ => 0);
    var high := new int[n - 1](_ => 0);
    var s := e[..];
    NoSquareYet(dst[..] + high[..], s);
    for i := 0 to n
      invariant s == old(e[..]) && e[..] == s
      invariant forall x: int :: Eval(dst[..] + high[..], x) == Eval(s[..i], x) * (Eval(s[..i], x) + 2 * (Pow(x, i) * Eval(s[i..], x)))
    {
      ghost var acc := dst[..] + high[..];
      var row := [s[i]] + Scale(2, s[i + 1..]);
      AddRow(dst, high, s[i], 2 * i, row);
      SquareRow(s, i, row, acc, dst[..] + high[..]);
    }
    SquareDone(dst[..] + high[..], s);
    var prod := FoldHigh(dst[..], high[..], xpwr, m, n, q, Mul(s, s));
    forall k | 0 <= k < n { res[k] := prod[k]; }
    assert res[..] == prod;
  }
}
