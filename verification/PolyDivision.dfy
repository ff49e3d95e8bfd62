/** poly_div, poly_gcd and poly_invert (arith/poly.c). */
module PolyDivision {
  import opened Modular
  import opened Residues
  import opened Poly

  // poly_remove_leading_zeroes
  method RemoveLeadingZeroes(p: seq<int>, q: int) returns (r: seq<int>)
    requires q > 0
    ensures Normal(r, q) && |r| <= |p| && r == p[..|r|] && Cong(p, r, q)
    ensures |r| == 0 || !Eq(p[|r| - 1], 0, q)
  {
    hide Eq;
    var n := |p|;
    while n > 0 && Eq(p[n - 1], 0, q)
      invariant 0 <= n <= |p| && forall i :: n <= i < |p| ==> Eq(p[i], 0, q)
    {
      n := n - 1;
    }
    r := p[..n];
    forall i: nat ensures Eq(Coeff(p, i), Coeff(r, i), q) {
      EqRefl(Coeff(p, i), q);
    }
  }

  // ---------- division ----------

  // The row r - c x^k b.
  ghost predicate Subtracted(r: seq<int>, r': seq<int>, c: int, k: nat, b: seq<int>) {
    |r'| == |r| && |b| + k <= |r| && forall j :: 0 <= j < |r| ==> r'[j] == if k <= j < k + |b| then r[j] - c * b[j - k] else r[j]
  }

  lemma {:induction false} EvalSubtracted(r: seq<int>, r': seq<int>, c: int, k: nat, b: seq<int>, x: int)
    requires Subtracted(r, r', c, k, b)
    ensures Eval(r', x) == Eval(r, x) - c * Pow(x, k) * Eval(b, x)
    decreases k, |b|
  {
    if k > 0 {
      EvalSubtracted(r[1..], r'[1..], c, k - 1, b, x);
      ShiftStep(c, x, Pow(x, k - 1), Eval(b, x), Eval(r[1..], x));
    } else if |b| == 0 {
      assert r' == r;
      TimesNothing(c * 1);
    } else {
      EvalSubtracted(r[1..], r'[1..], c, 0, b[1..], x);
      SubtractStep(r[0], c, b[0], x, Eval(r[1..], x), Eval(b[1..], x));
    }
  }

  lemma ShiftStep(c: int, x: int, w: int, b: int, r: int)
    ensures x * (r - c * w * b) == x * r - c * (x * w) * b
  {}

  lemma SubtractStep(r0: int, c: int, b0: int, x: int, r: int, b: int)
    ensures r0 - c * b0 + x * (r - c * 1 * b) == (r0 + x * r) - c * 1 * (b0 + x * b)
  {}

  lemma {:induction false} EvalUpdate(p: seq<int>, k: nat, c: int, x: int)
    requires k < |p| && p[k] == 0
    ensures Eval(p[k := c], x) == Eval(p, x) + c * Pow(x, k)
  {
    if k > 0 {
      EvalUpdate(p[1..], k - 1, c, x);
      assert p[k := c][1..] == p[1..][k - 1 := c];
      SnocStep(p[0], x, Eval(p[1..], x), c, Pow(x, k - 1));
    } else {
      assert p[0 := c][1..] == p[1..];
    }
  }

  lemma {:induction false} EvalZeros(n: nat, x: int)
    ensures Eval(seq(n, _ => 0), x) == 0
  {
    if n > 0 {
      EvalZeros(n - 1, x);
      assert seq(n, _ => 0)[1..] == seq(n - 1, _ => 0);
      TimesNothing(x);
    }
  }

  // One elimination step keeps a = quot b + r.
  ghost predicate Quotient(a: seq<int>, b: seq<int>, quot: seq<int>, r: seq<int>) {
    forall x: int :: Eval(a, x) == Eval(quot, x) * Eval(b, x) + Eval(r, x)
  }

  lemma QuotientStep(a: seq<int>, b: seq<int>, quot: seq<int>, r: seq<int>, r': seq<int>, k: nat, c: int)
    requires Quotient(a, b, quot, r) && k < |quot| && quot[k] == 0 && Subtracted(r, r', c, k, b)
    ensures Quotient(a, b, quot[k := c], r')
  {
    hide Eval, Pow, Subtracted;
    forall x: int ensures Eval(a, x) == Eval(quot[k := c], x) * Eval(b, x) + Eval(r', x) {
      EvalSubtracted(r, r', c, k, b, x);
      EvalUpdate(quot, k, c, x);
      assert (Eval(quot, x) + c * Pow(x, k)) * Eval(b, x) == Eval(quot, x) * Eval(b, x) + c * Pow(x, k) * Eval(b, x);
    }
  }

  // The inner loop of poly_div.
  method SubtractShifted(r: seq<int>, c: int, k: nat, b: seq<int>) returns (r': seq<int>)
    requires |b| + k <= |r|
    ensures Subtracted(r, r', c, k, b)
  {
    r' := r;
    for i := 0 to |b|
      invariant |r'| == |r|
      invariant forall j :: 0 <= j < |r| ==> r'[j] == if k <= j < k + i then r[j] - c * b[j - k] else r[j]
    {
      var e0 := c * b[i];
      r' := r'[i + k := r'[i + k] - e0];
    }
  }

  lemma Eliminated(r: seq<int>, r': seq<int>, c: int, k: nat, b: seq<int>, i: int, q: int)
    requires q > 0 && |b| > 0 && Subtracted(r, r', c, k, b) && Eq(b[|b| - 1] * i, 1, q) && c == i * r[k + |b| - 1]
    requires forall j :: k + |b| <= j < |r| ==> Eq(r[j], 0, q)
    ensures forall j :: k + |b| - 1 <= j < |r| ==> Eq(r'[j], 0, q)
  {
    hide Eq;
    var m := k + |b| - 1;
    CancelTop(r[m], i, b[|b| - 1], q);
  }

  lemma CancelTop(r: int, i: int, b: int, q: int)
    requires q > 0 && Eq(b * i, 1, q)
    ensures Eq(r - (i * r) * b, 0, q)
  {
    Combine(-r, b * i - 1, q);
    assert -r * (b * i - 1) == (r - (i * r) * b) - 0;
  }

  /** a = quot b + rem in F_q[x] and the remainder is shorter than b. */
  ghost predicate Divided(a: seq<int>, b: seq<int>, quot: seq<int>, rem: seq<int>, q: int)
    requires q > 0
  {
    Normal(rem, q) && |rem| < |b| && exists s :: Identity(a, b, quot, rem, q, s)
  }

  ghost predicate Identity(a: seq<int>, b: seq<int>, quot: seq<int>, rem: seq<int>, q: int, s: seq<int>) {
    forall x: int :: Eval(a, x) == Eval(quot, x) * Eval(b, x) + Eval(rem, x) + q * Eval(s, x)
  }

  lemma TrimmedRemainder(a: seq<int>, b: seq<int>, quot: seq<int>, r: seq<int>, rem: seq<int>, q: int)
    requires q > 0 && Quotient(a, b, quot, r) && Cong(r, rem, q)
    ensures Identity(a, b, quot, rem, q, Gap(r, rem, q))
  {
    hide Eval, Gap;
    forall x: int ensures Eval(a, x) == Eval(quot, x) * Eval(b, x) + Eval(rem, x) + q * Eval(Gap(r, rem, q), x) {
      EvalGap(r, rem, q, x);
    }
  }

  lemma NothingSubtracted(a: seq<int>, b: seq<int>, quot: seq<int>)
    requires forall i :: 0 <= i < |quot| ==> quot[i] == 0
    ensures Quotient(a, b, quot, a)
  {
    forall x: int ensures Eval(a, x) == Eval(quot, x) * Eval(b, x) + Eval(a, x) {
      assert quot == seq(|quot|, _ => 0);
      EvalZeros(|quot|, x);
    }
  }

  /** poly_div */
  method PolyDiv(a: seq<int>, b: seq<int>, q: int) returns (quot: seq<int>, rem: seq<int>)
    requires Prime(q) && |b| > 0 && Normal(b, q) && Normal(a, q)
    ensures Divided(a, b, quot, rem, q)
    ensures |quot| == (if |a| < |b| then 0 else |a| - |b| + 1)
    ensures |a| < |b| ==> rem == a
  {
    hide Eval, Gap, Eq, Prime, Pow, Subtracted, Inv, Quotient, Cong;
    var n := |b| - 1;
    var m := |a| - 1;
    PrimePositive(q);
    if n > m {
      NothingSubtracted(a, b, []);
      CongRefl(a, q);
      TrimmedRemainder(a, b, [], a, a, q);
      return [], a;
    }
    var r := a;
    var k := m - n;
    quot := seq(k + 1, _ => 0);
    var binv := Inv(b[n], q);
    InvPrime(b[n], q);
    NothingSubtracted(a, b, quot);
    while k >= 0
      invariant -1 <= k <= |a| - |b| && m == k + n && |r| == |a| && |quot| == |a| - |b| + 1
      invariant Quotient(a, b, quot, r)
      invariant forall j :: 0 <= j <= k ==> quot[j] == 0
      invariant forall j :: m < j < |r| ==> Eq(r[j], 0, q)
    {
      var qe := binv * r[m];
      var r' := SubtractShifted(r, qe, k, b);
      QuotientStep(a, b, quot, r, r', k, qe);
      Eliminated(r, r', qe, k, b, binv, q);
      SubtractedLength(r, r', qe, k, b);
      quot := quot[k := qe];
      r := r';
      k := k - 1;
      m := m - 1;
    }
    rem := RemoveLeadingZeroes(r, q);
    TrimmedRemainder(a, b, quot, r, rem, q);
  }

  lemma SubtractedLength(r: seq<int>, r': seq<int>, c: int, k: nat, b: seq<int>)
    requires Subtracted(r, r', c, k, b)
    ensures |r'| == |r|
  {}

  lemma PrimePositive(q: int)
    requires Prime(q)
    ensures q >= 2
  {}

  lemma CongRefl(a: seq<int>, q: int)
    requires q > 0
    ensures Cong(a, a, q)
  {
    forall i: nat ensures Eq(Coeff(a, i), Coeff(a, i), q) { EqRefl(Coeff(a, i), q); }
  }

  // ---------- greatest common divisors ----------

  // d divides a in F_q[x].
  ghost predicate Div(d: seq<int>, a: seq<int>, q: int) { MEq(a, [], d, q) }

  ghost predicate CommonDiv(d: seq<int>, a: seq<int>, b: seq<int>, q: int) { Div(d, a, q) && Div(d, b, q) }

  // One division step keeps the common divisors.
  lemma DivStep(d: seq<int>, a: seq<int>, b: seq<int>, quot: seq<int>, rem: seq<int>, q: int)
    requires q > 0 && Divided(a, b, quot, rem, q)
    ensures CommonDiv(d, a, b, q) <==> CommonDiv(d, b, rem, q)
  {
    hide Eval, Scale;
    var s :| Identity(a, b, quot, rem, q, s);
    if CommonDiv(d, a, b, q) {
      forall x: int ensures Eval(rem, x) == Eval([1], x) * Eval(a, x) + Eval(Scale(-1, quot), x) * Eval(b, x) + q * Eval(Scale(-1, s), x) {
        EvalConst(1, x); EvalScale(-1, quot, x); EvalScale(-1, s, x);
        Isolate(Eval(a, x), Eval(quot, x), Eval(b, x), Eval(rem, x), q, Eval(s, x));
      }
      MultipleCombine(a, b, rem, [1], Scale(-1, quot), Scale(-1, s), d, q);
    }
    if CommonDiv(d, b, rem, q) {
      forall x: int ensures Eval(a, x) == Eval(quot, x) * Eval(b, x) + Eval([1], x) * Eval(rem, x) + q * Eval(s, x) {
        EvalConst(1, x);
      }
      MultipleCombine(b, rem, a, quot, [1], s, d, q);
    }
  }

  lemma Isolate(a: int, u: int, b: int, r: int, q: int, s: int)
    requires a == u * b + r + q * s
    ensures r == 1 * a + (-1 * u) * b + q * (-1 * s)
  {}

  // A polynomial divides itself and zero.
  lemma DivSelf(d: seq<int>, q: int)
    ensures Div(d, d, q) && Div(d, [], q)
  {
    forall x: int ensures Eval(d, x) == Eval([], x) + Eval([1], x) * Eval(d, x) + q * Eval([], x)
    {
      EvalConst(1, x); EvalShort(x); TimesNothing(q);
    }
    assert Near(d, [], d, q, [1], []);
    forall x: int ensures Eval([], x) == Eval([], x) + Eval([], x) * Eval(d, x) + q * Eval([], x)
    {
      EvalShort(x); TimesNothing(q); TimesNothing(Eval(d, x));
    }
    assert Near([], [], d, q, [], []);
  }

  /** poly_gcd: the divisors of the result are exactly the common divisors of f and g. */
  method PolyGcd(f: seq<int>, g: seq<int>, q: int) returns (d: seq<int>)
    requires Prime(q) && |g| > 0 && Normal(f, q) && Normal(g, q)
    ensures |d| > 0 && Normal(d, q)
    ensures forall c :: CommonDiv(c, f, g, q) <==> Div(c, d, q)
    ensures CommonDiv(d, f, g, q)
  {
    hide Div, Prime, Divided, Normal;
    PrimePositive(q);
    var a, b := f, g;
    while true
      invariant |b| > 0 && Normal(a, q) && Normal(b, q)
      invariant forall c :: CommonDiv(c, a, b, q) <==> CommonDiv(c, f, g, q)
      decreases |b|
    {
      var quot, r := PolyDiv(a, b, q);
      forall c ensures CommonDiv(c, a, b, q) <==> CommonDiv(c, b, r, q) { DivStep(c, a, b, quot, r, q); }
      DividedShape(a, b, quot, r, q);
      if |r| == 0 {
        forall c ensures CommonDiv(c, b, r, q) <==> Div(c, b, q) { DivZero(c, r, q); }
        break;
      }
      a := b;
      b := r;
    }
    d := b;
    DivSelf(d, q);
  }

  lemma DivZero(c: seq<int>, r: seq<int>, q: int)
    requires |r| == 0
    ensures Div(c, r, q)
  {
    assert r == [];
    DivSelf(c, q);
  }

  lemma DividedShape(a: seq<int>, b: seq<int>, quot: seq<int>, rem: seq<int>, q: int)
    requires q > 0 && Divided(a, b, quot, rem, q)
    ensures Normal(rem, q) && |rem| < |b|
  {}
}
