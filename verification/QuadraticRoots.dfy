/** Square roots in the quadratic extension of a prime field (arith/fieldquadratic.c). */
module QuadraticRoots {
  import opened Modular
  import opened Bits
  import opened Residues
  import opened Quadratic
  import Tonelli

  ghost predicate IsSqr2(e: F2, d: int, q: int)
    requires q > 0
  {
    exists r :: Eq2(Mul2(r, r, d), e, q)
  }

  lemma NormOfSquare(e: F2, d: int, q: int)
    requires q > 0 && IsSqr2(e, d, q)
    ensures IsSqr(Norm(e, d), q)
  {
    var r :| Eq2(Mul2(r, r, d), e, q);
    NormMul(r, r, d);
    CongNorm(Mul2(r, r, d), e, d, q);
    Tonelli.SquaredIsSqr(Norm(e, d), Norm(r, d), q);
  }

  // The candidates (x + z)/2 and (x - z)/2, for z^2 = x^2 - d y^2: their sum is x, their product d (y/2)^2.
  ghost predicate Splits(c: int, c': int, e: F2, h: int, d: int, q: int)
    requires q > 0
  {
    Eq(c + c', e.re, q) && Eq(c * c', d * ((h * e.im) * (h * e.im)), q)
  }

  lemma Candidates(e: F2, z: int, h: int, d: int, q: int)
    requires q > 0 && Eq(2 * h, 1, q) && Eq(z * z, Norm(e, d), q)
    ensures Splits((e.re + z) * h, (e.re + z) * h - z, e, h, d, q)
  {
    var x, y := e.re, e.im;
    var c := (x + z) * h;
    Combine(x + z, 2 * h - 1, q);
    CandidateSum(x, z, h);
    Combine2(h * z * (x + z), 2 * h - 1, -(h * h), z * z - (x * x - d * (y * y)), q);
    CandidateProduct(x, y, z, h, d);
  }

  lemma CandidateSum(x: int, z: int, h: int)
    ensures (x + z) * (2 * h - 1) == (x + z) * h + ((x + z) * h - z) - x
  {}

  lemma CandidateProduct(x: int, y: int, z: int, h: int, d: int)
    ensures h * z * (x + z) * (2 * h - 1) + -(h * h) * (z * z - (x * x - d * (y * y)))
         == ((x + z) * h) * ((x + z) * h - z) - d * ((h * y) * (h * y))
  {
    var p := x + z;
    ProductLeft(p, h, z);
    ProductRight(p, h, z);
    SumSquares(x, z);
    HalfSquared(d, h, y);
    HalfSquares(h * h, x * x, z * z, x * z, d * (y * y));
  }

  lemma ProductLeft(p: int, h: int, z: int)
    ensures (p * h) * (p * h - z) == h * h * (p * p) - h * z * p
  {}

  lemma ProductRight(p: int, h: int, z: int)
    ensures h * z * p * (2 * h - 1) == h * h * (2 * (z * p)) - h * z * p
  {}

  lemma SumSquares(x: int, z: int)
    ensures (x + z) * (x + z) == x * x + 2 * (x * z) + z * z && z * (x + z) == x * z + z * z
  {}

  lemma HalfSquared(d: int, h: int, y: int)
    ensures d * ((h * y) * (h * y)) == h * h * (d * (y * y))
  {
    assert (h * y) * (h * y) == (h * h) * (y * y);
  }

  lemma HalfSquares(hh: int, xx: int, zz: int, xz: int, n: int)
    ensures hh * (2 * (xz + zz)) + -hh * (zz - (xx - n)) == hh * (xx + 2 * xz + zz) - hh * n
  {}

  lemma HalfNonzero(h: int, q: int)
    requires Prime(q) && Eq(2 * h, 1, q)
    ensures !Eq(h, 0, q)
  {
    UnitsNonzero(1, q);
    NonzeroCong(2 * h, 1, q);
    if Eq(h, 0, q) { Combine(2, h - 0, q); }
  }

  // d (y/2)^2 is no square, so exactly one candidate is.
  lemma OneCandidate(c: int, c': int, e: F2, h: int, d: int, q: int)
    requires Prime(q) && q > 2 && Eq(2 * h, 1, q) && !IsSqr(d, q) && !Eq(e.im, 0, q)
    requires Splits(c, c', e, h, d, q)
    ensures !Eq(c, 0, q) && !Eq(c', 0, q) && (IsSqr(c, q) <==> !IsSqr(c', q))
  {
    hide IsSqr;
    var w := h * e.im;
    HalfNonzero(h, q);
    NonzeroProduct(h, e.im, q);
    NonzeroProduct(w, w, q);
    ZeroIsSqr(d, q);
    NonzeroProduct(d, w * w, q);
    NonzeroCong(c * c', d * (w * w), q);
    if Eq(c, 0, q) { EqRefl(c', q); EqMul(c, 0, c', c', q); }
    if Eq(c', 0, q) { EqRefl(c, q); EqMul(c, c, c', 0, q); }
    EqRefl(w * w, q);
    IsSqrIntro(w * w, w, q);
    SqrTimes(d, w * w, q);
    IsSqrCong(c * c', d * (w * w), q);
    SqrTimes(c, c', q);
  }

  lemma ZeroIsSqr(d: int, q: int)
    requires q > 0 && !IsSqr(d, q)
    ensures !Eq(d, 0, q)
  {
    if Eq(d, 0, q) { IsSqrIntro(d, 0, q); }
  }

  // s + (y/2s) sqrt d squares to e when s^2 is a candidate.
  lemma RootOfCandidate(s: int, c: int, c': int, e: F2, h: int, d: int, q: int)
    requires Prime(q) && Eq(2 * h, 1, q) && Splits(c, c', e, h, d, q)
    requires !Eq(c, 0, q) && Eq(s * s, c, q) && q > 2
    ensures Eq2(Mul2(F2(s, e.im * Inv(s + s, q)), F2(s, e.im * Inv(s + s, q)), d), e, q)
  {
    var y, w := e.im, Inv(s + s, q);
    NonzeroCong(s * s, c, q);
    if Eq(s, 0, q) { EqMul(s, 0, s, 0, q); }
    UnitsNonzero(2, q);
    NonzeroProduct(2, s, q);
    InvPrime(s + s, q);
    RootImaginary(s, y, w, q);
    RootReal(s, c, c', e.re, y, h, w, d, q);
    RootShape(s, y * w, d);
  }

  lemma RootShape(s: int, v: int, d: int)
    ensures Mul2(F2(s, v), F2(s, v), d) == F2(s * s + d * (v * v), 2 * (s * v))
  {}

  lemma RootImaginary(s: int, y: int, w: int, q: int)
    requires q > 0 && Eq((s + s) * w, 1, q)
    ensures Eq(2 * (s * (y * w)), y, q)
  {
    Combine(y, (s + s) * w - 1, q);
    assert y * ((s + s) * w - 1) == 2 * (s * (y * w)) - y;
  }

  lemma RootReal(s: int, c: int, c': int, x: int, y: int, h: int, w: int, d: int, q: int)
    requires q > 0 && Eq(2 * h, 1, q) && Eq((s + s) * w, 1, q) && Eq(s * s, c, q)
    requires Eq(c + c', x, q) && Eq(c * c', d * ((h * y) * (h * y)), q)
    ensures Eq(s * s + d * ((y * w) * (y * w)), x, q)
  {
    // d (yw)^2 = 4 h^2 d y^2 w^2 = 4 c c' w^2 = (2 s w)^2 c' = c'
    EqMul((s + s) * w, 1, (s + s) * w, 1, q);
    EqMul(2 * h, 1, 2 * h, 1, q);
    var k := 4 * (w * w);
    var t := d * ((y * w) * (y * w));
    Combine3(-t, (2 * h) * (2 * h) - 1, -k, c * c' - d * ((h * y) * (h * y)), -(k * c'), s * s - c, q);
    RealFirst(s, c, c', y, h, w, d);
    Combine2(1, t - k * (s * s) * c', c', ((s + s) * w) * ((s + s) * w) - 1, q);
    RealSecond(s, c', w, t);
    EqAdd(s * s, c, t, c', q);
    EqTrans(s * s + t, c + c', x, q);
  }

  lemma RealFirst(s: int, c: int, c': int, y: int, h: int, w: int, d: int)
    ensures var k := 4 * (w * w); var t := d * ((y * w) * (y * w));
            -t * ((2 * h) * (2 * h) - 1) + -k * (c * c' - d * ((h * y) * (h * y))) + -(k * c') * (s * s - c) == t - k * (s * s) * c'
  {
    var k := 4 * (w * w);
    var t := d * ((y * w) * (y * w));
    assert t * ((2 * h) * (2 * h)) == k * (d * ((h * y) * (h * y))) by { Spread(d, y, w, h); }
    assert -t * ((2 * h) * (2 * h) - 1) == t - t * ((2 * h) * (2 * h));
    assert -(k * c') * (s * s - c) == k * (c * c') - k * (s * s) * c';
    assert -k * (c * c' - d * ((h * y) * (h * y))) == k * (d * ((h * y) * (h * y))) - k * (c * c');
  }

  lemma Spread(d: int, y: int, w: int, h: int)
    ensures d * ((y * w) * (y * w)) * ((2 * h) * (2 * h)) == 4 * (w * w) * (d * ((h * y) * (h * y)))
  {
    assert (y * w) * (y * w) == (y * y) * (w * w) && (h * y) * (h * y) == (h * h) * (y * y);
    Spread4(d, y * y, w * w, h * h);
  }

  lemma Spread4(d: int, y: int, w: int, h: int)
    ensures d * (y * w) * (4 * h) == 4 * w * (d * (h * y))
  {}

  lemma RealSecond(s: int, c': int, w: int, t: int)
    ensures 1 * (t - 4 * (w * w) * (s * s) * c') + c' * (((s + s) * w) * ((s + s) * w) - 1) == t - c'
  {
    assert ((s + s) * w) * ((s + s) * w) == 4 * (w * w) * (s * s);
  }

  // A base-field element always has a root in the extension.
  lemma BaseIsSqr(e: F2, d: int, q: int)
    requires Prime(q) && q > 2 && !IsSqr(d, q) && Eq(e.im, 0, q)
    ensures IsSqr2(e, d, q)
  {
    EqSym(e.im, 0, q);
    var x := e.re;
    if IsSqr(x, q) {
      var s :| 0 <= s < q && Eq(x, Sq(s), q);
      EqSym(x, s * s, q);
      var r := F2(s, 0);
      assert Mul2(r, r, d) == F2(s * s, 0);
    } else {
      ZeroIsSqr(x, q);
      ZeroIsSqr(d, q);
      SqrTimes(x, d, q);
      var w :| 0 <= w < q && Eq(x * d, Sq(w), q);
      InvPrime(d, q);
      var i := Inv(d, q);
      var r := F2(0, w * i);
      assert Mul2(r, r, d) == F2(d * ((w * i) * (w * i)), 0);
      Combine3(-(d * (i * i)), x * d - w * w, x * (d * i), d * i - 1, x, d * i - 1, q);
      BaseIdentity(x, d, w, i);
    }
  }

  lemma BaseIdentity(x: int, d: int, w: int, i: int)
    ensures -(d * (i * i)) * (x * d - w * w) + x * (d * i) * (d * i - 1) + x * (d * i - 1) == d * ((w * i) * (w * i)) - x
  {
    assert (w * i) * (w * i) == (w * w) * (i * i);
    assert -(d * (i * i)) * (x * d - w * w) == (d * (i * i)) * (w * w) - x * ((d * i) * (d * i));
    assert d * ((w * w) * (i * i)) == (d * (i * i)) * (w * w);
  }

  // 2 is invertible.
  lemma Half(q: int)
    requires Prime(q) && q > 2
    ensures Eq(2 * Inv(2, q), 1, q)
  {
    UnitsNonzero(2, q);
    InvPrime(2, q);
  }

  /** Exactly the elements with a root have a norm that is a square of the base field. */
  lemma {:induction false} SquareByNorm(e: F2, d: int, q: int)
    requires Prime(q) && q > 2 && !IsSqr(d, q)
    ensures IsSqr2(e, d, q) <==> IsSqr(Norm(e, d), q)
  {
    if IsSqr2(e, d, q) {
      NormOfSquare(e, d, q);
    } else if Eq(e.im, 0, q) {
      BaseIsSqr(e, d, q);
    } else if IsSqr(Norm(e, d), q) {
      var z :| 0 <= z < q && Eq(Norm(e, d), Sq(z), q);
      EqSym(Norm(e, d), z * z, q);
      Half(q);
      var h := Inv(2, q);
      var c := (e.re + z) * h;
      Candidates(e, z, h, d, q);
      OneCandidate(c, c - z, e, h, d, q);
      var k, k' := if IsSqr(c, q) then c else c - z, if IsSqr(c, q) then c - z else c;
      SplitsSym(c, c - z, e, h, d, q);
      var s :| 0 <= s < q && Eq(k, Sq(s), q);
      EqSym(k, s * s, q);
      RootOfCandidate(s, k, k', e, h, d, q);
    }
  }

  lemma SplitsSym(c: int, c': int, e: F2, h: int, d: int, q: int)
    requires q > 0 && Splits(c, c', e, h, d, q)
    ensures Splits(c', c, e, h, d, q)
  {
    assert c * c' == c' * c;
  }

  /** fq_is_sqr */
  method FqIsSqr(e: F2, nqr: int, q: int) returns (result: bool)
    requires Prime(q) && q > 2 && !IsSqr(nqr, q)
    ensures result <==> IsSqr2(e, nqr, q)
  {
    SquareByNorm(e, nqr, q);
    var e0 := e.re * e.re;
    var e1 := e.im * e.im;
    e1 := e1 * nqr;
    assert e1 == nqr * (e.im * e.im);
    e0 := e0 - e1;
    result := IsSqr(e0, q);
  }

  // The second half of fq_sqrt and fi_sqrt: z is the root of the norm.
  method RootFromNorm(e: F2, z: int, ghost d: int, nqr: int, q: int) returns (r: F2)
    requires Prime(q) && q > 2 && !IsSqr(d, q) && !IsSqr(nqr, q)
    ensures Eq(z * z, Norm(e, d), q) && !Eq(e.im, 0, q) ==> Eq2(Mul2(r, r, d), e, q)
    ensures Eq(z * z, Norm(e, d), q) && Eq(e.im, 0, q)
            ==> (Eq2(Mul2(r, r, d), e, q) <==> IsSqr(e.re, q) && Eq(z, e.re, q))
  {
    hide Eq, IsSqr, Splits, Inv, Eq2, Norm;
    Half(q);
    var h := Inv(2, q);
    var e1 := e.re + z;
    e1 := e1 * h;
    ghost var c := e1;
    if !IsSqr(e1, q) {
      e1 := e1 - z;
    }
    var e0 := Tonelli.FpTonelli(e1, nqr, q);
    var two := e0 + e0;
    r := F2(e0, e.im * Inv(two, q));
    if Eq(z * z, Norm(e, d), q) {
      if Eq(e.im, 0, q) {
        BaseRoot(e, z, h, e0, Inv(two, q), d, q);
      } else {
        Candidates(e, z, h, d, q);
        OneCandidate(c, c - z, e, h, d, q);
        SplitsSym(c, c - z, e, h, d, q);
        RootOfCandidate(e0, e1, c + (c - z) - e1, e, h, d, q);
      }
    }
  }

  // On a base-field element the candidates are x and 0.
  lemma BaseRoot(e: F2, z: int, h: int, s: int, w: int, d: int, q: int)
    requires Prime(q) && q > 2 && Eq(2 * h, 1, q) && Eq(z * z, Norm(e, d), q) && Eq(e.im, 0, q)
    requires var c := (e.re + z) * h;
             var c1 := if IsSqr(c, q) then c else c - z;
             Eq(s * s, c1, q) <==> IsSqr(c1, q)
    ensures Eq2(Mul2(F2(s, e.im * w), F2(s, e.im * w), d), e, q) <==> IsSqr(e.re, q) && Eq(z, e.re, q)
  {
    hide IsSqr, Norm, Prime, Mul2;
    var x := e.re;
    var c := (x + z) * h;
    BaseShape(e, s, w, d, q);
    BaseNorm(e, z, d, q);
    IsSqrIntro(0, 0, q) by { EqRefl(0, q); }
    if Eq(z, x, q) {
      Combine2(h, z - x, x, 2 * h - 1, q);
      assert h * (z - x) + x * (2 * h - 1) == c - x;
      IsSqrCong(c, x, q);
      if IsSqr(x, q) {
        EqTrans(s * s, c, x, q);
      } else {
        Combine2(1, c - x, -1, z - x, q);
        assert 1 * (c - x) + -1 * (z - x) == c - z - 0;
        IsSqrCong(c - z, 0, q);
        if Eq(s * s, x, q) { Tonelli.SquaredIsSqr(x, s, q); }
      }
    } else {
      Combine(h, x + z, q);
      assert h * (x + z) == c - 0;
      IsSqrCong(c, 0, q);
      EqTrans(s * s, c, 0, q);
      if Eq(s * s, x, q) {
        BothZero(x, z, s * s, q);
      }
    }
  }

  lemma BothZero(x: int, z: int, t: int, q: int)
    requires q > 0 && (x + z) % q == 0 && Eq(t, 0, q) && Eq(t, x, q)
    ensures Eq(z, x, q)
  {
    Combine3(1, x + z, -2, t - 0, 2, t - x, q);
    assert 1 * (x + z) + -2 * (t - 0) + 2 * (t - x) == z - x;
  }

  lemma BaseShape(e: F2, s: int, w: int, d: int, q: int)
    requires q > 0 && Eq(e.im, 0, q)
    ensures Eq2(Mul2(F2(s, e.im * w), F2(s, e.im * w), d), e, q) <==> Eq(s * s, e.re, q)
  {
    var y := e.im;
    RootShape(s, y * w, d);
    Combine2(2 * (s * w), y - 0, -1, y - 0, q);
    assert 2 * (s * w) * (y - 0) + -1 * (y - 0) == 2 * (s * (y * w)) - y;
    Combine(d * (y * w * w), y - 0, q);
    assert d * (y * w * w) * (y - 0) == d * ((y * w) * (y * w));
    var t := d * ((y * w) * (y * w));
    if Eq(s * s, e.re, q) { EqAdd(s * s, e.re, t, 0, q); }
    if Eq(s * s + t, e.re, q) { EqAdd(s * s + t, e.re, t, 0, q); }
  }

  // z^2 = x^2, so z = x or z = -x.
  lemma BaseNorm(e: F2, z: int, d: int, q: int)
    requires Prime(q) && Eq(z * z, Norm(e, d), q) && Eq(e.im, 0, q)
    ensures Eq(z, e.re, q) || (e.re + z) % q == 0
  {
    var x, y := e.re, e.im;
    Combine2(1, z * z - (x * x - d * (y * y)), -(d * y), y - 0, q);
    assert 1 * (z * z - (x * x - d * (y * y))) + -(d * y) * (y - 0) == (z - x) * (x + z) - 0;
    NoZeroDivisors(z - x, x + z, q);
  }

  // The root that fp_tonelli gives for x^2 is x exactly when x is principal.
  lemma RootOfBase(e: F2, z: int, g: int, q: int)
    requires Prime(q) && q > 2 && !IsSqr(g, q) && Tonelli.Principal(z, g, q) && Eq(z * z, e.re * e.re, q)
    ensures IsSqr(e.re, q) && Eq(z, e.re, q) <==> Tonelli.SquareAndPrincipal(e.re, g, q)
  {
    hide IsSqr, Tonelli.Principal, Tonelli.SquareAndPrincipal, Eq;
    var x := e.re;
    Tonelli.SquareAndPrincipalIs(x, g, q);
    if Tonelli.Principal(x, g, q) { Tonelli.PrincipalUnique(z, x, g, q); }
    if Eq(z, x, q) { Tonelli.PrincipalCong(z, x, g, q); }
  }

  /** fq_sqrt: for y nonzero, the root of every square. For y = 0, with q - 1 = 2^s t and t odd, of exactly those x
      that are 0 or satisfy x^t = nqr^(t m) for an even m below 2^(s-1). */
  method FqSqrt(e: F2, nqr: int, q: int) returns (r: F2)
    requires Prime(q) && q > 2 && !IsSqr(nqr, q)
    ensures !Eq(e.im, 0, q) ==> (Eq2(Mul2(r, r, nqr), e, q) <==> IsSqr2(e, nqr, q))
    ensures Eq(e.im, 0, q) ==> (Eq2(Mul2(r, r, nqr), e, q) <==> Tonelli.SquareAndPrincipal(e.re, nqr, q))
  {
    hide Eq2, Mul2, IsSqr, Inv, Tonelli.Principal, Tonelli.SquareAndPrincipal;
    SquareByNorm(e, nqr, q);
    var e0 := e.re * e.re;
    var e1 := e.im * e.im;
    e1 := e1 * nqr;
    assert e1 == nqr * (e.im * e.im);
    e0 := e0 - e1;
    var z := Tonelli.FpTonelli(e0, nqr, q);
    r := RootFromNorm(e, z, nqr, nqr, q);
    RootIsSqr(e, r, nqr, q);
    if Eq(e.im, 0, q) {
      NormOfBase(e, nqr, q);
      RootOfBase(e, z, nqr, q);
    }
  }

  lemma RootIsSqr(e: F2, r: F2, d: int, q: int)
    requires q > 0
    ensures Eq2(Mul2(r, r, d), e, q) ==> IsSqr2(e, d, q)
  {}

  lemma NormOfBase(e: F2, d: int, q: int)
    requires q > 0 && Eq(e.im, 0, q)
    ensures IsSqr(Norm(e, d), q)
    ensures forall z: int :: Eq(z * z, Norm(e, d), q) ==> Eq(z * z, e.re * e.re, q)
  {
    var x, y := e.re, e.im;
    Combine(-(d * y), y - 0, q);
    assert -(d * y) * (y - 0) == Norm(e, d) - x * x;
    IsSqrIntro(Norm(e, d), x, q);
    forall z: int | Eq(z * z, Norm(e, d), q) ensures Eq(z * z, x * x, q) {
      EqTrans(z * z, Norm(e, d), x * x, q);
    }
  }

  /** fi_is_sqr */
  method FiIsSqr(e: F2, q: int) returns (result: bool)
    requires Prime(q) && q > 2 && !IsSqr(-1, q)
    ensures result <==> IsSqr2(e, -1, q)
  {
    SquareByNorm(e, -1, q);
    var e0 := e.re * e.re;
    var e1 := e.im * e.im;
    e0 := e0 + e1;
    result := IsSqr(e0, q);
  }

  /** fi_sqrt: the root of every square with y nonzero, and for y = 0 of exactly the base-field squares:
      when -1 is no square, every base-field square is principal. */
  method FiSqrt(e: F2, nqr: int, q: int) returns (r: F2)
    requires Prime(q) && q > 2 && !IsSqr(-1, q) && !IsSqr(nqr, q)
    ensures !Eq(e.im, 0, q) ==> (Eq2(Mul2(r, r, -1), e, q) <==> IsSqr2(e, -1, q))
    ensures Eq(e.im, 0, q) ==> (Eq2(Mul2(r, r, -1), e, q) <==> IsSqr(e.re, q))
  {
    hide Eq2, Mul2, IsSqr, Inv, Tonelli.Principal, Tonelli.SquareAndPrincipal;
    SquareByNorm(e, -1, q);
    var e0 := e.re * e.re;
    var e1 := e.im * e.im;
    e0 := e0 + e1;
    var z := Tonelli.FpTonelli(e0, nqr, q);
    r := RootFromNorm(e, z, -1, nqr, q);
    RootIsSqr(e, r, -1, q);
    if Eq(e.im, 0, q) {
      NormOfBase(e, -1, q);
      RootOfBase(e, z, nqr, q);
      Tonelli.PrincipalIfMinusOne(e.re, nqr, q);
    }
  }

  lemma NotSqr7(a: int)
    requires a == 3 || a == -1
    ensures !IsSqr(a, 7)
  {
    assert Sq(0) == 0 && Sq(1) == 1 && Sq(2) == 4 && Sq(3) == 9 && Sq(4) == 16 && Sq(5) == 25 && Sq(6) == 36;
    forall y | 0 <= y < 7 ensures !Eq(a, Sq(y), 7) {
      assert y == 0 || y == 1 || y == 2 || y == 3 || y == 4 || y == 5 || y == 6;
    }
  }

  lemma NotSqr5()
    ensures Prime(5) && !IsSqr(2, 5)
  {
    assert Sq(0) == 0 && Sq(1) == 1 && Sq(2) == 4 && Sq(3) == 9 && Sq(4) == 16;
    forall y | 0 <= y < 5 ensures !Eq(2, Sq(y), 5) {
      assert y == 0 || y == 1 || y == 2 || y == 3 || y == 4;
    }
  }

  // q - 1 = 4: the odd part is 1, and only m = 0 is even in the lower half.
  lemma NotPrincipal5()
    ensures Prime(5) && !IsSqr(2, 5) && IsSqr(4, 5) && !Tonelli.SquareAndPrincipal(4, 2, 5)
  {
    NotSqr5();
    IsSqrIntro(4, 2, 5);
    Four();
    assert Pow(4, 1) == 4 * Pow(4, 0) && Pow(2, 0) == 1;
  }

  lemma Four()
    ensures Tonelli.Scan1(4) == 2 && Tonelli.OddPart(5) == 1 && Two(2) == 4
  {
    assert Tonelli.Scan1(4) == 1 + Tonelli.Scan1(2) && Tonelli.Scan1(2) == 1 + Tonelli.Scan1(1);
    assert Shr(4, 2) == Shr(4, 1) / 2 && Shr(4, 1) == Shr(4, 0) / 2;
    assert Two(2) == 2 * Two(1) && Two(1) == 2 * Two(0);
  }

  lemma RootOf16(z: int)
    requires Tonelli.Principal(z, 2, 5) && Eq(z * z, 16, 5)
    ensures Eq(z, 1, 5)
  {
    NotSqr5();
    Four();
    assert Pow(1, 1) == 1 * Pow(1, 0) && Pow(2, 0) == 1;
    assert Tonelli.Digits(1, 2, 0, 5);
    Tonelli.PrincipalIntro(1, 2, 0, 5);
    EqTrans(z * z, 16, 1 * 1, 5);
    Tonelli.PrincipalUnique(z, 1, 2, 5);
  }

  /** Elements of the base field whose root both routines miss: 3 is a square of F_49, not of F_7; and for
      q = 5, nqr = 2 the root that the base field gives for 4^2 is 1, so fq_sqrt misses the root 2 of 4. */
  lemma {:induction false} BaseRootFails()
    ensures Prime(7) && !IsSqr(-1, 7) && IsSqr2(F2(3, 0), -1, 7) && !IsSqr(3, 7)
    ensures Prime(5) && !IsSqr(2, 5) && IsSqr(4, 5) && !Tonelli.SquareAndPrincipal(4, 2, 5)
    ensures forall z: int :: Tonelli.Principal(z, 2, 5) && Eq(z * z, 16, 5) ==> Eq(z, 1, 5)
  {
    NotPrincipal5();
    forall z: int | Tonelli.Principal(z, 2, 5) && Eq(z * z, 16, 5) ensures Eq(z, 1, 5) { RootOf16(z); }
    NotSqr7(3);
    NotSqr7(-1);
    BaseIsSqr(F2(3, 0), -1, 7);
  }
}
