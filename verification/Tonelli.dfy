/** Tonelli-Shanks square roots in a prime field (arith/fp.c). */
module Tonelli {
  import opened Modular
  import opened Bits
  import opened Residues

  // mpz_scan1(n, 0)
  function Scan1(n: nat): (s: nat)
    requires n > 0
  {
    if n % 2 == 1 then 0 else 1 + Scan1(n / 2)
  }

  lemma {:induction false} ScanOdd(n: nat)
    requires n > 0
    ensures Shr(n, Scan1(n)) % 2 == 1
  {
    if n % 2 == 0 {
      ScanOdd(n / 2);
      ShrShift(n, Scan1(n / 2));
    }
  }

  lemma ScanEven(n: nat)
    requires n > 0 && Scan1(n) > 0
    ensures n == 2 * (n / 2) && n / 2 > 0 && Scan1(n) == 1 + Scan1(n / 2)
  {}

  // The digits below the lowest 1 are shifted out without loss.
  lemma {:induction false} ScanExact(n: nat, i: nat)
    requires n > 0 && i <= Scan1(n)
    ensures Two(i) * Shr(n, i) == n
  {
    if i > 0 {
      ScanEven(n);
      hide Shr, Scan1;
      ScanExact(n / 2, i - 1);
      ShrShift(n, i - 1);
      TimesAssoc(2, Two(i - 1), Shr(n / 2, i - 1));
    } else {
      hide Scan1;
      assert 1 * n == n;
    }
  }

  // What is left of a after the digits of e found so far.
  function Left(a: int, ginv: int, e: nat): int { Pow(ginv, e) * a }

  lemma InverseHalf(g: int, q: int)
    requires Prime(q) && q > 2 && !IsSqr(g, q)
    ensures !Eq(g, 0, q) && q % 2 == 1 && Eq(Pow(Inv(g, q), (q - 1) / 2), -1, q)
    ensures forall e: nat :: Eq(Pow(g, e) * Pow(Inv(g, q), e), 1, q)
  {
    hide Pow, Inv, IsSqr;
    if Eq(g, 0, q) { IsSqrIntro(g, 0, q); }
    EulerCriterion(g, q);
    forall e: nat ensures Eq(Pow(g, e) * Pow(Inv(g, q), e), 1, q) {
      InvPrime(g, q);
      PowTimes(g, Inv(g, q), e);
      PowCong(g * Inv(g, q), 1, e, q);
      PowOne(e);
    }
    var n := (q - 1) / 2;
    var u, v := Pow(g, n), Pow(Inv(g, q), n);
    assert Eq(u * v, 1, q);
    Combine2(v, u - -1, -1, u * v - 1, q);
    assert v * (u - -1) + -1 * (u * v - 1) == v - -1;
  }

  // A square root of 1 is 1 or -1.
  lemma RootOfOne(w: int, q: int)
    requires Prime(q) && Eq(w * w, 1, q)
    ensures Eq(w, 1, q) || Eq(w, -1, q)
  {
    assert (w - 1) * (w + 1) == w * w - 1;
    NoZeroDivisors(w - 1, w + 1, q);
  }

  // The loop invariant: the digits of e below i - 1 make the power 1.
  ghost predicate Found(a: int, ginv: int, e: nat, i: nat, q: int)
    requires q > 1 && i >= 1
  {
    Eq(Pow(Left(a, ginv, e), Shr(q - 1, i - 1)), 1, q)
  }

  lemma FoundStart(a: int, ginv: int, q: int)
    requires Prime(q) && q > 2 && !Eq(a, 0, q) && IsSqr(a, q)
    ensures Found(a, ginv, 0, 2, q)
  {
    EulerCriterion(a, q);
    assert Shr(q - 1, 1) == Shr(q - 1, 0) / 2;
  }

  // One digit of e.
  lemma FoundStep(a: int, ginv: int, e: nat, i: nat, q: int)
    requires Prime(q) && q > 2 && 2 <= i <= Scan1(q - 1) && q % 2 == 1 && Found(a, ginv, e, i, q)
    requires Eq(Pow(ginv, (q - 1) / 2), -1, q)
    ensures Eq(Pow(Left(a, ginv, e), Shr(q - 1, i)), 1, q) ==> Found(a, ginv, e, i + 1, q)
    ensures !Eq(Pow(Left(a, ginv, e), Shr(q - 1, i)), 1, q) ==> Found(a, ginv, e + Two(i - 1), i + 1, q)
  {
    hide Pow, Shr, Two, Eq, Scan1;
    var b, u := Left(a, ginv, e), Shr(q - 1, i);
    HalfShift(q - 1, i);
    PowAdd(b, u, u);
    if !Eq(Pow(b, u), 1, q) {
      RootOfOne(Pow(b, u), q);
      PowAdd(ginv, Two(i - 1), e);
      TimesAssoc(Pow(ginv, Two(i - 1)), Pow(ginv, e), a);
      PowTimes(Pow(ginv, Two(i - 1)), b, u);
      PowPow(ginv, Two(i - 1), u);
      MinusOnes(Pow(ginv, (q - 1) / 2), Pow(b, u), q);
    }
  }

  lemma MinusOnes(a: int, b: int, q: int)
    requires q > 0 && Eq(a, -1, q) && Eq(b, -1, q)
    ensures Eq(a * b, 1, q)
  {
    EqMul(a, -1, b, -1, q);
  }

  lemma HalfShift(n: nat, i: nat)
    requires n > 0 && 1 <= i <= Scan1(n)
    ensures Shr(n, i - 1) == Shr(n, i) + Shr(n, i) && Two(i - 1) * Shr(n, i) == n / 2
  {
    ScanExact(n, i);
    ScanExact(n, i - 1);
    HalfExact(Two(i - 1), Shr(n, i - 1), Shr(n, i), n);
  }

  lemma HalfExact(w: int, x: int, y: int, n: int)
    requires w >= 1 && w * x == n && 2 * w * y == n
    ensures w * y == n / 2 && x == y + y
  {
    assert w * (x - 2 * y) == 0;
    if x - 2 * y >= 1 { MulMono(1, x - 2 * y, w); }
    if x - 2 * y <= -1 { MulMono(x - 2 * y, -1, w); }
  }

  // The result of the last lines of fp_tonelli.
  lemma RootFound(a: int, g: int, e: nat, q: int, t: nat, x: int)
    requires Prime(q) && e % 2 == 0 && t % 2 == 1
    requires Eq(Pow(g, e) * Pow(Inv(g, q), e), 1, q)
    requires Eq(Pow(Left(a, Inv(g, q), e), t), 1, q) || Eq(a, 0, q)
    requires x == Pow(g, e / 2) * Pow(Left(a, Inv(g, q), e), (t + 1) / 2)
    ensures Eq(x * x, a, q)
  {
    hide Pow, Eq, Inv;
    var b := Left(a, Inv(g, q), e);
    PowAdd(g, e / 2, e / 2);
    PowAdd(b, (t + 1) / 2, (t + 1) / 2);
    PowSucc(b, t);
    TimesSquares(Pow(g, e / 2), Pow(b, (t + 1) / 2));
    var ge, hi := Pow(g, e), Pow(Inv(g, q), e);
    RootCong(a, ge, hi, Pow(b, t), q);
  }

  lemma TimesSquares(u: int, v: int)
    ensures (u * v) * (u * v) == (u * u) * (v * v)
  {}

  lemma RootCong(a: int, ge: int, hi: int, w: int, q: int)
    requires q > 0 && Eq(ge * hi, 1, q) && (Eq(w, 1, q) || Eq(a, 0, q))
    ensures Eq(ge * ((hi * a) * w), a, q)
  {
    if Eq(w, 1, q) {
      Combine2(a * w, ge * hi - 1, a, w - 1, q);
      assert (a * w) * (ge * hi - 1) + a * (w - 1) == ge * ((hi * a) * w) - a;
    } else {
      Combine(ge * hi * w - 1, a - 0, q);
      assert (ge * hi * w - 1) * (a - 0) == ge * ((hi * a) * w) - a;
    }
  }

  // ---------- which of the two roots ----------

  // q - 1 = 2^s t with t odd
  function OddPart(q: int): (t: nat)
    requires q > 1
  {
    Shr(q - 1, Scan1(q - 1))
  }

  // z^t is power m of g^t, which has order 2^s.
  predicate Digits(z: int, g: int, m: nat, q: int)
    requires q > 1
  {
    Eq(Pow(z, OddPart(q)), Pow(g, OddPart(q) * m), q)
  }

  // Zero, or the one of z and -z whose m lies in the lower half.
  predicate Principal(z: int, g: int, q: int)
    requires q > 1
  {
    Eq(z, 0, q) || exists m: nat | m < Two(Scan1(q - 1)) :: 2 * m < Two(Scan1(q - 1)) && Digits(z, g, m, q)
  }

  lemma PrincipalIntro(z: int, g: int, m: nat, q: int)
    requires q > 1 && 2 * m < Two(Scan1(q - 1)) && Digits(z, g, m, q)
    ensures Principal(z, g, q)
  {}

  lemma ZeroRoot(a: int, x: int, g: int, q: int)
    requires Prime(q) && Eq(a, 0, q) && Eq(x * x, a, q)
    ensures Principal(x, g, q)
  {
    EqTrans(x * x, a, 0, q);
    NoZeroDivisors(x, x, q);
  }

  // The last lines of fp_tonelli leave g^(e/2) times a power of an element of odd order.
  lemma RootDigits(b: int, g: int, e: nat, n: nat, x: int, q: int)
    requires q > 1 && e % 2 == 0 && Eq(Pow(b, OddPart(q)), 1, q) && x == Pow(g, e / 2) * Pow(b, n)
    ensures Digits(x, g, e / 2, q)
  {
    hide Pow, OddPart;
    var t, m := OddPart(q), e / 2;
    PowTimes(Pow(g, m), Pow(b, n), t);
    PowPow(g, m, t);
    PowPow(b, n, t);
    PowPow(b, t, n);
    assert n * t == t * n && m * t == t * m;
    PowCong(Pow(b, t), 1, n, q);
    PowOne(n);
    EqRefl(Pow(g, t * m), q);
    EqMul(Pow(g, t * m), Pow(g, t * m), Pow(b, t * n), 1, q);
  }

  // The power (q - 1)/2 of g^n, for g a non-square
  function SignOf(n: nat): int { if n % 2 == 0 then 1 else -1 }

  lemma {:induction false} PowMinusOne(n: nat)
    ensures Pow(-1, n) == SignOf(n)
  {
    if n > 0 { PowMinusOne(n - 1); }
  }

  // z is a square exactly when its m is even.
  lemma DigitParity(z: int, g: int, m: nat, q: int)
    requires Prime(q) && q > 2 && !IsSqr(g, q) && !Eq(z, 0, q) && Digits(z, g, m, q)
    ensures IsSqr(z, q) <==> m % 2 == 0
  {
    hide Pow, IsSqr, OddPart, Eq;
    var t, h := OddPart(q), (q - 1) / 2;
    OddPartOdd(q);
    EulerCriterion(z, q);
    if Eq(g, 0, q) { IsSqrIntro(g, 0, q); }
    EulerCriterion(g, q);
    var sz := if IsSqr(z, q) then 1 else -1;
    PowCong(Pow(z, t), Pow(g, t * m), h, q);
    PowPow(z, t, h);
    PowPow(z, h, t);
    PowPow(g, t * m, h);
    PowPow(g, h, t * m);
    assert t * h == h * t && t * m * h == h * (t * m);
    PowCong(Pow(z, h), sz, t, q);
    PowCong(Pow(g, h), -1, t * m, q);
    PowMinusOne(t * m);
    if sz == 1 { PowOne(t); } else { PowMinusOne(t); }
    OddTimes(t, m);
    EqSym(Pow(z, h * t), sz, q);
    EqTrans(sz, Pow(z, h * t), Pow(g, h * (t * m)), q);
    EqTrans(sz, Pow(g, h * (t * m)), SignOf(t * m), q);
    if sz != SignOf(t * m) { SignsDiffer(sz, SignOf(t * m), q); }
  }

  lemma OddTimes(t: nat, m: nat)
    requires t % 2 == 1
    ensures (t * m) % 2 == m % 2
  {
    var k := t / 2;
    assert t == 2 * k + 1;
    assert t * m == 2 * (k * m) + m;
  }

  lemma OddPartOdd(q: int)
    requires q > 1
    ensures OddPart(q) % 2 == 1
  {
    ScanOdd(q - 1);
  }

  // No power of g^t below 2^(s-1) is -1.
  lemma MinusOneHigh(g: int, d: nat, q: int)
    requires Prime(q) && q > 2 && !IsSqr(g, q) && 2 * d < Two(Scan1(q - 1))
    ensures !Eq(Pow(g, OddPart(q) * d), -1, q)
  {
    hide Pow, IsSqr, OddPart, Eq, Two, Scan1, Shr;
    var t, s := OddPart(q), Scan1(q - 1);
    if Eq(Pow(g, t * d), -1, q) {
      if d == 0 {
        assert t * d == 0;
        PowSucc(g, 0);
        SignsDiffer(1, -1, q);
      } else {
        // d = 2^j u with u odd, and j < s - 1
        var j, u := Scan1(d), Shr(d, Scan1(d));
        ScanOdd(d);
        ScanExact(d, j);
        OddAtLeastOne(u);
        MulMono(1, u, Two(j));
        ExponentGap(j, s);
        var w := Two(s - 1 - j);
        EvenTwo(s - 1 - j);
        ExponentSplit(q, s, j, t, d, u, w);
        if Eq(g, 0, q) { IsSqrIntro(g, 0, q); }
        EulerCriterion(g, q);
        PowPow(g, t * d, w);
        PowPow(g, (q - 1) / 2, u);
        PowCong(Pow(g, t * d), -1, w, q);
        PowCong(Pow(g, (q - 1) / 2), -1, u, q);
        PowMinusOne(w);
        PowMinusOne(u);
        EqSym(Pow(g, t * d * w), 1, q);
        EqTrans(1, Pow(g, t * d * w), -1, q);
        SignsDiffer(1, -1, q);
      }
    }
  }

  lemma OddAtLeastOne(u: nat)
    requires u % 2 == 1
    ensures u >= 1
  {}

  lemma ExponentGap(j: nat, s: nat)
    requires 2 * Two(j) < Two(s)
    ensures j + 1 < s
  {
    if s <= j + 1 { TwoMono(s, j + 1); }
  }

  lemma ExponentSplit(q: int, s: nat, j: nat, t: nat, d: nat, u: nat, w: int)
    requires q > 1 && s == Scan1(q - 1) && t == OddPart(q) && j + 1 < s && Two(j) * u == d && w == Two(s - 1 - j)
    ensures t * d * w == (q - 1) / 2 * u
  {
    HalfShift(q - 1, s);
    TwoAdd(j, s - 1 - j);
    SplitIdentity(t, Two(j), u, w);
  }

  lemma SplitIdentity(t: int, a: int, u: int, w: int)
    ensures t * (a * u) * w == (a * w) * t * u
  {
    assert t * (a * u) * w == (t * a) * (u * w);
    assert (a * w) * t * u == (a * t) * (w * u);
  }

  lemma PrincipalCong(x: int, y: int, g: int, q: int)
    requires q > 1 && Eq(x, y, q) && Principal(x, g, q)
    ensures Principal(y, g, q)
  {
    hide Pow, OddPart, Eq;
    EqSym(x, y, q);
    if Eq(x, 0, q) {
      EqTrans(y, x, 0, q);
    } else {
      var m: nat :| m < Two(Scan1(q - 1)) && 2 * m < Two(Scan1(q - 1)) && Digits(x, g, m, q);
      PowCong(y, x, OddPart(q), q);
      EqTrans(Pow(y, OddPart(q)), Pow(x, OddPart(q)), Pow(g, OddPart(q) * m), q);
      assert Digits(y, g, m, q);
    }
  }

  /** At most one square root of an element is principal. */
  lemma {:induction false} PrincipalUnique(x: int, y: int, g: int, q: int)
    requires Prime(q) && q > 2 && !IsSqr(g, q) && Principal(x, g, q) && Principal(y, g, q) && Eq(x * x, y * y, q)
    ensures Eq(x, y, q)
  {
    hide IsSqr, Digits, Eq;
    assert (x - y) * (x + y) == x * x - y * y;
    DifferenceZero(x * x, y * y, q);
    NoZeroDivisors(x - y, x + y, q);
    if Eq(x - y, 0, q) {
      SumZero(x, -y, q);
    } else {
      SumZero(x, y, q);
      if Eq(x, 0, q) || Eq(y, 0, q) {
        BothRootsZero(x, y, q);
      } else {
        var m: nat :| 2 * m < Two(Scan1(q - 1)) && Digits(x, g, m, q);
        var n: nat :| 2 * n < Two(Scan1(q - 1)) && Digits(y, g, n, q);
        if m >= n { OppositeDigits(x, y, g, m, n, q); } else { OppositeDigits(y, x, g, n, m, q); }
      }
    }
  }

  lemma DifferenceZero(a: int, b: int, q: int)
    requires q > 0 && Eq(a, b, q)
    ensures Eq(a - b, 0, q)
  {}

  lemma SumZero(x: int, y: int, q: int)
    requires q > 0 && Eq(x + y, 0, q)
    ensures Eq(x, -y, q) && Eq(y, -x, q)
  {
    assert x - -y == x + y - 0 && y - -x == x + y - 0;
  }

  lemma BothRootsZero(x: int, y: int, q: int)
    requires q > 0 && Eq(x, -y, q) && (Eq(x, 0, q) || Eq(y, 0, q))
    ensures Eq(x, y, q)
  {
    if Eq(y, 0, q) {
      Combine2(1, x - -y, -2, y - 0, q);
    } else {
      Combine2(2, x - 0, -1, x - -y, q);
      assert 2 * (x - 0) + -1 * (x - -y) == x - y;
    }
  }

  lemma OppositeDigits(x: int, y: int, g: int, m: nat, n: nat, q: int)
    requires Prime(q) && q > 2 && !IsSqr(g, q) && n <= m && 2 * m < Two(Scan1(q - 1))
    requires Digits(x, g, m, q) && Digits(y, g, n, q)
    ensures !Eq(x, -y, q)
  {
    hide Pow, IsSqr, OddPart, Eq, Two, Scan1;
    var t := OddPart(q);
    if !Eq(x, -y, q) { return; }
    OddPartOdd(q);
    // x^t = -(y^t)
    PowCong(x, -y, t, q);
    PowTimes(-1, y, t);
    assert -1 * y == -y;
    PowMinusOne(t);
    assert SignOf(t) * Pow(y, t) == -Pow(y, t);
    var c := Pow(g, t * n);
    assert t * m == t * n + t * (m - n);
    PowAdd(g, t * n, t * (m - n));
    OppositePowers(Pow(x, t), Pow(y, t), c, Pow(g, t * (m - n)), q);
    if Eq(g, 0, q) { IsSqrIntro(g, 0, q); }
    PowNonzero(g, t * n, q);
    Cancel(c, Pow(g, t * (m - n)), -1, q);
    MinusOneHigh(g, m - n, q);
  }

  lemma OppositePowers(u: int, v: int, c: int, w: int, q: int)
    requires q > 0 && Eq(u, -v, q) && Eq(u, c * w, q) && Eq(v, c, q)
    ensures Eq(c * w, c * -1, q)
  {
    Combine3(1, u - -v, -1, u - c * w, -1, v - c, q);
    assert 1 * (u - -v) + -1 * (u - c * w) + -1 * (v - c) == c * w - c * -1;
  }

  // x is a square and the root of x^2 that fp_tonelli returns: x^t = g^(t m) for an even m in the lower half.
  predicate SquareAndPrincipal(x: int, g: int, q: int)
    requires q > 1
  {
    Eq(x, 0, q) || exists m: nat | m < Two(Scan1(q - 1)) :: m % 2 == 0 && 2 * m < Two(Scan1(q - 1)) && Digits(x, g, m, q)
  }

  lemma {:induction false} SquareAndPrincipalIs(x: int, g: int, q: int)
    requires Prime(q) && q > 2 && !IsSqr(g, q)
    ensures SquareAndPrincipal(x, g, q) <==> IsSqr(x, q) && Principal(x, g, q)
  {
    hide IsSqr, Digits, Eq;
    if Eq(x, 0, q) {
      assert 0 * 0 == 0;
      IsSqrIntro(x, 0, q);
    } else {
      if SquareAndPrincipal(x, g, q) {
        var m: nat :| m % 2 == 0 && 2 * m < Two(Scan1(q - 1)) && Digits(x, g, m, q);
        DigitParity(x, g, m, q);
      }
      if Principal(x, g, q) && IsSqr(x, q) {
        var m: nat :| 2 * m < Two(Scan1(q - 1)) && Digits(x, g, m, q);
        DigitParity(x, g, m, q);
      }
    }
  }

  /** When -1 is no square, s = 1: the loop does not run, and every square is principal. */
  lemma {:induction false} PrincipalIfMinusOne(x: int, g: int, q: int)
    requires Prime(q) && q > 2 && !IsSqr(g, q) && !IsSqr(-1, q)
    ensures SquareAndPrincipal(x, g, q) <==> IsSqr(x, q)
  {
    hide IsSqr, Pow, Eq;
    SquareAndPrincipalIs(x, g, q);
    if IsSqr(x, q) && !Eq(x, 0, q) {
      OddHalf(q);
      EulerCriterion(x, q);
      PowSucc(g, 0);
      assert OddPart(q) * 0 == 0;
      assert Digits(x, g, 0, q);
      PrincipalIntro(x, g, 0, q);
    }
  }

  lemma OddHalf(q: int)
    requires Prime(q) && q > 2 && !IsSqr(-1, q)
    ensures Scan1(q - 1) == 1 && OddPart(q) == (q - 1) / 2 && Two(1) == 2
  {
    hide IsSqr, Pow;
    MinusOneUnit(q);
    EulerCriterion(-1, q);
    var h := (q - 1) / 2;
    PowMinusOne(h);
    if h % 2 == 0 { SignsDiffer(1, -1, q); }
    assert Shr(q - 1, 1) == Shr(q - 1, 0) / 2;
  }

  lemma MinusOneUnit(q: int)
    requires q > 2
    ensures !Eq(-1, 0, q)
  {
    if Eq(-1, 0, q) {
      var k := EqElim(-1, 0, q);
      SmallMultiple(k, q);
    }
  }

  /** fp_tonelli: the result squares to a exactly when a is a square, and is then the principal root. */
  method FpTonelli(a: int, nqr: int, q: int) returns (x: int)
    requires Prime(q) && q > 2 && !IsSqr(nqr, q)
    ensures Eq(x * x, a, q) <==> IsSqr(a, q)
    ensures IsSqr(a, q) ==> Principal(x, nqr, q)
  {
    hide Pow, Shr, Two, Eq, IsSqr, Scan1, Inv, Found, Principal, Digits;
    InverseHalf(nqr, q);
    var ginv := Inv(nqr, q);
    var t := q - 1;
    var s := Scan1(t);
    ScanOdd(q - 1);
    EvenScan(q - 1);
    t := Shr(t, s);
    var e := 0;
    ghost var sqr := IsSqr(a, q) && !Eq(a, 0, q);
    if sqr { FoundStart(a, ginv, q); }
    var i := 2;
    TwoUnfold(1);
    while i <= s
      invariant 2 <= i <= s + 1 && e % 2 == 0 && 0 <= e < Two(i - 1)
      invariant sqr ==> Found(a, ginv, e, i, q)
    {
      if sqr { FoundStep(a, ginv, e, i, q); }
      EvenTwo(i - 1);
      TwoUnfold(i);
      var t0 := Shr(q - 1, i);
      var e0 := Pow(ginv, e);
      e0 := e0 * a;
      e0 := Pow(e0, t0);
      if !Eq(e0, 1, q) {
        e := e + Two(i - 1);
      }
      i := i + 1;
    }
    if sqr { FoundEnd(a, ginv, e, s, q); }
    var e0 := Pow(ginv, e);
    e0 := e0 * a;
    x := Pow(nqr, e / 2);
    x := x * Pow(e0, (t + 1) / 2);
    if IsSqr(a, q) { PrincipalFound(a, nqr, e, q, t, x); }
    if Eq(x * x, a, q) { SquaredIsSqr(a, x, q); }
  }

  // The last lines of fp_tonelli give the principal root.
  lemma PrincipalFound(a: int, g: int, e: nat, q: int, t: nat, x: int)
    requires Prime(q) && q > 2 && e % 2 == 0 && e < Two(Scan1(q - 1)) && t == OddPart(q)
    requires Eq(Pow(g, e) * Pow(Inv(g, q), e), 1, q)
    requires Eq(a, 0, q) || Eq(Pow(Left(a, Inv(g, q), e), t), 1, q)
    requires x == Pow(g, e / 2) * Pow(Left(a, Inv(g, q), e), (t + 1) / 2)
    ensures Eq(x * x, a, q) && Principal(x, g, q)
  {
    hide Pow, Shr, Two, Eq, Scan1, Inv, Principal, Digits, Prime, OddPart, Left;
    OddPartOdd(q);
    RootFound(a, g, e, q, t, x);
    if Eq(a, 0, q) {
      ZeroRoot(a, x, g, q);
    } else {
      RootDigits(Left(a, Inv(g, q), e), g, e, (t + 1) / 2, x, q);
      PrincipalIntro(x, g, e / 2, q);
    }
  }

  lemma TwoUnfold(i: nat)
    requires i >= 1
    ensures Two(i) == 2 * Two(i - 1) && Two(i) >= 2
  {}

  lemma FoundEnd(a: int, ginv: int, e: nat, s: nat, q: int)
    requires q > 1 && Found(a, ginv, e, s + 1, q)
    ensures Eq(Pow(Left(a, ginv, e), Shr(q - 1, s)), 1, q)
  {}

  lemma SquaredIsSqr(a: int, x: int, q: int)
    requires q > 0 && Eq(x * x, a, q)
    ensures IsSqr(a, q)
  {
    EqSym(x * x, a, q);
    IsSqrIntro(a, x, q);
  }

  lemma EvenScan(n: nat)
    requires n > 0 && n % 2 == 0
    ensures Scan1(n) >= 1
  {}

  lemma EvenTwo(i: nat)
    requires i >= 1
    ensures Two(i) % 2 == 0
  {
    DoubleEven(Two(i - 1));
  }

  lemma DoubleEven(h: int)
    ensures (2 * h) % 2 == 0
  {}
}
