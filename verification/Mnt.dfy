/** MNT curves of embedding degree 6 (ecc/mnt.c): every curve reported satisfies the
    complex-multiplication equation of the Pell solution it came from. */
module Mnt {
  import opened Options
  import opened Modular
  import opened Bits
  import opened Pell

  // ---------- next primes ----------

  ghost function Factorial(n: nat): (r: int)
    ensures r >= 1
  {
    if n == 0 then 1 else n * Factorial(n - 1)
  }

  lemma {:induction false} DividesFactorial(d: int, n: nat)
    requires 1 <= d <= n
    ensures Factorial(n) % d == 0
  {
    if d == n {
      ModZero(Factorial(n), Factorial(n - 1), n);
    } else {
      DividesFactorial(d, n - 1);
      Combine(n, Factorial(n - 1), d);
    }
  }

  lemma BiggerPrime(p: nat) returns (g: int)
    ensures g > p && Prime(g)
  {
    g := LeastFactor(Factorial(p) + 1);
    if g <= p {
      DividesFactorial(g, p);
      Combine2(1, Factorial(p) + 1, -1, Factorial(p), g);
      assert 1 * (Factorial(p) + 1) + -1 * Factorial(p) == 1;
      NotDividesOne(g);
    }
  }

  // mpz_nextprime
  method NextPrime(p: nat) returns (g: nat)
    ensures g > p && Prime(g) && forall e :: p < e < g ==> !Prime(e)
  {
    ghost var bound := BiggerPrime(p);
    g := p + 1;
    while !Prime(g)
      invariant p < g <= bound && forall e :: p < e < g ==> !Prime(e)
      decreases bound - g
    {
      g := g + 1;
    }
  }

  // ---------- mnt_step2 ----------

  datatype CmInfo = CmInfo(k: int, d: int, q: int, r: int, h: int, n: int)

  // A curve of n points over F_q with n = h r, r prime, embedding degree 6 and trace q + 1 - n.
  ghost predicate MntCurve(cm: CmInfo) {
    && cm.k == 6 && Prime(cm.q) && Prime(cm.r) && cm.h >= 1 && cm.n == cm.h * cm.r
    && Divides(cm.n, cm.q * cm.q - cm.q + 1)
  }

  // The trace satisfies 3 (4q - t^2) = U^2 + 8, so 4q - t^2 = D V^2 on U^2 - 3 D V^2 = -8.
  ghost predicate TraceOf(cm: CmInfo, u: int) {
    3 * (4 * cm.q - (cm.q + 1 - cm.n) * (cm.q + 1 - cm.n)) == u * u + 8
  }

  // Every prime factor is below b.
  ghost predicate Below(c: int, b: int) {
    forall e {:trigger Prime(e)} :: Prime(e) && c % e == 0 ==> e < b
  }

  // No prime below b divides r.
  ghost predicate Rough(r: int, b: int) {
    forall e {:trigger Prime(e)} :: Prime(e) && e < b ==> r % e != 0
  }

  // n = c r with r prime, and c made of smaller primes of at most 16 bits.
  ghost predicate Splits(n: int, c: int, r: int) {
    Prime(r) && c >= 1 && n == Times(c, r) && Below(c, r) && Below(c, 0x1_0000)
  }

  // r is the prime R times primes that are still to be divided out.
  ghost predicate Remains(r: int, k: int, big: int) {
    k >= 1 && r == Times(k, big) && Below(k, big) && Below(k, 0x1_0000)
  }

  // Every way to split n is still open.
  ghost predicate Open(n: int, r: int) {
    forall c, big :: Splits(n, c, big) ==> exists k :: Remains(r, k, big)
  }

  /** The trial division of the order splits it whenever it can be split. */
  method SplitOrder(n: nat) returns (ok: bool, r: nat, cofac: nat)
    requires n >= 1
    ensures cofac >= 1 && cofac * r == n && r >= 1
    ensures ok ==> Splits(n, cofac, r)
    ensures !ok ==> forall c, big :: !Splits(n, c, big)
  {
    hide Below, Rough, Prime, Splits, Open;
    cofac := 1;
    r := n;
    var p := 2;
    OneBelow(2);
    RoughTwo(r);
    if Prime(r) {
      SplitsAt(n, cofac, r, 2, 2);
      return true, r, cofac;
    }
    OpenAtFirst(n);
    TwoPrime();
    while true
      invariant cofac >= 1 && r >= 1 && cofac * r == n && 2 <= p < 0x1_0000 && Prime(p) && Below(cofac, p) && Rough(r, p)
      invariant !Prime(r) && Open(n, r)
      decreases (0x1_0000 as int) - p
    {
      NotLeft(n, r, p);
      r, cofac := SplitOff(r, cofac, p, n);
      var next := NextPrime(p);
      RoughNext(r, p, next);
      BelowMore(cofac, p + 1, next);
      if Prime(r) {
        SplitsAt(n, cofac, r, next, p + 1);
        return true, r, cofac;
      }
      p := next;
      if SizeInBase2(p) > 16 {
        LongSize(p);
        NothingOpen(n, r, p);
        return false, r, cofac;
      }
      ShortSize(p, 16);
    }
  }

  // The inner loop: p divides r no more.
  method SplitOff(r0: nat, cofac0: nat, p: nat, ghost n: int) returns (r: nat, cofac: nat)
    requires r0 >= 1 && cofac0 >= 1 && 2 <= p < 0x1_0000 && Prime(p) && Below(cofac0, p) && Rough(r0, p)
    requires Open(n, r0) && forall c :: !Splits(n, c, p)
    ensures r >= 1 && cofac >= 1 && cofac * r == cofac0 * r0 && Below(cofac, p + 1) && Rough(r, p) && r % p != 0
    ensures Open(n, r)
  {
    hide Below, Rough, Prime, Splits, Open;
    r, cofac := r0, cofac0;
    BelowMore(cofac, p, p + 1);
    while r % p == 0
      invariant cofac >= 1 && r >= 1 && cofac * r == cofac0 * r0 && Below(cofac, p + 1) && Rough(r, p) && Open(n, r)
      decreases r
    {
      var k := ModWitness(r, p);
      ExactDivision(r, p, k);
      RegroupOrder(cofac, p, k, r);
      MulMono(1, p, cofac);
      BelowTimes(cofac, p);
      RoughFactor(r, k, p);
      OpenNext(n, r, k, p);
      cofac := cofac * p;
      r := r / p;
    }
  }

  lemma OneBelow(b: int)
    ensures Below(1, b)
  {
    forall e | Prime(e) ensures 1 % e != 0 { NotDividesOne(e); }
  }

  lemma TwoPrime()
    ensures Prime(2)
  {}

  lemma BelowMore(c: int, b: int, b': int)
    requires Below(c, b) && b <= b'
    ensures Below(c, b')
  {}

  // What is left is prime and free of the primes below b.
  lemma SplitsAt(n: int, c: int, r: int, b: int, b': int)
    requires c >= 1 && c * r == n && Prime(r) && Rough(r, b) && Below(c, b') && b' <= b && b' <= 0x1_0000
    ensures Splits(n, c, r)
  {
    ModZero(r, 1, r);
    assert r >= b;
    BelowMore(c, b', r);
    BelowMore(c, b', 0x1_0000);
  }

  lemma OpenAtFirst(n: int)
    ensures Open(n, n)
  {
    forall c, big | Splits(n, c, big) ensures exists k :: Remains(n, k, big) {
      assert Remains(n, c, big);
    }
  }

  // A number without prime factors is 1.
  lemma NoFactors(k: int)
    requires k >= 1 && forall e {:trigger Prime(e)} :: Prime(e) ==> k % e != 0
    ensures k == 1
  {
    if k >= 2 { var e := LeastFactor(k); }
  }

  // A factor without small primes and without large ones is 1.
  lemma FactorOne(r: int, k: int, big: int, b: int)
    requires k >= 1 && r == k * big && Rough(r, b) && Below(k, b)
    ensures k == 1
  {
    forall e | Prime(e) ensures k % e != 0 {
      assert r == big * k;
      if k % e == 0 { Combine(big, k, e); }
    }
    NoFactors(k);
  }

  // While a composite number is left, the next prime is not the one it will be split at.
  lemma NotLeft(n: int, r: int, p: int)
    requires Open(n, r) && Rough(r, p) && !Prime(r)
    ensures forall c :: !Splits(n, c, p)
  {
    forall c ensures !Splits(n, c, p) {
      if Splits(n, c, p) {
        var k :| Remains(r, k, p);
        FactorOne(r, k, p, p);
      }
    }
  }

  // p leaves the cofactor, as it is not the prime of any splitting.
  lemma OpenNext(n: int, r: int, r': int, p: int)
    requires Open(n, r) && r == r' * p && Prime(p) && forall c :: !Splits(n, c, p)
    ensures Open(n, r')
  {
    forall c, big | Splits(n, c, big) ensures exists k :: Remains(r', k, big) {
      var k :| Remains(r, k, big);
      ModZero(r, r', p);
      assert big != p;
      PrimeSplits(k, big, p);
      var k' := ModWitness(k, p);
      SmallerFactor(k, k', p, big, r');
      BelowFactor(k, k', p, big);
      BelowFactor(k, k', p, 0x1_0000);
      assert Remains(r', k', big);
    }
  }

  lemma SmallerFactor(k: int, k': int, p: int, big: int, r': int)
    requires p >= 2 && k >= 1 && k == k' * p && k * big == r' * p
    ensures k' >= 1 && r' == k' * big
  {
    if k' <= 0 { MulMono(k', 0, p); }
    assert (k' * big - r') * p == 0;
    SmallMultiple(k' * big - r', p);
  }

  lemma BelowFactor(k: int, k': int, p: int, b: int)
    requires k == k' * p && Below(k, b)
    ensures Below(k', b)
  {
    forall e | Prime(e) && k' % e == 0 ensures e < b {
      assert k == p * k';
      Combine(p, k', e);
    }
  }

  // When the 16-bit primes are used up, only a prime could still be split.
  lemma NothingOpen(n: int, r: int, p: int)
    requires Open(n, r) && Rough(r, p) && p >= 0x1_0000 && !Prime(r)
    ensures forall c, big :: !Splits(n, c, big)
  {
    forall c, big ensures !Splits(n, c, big) {
      if Splits(n, c, big) {
        var k :| Remains(r, k, big);
        BelowMore(k, 0x1_0000, p);
        FactorOne(r, k, big, p);
      }
    }
  }

  lemma RoughTwo(r: int)
    ensures Rough(r, 2)
  {}

  lemma BelowTimes(c: int, p: int)
    requires Below(c, p + 1) && Prime(p)
    ensures Below(c * p, p + 1)
  {
    forall e | Prime(e) && (c * p) % e == 0 ensures e < p + 1 {
      PrimeSplits(c, p, e);
    }
  }

  // A prime dividing c p divides c or is p.
  lemma PrimeSplits(c: int, p: int, e: int)
    requires Prime(p) && Prime(e) && (c * p) % e == 0
    ensures c % e == 0 || e == p
  {
    NoZeroDivisors(c, p, e);
    if p % e == 0 {
      var k := ModWitness(p, e);
      if k <= 0 { MulMono(k, 0, e); }
      if e > p { MulMono(1, k, e); }
    }
  }

  lemma RoughFactor(r: int, k: int, p: int)
    requires r == k * p && p >= 2 && Rough(r, p)
    ensures Rough(if p > 0 then r / p else r, p)
  {
    DivExact(r, p, k) by { assert p * k == k * p; }
    forall e | Prime(e) && e < p ensures k % e != 0 {
      assert p * k == r;
      if k % e == 0 { Combine(p, k, e); }
    }
  }

  lemma RoughNext(r: int, p: int, next: int)
    requires Prime(p) && Rough(r, p) && r % p != 0 && forall e :: p < e < next ==> !Prime(e)
    ensures Rough(r, next)
  {}

  lemma LongSize(p: nat)
    requires SizeInBase2(p) > 16
    ensures p >= 0x1_0000
  {
    SizeAtMost(p, 16);
    assert Two(8) == 256;
    TwoAdd(8, 8);
  }

  lemma {:induction false} SizeAtMost(n: nat, s: nat)
    requires s >= 1
    ensures n < Two(s) ==> SizeInBase2(n) <= s
  {
    if n >= 2 && s >= 2 {
      SizeAtMost(n / 2, s - 1);
    } else {
      assert Two(1) == 2 * Two(0);
    }
  }

  lemma ExactDivision(r: int, p: int, k: int)
    requires p >= 2 && r >= 1 && r == k * p
    ensures r / p == k && 1 <= k < r
  {
    DivExact(r, p, k) by { assert p * k == k * p; }
    if k <= 0 { MulMono(k, 0, p); }
    MulMono(2, p, k);
  }

  lemma RegroupOrder(c: int, p: int, k: int, r: int)
    requires r == k * p
    ensures c * r == c * p * k
  {}

  // A number of at most s binary digits is below 2^s.
  lemma {:induction false} ShortSize(n: nat, s: nat)
    requires SizeInBase2(n) <= s
    ensures n < Two(s)
    ensures s == 16 ==> Two(s) == 0x1_0000
    decreases n
  {
    if n >= 2 {
      ShortSize(n / 2, s - 1);
    } else {
      assert Two(s) == 2 * Two(s - 1);
    }
    if s == 16 {
      assert Two(8) == 256;
      TwoAdd(8, 8);
    }
  }

  // The parameters that belong to a Pell value U: q = l^2 + 1 and n = q + l or q - l.
  function Quarter(u: int): int { if u % 6 == 1 then (u - 1) / 3 else (u + 1) / 3 }

  function FieldSize(u: int): int { Quarter(u) * Quarter(u) + 1 }

  function OrderOf(u: int): int { if u % 6 == 1 then FieldSize(u) + Quarter(u) else FieldSize(u) - Quarter(u) }

  ghost predicate Accepted(cm: CmInfo, d: int, u: int) {
    && (u % 6 == 1 || u % 6 == 5) && cm.d == d && cm.q == FieldSize(u) && cm.n == OrderOf(u)
    && MntCurve(cm) && TraceOf(cm, u) && Splits(cm.n, cm.h, cm.r)
  }

  // The order does not split.
  ghost predicate Stuck(n: int) { forall c, r :: !Splits(n, c, r) }

  ghost predicate Rejected(u: int) {
    !(u % 6 == 1 || u % 6 == 5) || !Prime(FieldSize(u)) || Stuck(OrderOf(u))
  }

  /** mnt_step2: a reported curve is an MNT curve whose trace comes from U; nothing is reported only if U, q or
      the order does not allow it. */
  method MntStep2(l: seq<CmInfo>, d: int, u: int) returns (ret: int, l': seq<CmInfo>)
    requires u >= 1
    ensures (ret == 0 && |l'| == |l| + 1 && l' == l + [l'[|l|]] && Accepted(l'[|l|], d, u)) || (ret == 1 && l' == l && Rejected(u))
  {
    hide Below, Prime, Splits, Accepted, Rejected, FieldSize, OrderOf;
    l' := l;
    var x, sign;
    if u % 6 == 1 {
      x := u - 1;
      sign := 1;
    } else if u % 6 == 5 {
      x := u + 1;
      sign := -1;
    } else {
      NotUsable(u);
      return 1, l;
    }
    x := x / 3;
    var q := x * x;
    q := q + 1;
    Parameters(u, x, sign);
    if !Prime(q) {
      NotUsable(u);
      return 1, l;
    }
    var n := if sign < 0 then q - x else q + x;
    OrderPositive(x);
    var ok, r, cofac := SplitOrder(n);
    if !ok {
      OrderStuck(u);
      return 1, l;
    }
    var cm := CmInfo(6, d, q, r, cofac, n);
    CurveAccepted(u, x, sign, cm);
    l' := l + [cm];
    ret := 0;
  }

  lemma NotUsable(u: int)
    ensures !(u % 6 == 1 || u % 6 == 5) || !Prime(FieldSize(u)) ==> Rejected(u)
  {}

  lemma Parameters(u: int, x: int, sign: int)
    requires u >= 1 && ((u % 6 == 1 && sign == 1 && x == (u - 1) / 3) || (u % 6 == 5 && sign == -1 && x == (u + 1) / 3))
    ensures u == 3 * x + sign && x >= 0 && FieldSize(u) == x * x + 1
    ensures OrderOf(u) == if sign < 0 then x * x + 1 - x else x * x + 1 + x
  {
    assert u % 6 == 1 ==> (u - 1) % 3 == 0;
    assert u % 6 == 5 ==> (u + 1) % 3 == 0;
    assert x == Quarter(u);
    hide Quarter;
  }

  lemma OrderStuck(u: int)
    requires Stuck(OrderOf(u))
    ensures Rejected(u)
  {}

  lemma CurveAccepted(u: int, x: int, sign: int, cm: CmInfo)
    requires u >= 1 && ((u % 6 == 1 && sign == 1 && x == (u - 1) / 3) || (u % 6 == 5 && sign == -1 && x == (u + 1) / 3))
    requires cm.k == 6 && cm.q == FieldSize(u) && cm.n == OrderOf(u) && Splits(cm.n, cm.h, cm.r) && Prime(cm.q)
    ensures Accepted(cm, cm.d, u)
  {
    hide Below, Prime, FieldSize, OrderOf, Divides;
    Parameters(u, x, sign);
    OrderDivides(x, cm.q, cm.n, sign);
    TraceEquation(x, sign, u);
  }

  lemma OrderPositive(x: int)
    requires x >= 0
    ensures x * x + 1 - x >= 1 && x * x + 1 + x >= 1
  {
    if x >= 1 { MulMono(1, x, x); }
  }

  lemma OrderDivides(x: int, q: int, n: int, sign: int)
    requires q == x * x + 1 && (sign == 1 || sign == -1) && n == q + sign * x
    ensures Divides(n, q * q - q + 1)
  {
    DividesIntro(n, q - sign * x, q * q - q + 1) by {
      assert (q + sign * x) * (q - sign * x) == q * q - (sign * sign) * (x * x);
    }
  }

  lemma TraceEquation(x: int, sign: int, u: int)
    requires (sign == 1 || sign == -1) && u == 3 * x + sign
    ensures var q := x * x + 1; var t := q + 1 - (q + sign * x);
            3 * (4 * q - t * t) == u * u + 8
  {
    if sign == 1 {
      assert u * u == 9 * (x * x) + 6 * x + 1;
      assert (1 - x) * (1 - x) == x * x - 2 * x + 1;
    } else {
      assert u * u == 9 * (x * x) - 6 * x + 1;
      assert (1 + x) * (1 + x) == x * x + 2 * x + 1;
    }
  }

  // ---------- find_mnt6_curve ----------

  // The product of a solution of x^2 - D y^2 = N by a solution of x^2 - D y^2 = 1.
  lemma {:induction false} Brahmagupta(x: int, y: int, minx: int, miny: int, dd: int, n: int)
    requires dd > 0 && Solves(x, y, dd, n) && Unit(minx, miny, dd)
    ensures Solves(minx * x + miny * y * dd, minx * y + miny * x, dd, n)
    ensures minx * x + miny * y * dd > x
  {
    NormProduct(x, y, minx, miny, dd);
    MulMono(1, minx, x);
    MulMono(1, miny, y);
    MulMono(1, dd, miny * y);
    MulMono(1, minx, y);
    MulMono(1, miny, x);
    assert (x * x - dd * (y * y)) * 1 == n;
  }

  lemma NormProduct(x: int, y: int, a: int, b: int, dd: int)
    ensures (a * x + b * y * dd) * (a * x + b * y * dd) - dd * ((a * y + b * x) * (a * y + b * x))
         == (x * x - dd * (y * y)) * (a * a - dd * (b * b))
  {
    SquareOfSum(a * x, b * y * dd);
    SquareOfSum(a * y, b * x);
    NormTerms(x, y, a, b, dd);
    assert (x * x - dd * (y * y)) * (a * a - dd * (b * b))
        == x * x * (a * a) - x * x * (dd * (b * b)) - dd * (y * y) * (a * a) + dd * (y * y) * (dd * (b * b));
    assert dd * ((a * y) * (a * y) + 2 * ((a * y) * (b * x)) + (b * x) * (b * x))
        == dd * ((a * y) * (a * y)) + 2 * (dd * ((a * y) * (b * x))) + dd * ((b * x) * (b * x));
  }

  lemma SquareOfSum(s: int, t: int)
    ensures (s + t) * (s + t) == s * s + 2 * (s * t) + t * t
  {}

  lemma NormTerms(x: int, y: int, a: int, b: int, dd: int)
    ensures (a * x) * (a * x) == x * x * (a * a) && (b * y * dd) * (b * y * dd) == dd * (y * y) * (dd * (b * b))
    ensures dd * ((a * y) * (a * y)) == dd * (y * y) * (a * a) && dd * ((b * x) * (b * x)) == x * x * (dd * (b * b))
    ensures (a * x) * (b * y * dd) == dd * ((a * y) * (b * x))
  {
    Interchange(a, x, a, x);
    assert (b * y * dd) * (b * y * dd) == dd * (y * y) * (dd * (b * b)) by {
      Interchange(b * y, dd, b * y, dd);
      Interchange(b, y, b, y);
      Interchange(dd, y * y, dd, b * b);
    }
    assert dd * ((a * y) * (a * y)) == dd * (y * y) * (a * a) by { Interchange(a, y, a, y); Rotate(dd, a * a, y * y); }
    assert dd * ((b * x) * (b * x)) == x * x * (dd * (b * b)) by { Interchange(b, x, b, x); Rotate(dd, b * b, x * x); }
    assert (a * x) * (b * y * dd) == dd * ((a * y) * (b * x)) by {
      Interchange(a, x, b, y);
      Interchange(a, y, b, x);
      Rotate(dd, a * x, b * y);
    }
  }

  lemma Rotate(d: int, p: int, q: int)
    ensures d * (p * q) == d * q * p && d * (p * q) == q * (d * p) && d * (p * q) == p * (q * d)
  {}

  lemma Interchange(a: int, x: int, b: int, y: int)
    ensures (a * x) * (b * y) == a * b * (x * y)
  {}

  // A curve found from a solution U, V of U^2 - D3 V^2 = -8.
  ghost predicate FromPell(cm: CmInfo, d: int, d3: int) {
    exists u, v :: Solves(u, v, d3, -8) && Accepted(cm, d, u)
  }

  /** The complex-multiplication equation 4q - t^2 = D V^2 holds of the Pell solution a curve came from
      exactly when 3D fits the 32-bit product. */
  lemma {:induction false} CmEquation(cm: CmInfo, d: nat, u: int, v: int)
    requires d < 0x1_0000_0000
    requires Solves(u, v, d * 3 % 0x1_0000_0000, -8) && TraceOf(cm, u)
    ensures 4 * cm.q - (cm.q + 1 - cm.n) * (cm.q + 1 - cm.n) == d * (v * v) <==> 3 * d < 0x1_0000_0000
  {
    var d3 := d * 3 % 0x1_0000_0000;
    MulMono(1, v, v);
    assert 3 * (d * (v * v)) == (3 * d) * (v * v);
    if 3 * d >= 0x1_0000_0000 {
      assert d3 < 3 * d;
      MulMono(d3 + 1, 3 * d, v * v);
    }
  }

  // A proper divisor whose square exceeds n has a smaller one beside it.
  lemma SmallDivisor(n: int, d: int) returns (e: int)
    requires 1 < d < n && n % d == 0
    ensures 1 < e < n && n % e == 0 && e * e <= n
  {
    var k := n / d;
    assert n == k * d;
    if d * d <= n { return d; }
    if k <= 1 { MulMono(k, 1, d); }
    if k >= d { MulMono(d, k, d); }
    MulMono(k, d, k);
    ModZero(n, d, k);
    MulMono(2, d, k);
    e := k;
  }

  lemma PrimeBelow625(n: int)
    requires 2 <= n < 625 && forall e :: 2 <= e <= 24 ==> n % e != 0
    ensures Prime(n)
  {
    forall d | 1 < d < n ensures n % d != 0 {
      if n % d == 0 {
        var e := SmallDivisor(n, d);
        if e >= 25 { MulMono(25, e, e); MulMono(25, e, 25); }
      }
    }
  }

  lemma Primes577And601()
    ensures Prime(577) && Prime(601)
  {
    forall e | 2 <= e <= 24 ensures 577 % e != 0 && 601 % e != 0 {
      assert e == 2 || e == 3 || e == 4 || e == 5 || e == 6 || e == 7 || e == 8 || e == 9 || e == 10 || e == 11 || e == 12 || e == 13
          || e == 14 || e == 15 || e == 16 || e == 17 || e == 18 || e == 19 || e == 20 || e == 21 || e == 22 || e == 23 || e == 24;
    }
    PrimeBelow625(577);
    PrimeBelow625(601);
  }

  /** For D = 1431655963 the 32-bit product 3D is 593: the solution 73^2 - 593 3^2 = -8 gives an accepted curve
      of 601 points over F_577, whose 4q - t^2 = 1779 is not 9D. */
  lemma {:induction false} CmEquationFails()
    ensures var d, cm := 1431655963, CmInfo(6, 1431655963, 577, 601, 1, 601);
            && d < 0x1_0000_0000 && Solves(73, 3, d * 3 % 0x1_0000_0000, -8) && Accepted(cm, d, 73) && !Rejected(73)
            && 4 * cm.q - (cm.q + 1 - cm.n) * (cm.q + 1 - cm.n) == 1779 != d * (3 * 3)
  {
    Primes577And601();
    OneBelow(601);
    OneBelow(0x1_0000);
    DividesIntro(601, 553, 577 * 577 - 577 + 1);
    assert FieldSize(73) == 577 && OrderOf(73) == 601;
    assert Splits(601, 1, 601);
  }

  // ---------- the passes over the solutions ----------

  function Somes(results: seq<Option<CmInfo>>): seq<CmInfo> {
    if |results| == 0 then [] else
      Somes(results[..|results| - 1]) + if results[|results| - 1].Some? then [results[|results| - 1].value] else []
  }

  // The verdict on each of the solutions tried.
  ghost predicate Verdicts(results: seq<Option<CmInfo>>, xs: seq<int>, d: int) {
    |results| <= |xs| && forall i :: 0 <= i < |results| ==>
      if results[i].Some? then Accepted(results[i].value, d, xs[i]) else Rejected(xs[i])
  }

  // The next solution on the orbit of (x, y).
  function ForwardX(x: int, y: int, minx: int, miny: int, d3: int): int { minx * x + miny * y * d3 }

  function ForwardY(x: int, y: int, minx: int, miny: int): int { minx * y + miny * x }

  predicate TooBig(x: int, bitlimit: nat) { x < 0 || 2 * SizeInBase2(x) > bitlimit + 10 }

  lemma {:induction false} SizeBounds(n: nat)
    requires n > 0
    ensures Two(SizeInBase2(n) - 1) <= n < Two(SizeInBase2(n))
  {
    if n >= 2 {
      SizeBounds(n / 2);
      assert Two(SizeInBase2(n) - 1) == 2 * Two(SizeInBase2(n / 2) - 1) && Two(SizeInBase2(n)) == 2 * Two(SizeInBase2(n / 2));
    } else {
      assert Two(1) == 2 * Two(0);
    }
  }

  lemma QuarterBounds(u: int)
    requires u >= 1
    ensures 0 <= Quarter(u) <= u && (u >= 4 ==> u <= 4 * Quarter(u))
  {}

  /** The successor that stops the run stands for a field of more than bitlimit + 5 bits, and every one that does not for a
      field of at most bitlimit + 10 bits. */
  lemma FieldLimit(u: int, bitlimit: nat)
    requires u >= 1
    ensures TooBig(u, bitlimit) ==> FieldSize(u) > Two(bitlimit + 5)
    ensures !TooBig(u, bitlimit) ==> FieldSize(u) < Two(bitlimit + 10)
  {
    SizeBounds(u);
    QuarterBounds(u);
    var s, x := SizeInBase2(u), Quarter(u);
    hide SizeInBase2, Quarter, Two;
    if TooBig(u, bitlimit) {
      LargeSquare(u, x, s, bitlimit);
    } else {
      SmallSquare(u, x, s, bitlimit);
    }
  }

  lemma LargeSquare(u: int, x: int, s: nat, bitlimit: nat)
    requires s >= 1 && Two(s - 1) <= u && 2 * s > bitlimit + 10 && x >= 0 && (u >= 4 ==> u <= 4 * x)
    ensures x * x >= Two(bitlimit + 5)
  {
    FiveBits();
    TwoMono(5, s - 1);
    TwoMono(bitlimit + 9, 2 * (s - 1));
    TwoAdd(s - 1, s - 1);
    TwoAdd(4, bitlimit + 5);
    assert 4 + (bitlimit + 5) == bitlimit + 9 && s - 1 + (s - 1) == 2 * (s - 1);
    var w, v := Two(s - 1), Two(bitlimit + 5);
    hide Two;
    SquareMono(w, 4 * x);
    assert 4 * x * (4 * x) == 16 * (x * x);
  }

  lemma SmallSquare(u: int, x: int, s: nat, bitlimit: nat)
    requires s >= 1 && 1 <= u < Two(s) && 2 * s <= bitlimit + 10 && 0 <= x <= u
    ensures x * x + 1 < Two(bitlimit + 10)
  {
    TwoMono(2 * s, bitlimit + 10);
    TwoAdd(s, s);
    assert s + s == 2 * s;
    hide Two;
    SquareMono(x, Two(s) - 1);
    BelowSquare(Two(s));
  }

  lemma FiveBits()
    ensures Two(4) == 16 && Two(5) == 32
  {
    assert Two(1) == 2 && Two(2) == 4 && Two(3) == 8;
  }

  lemma BelowSquare(w: int)
    requires w >= 2
    ensures (w - 1) * (w - 1) + 1 < w * w
  {}

  // One pass: solutions xs, ys are tried in order and replaced by their successors, up to the first
  // successor past the limit.
  ghost predicate PassDone(xs: seq<int>, ys: seq<int>, xs': seq<int>, ys': seq<int>, results: seq<Option<CmInfo>>, stop: bool,
                           d: int, d3: int, bitlimit: nat, minx: int, miny: int) {
    && |xs| == |ys| && Verdicts(results, xs, d)
    && (stop ==> 0 < |results| && TooBig(ForwardX(xs[|results| - 1], ys[|results| - 1], minx, miny, d3), bitlimit))
    && (!stop ==> |results| == |xs| == |xs'| == |ys'|)
    && (forall i :: 0 <= i < |results| - (if stop then 1 else 0) ==> !TooBig(ForwardX(xs[i], ys[i], minx, miny, d3), bitlimit))
    && (!stop ==> forall i :: 0 <= i < |xs| ==> xs'[i] == ForwardX(xs[i], ys[i], minx, miny, d3) && ys'[i] == ForwardY(xs[i], ys[i], minx, miny))
  }

  lemma SomesNext(results: seq<Option<CmInfo>>, r: Option<CmInfo>)
    ensures Somes(results + [r]) == Somes(results) + if r.Some? then [r.value] else []
  {
    assert (results + [r])[..|results|] == results;
  }

  lemma SolvesUpdate(xs: seq<int>, ys: seq<int>, i: nat, x: int, y: int, d3: int, n: int)
    requires AllSolve(xs, ys, d3, n) && i < |xs| && Solves(x, y, d3, n)
    ensures AllSolve(xs[i := x], ys[i := y], d3, n)
  {}

  method Pass(l: seq<CmInfo>, d: int, d3: int, bitlimit: nat, xs: seq<int>, ys: seq<int>, minx: int, miny: int)
    returns (l': seq<CmInfo>, xs': seq<int>, ys': seq<int>, stop: bool, found: nat, ghost results: seq<Option<CmInfo>>)
    requires d3 > 0 && |xs| > 0 && AllSolve(xs, ys, d3, -8) && Unit(minx, miny, d3)
    ensures l' == l + Somes(results) && found == |Somes(results)|
    ensures PassDone(xs, ys, xs', ys', results, stop, d, d3, bitlimit, minx, miny)
    ensures !stop ==> AllSolve(xs', ys', d3, -8) && forall i :: 0 <= i < |xs| ==> xs[i] < xs'[i]
  {
    hide Accepted, Rejected, Unit, Solves, Somes, SizeInBase2;
    l', xs', ys', stop, found := l, xs, ys, false, 0;
    NoSomes();
    results := [];
    for i := 0 to |xs|
      invariant l' == l + Somes(results) && found == |Somes(results)|
      invariant |results| == i && Verdicts(results, xs, d)
      invariant |xs'| == |xs| && AllSolve(xs', ys', d3, -8) && (forall j :: i <= j < |xs| ==> xs'[j] == xs[j] && ys'[j] == ys[j])
      invariant forall j :: 0 <= j < i ==> xs[j] < xs'[j] && !TooBig(xs'[j], bitlimit)
      invariant forall j :: 0 <= j < i ==> xs'[j] == ForwardX(xs[j], ys[j], minx, miny, d3) && ys'[j] == ForwardY(xs[j], ys[j], minx, miny)
    {
      var u, v := xs'[i], ys'[i];
      assert Solves(u, v, d3, -8);
      SolvesPositive(u, v, d3, -8);
      var ret, l2 := MntStep2(l', d, u);
      ghost var verdict := if ret == 0 then Some(l2[|l'|]) else None;
      SomesNext(results, verdict);
      results := results + [verdict];
      l' := l2;
      if ret == 0 { found := found + 1; }
      Brahmagupta(u, v, minx, miny, d3, -8);
      var t0 := minx * u + miny * v * d3;
      if 2 * SizeInBase2(t0) > bitlimit + 10 { return l', xs', ys', true, found, results; }
      var t2 := minx * v + miny * u;
      SolvesUpdate(xs', ys', i, t0, t2, d3, -8);
      xs' := xs'[i := t0];
      ys' := ys'[i := t2];
    }
  }

  lemma NoSomes()
    ensures Somes([]) == []
  {}

  lemma SolvesPositive(u: int, v: int, dd: int, n: int)
    requires Solves(u, v, dd, n)
    ensures u >= 1 && v >= 1
  {}

  lemma SizeLimit(x: nat, b: nat)
    requires 2 * SizeInBase2(x) <= b
    ensures x < Two(b)
  {
    ShortSize(x, b);
  }

  // The passes: solutions before each pass, and their verdicts.
  datatype Round = Round(xs: seq<int>, ys: seq<int>, results: seq<Option<CmInfo>>)

  function Curves(rounds: seq<Round>): seq<CmInfo> {
    if |rounds| == 0 then [] else Curves(rounds[..|rounds| - 1]) + Somes(rounds[|rounds| - 1].results)
  }

  lemma CurvesNext(rounds: seq<Round>, r: Round)
    ensures Curves(rounds + [r]) == Curves(rounds) + Somes(r.results)
  {
    assert (rounds + [r])[..|rounds|] == rounds;
  }

  ghost predicate RoundOk(r: Round, next: Round, d: int, d3: int, bitlimit: nat, minx: int, miny: int) {
    PassDone(r.xs, r.ys, next.xs, next.ys, r.results, false, d, d3, bitlimit, minx, miny)
  }

  ghost predicate LastOk(r: Round, d: int, d3: int, bitlimit: nat, minx: int, miny: int) {
    PassDone(r.xs, r.ys, [], [], r.results, true, d, d3, bitlimit, minx, miny) && AllSolve(r.xs, r.ys, d3, -8)
  }

  // All rounds but the last are complete passes, each on the successors of the one before.
  ghost predicate Rounds(rounds: seq<Round>, d: int, d3: int, bitlimit: nat, minx: int, miny: int) {
    && (forall j :: 0 <= j < |rounds| ==> AllSolve(rounds[j].xs, rounds[j].ys, d3, -8))
    && forall j :: 0 < j < |rounds| ==> RoundOk(rounds[j - 1], rounds[j], d, d3, bitlimit, minx, miny)
  }

  /** find_mnt6_curve: runs along the orbits of all solutions of U^2 - D3 V^2 = -8 that general_pell reports, where
      D3 is 3D in 32 bits, until the first one past the bit limit, and appends exactly the accepted curves. */
  method FindMnt6(l: seq<CmInfo>, d: nat, bitlimit: nat) returns (l': seq<CmInfo>, foundCount: nat, ghost rounds: seq<Round>, ghost minx: int, ghost miny: int)
    requires d < 0x1_0000_0000
    ensures l' == l + Curves(rounds) && foundCount == |Curves(rounds)|
    ensures var d3 := d * 3 % 0x1_0000_0000;
            && (Square(d3) ==> rounds == [])
            && (!Square(d3) ==> PellList(if rounds == [] then [] else rounds[0].xs, if rounds == [] then [] else rounds[0].ys, minx, miny, d3, -8))
            && (!Square(d3) && rounds != [] ==>
                 Rounds(rounds, d, d3, bitlimit, minx, miny) && LastOk(rounds[|rounds| - 1], d, d3, bitlimit, minx, miny) && Unit(minx, miny, d3))
    ensures forall i :: |l| <= i < |l'| ==> FromPell(l'[i], d, d * 3 % 0x1_0000_0000)
  {
    hide Accepted, Rejected, Unit, AllSolve, PassDone, Somes, FromPell, PellList, RoundOk, LastOk;
    var d3 := d * 3 % 0x1_0000_0000;
    l', foundCount, rounds, minx, miny := l, 0, [], 0, 0;
    var root := Isqrt(d3);
    if root * root == d3 {
      assert d3 == Times(root, root);
      return;
    }
    NotSquare(d3, root);
    var xs, ys, px, py := GeneralPell(d3, -8);
    minx, miny := px, py;
    if |xs| == 0 {
      BothEmpty(xs, ys, d3, -8);
      return;
    }
    ghost var xs1, ys1 := xs, ys;
    var stop := false;
    ghost var before: seq<Round> := [];
    ghost var current := Round(xs, ys, []);
    while !stop
      invariant l' == l + Curves(rounds) && foundCount == |Curves(rounds)| && (!stop ==> before == rounds)
      invariant !stop ==> |xs| > 0 && AllSolve(xs, ys, d3, -8) && current.xs == xs && current.ys == ys
      invariant if rounds == [] then xs == xs1 && ys == ys1 && !stop else rounds[0].xs == xs1 && rounds[0].ys == ys1
      invariant !stop ==> RoundsSoFar(before, xs, ys, d, d3, bitlimit, minx, miny)
      invariant stop ==> rounds != [] && Rounds(rounds, d, d3, bitlimit, minx, miny) && LastOk(rounds[|rounds| - 1], d, d3, bitlimit, minx, miny)
      decreases !stop, Two(bitlimit + 10) - (if stop then 0 else xs[0])
    {
      var found;
      ghost var results;
      ghost var xs0, ys0 := xs, ys;
      l', xs, ys, stop, found, results := Pass(l', d, d3, bitlimit, xs, ys, px, py);
      foundCount := foundCount + found;
      CurvesNext(rounds, Round(xs0, ys0, results));
      PassEnds(before, xs0, ys0, xs, ys, results, stop, d, d3, bitlimit, minx, miny);
      rounds := rounds + [Round(xs0, ys0, results)];
      before := rounds;
      current := Round(xs, ys, []);
      if !stop { SizeLimit(xs[0], bitlimit + 10); }
    }
    AllFromPell(l, rounds, d, d3, bitlimit, minx, miny);
  }

  lemma BothEmpty(xs: seq<int>, ys: seq<int>, dd: int, n: int)
    requires |xs| == 0 && AllSolve(xs, ys, dd, n)
    ensures xs == [] && ys == []
  {}

  // Complete rounds, and the solutions they lead to.
  ghost predicate RoundsSoFar(rounds: seq<Round>, xs: seq<int>, ys: seq<int>, d: int, d3: int, bitlimit: nat, minx: int, miny: int) {
    && Rounds(rounds, d, d3, bitlimit, minx, miny)
    && (rounds != [] ==> RoundOk(rounds[|rounds| - 1], Round(xs, ys, []), d, d3, bitlimit, minx, miny))
  }

  lemma PassEnds(rounds: seq<Round>, xs: seq<int>, ys: seq<int>, xs': seq<int>, ys': seq<int>, results: seq<Option<CmInfo>>, stop: bool,
                 d: int, d3: int, bitlimit: nat, minx: int, miny: int)
    requires RoundsSoFar(rounds, xs, ys, d, d3, bitlimit, minx, miny) && |xs| > 0 && AllSolve(xs, ys, d3, -8)
    requires PassDone(xs, ys, xs', ys', results, stop, d, d3, bitlimit, minx, miny)
    ensures var next := rounds + [Round(xs, ys, results)];
            && Rounds(next, d, d3, bitlimit, minx, miny)
            && (stop ==> LastOk(next[|next| - 1], d, d3, bitlimit, minx, miny))
            && (!stop ==> RoundsSoFar(next, xs', ys', d, d3, bitlimit, minx, miny))
            && (!stop ==> |xs'| == |xs| && !TooBig(xs'[0], bitlimit))
  {
    var next := rounds + [Round(xs, ys, results)];
    forall j | 0 < j < |next| ensures RoundOk(next[j - 1], next[j], d, d3, bitlimit, minx, miny) {
      if j < |rounds| { assert RoundOk(rounds[j - 1], rounds[j], d, d3, bitlimit, minx, miny); }
    }
    if !stop { assert xs'[0] == ForwardX(xs[0], ys[0], minx, miny, d3); }
  }

  lemma {:induction false} AllFromPell(l: seq<CmInfo>, rounds: seq<Round>, d: int, d3: int, bitlimit: nat, minx: int, miny: int)
    requires rounds != [] ==> Rounds(rounds, d, d3, bitlimit, minx, miny) && LastOk(rounds[|rounds| - 1], d, d3, bitlimit, minx, miny)
    ensures var l' := l + Curves(rounds); forall i :: |l| <= i < |l'| ==> FromPell(l'[i], d, d3)
  {
    if rounds != [] {
      forall j | 0 <= j < |rounds| ensures AllSolve(rounds[j].xs, rounds[j].ys, d3, -8) && Verdicts(rounds[j].results, rounds[j].xs, d) {
        if j + 1 < |rounds| { assert RoundOk(rounds[j + 1 - 1], rounds[j + 1], d, d3, bitlimit, minx, miny); }
      }
      CurvesFromPell(rounds, d, d3);
    }
  }

  lemma {:induction false} CurvesFromPell(rounds: seq<Round>, d: int, d3: int)
    requires forall j :: 0 <= j < |rounds| ==> AllSolve(rounds[j].xs, rounds[j].ys, d3, -8) && Verdicts(rounds[j].results, rounds[j].xs, d)
    ensures forall i :: 0 <= i < |Curves(rounds)| ==> FromPell(Curves(rounds)[i], d, d3)
  {
    if |rounds| > 0 {
      var r := rounds[|rounds| - 1];
      CurvesFromPell(rounds[..|rounds| - 1], d, d3);
      SomesFromPell(r.results, r.xs, r.ys, d, d3);
    }
  }

  lemma {:induction false} SomesFromPell(results: seq<Option<CmInfo>>, xs: seq<int>, ys: seq<int>, d: int, d3: int)
    requires AllSolve(xs, ys, d3, -8) && Verdicts(results, xs, d)
    ensures forall i :: 0 <= i < |Somes(results)| ==> FromPell(Somes(results)[i], d, d3)
  {
    hide Accepted, Rejected;
    if |results| > 0 {
      var k := |results| - 1;
      SomesFromPell(results[..k], xs, ys, d, d3);
      if results[k].Some? { assert Solves(xs[k], ys[k], d3, -8) && Accepted(results[k].value, d, xs[k]); }
    }
  }

  lemma NotSquare(n: int, a: nat)
    requires a * a < n < (a + 1) * (a + 1)
    ensures !Square(n)
  {
    if Square(n) {
      var b :| b >= 0 && n == Times(b, b);
      if b <= a { SquareMono(b, a); } else { SquareMono(a + 1, b); }
    }
  }
}
