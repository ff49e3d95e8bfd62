/** Quadratic residues of a prime field: Euler's criterion, by pairing each residue i with g/i. */
module Residues {
  import opened Modular

  function Pow(a: int, n: nat): int {
    if n == 0 then 1 else a * Pow(a, n - 1)
  }

  lemma PowSucc(a: int, n: nat)
    ensures Pow(a, 0) == 1 && Pow(a, n + 1) == a * Pow(a, n)
  {}

  lemma {:induction false} PowAdd(a: int, m: nat, n: nat)
    ensures Pow(a, m + n) == Pow(a, m) * Pow(a, n)
  {
    if m > 0 {
      PowAdd(a, m - 1, n);
      assert a * (Pow(a, m - 1) * Pow(a, n)) == (a * Pow(a, m - 1)) * Pow(a, n);
    }
  }

  lemma {:induction false} PowTimes(a: int, b: int, n: nat)
    ensures Pow(a * b, n) == Pow(a, n) * Pow(b, n)
  {
    if n > 0 {
      PowTimes(a, b, n - 1);
      TimesStep(a, b, Pow(a, n - 1), Pow(b, n - 1));
    }
  }

  lemma TimesStep(a: int, b: int, p: int, r: int)
    ensures (a * b) * (p * r) == (a * p) * (b * r)
  {}

  lemma {:induction false} PowPow(a: int, m: nat, n: nat)
    ensures Pow(Pow(a, m), n) == Pow(a, m * n)
  {
    if n > 0 {
      PowPow(a, m, n - 1);
      PowAdd(a, m, m * (n - 1));
      assert m + m * (n - 1) == m * n;
    }
  }

  lemma {:induction false} PowCong(a: int, b: int, n: nat, q: int)
    requires q > 0 && Eq(a, b, q)
    ensures Eq(Pow(a, n), Pow(b, n), q)
  {
    if n == 0 {
      EqRefl(1, q);
    } else {
      PowCong(a, b, n - 1, q);
      EqMul(a, b, Pow(a, n - 1), Pow(b, n - 1), q);
    }
  }

  lemma {:induction false} PowOne(n: nat)
    ensures Pow(1, n) == 1
  {
    if n > 0 { PowOne(n - 1); }
  }

  lemma {:induction false} PowZero(n: nat)
    requires n >= 1
    ensures Pow(0, n) == 0
  {}

  lemma {:induction false} PowNonzero(g: int, n: nat, q: int)
    requires Prime(q) && !Eq(g, 0, q)
    ensures !Eq(Pow(g, n), 0, q)
  {
    if n == 0 {
      UnitsNonzero(1, q);
    } else {
      PowNonzero(g, n - 1, q);
      NonzeroProduct(g, Pow(g, n - 1), q);
    }
  }

  // ---------- squares ----------

  function Sq(x: int): int { x * x }

  // mpz_legendre(a, q) = 1, or a zero: a is a square of F_q.
  predicate IsSqr(a: int, q: int)
    requires q > 0
  {
    exists y :: 0 <= y < q && Eq(a, Sq(y), q)
  }

  lemma IsSqrIntro(a: int, y: int, q: int)
    requires q > 0 && Eq(a, y * y, q)
    ensures IsSqr(a, q)
  {
    EqMod(y, q);
    EqMul(y % q, y, y % q, y, q);
    EqSym(Sq(y % q), y * y, q);
    EqTrans(a, y * y, Sq(y % q), q);
  }

  lemma IsSqrCong(a: int, b: int, q: int)
    requires q > 0 && Eq(a, b, q)
    ensures IsSqr(a, q) <==> IsSqr(b, q)
  {
    if IsSqr(a, q) {
      var y :| 0 <= y < q && Eq(a, Sq(y), q);
      EqSym(a, b, q);
      EqTrans(b, a, Sq(y), q);
    }
    if IsSqr(b, q) {
      var y :| 0 <= y < q && Eq(b, Sq(y), q);
      EqTrans(a, b, Sq(y), q);
    }
  }

  // ---------- the product of all residues, two ways ----------

  ghost function Prod(s: set<int>): int {
    if exists y :: y in s then var x :| x in s; x * Prod(s - {x}) else 1
  }

  lemma {:induction false} ProdRemove(s: set<int>, x: int)
    requires x in s
    ensures Prod(s) == x * Prod(s - {x})
    decreases |s|
  {
    var y :| y in s && Prod(s) == y * Prod(s - {y});
    if y != x {
      ProdRemove(s - {y}, x);
      ProdRemove(s - {x}, y);
      assert s - {y} - {x} == s - {x} - {y};
      Swap(y, x, Prod(s - {x} - {y}));
    }
  }

  lemma Swap(y: int, x: int, r: int)
    ensures y * (x * r) == x * (y * r)
  {}

  function Partner(i: int, g: int, q: int): (j: int)
    requires q > 0
  {
    (g * Inv(i, q)) % q
  }

  lemma PartnerProduct(i: int, g: int, q: int)
    requires Prime(q) && q > 1 && 1 <= i < q && !Eq(g, 0, q)
    ensures Eq(i * Partner(i, g, q), g, q) && 1 <= Partner(i, g, q) < q
  {
    hide Inv, Prime, Eq;
    UnitsNonzero(i, q);
    InvPrime(i, q);
    var v := Inv(i, q);
    EqMod(g * v, q);
    EqRefl(i, q);
    EqMul(i, i, (g * v) % q, g * v, q);
    EqRefl(g, q);
    EqMul(g, g, i * v, 1, q);
    assert g * (i * v) == i * (g * v);
    EqTrans(i * Partner(i, g, q), i * (g * v), g, q);
    if Partner(i, g, q) == 0 { EqSym(i * 0, g, q); }
  }

  lemma UnitsNonzero(i: int, q: int)
    requires q >= 2 && 1 <= i < q
    ensures !Eq(i, 0, q)
  {
    if Eq(i, 0, q) { EqSmall(i, 0, q); }
  }

  lemma PartnerUnique(i: int, j: int, g: int, q: int)
    requires Prime(q) && 1 <= i < q && 1 <= j < q && !Eq(g, 0, q) && Eq(i * j, g, q)
    ensures j == Partner(i, g, q)
  {
    UnitsNonzero(i, q);
    PartnerProduct(i, g, q);
    EqSym(i * Partner(i, g, q), g, q);
    EqTrans(i * j, g, i * Partner(i, g, q), q);
    Cancel(i, j, Partner(i, g, q), q);
    EqSmall(j, Partner(i, g, q), q);
  }

  // s consists of pairs i, g/i of distinct residues.
  ghost predicate Paired(s: set<int>, g: int, q: int)
    requires q > 0
  {
    forall i :: i in s ==> 1 <= i < q && Partner(i, g, q) in s && Partner(i, g, q) != i
  }

  lemma PairedRest(s: set<int>, i: int, g: int, q: int) returns (rest: set<int>)
    requires Prime(q) && q > 1 && !Eq(g, 0, q) && Paired(s, g, q) && i in s
    ensures rest == s - {i} - {Partner(i, g, q)} && Paired(rest, g, q) && |s| == |rest| + 2
  {
    hide Partner, Prime, Eq;
    var j := Partner(i, g, q);
    rest := s - {i} - {j};
    PartnerTwice(i, g, q);
    forall k | k in rest ensures Partner(k, g, q) in rest {
      PartnerTwice(k, g, q);
    }
    TwoLess(s, i, j);
  }

  lemma PartnerTwice(i: int, g: int, q: int)
    requires Prime(q) && q > 1 && 1 <= i < q && !Eq(g, 0, q)
    ensures Partner(Partner(i, g, q), g, q) == i
  {
    hide Partner, Prime, Eq;
    PartnerProduct(i, g, q);
    assert i * Partner(i, g, q) == Partner(i, g, q) * i;
    PartnerUnique(Partner(i, g, q), i, g, q);
  }

  lemma TwoLess(s: set<int>, i: int, j: int)
    requires i in s && j in s && i != j
    ensures |s| == |s - {i} - {j}| + 2
  {
    assert |s - {i}| == |s| - 1;
    assert j in s - {i};
  }

  /** A set of n pairs multiplies to g^n. */
  lemma {:induction false} PairProduct(s: set<int>, g: int, q: int) returns (n: nat)
    requires Prime(q) && !Eq(g, 0, q) && Paired(s, g, q)
    ensures |s| == 2 * n && Eq(Prod(s), Pow(g, n), q)
    decreases |s|
  {
    hide Pow, Prod, Eq, Prime, Partner, Paired;
    if exists y :: y in s {
      var i :| i in s;
      PrimeBig(q);
      var rest := PairedRest(s, i, g, q);
      var m := PairProduct(rest, g, q);
      OnePair(s, i, g, q, m);
      n := m + 1;
    } else {
      ProdEmpty(s, q, g);
      n := 0;
    }
  }

  lemma ProdEmpty(s: set<int>, q: int, g: int)
    requires Prime(q) && !(exists y :: y in s)
    ensures |s| == 0 && Eq(Prod(s), Pow(g, 0), q)
  {
    var e: set<int> := {};
    assert forall y :: y in s <==> y in e;
    assert s == e;
    EqRefl(1, q);
  }

  lemma OnePair(s: set<int>, i: int, g: int, q: int, m: nat)
    requires Prime(q) && !Eq(g, 0, q) && Paired(s, g, q) && i in s
    requires Eq(Prod(s - {i} - {Partner(i, g, q)}), Pow(g, m), q)
    ensures Eq(Prod(s), Pow(g, m + 1), q)
  {
    hide Pow, Prod, Eq, Prime, Partner;
    var j := Partner(i, g, q);
    ProdRemove(s, i);
    ProdRemove(s - {i}, j);
    PartnerProduct(i, g, q);
    var r := Prod(s - {i} - {j});
    EqMul(i * j, g, r, Pow(g, m), q);
    assert i * (j * r) == (i * j) * r;
    PowSucc(g, m);
  }

  // The nonzero residues.
  ghost function Units(q: int): (s: set<int>)
    ensures forall i :: i in s <==> 1 <= i < q
    ensures q >= 1 ==> |s| == q - 1
  {
    if q <= 1 then {} else Units(q - 1) + {q - 1}
  }

  lemma HalfOf(m: int, n: int)
    requires m == 2 * n
    ensures m / 2 == n && (m + 1) % 2 == 1
  {}

  // Pairing by a nonresidue leaves no fixed point.
  lemma NonresidueProduct(g: int, q: int)
    requires Prime(q) && q > 2 && !IsSqr(g, q)
    ensures q % 2 == 1 && Eq(Prod(Units(q)), Pow(g, (q - 1) / 2), q)
  {
    hide IsSqr, Eq, Prod, Pow, Prime, Partner, Units;
    if Eq(g, 0, q) { IsSqrIntro(g, 0, q); }
    forall i | i in Units(q) ensures 1 <= i < q && Partner(i, g, q) in Units(q) && Partner(i, g, q) != i {
      PartnerProduct(i, g, q);
      if Partner(i, g, q) == i {
        EqSym(i * i, g, q);
        IsSqrIntro(g, i, q);
      }
    }
    var n := PairProduct(Units(q), g, q);
    HalfOf(q - 1, n);
  }

  // Square roots of b^2 are b and -b only.
  lemma RootsOfSquare(i: int, b: int, q: int)
    requires Prime(q) && 1 <= i < q && 1 <= b < q && Eq(i * i, b * b, q)
    ensures i == b || i == q - b
  {
    SquareDifference(i, b);
    NoZeroDivisors(i - b, i + b, q);
    if Eq(i - b, 0, q) {
      EqSmall(i, b, q);
    } else {
      ShiftByModulus(i + b, q);
      EqSmall(i, q - b, q);
    }
  }

  lemma SquareDifference(i: int, b: int)
    ensures (i - b) * (i + b) == i * i - b * b
  {}

  lemma ShiftByModulus(a: int, q: int)
    requires q > 0 && Eq(a, 0, q)
    ensures (a - q) % q == 0
  {
    var k := EqElim(a, 0, q);
    ModZero(a - q, k - 1, q);
  }

  // Pairing by a square b^2 leaves the two roots b and -b, whose product is -b^2.
  lemma ResidueProduct(b: int, q: int)
    requires Prime(q) && q > 2 && 1 <= b < q
    ensures q % 2 == 1 && Eq(Prod(Units(q)), -Pow(b * b, (q - 1) / 2), q)
  {
    hide Partner, Prod, Pow, Units, Paired, Eq, Prime;
    var g := b * b;
    UnitsNonzero(b, q);
    NonzeroProduct(b, b, q);
    OddPrime(q);
    var s := Units(q) - {b} - {q - b};
    FixedPoints(b, q);
    var n := PairProduct(s, g, q);
    HalfOf(q - 3, n);
    ProdRemove(Units(q), b);
    ProdRemove(Units(q) - {b}, q - b);
    PowSucc(g, n);
    RootsTimes(b, q, Prod(s), Pow(g, n));
  }

  lemma RootsTimes(b: int, q: int, r: int, p: int)
    requires q > 0 && Eq(r, p, q)
    ensures Eq(b * ((q - b) * r), -((b * b) * p), q)
  {
    EqRefl(b * (q - b), q);
    EqMul(b * (q - b), b * (q - b), r, p, q);
    assert b * ((q - b) * r) == (b * (q - b)) * r;
    RootsProduct(b, q, p);
    EqIntro((b * (q - b)) * p, -((b * b) * p), b * p, q);
    EqTrans(b * ((q - b) * r), (b * (q - b)) * p, -((b * b) * p), q);
  }

  lemma RootsProduct(b: int, q: int, r: int)
    ensures (b * (q - b)) * r == -((b * b) * r) + (b * r) * q
  {}

  lemma OddPrime(q: int)
    requires Prime(q) && q > 2
    ensures q % 2 == 1
  {
    if q % 2 == 0 { assert q % 2 != 0; }
  }

  lemma FixedPoints(b: int, q: int)
    requires Prime(q) && q > 2 && 1 <= b < q && !Eq(b * b, 0, q)
    ensures Paired(Units(q) - {b} - {q - b}, b * b, q)
  {
    var g := b * b;
    var s := Units(q) - {b} - {q - b};
    PartnerUnique(b, b, g, q) by { EqRefl(g, q); }
    PartnerUnique(q - b, q - b, g, q) by {
      NegatedSquare(b, q);
      EqIntro((q - b) * (q - b), g, q - 2 * b, q);
    }
    forall i | i in s ensures 1 <= i < q && Partner(i, g, q) in s && Partner(i, g, q) != i {
      PartnerProduct(i, g, q);
      var j := Partner(i, g, q);
      assert i * j == j * i;
      PartnerUnique(j, i, g, q);
      if j == i { RootsOfSquare(i, b, q); }
    }
  }

  lemma NegatedSquare(b: int, q: int)
    ensures (q - b) * (q - b) == b * b + (q - 2 * b) * q
  {}

  /** Euler's criterion, with Wilson's product as the common value. */
  lemma {:induction false} EulerCriterion(a: int, q: int)
    requires Prime(q) && q > 2 && !Eq(a, 0, q)
    ensures q % 2 == 1
    ensures IsSqr(a, q) ==> Eq(Pow(a, (q - 1) / 2), 1, q)
    ensures !IsSqr(a, q) ==> Eq(Pow(a, (q - 1) / 2), -1, q)
  {
    hide Pow, IsSqr;
    var n := (q - 1) / 2;
    OddPrime(q);
    var w := Prod(Units(q));
    ResidueProduct(1, q);
    PowOne(n);
    if IsSqr(a, q) {
      var b := RootOf(a, q);
      ResidueProduct(b, q);
      PowCong(a, b * b, n, q);
      EqSym(w, -Pow(b * b, n), q);
      EqTrans(-Pow(b * b, n), w, -1, q);
      Combine(-1, -Pow(b * b, n) - -1, q);
      EqTrans(Pow(a, n), Pow(b * b, n), 1, q);
    } else {
      NonresidueProduct(a, q);
      EqSym(w, Pow(a, n), q);
      EqTrans(Pow(a, n), w, -1, q);
    }
  }

  lemma RootOf(a: int, q: int) returns (b: int)
    requires Prime(q) && IsSqr(a, q) && !Eq(a, 0, q)
    ensures 1 <= b < q && Eq(a, b * b, q)
  {
    b :| 0 <= b < q && Eq(a, Sq(b), q);
    assert Sq(b) == b * b;
  }

  /** Fermat's little theorem. */
  lemma {:induction false} Fermat(a: int, q: int)
    requires Prime(q) && q > 2 && !Eq(a, 0, q)
    ensures Eq(Pow(a, q - 1), 1, q)
  {
    EulerCriterion(a, q);
    var h := Pow(a, (q - 1) / 2);
    PowAdd(a, (q - 1) / 2, (q - 1) / 2);
    if IsSqr(a, q) { EqMul(h, 1, h, 1, q); } else { EqMul(h, -1, h, -1, q); }
  }

  // The product of a residue and a nonresidue is a nonresidue, of two nonresidues a residue.
  lemma {:induction false} SqrTimes(a: int, b: int, q: int)
    requires Prime(q) && q > 2 && !Eq(a, 0, q) && !Eq(b, 0, q)
    ensures IsSqr(a * b, q) <==> (IsSqr(a, q) <==> IsSqr(b, q))
  {
    hide Pow, IsSqr;
    NonzeroProduct(a, b, q);
    EulerCriterion(a, q);
    EulerCriterion(b, q);
    EulerCriterion(a * b, q);
    var n := (q - 1) / 2;
    PowTimes(a, b, n);
    var sa, sb, sc := if IsSqr(a, q) then 1 else -1, if IsSqr(b, q) then 1 else -1, if IsSqr(a * b, q) then 1 else -1;
    EqMul(Pow(a, n), sa, Pow(b, n), sb, q);
    EqSym(Pow(a * b, n), sc, q);
    EqTrans(sc, Pow(a * b, n), sa * sb, q);
    if sc != sa * sb { SignsDiffer(sc, sa * sb, q); }
  }

  lemma SignsDiffer(s: int, t: int, q: int)
    requires q > 2 && (s == 1 || s == -1) && (t == 1 || t == -1) && s != t
    ensures !Eq(s, t, q)
  {
    if Eq(s, t, q) {
      var k := EqElim(s, t, q);
      SmallMultiple(k, q);
    }
  }
}
