/** index_calculus_step1 and index_calculus_dlog (arith/indexcalculus.c): the loops that find relations, reduce
    them modulo every factor of q - 1, solve the systems and recombine the logarithms. */
module LogTable {
  import opened Options
  import Factoring
  import opened Modular
  import opened Residues
  import opened Garner
  import opened Generators
  import opened SmoothNumbers
  import opened DiscreteLog
  import opened Elimination
  import opened Relations
  import opened BackSubstitution
  import opened IndexCalculus
  import opened FoundRelations

  // ---------- one relation modulo one order ----------

  // The sparse rows and the counter stand for m.
  ghost predicate Stored(rows: array<seq<Cell>>, minfound: nat, m: Matrix, r: nat, p: int)
    reads rows
  {
    rows.Length == r && SparseOk(rows[..], r, p) && m == Matrix(DenseRows(rows[..], r), minfound)
  }

  lemma {:induction false} CellsSorted(rel: seq<int>, p: int)
    requires forall k :: 0 <= k < |rel| ==> 0 <= rel[k] < p
    ensures Canon(CellsOf(rel), p) && |CellsOf(rel)| <= |rel|
  {
    if |rel| > 0 { CellsSorted(rel[..|rel| - 1], p); }
  }

  lemma {:induction false} CellsCount(rel: seq<int>)
    ensures |CellsOf(rel)| <= |rel|
  {
    if |rel| > 0 { CellsCount(rel[..|rel| - 1]); }
  }

  lemma {:induction false} CellsAt(rel: seq<int>, p: int, k: nat)
    requires k < |rel| && forall k :: 0 <= k < |rel| ==> 0 <= rel[k] < p
    ensures At(CellsOf(rel), k) == rel[k]
  {
    hide At, CellsOf, Canon;
    var n := |rel| - 1;
    var c := CellsOf(rel);
    CellsSorted(rel, p);
    CellsUnfold(rel);
    if rel[n] != 0 { AtLast(c, p, k); }
    if k < n {
      CellsAt(rel[..n], p, k);
    } else if rel[n] == 0 {
      BelowAt(c, k);
    }
  }

  lemma CellsUnfold(rel: seq<int>)
    requires |rel| > 0
    ensures var n := |rel| - 1; var c := CellsOf(rel);
            if rel[n] == 0 then c == CellsOf(rel[..n])
            else |c| > 0 && c[|c| - 1] == Cell(n, rel[n]) && c[..|c| - 1] == CellsOf(rel[..n])
  {}

  // The cells modulo the order are the relation modulo the order.
  lemma CellsRelation(x: Relation, r: nat, p: int)
    requires p > 0 && |x.rel| == r
    ensures var c := CellsMod(CellsOf(x.rel), p);
            CellsOk(c, r, p) && |c| <= r && DenseRel(c, x.k % p, r) == ModRel(x, p)
  {
    hide At;
    var s := Reduced(x.rel, p);
    CellsModOf(x.rel, p);
    CellsSorted(s, p);
    var c := CellsOf(s);
    forall k | 0 <= k < r ensures DenseOf(c, r)[k] == s[k] { CellsAt(s, p, k); }
    assert DenseOf(c, r) == s;
  }

  method ReduceInto(rows: array<seq<Cell>>, minfound: nat, rel: seq<Cell>, k: nat, relm: array<Cell>, r: nat, order: int, ghost x: Relation, ghost m: Matrix)
    returns (minfound': nat, added: nat)
    requires Prime(order) && order > 1 && Stored(rows, minfound, m, r, order) && relm.Length == r
    requires k == x.k && |x.rel| == r && rel == CellsOf(x.rel)
    modifies rows, relm
    ensures RowsOk(m.rows, r, order) && Stored(rows, minfound', Reduce(m, ModRel(x, order), r, order), r, order)
    ensures Filled(Reduce(m, ModRel(x, order), r, order).rows) == Filled(m.rows) + added
  {
    hide Prime, Reduce, SparseOk, CellsMod, CellsOf, CellsOk, Filled, DenseRel;
    CellsRelation(x, r, order);
    CellsCount(x.rel);
    SparseRowsOk(rows[..], r, order);
    var km := k % order;
    var relmcount := ReduceCells(rel, relm, order);
    minfound', added := ReduceSparse(rows, minfound, relm, relmcount, km, r, order);
  }

  // ---------- one relation modulo every order ----------

  ghost predicate Distinct(matrix: seq<array<seq<Cell>>>) {
    forall i, j :: 0 <= i < j < |matrix| ==> matrix[i] != matrix[j]
  }

  ghost predicate AllStored(matrix: seq<array<seq<Cell>>>, minfound: seq<nat>, state: seq<Matrix>, r: nat, fac: seq<int>)
    reads matrix
  {
    && |matrix| == |minfound| == |state| == |fac|
    && forall f :: 0 <= f < |fac| ==> Stored(matrix[f], minfound[f], state[f], r, fac[f])
  }

  ghost function Total(state: seq<Matrix>): nat {
    if |state| == 0 then 0 else Total(state[..|state| - 1]) + Filled(state[|state| - 1].rows)
  }

  lemma {:induction false} TotalUpdate(state: seq<Matrix>, f: nat, m: Matrix)
    requires f < |state|
    ensures Total(state[f := m]) == Total(state) + Filled(m.rows) - Filled(state[f].rows)
  {
    var k := |state| - 1;
    if f == k {
      assert state[f := m][..k] == state[..k];
    } else {
      assert state[f := m][..k] == state[..k][f := m];
      TotalUpdate(state[..k], f, m);
    }
  }

  lemma {:induction false} TotalFull(state: seq<Matrix>, r: nat)
    requires forall f :: 0 <= f < |state| ==> |state[f].rows| == r
    ensures Total(state) <= r * |state|
    ensures Total(state) == r * |state| <==> forall f :: 0 <= f < |state| ==> Filled(state[f].rows) == r
  {
    hide Filled;
    if |state| == 0 {
      assert r * 0 == 0;
    } else {
      var k := |state| - 1;
      TotalFull(state[..k], r);
      TimesSucc(r, k);
      FilledAtMost(state[k].rows);
      assert forall f :: 0 <= f < k ==> state[..k][f] == state[f];
    }
  }

  lemma TimesSucc(r: int, k: int)
    ensures r * (k + 1) == r * k + r
  {}

  lemma FilledAtMost(rows: seq<seq<int>>)
    ensures Filled(rows) <= |rows|
  {}

  ghost function States(rels: seq<Relation>, r: nat, fac: seq<int>): (s: seq<Matrix>)
    requires Orders(fac) && Shaped(rels, r)
    ensures |s| == |fac| && forall f :: 0 <= f < |fac| ==> s[f] == Run(rels, r, fac[f])
  {
    seq(|fac|, f requires 0 <= f < |fac| => Run(rels, r, fac[f]))
  }

  /** A new relation goes through the matrix of every order. */
  method AddRelation(matrix: seq<array<seq<Cell>>>, minfound: seq<nat>, count: nat, rel: seq<Cell>, k: nat, relm: array<Cell>, r: nat, fac: seq<int>,
                     ghost x: Relation, ghost rels: seq<Relation>) returns (minfound': seq<nat>, count': nat)
    requires Orders(fac) && Shaped(rels, r) && Distinct(matrix) && relm.Length == r && k == x.k && |x.rel| == r && rel == CellsOf(x.rel)
    requires AllStored(matrix, minfound, States(rels, r, fac), r, fac) && count == Total(States(rels, r, fac))
    modifies matrix, relm
    ensures Shaped(rels + [x], r)
    ensures AllStored(matrix, minfound', States(rels + [x], r, fac), r, fac) && count' == Total(States(rels + [x], r, fac))
  {
    hide Prime, Stored, CellsOf, Total, Run, Reduce, Filled, ModRel, RowsOk;
    minfound', count' := minfound, count;
    ghost var st := States(rels, r, fac);
    for f := 0 to |fac|
      invariant Shaped(rels + [x], r) && AllStored(matrix, minfound', st, r, fac) && count' == Total(st)
      invariant forall j :: 0 <= j < f ==> st[j] == Run(rels + [x], r, fac[j])
      invariant forall j :: f <= j < |fac| ==> st[j] == Run(rels, r, fac[j])
    {
      var found, added := ReduceInto(matrix[f], minfound'[f], rel, k, relm, r, fac[f], x, st[f]);
      RunStep(rels, x, r, fac[f]);
      TotalUpdate(st, f, Run(rels + [x], r, fac[f]));
      st := st[f := Run(rels + [x], r, fac[f])];
      minfound' := minfound'[f := found];
      count' := count' + added;
    }
    assert st == States(rels + [x], r, fac);
  }

  // ---------- solving and recombining ----------

  // The constants s of every row solve the rows that the relations left.
  ghost predicate SolvedBy(rows: array<seq<Cell>>, s: seq<int>, rels: seq<Relation>, r: nat, p: int)
    reads rows
  {
    rows.Length == r && Solves(s, rels, r, p) && forall i :: 0 <= i < r ==> |rows[i]| > 0 && 0 <= rows[i][0].data == s[i] < p
  }

  lemma AllFound(rows: seq<seq<Cell>>, m: Matrix, r: nat, p: int)
    requires SparseOk(rows, r, p) && m.rows == DenseRows(rows, r) && Filled(m.rows) == r
    ensures forall i :: 0 <= i < r ==> rows[i] != []
  {
    hide SparseRowOk, DenseRow;
    FilledAll(m.rows);
    EmptyTogether(rows, r, p);
    forall i | 0 <= i < r ensures rows[i] != [] { assert m.rows[i] != []; }
  }

  method SolveFactor(rows: array<seq<Cell>>, ghost minfound: nat, ghost rels: seq<Relation>, r: nat, order: int) returns (ghost s: seq<int>)
    requires Prime(order) && order > 1 && Shaped(rels, r) && Stored(rows, minfound, Run(rels, r, order), r, order)
    requires Filled(Run(rels, r, order).rows) == r
    modifies rows
    ensures SolvedBy(rows, s, rels, r, order)
  {
    hide Prime, Run, Complete, SatisfiesAll, SparseRowOk, DenseRow;
    AllFound(rows[..], Run(rels, r, order), r, order);
    SparseLengths(rows[..], r, order);
    BackSparse(rows, r, order);
    s := Constants(rows[..]);
  }

  /** Back-substitution modulo every order. */
  method SolveAll(matrix: seq<array<seq<Cell>>>, ghost minfound: seq<nat>, ghost rels: seq<Relation>, r: nat, fac: seq<int>) returns (ghost sols: seq<seq<int>>)
    requires Orders(fac) && Shaped(rels, r) && Distinct(matrix) && AllStored(matrix, minfound, States(rels, r, fac), r, fac)
    requires Total(States(rels, r, fac)) == r * |fac|
    modifies matrix
    ensures |sols| == |fac| && forall f :: 0 <= f < |fac| ==> SolvedBy(matrix[f], sols[f], rels, r, fac[f])
  {
    hide Prime, Stored, SolvedBy, Filled, Run;
    StatesFull(rels, r, fac);
    sols := [];
    for f := 0 to |fac|
      invariant |sols| == f && forall j :: 0 <= j < f ==> SolvedBy(matrix[j], sols[j], rels, r, fac[j])
      invariant forall j :: f <= j < |fac| ==> Stored(matrix[j], minfound[j], Run(rels, r, fac[j]), r, fac[j])
    {
      ghost var s := SolveFactor(matrix[f], minfound[f], rels, r, fac[f]);
      sols := sols + [s];
    }
  }

  lemma StatesFull(rels: seq<Relation>, r: nat, fac: seq<int>)
    requires Orders(fac) && Shaped(rels, r)
    ensures Total(States(rels, r, fac)) <= r * |fac|
    ensures Total(States(rels, r, fac)) == r * |fac| <==> forall f :: 0 <= f < |fac| ==> Filled(Run(rels, r, fac[f]).rows) == r
    ensures Total(States(rels, r, fac)) == r * |fac| <==> forall f :: 0 <= f < |fac| ==> Complete(Run(rels, r, fac[f]).rows, r, fac[f])
  {
    hide Prime, Filled, Run;
    TotalFull(States(rels, r, fac), r);
    forall f | 0 <= f < |fac|
      ensures Filled(Run(rels, r, fac[f]).rows) == r <==> Complete(Run(rels, r, fac[f]).rows, r, fac[f])
    {
      FilledAll(Run(rels, r, fac[f]).rows);
    }
  }

  // The logarithm of prime i from its residues.
  method RecombineOne(matrix: seq<array<seq<Cell>>>, i: nat, ghost sols: seq<seq<int>>, ghost rels: seq<Relation>, r: nat, fac: seq<int>, q: int) returns (e: nat)
    requires q > 2 && Factors(fac, q - 1) && Orders(fac) && |matrix| == |sols| == |fac| && i < r
    requires forall f :: 0 <= f < |fac| ==> SolvedBy(matrix[f], sols[f], rels, r, fac[f])
    ensures e < q - 1 && forall f :: 0 <= f < |fac| ==> |sols[f]| == r && Eq(e, sols[f][i], fac[f])
  {
    hide Prime, Solves, Eq, PairwiseCoprime, Product;
    var tmp := [];
    SolutionLengths(matrix, sols, rels, r, fac);
    for f := 0 to |fac|
      invariant |tmp| == f && forall j :: 0 <= j < f ==> tmp[j] == sols[j][i]
    {
      tmp := tmp + [matrix[f][i][0].data];
    }
    FactorsSome(fac, q - 1);
    FactorsCoprime(fac, q - 1);
    e := Crt(tmp, fac);
  }

  lemma SolutionLengths(matrix: seq<array<seq<Cell>>>, sols: seq<seq<int>>, rels: seq<Relation>, r: nat, fac: seq<int>)
    requires |matrix| == |sols| == |fac| && forall f :: 0 <= f < |fac| ==> SolvedBy(matrix[f], sols[f], rels, r, fac[f])
    ensures forall f :: 0 <= f < |fac| ==> |sols[f]| == r && matrix[f].Length == r
    ensures forall f, i :: 0 <= f < |fac| && 0 <= i < r ==> |matrix[f][i]| > 0 && 0 <= matrix[f][i][0].data == sols[f][i] < fac[f]
  {
    hide Prime, Run, Complete, SatisfiesAll;
  }

  /** CRT over the factors of q - 1, for every prime of the base. */
  method Recombine(matrix: seq<array<seq<Cell>>>, ghost sols: seq<seq<int>>, ghost rels: seq<Relation>, r: nat, fac: seq<int>, q: int) returns (ind: seq<nat>)
    requires q > 2 && Factors(fac, q - 1) && Orders(fac) && |matrix| == |sols| == |fac| && Shaped(rels, r)
    requires forall f :: 0 <= f < |fac| ==> SolvedBy(matrix[f], sols[f], rels, r, fac[f])
    ensures Recovers(ind, sols, rels, r, fac) && forall i :: 0 <= i < |ind| ==> ind[i] < q - 1
  {
    hide Prime, Solves, Eq, Factors, SolvedBy;
    ind := [];
    for i := 0 to r
      invariant |ind| == i && forall j :: 0 <= j < i ==> ind[j] < q - 1
      invariant forall f :: 0 <= f < |fac| ==> |ind| == 0 || |sols[f]| == r
      invariant forall f, j :: 0 <= f < |fac| && 0 <= j < i ==> Eq(ind[j], sols[f][j], fac[f])
    {
      var e := RecombineOne(matrix, i, sols, rels, r, fac, q);
      ind := ind + [e];
    }
    forall f | 0 <= f < |fac| ensures RecoversAt(ind, sols[f], rels, r, fac[f]) {
      SolvedSolves(matrix[f], sols[f], rels, r, fac[f]);
    }
  }

  lemma SolvedSolves(rows: array<seq<Cell>>, s: seq<int>, rels: seq<Relation>, r: nat, p: int)
    requires SolvedBy(rows, s, rels, r, p)
    ensures Solves(s, rels, r, p) && |s| == r
  {}

  // ---------- index_calculus_step1 ----------

  method NewMatrix(r: nat, fac: seq<int>) returns (matrix: seq<array<seq<Cell>>>, minfound: seq<nat>)
    requires Orders(fac)
    ensures forall f :: 0 <= f < |matrix| ==> fresh(matrix[f])
    ensures Distinct(matrix) && AllStored(matrix, minfound, States([], r, fac), r, fac) && Total(States([], r, fac)) == 0
  {
    matrix, minfound := [], [];
    for f := 0 to |fac|
      invariant |matrix| == |minfound| == f && Distinct(matrix)
      invariant forall j :: 0 <= j < f ==> fresh(matrix[j]) && Stored(matrix[j], minfound[j], Matrix(NoRows(r), 0), r, fac[j])
    {
      var row := new seq<Cell>[r](_ => []);
      assert DenseRows(row[..], r) == NoRows(r);
      matrix, minfound := matrix + [row], minfound + [0];
    }
    StatesEmpty(r, fac);
  }

  lemma StatesEmpty(r: nat, fac: seq<int>)
    requires Orders(fac)
    ensures Total(States([], r, fac)) == 0 && forall f :: 0 <= f < |fac| ==> States([], r, fac)[f] == Matrix(NoRows(r), 0)
  {
    TotalZero(States([], r, fac), r);
  }

  lemma {:induction false} TotalZero(s: seq<Matrix>, r: nat)
    requires forall f :: 0 <= f < |s| ==> s[f].rows == NoRows(r)
    ensures Total(s) == 0
  {
    if |s| > 0 {
      TotalZero(s[..|s| - 1], r);
      FilledNone(NoRows(r));
    }
  }

  lemma {:induction false} FilledNone(rows: seq<seq<int>>)
    requires forall i :: 0 <= i < |rows| ==> rows[i] == []
    ensures Filled(rows) == 0
  {
    if |rows| > 0 { FilledNone(rows[..|rows| - 1]); }
  }

  /** index_calculus_step1 over the first powers of a generator: when the relations found determine every
      logarithm, and only then, it is done, and its result holds the logarithms of the factor base. */
  method Step1(g: int, primes: seq<int>, q: int, fac: seq<int>, tries: nat) returns (done: bool, ind: seq<nat>, ghost n: nat)
    requires Prime(q) && q > 2 && Generates(g, q) && Factors(fac, q - 1) && Base(primes) && |primes| > 0
    ensures n <= tries && (done || n == tries)
    ensures done <==> Ready(g, primes, q, fac, n)
    ensures done <==> Ready(g, primes, q, fac, tries)
    ensures done ==> Logs(g, primes, ind, q) && forall i :: 0 <= i < |ind| ==> ind[i] < q - 1
  {
    hide Prime, Product, Generates, CellsOf, Trial, Pow, Eq, Stored, Run, Complete, Total, SolvedBy, Found, PowerOf, BundlesOk;
    var r := |primes|;
    FactorsAreOrders(fac, q - 1);
    GeneratorUnit(g, q);
    var bundle := MakeBundles(primes);
    var matrix, minfound := NewMatrix(r, fac);
    var relm := new Cell[r](_ => Cell(0, 0));
    var count, k, z := 0, 0, 1;
    ghost var rels := Found(g, primes, q, 0);
    FoundStart(g, primes, q);
    while count < r * |fac| && k < tries
      invariant k <= tries && rels == Found(g, primes, q, k) && z == PowerOf(g, k, q)
      invariant forall f :: 0 <= f < |matrix| ==> fresh(matrix[f])
      invariant fresh(relm) && Distinct(matrix) && AllStored(matrix, minfound, States(rels, r, fac), r, fac)
      invariant count == Total(States(rels, r, fac))
      decreases tries - k
    {
      NextPower(g, k, q);
      PowerPositive(g, k + 1, q);
      z := z * g;
      z := z % q;
      k := k + 1;
      var found, rel := FindRelation(z, primes, bundle);
      ghost var x := Relation(k, Trial(z, primes, r).rel);
      FoundNext(g, primes, q, k);
      if found {
        minfound, count := AddRelation(matrix, minfound, count, rel, k, relm, r, fac, x, rels);
        rels := rels + [x];
      }
    }
    StatesFull(rels, r, fac);
    n := k;
    done := count >= r * |fac|;
    ind := [];
    if done {
      ghost var sols := SolveAll(matrix, minfound, rels, r, fac);
      ind := Recombine(matrix, sols, rels, r, fac, q);
      FoundHold(g, primes, q, k);
      IndexCalculusCorrect(g, primes, rels, sols, ind, q, fac);
      ReadyGrows(g, primes, q, fac, n, tries);
    }
  }

  // ---------- index_calculus_dlog ----------

  // h is a power of g.
  ghost predicate Solvable(g: int, h: int, q: int)
    requires q > 0
  {
    exists e: nat :: LogIs(g, h, e, q)
  }

  // To a generator z with g = z^x and h = z^y: g^w = h says x w = y modulo q - 1.
  lemma LogEquation(g: int, h: int, gen: int, x: nat, y: nat, w: nat, q: int)
    requires Prime(q) && q > 2 && Generates(gen, q) && LogIs(gen, g, x, q) && LogIs(gen, h, y, q)
    ensures LogIs(g, h, w, q) <==> Eq(x * w, y, q - 1)
  {
    hide Pow, Prime, Generates, Eq;
    PowCong(Pow(gen, x), g, w, q);
    PowPow(gen, x, w);
    LogUnique(gen, q, x * w, y);
    var u, v := Pow(gen, x * w), Pow(gen, y);
    assert Eq(u, Pow(g, w), q);
    if Eq(u, v, q) {
      EqSym(u, Pow(g, w), q);
      EqTrans(Pow(g, w), u, v, q);
      EqTrans(Pow(g, w), v, h, q);
    }
    if Eq(Pow(g, w), h, q) {
      EqTrans(u, Pow(g, w), h, q);
      EqSym(v, h, q);
      EqTrans(u, h, v, q);
    }
  }

  // d = gcd(x, n) divides y when x w = y has a solution modulo n.
  lemma GcdDivides(x: nat, y: int, w: nat, n: int)
    requires n > 0 && Eq(x * w, y, n)
    ensures Gcdext(x, n).0 > 0 && y % Gcdext(x, n).0 == 0
  {
    var d := Gcdext(x, n).0;
    var k := EqElim(x * w, y, n);
    Modular.Combine2(w, x, -k, n, d);
    assert w * x + -k * n == y by { assert w * x == x * w; }
  }

  // The quotient (y/d)/(x/d) modulo n/d solves x w = y modulo n.
  lemma QuotientSolves(x: nat, y: nat, n: int, w: nat)
    requires n > 0
    requires var d := Gcdext(x, n).0; d > 0 && y % d == 0 && n / d > 0 && w == (y / d * Inv(x / d, n / d)) % (n / d)
    ensures Eq(x * w, y, n)
  {
    hide Gcdext, Inv, Eq;
    var (d, s, t) := Gcdext(x, n);
    GcdParts(x, n);
    var x1, n1, y1 := x / d, n / d, y / d;
    assert x == d * x1 && n == d * n1 && y == d * y1;
    BezoutParts(d, s, t, x1, n1);
    var i := Inv(x1, n1);
    if n1 == 1 { ModulusOne(x1 * i, 1); } else { InvCoprime(x1, n1, s, t); }
    InverseTimes(x1, y1, i, w, n1);
    ScaleEq(d, x1, w, y1, n1);
  }

  // x1 w = x1 y1 i = y1
  lemma InverseTimes(x1: int, y1: int, i: int, w: int, n1: int)
    requires n1 > 0 && Eq(x1 * i, 1, n1) && w == (y1 * i) % n1
    ensures Eq(x1 * w, y1, n1)
  {
    hide Eq;
    EqMod(y1 * i, n1);
    EqRefl(x1, n1);
    EqMul(x1, x1, w, y1 * i, n1);
    EqRefl(y1, n1);
    EqMul(y1, y1, x1 * i, 1, n1);
    assert x1 * (y1 * i) == y1 * (x1 * i);
    assert y1 * 1 == y1;
    EqTrans(x1 * w, y1 * (x1 * i), y1, n1);
  }

  lemma GcdParts(x: nat, n: int)
    requires n > 0
    ensures var (d, s, t) := Gcdext(x, n); d > 0 && d == s * x + t * n && x % d == 0 && n % d == 0 && n / d > 0
  {
    var d := Gcdext(x, n).0;
    if n / d <= 0 { MulMono(n / d, 0, d); }
  }

  lemma ModulusOne(a: int, b: int)
    ensures Eq(a, b, 1)
  {
    ModZero(a - b, a - b, 1);
  }

  lemma BezoutParts(d: int, s: int, t: int, x1: int, n1: int)
    requires d > 0 && d == s * (d * x1) + t * (d * n1)
    ensures s * x1 + t * n1 == 1
  {
    assert d == d * (s * x1 + t * n1);
    UnitCancel(d, s * x1 + t * n1);
  }

  lemma UnitCancel(d: int, k: int)
    requires d > 0 && d == d * k
    ensures k == 1
  {
    if k <= 0 { MulMono(k, 0, d); }
    if k >= 2 { MulMono(2, k, d); }
  }

  lemma ScaleEq(d: int, x1: int, w: int, y1: int, n1: int)
    requires d > 0 && n1 > 0 && d * n1 > 0 && Eq(x1 * w, y1, n1)
    ensures Eq(d * x1 * w, d * y1, d * n1)
  {
    var k := EqElim(x1 * w, y1, n1);
    assert d * x1 * w == d * (y1 + k * n1);
    assert d * (y1 + k * n1) == d * y1 + k * (d * n1);
    EqIntro(d * x1 * w, d * y1, k, d * n1);
  }

  /** The quotient of two logarithms as index_calculus_dlog computes it, when g is no generator: a logarithm
      of h whenever h has one, and already the first candidate. */
  method QuotientLog(g: int, h: int, ghost gen: int, x0: nat, y0: nat, q: int) returns (x: nat)
    requires Prime(q) && q > 2 && 0 < h < q && Generates(gen, q) && LogIs(gen, g, x0, q) && LogIs(gen, h, y0, q)
    ensures LogIs(g, h, x, q) <==> Solvable(g, h, q)
    ensures Solvable(g, h, q) ==> x < q - 1
  {
    hide Pow, Prime, Generates, Gcdext, Inv, Eq;
    var q1 := q - 1;
    GcdParts(x0, q1);
    var d := Gcdext(x0, q1).0;
    q1 := q1 / d;
    x := x0 / d;
    // without a remainder when there is a solution
    var y := y0 / d;
    x := Inv(x, q1);
    x := y * x;
    x := x % q1;
    if Solvable(g, h, q) { FirstCandidate(g, h, gen, x0, y0, q, x); }
    SolvableBy(g, h, x, q);
    hide LogIs, Solvable;
    while d > 0
      invariant d >= 0
      invariant Solvable(g, h, q) ==> LogIs(g, h, x, q) && x < q - 1
      invariant LogIs(g, h, x, q) ==> Solvable(g, h, q)
    {
      LogTest(g, h, x, q);
      SolvableBy(g, h, x + q1, q);
      var z0 := Pow(g, x) % q;
      if z0 == h { break; }
      x := x + q1;
      d := d - 1;
    }
  }

  lemma LogTest(g: int, h: int, x: nat, q: int)
    requires 0 < h < q
    ensures LogIs(g, h, x, q) <==> Pow(g, x) % q == h
  {
    EqIffMod(Pow(g, x), h, q);
    SmallMod(h, q);
  }

  lemma SolvableBy(g: int, h: int, x: nat, q: int)
    requires q > 0
    ensures LogIs(g, h, x, q) ==> Solvable(g, h, q)
  {}

  lemma FirstCandidate(g: int, h: int, gen: int, x0: nat, y0: nat, q: int, x: nat)
    requires Prime(q) && q > 2 && Generates(gen, q) && LogIs(gen, g, x0, q) && LogIs(gen, h, y0, q) && Solvable(g, h, q)
    requires var d := Gcdext(x0, q - 1).0; d > 0 && (q - 1) / d > 0 && x == (y0 / d * Inv(x0 / d, (q - 1) / d)) % ((q - 1) / d)
    ensures LogIs(g, h, x, q) && x < q - 1
  {
    hide LogIs, Prime, Generates, Gcdext, Inv, Eq;
    var e: nat :| LogIs(g, h, e, q);
    LogEquation(g, h, gen, x0, y0, e, q);
    GcdDivides(x0, y0, e, q - 1);
    QuotientSolves(x0, y0, q - 1, x);
    LogEquation(g, h, gen, x0, y0, x, q);
    QuotientBound(q - 1, Gcdext(x0, q - 1).0);
  }

  lemma QuotientBound(n: int, d: int)
    requires n > 0 && d > 0
    ensures n / d <= n
  {
    if n / d > n { MulMono(n + 1, n / d, d); MulMono(1, d, n + 1); }
  }

  // What the search needs in so many tries: all logarithms of the base to a generator, and a smooth shift of each number
  // whose logarithm is read off.
  ghost predicate Reachable(g: int, h: int, gen: int, primes: seq<int>, q: int, fac: seq<int>, tries: nat)
    requires q > 0
  {
    if Generates(g, q) then Ready(g, primes, q, fac, tries) && SmoothShift(g, h, primes, q, tries)
    else Ready(gen, primes, q, fac, tries) && SmoothShift(gen, g, primes, q, tries) && SmoothShift(gen, h, primes, q, tries)
  }

  ghost predicate AllPrimesBelow(primes: seq<int>, q: int) {
    DistinctPrimes(primes) && forall e :: e in primes <==> Prime(e) && e < q
  }

  /** With a base of exactly the primes below q, q - 1 tries reach every logarithm. */
  lemma ReachableByAll(g: int, h: int, gen: int, primes: seq<int>, q: int, fac: seq<int>, tries: nat)
    requires Prime(q) && q > 2 && 0 < g < q && 0 < h < q && Generates(gen, q) && Factors(fac, q - 1) && tries >= q - 1
    requires AllPrimesBelow(primes, q)
    ensures Reachable(g, h, gen, primes, q, fac, tries)
  {
    hide Prime, Generates, Ready, SmoothShift, DistinctPrimes, Factors, Eq;
    assert Covers(primes, q);
    forall i | 0 <= i < |primes| ensures primes[i] < q { assert primes[i] in primes; }
    hide Covers;
    UnitsNonzero(g, q);
    if Generates(g, q) {
      ReadyExactly(g, primes, q, fac, tries);
      SmoothShiftFound(g, h, primes, q, tries);
    } else {
      GeneratorUnit(gen, q);
      ReadyExactly(gen, primes, q, fac, tries);
      SmoothShiftFound(gen, g, primes, q, tries);
      SmoothShiftFound(gen, h, primes, q, tries);
    }
  }

  /** index_calculus_dlog on the prime factors of q - 1, given a generator for the case that g is none: there is a result
      exactly when the search reaches one in so many tries, and it is a logarithm of h to the base g if and only if there
      is one. */
  method DlogByFactors(g: int, h: int, gen: int, primes: seq<int>, q: int, fac: seq<int>, tries: nat) returns (found: bool, x: nat)
    requires Prime(q) && q > 2 && !Eq(g, 0, q) && 0 < h < q && Generates(gen, q) && Factors(fac, q - 1) && Base(primes) && |primes| > 0
    ensures found <==> Reachable(g, h, gen, primes, q, fac, tries)
    ensures found ==> (LogIs(g, h, x, q) <==> Solvable(g, h, q)) && (Solvable(g, h, q) ==> x < q - 1)
    ensures found && Generates(g, q) ==> LogIs(g, h, x, q)
  {
    hide Pow, Prime, Generates, Eq, Factors, Ready, Trial, Shifted, LogIs, Solvable, Logs;
    UnitsNonzero(h, q);
    found, x := false, 0;
    var isgen := IsGen(g, q, fac);
    if isgen {
      var done, ind, n := Step1(g, primes, q, fac, tries);
      if done {
        found, x := Step2(g, h, primes, ind, q, tries);
        SolvableBy(g, h, x, q);
      }
    } else {
      GeneratorUnit(gen, q);
      var done, ind, n := Step1(gen, primes, q, fac, tries);
      if done {
        var y;
        found, x := Step2(gen, g, primes, ind, q, tries);
        if !found { return; }
        found, y := Step2(gen, h, primes, ind, q, tries);
        if !found { return; }
        x := QuotientLog(g, h, gen, x, y, q);
      }
    }
  }

  /** index_calculus_dlog: factors q - 1 with the limit 2^6. With a multiple factor there is no result; with all
      factors prime there is one exactly when the search reaches it, and it is a logarithm of h if and only if there is
      one. A composite cofactor makes the code invert modulo it, and what comes of it is not specified here. */
  method Dlog(g: int, h: int, gen: int, primes: seq<int>, q: int, tries: nat, unspecified: (bool, nat))
    returns (found: bool, x: nat, fac: seq<nat>, mul: seq<nat>)
    requires Prime(q) && q > 2 && !Eq(g, 0, q) && 0 < h < q && Generates(gen, q) && Base(primes) && |primes| > 0
    ensures Factoring.Factored(q - 1, fac, mul, Some(64)) && |fac| == |mul| > 0
    ensures (exists i :: 0 <= i < |mul| && mul[i] != 1) ==> !found
    ensures (forall i :: 0 <= i < |mul| ==> mul[i] == 1) && Prime(fac[|fac| - 1])
            ==> (found <==> Reachable(g, h, gen, primes, q, fac, tries))
    ensures (forall i :: 0 <= i < |mul| ==> mul[i] == 1) && Prime(fac[|fac| - 1]) && 0 < g < q && AllPrimesBelow(primes, q) && tries >= q - 1
            ==> found
    ensures found && Prime(fac[|fac| - 1])
            ==> (LogIs(g, h, x, q) <==> Solvable(g, h, q)) && (Solvable(g, h, q) ==> x < q - 1) && (Generates(g, q) ==> LogIs(g, h, x, q))
  {
    hide Prime, Generates, Eq, Solvable, LogIs, Factoring.Factored, Reachable, Base, AllPrimesBelow;
    fac, mul := Factoring.TrialFactor(q - 1, Some(64));
    SomeFactor(q - 1, fac, mul);
    found, x := false, 0;
    for i := 0 to |mul|
      invariant !found && forall k :: 0 <= k < i ==> mul[k] == 1
    {
      if mul[i] != 1 { return; }
    }
    if !Prime(fac[|fac| - 1]) {
      found, x := unspecified.0, unspecified.1;
      return;
    }
    Factoring.SquarefreeFactors(q - 1, fac, mul, Some(64));
    found, x := DlogByFactors(g, h, gen, primes, q, fac, tries);
    if 0 < g < q && AllPrimesBelow(primes, q) && tries >= q - 1 { ReachableByAll(g, h, gen, primes, q, fac, tries); }
  }

  lemma SomeFactor(n: nat, fac: seq<nat>, mul: seq<nat>)
    requires n > 1 && Factoring.Factored(n, fac, mul, Some(64))
    ensures |fac| == |mul| > 0
  {}
}
