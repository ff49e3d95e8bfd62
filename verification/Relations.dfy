/** Relations between discrete logarithms (arith/indexcalculus.c): reduction of a relation by the
    stored rows, in the dense and in the sparse form, and back-substitution. */
module Relations {
  import opened Modular
  import opened Elimination

  // ---------- the dense form ----------

  // Position of the last nonzero coefficient among the first n, or -1.
  function TopIndex(rel: seq<int>, n: nat): (i: int)
    requires n <= |rel|
    ensures -1 <= i < n && (i >= 0 ==> rel[i] != 0) && forall k :: i < k < n ==> rel[k] == 0
  {
    if n == 0 then -1 else if rel[n - 1] != 0 then n - 1 else TopIndex(rel, n - 1)
  }

  lemma TopIs(rel: seq<int>, n: nat, i: int)
    requires n <= |rel| && -1 <= i < n && (i >= 0 ==> rel[i] != 0) && forall k :: i < k < n ==> rel[k] == 0
    ensures TopIndex(rel, n) == i
  {
    var t := TopIndex(rel, n);
    assert i >= 0 ==> rel[i] != 0;
    assert t >= 0 ==> rel[t] != 0;
  }

  // A relation is r coefficients and a constant, all residues.
  predicate RelOk(rel: seq<int>, r: nat, p: int) {
    |rel| == r + 1 && forall k :: 0 <= k <= r ==> 0 <= rel[k] < p
  }

  // A stored row i: nothing yet, or unit lower triangular.
  predicate RowOk(row: seq<int>, i: nat, r: nat, p: int) {
    row == [] || (RelOk(row, r, p) && i < r && row[i] == 1 && forall k :: i < k < r ==> row[k] == 0)
  }

  predicate RowsOk(rows: seq<seq<int>>, r: nat, p: int) {
    |rows| == r && forall i :: 0 <= i < r ==> RowOk(rows[i], i, r, p)
  }

  function SubRow(rel: seq<int>, c: int, row: seq<int>, p: int): (s: seq<int>)
    requires |row| == |rel| && p > 0
    ensures |s| == |rel| && forall k :: 0 <= k < |s| ==> s[k] == (rel[k] - c * row[k]) % p
  {
    seq(|rel|, k requires 0 <= k < |rel| => (rel[k] - c * row[k]) % p)
  }

  function NormRow(rel: seq<int>, inv: int, p: int): (s: seq<int>)
    requires p > 0
    ensures |s| == |rel| && forall k :: 0 <= k < |s| ==> s[k] == (inv * rel[k]) % p
  {
    seq(|rel|, k requires 0 <= k < |rel| => (inv * rel[k]) % p)
  }

  // The first row after k that is still empty.
  function NextEmpty(rows: seq<seq<int>>, k: nat): (e: nat)
    requires k <= |rows|
    ensures k <= e <= |rows| && (forall i :: k <= i < e ==> rows[i] != []) && (e < |rows| ==> rows[e] == [])
    decreases |rows| - k
  {
    if k == |rows| || rows[k] == [] then k else NextEmpty(rows, k + 1)
  }

  datatype Matrix = Matrix(rows: seq<seq<int>>, minfound: nat)

  lemma SubRowOk(rel: seq<int>, row: seq<int>, r: nat, p: int, i: nat)
    requires Prime(p) && p > 0 && RelOk(rel, r, p) && i < r && TopIndex(rel, r) == i && RowOk(row, i, r, p) && row != []
    ensures RelOk(SubRow(rel, rel[i], row, p), r, p) && TopIndex(SubRow(rel, rel[i], row, p), r) < i
  {
    var s := SubRow(rel, rel[i], row, p);
    forall k | 0 <= k <= r ensures 0 <= s[k] < p { EqMod(rel[k] - rel[i] * row[k], p); }
    forall k | i <= k < r ensures s[k] == 0 {
      Cleared(rel[k], rel[i], row[k], p, k == i);
    }
  }

  lemma Cleared(x: int, c: int, y: int, p: int, pivot: bool)
    requires p > 0 && (if pivot then x == c && y == 1 else x == 0 && y == 0)
    ensures (x - c * y) % p == 0
  {
    if pivot { assert c * 1 == c; } else { assert c * 0 == 0; }
    ModZero(0, 0, p);
  }

  /** What one relation does to the rows: subtract stored rows from the top down; a remainder
      with a new pivot becomes a row. */
  function Reduce(m: Matrix, rel: seq<int>, r: nat, p: int): Matrix
    requires Prime(p) && RowsOk(m.rows, r, p) && RelOk(rel, r, p)
    decreases TopIndex(rel, r) + 1
  {
    var i := TopIndex(rel, r);
    if i < 0 || i < m.minfound then m
    else if m.rows[i] == [] then
      PrimeBig(p);
      var rows := m.rows[i := NormRow(rel, Inv(rel[i], p), p)];
      Matrix(rows, if i == m.minfound then NextEmpty(rows, i + 1) else m.minfound)
    else
      PrimeBig(p);
      SubRowOk(rel, m.rows[i], r, p, i);
      Reduce(m, SubRow(rel, rel[i], m.rows[i], p), r, p)
  }

  lemma NormRowOk(rel: seq<int>, r: nat, p: int, i: nat)
    requires Prime(p) && p > 0 && RelOk(rel, r, p) && i < r && TopIndex(rel, r) == i
    ensures RowOk(NormRow(rel, Inv(rel[i], p), p), i, r, p)
  {
    hide Prime, Inv;
    var inv := Inv(rel[i], p);
    var s := NormRow(rel, inv, p);
    forall k | 0 <= k <= r ensures 0 <= s[k] < p { EqMod(inv * rel[k], p); }
    forall k | i < k < r ensures s[k] == 0 { ZeroTimes(inv, p); }
    PivotOne(rel[i], p);
    Commute(inv, rel[i]);
  }

  lemma ZeroTimes(c: int, p: int)
    requires p > 0
    ensures (c * 0) % p == 0
  {
    ModZero(c * 0, 0, p);
  }

  lemma Commute(a: int, b: int)
    ensures a * b == b * a
  {}

  lemma PivotOne(x: int, p: int)
    requires Prime(p) && 0 < x < p
    ensures (x * Inv(x, p)) % p == 1
  {
    if Eq(x, 0, p) { EqSmall(x, 0, p); }
    InvPrime(x, p);
    EqIffMod(x * Inv(x, p), 1, p);
    SmallMod(1, p);
  }

  // Every stored row stays unit lower triangular.
  lemma {:induction false} ReduceOk(m: Matrix, rel: seq<int>, r: nat, p: int)
    requires Prime(p) && RowsOk(m.rows, r, p) && RelOk(rel, r, p)
    ensures RowsOk(Reduce(m, rel, r, p).rows, r, p)
    decreases TopIndex(rel, r) + 1
  {
    var i := TopIndex(rel, r);
    if i >= 0 && i >= m.minfound {
      PrimeBig(p);
      if m.rows[i] == [] {
        NormRowOk(rel, r, p, i);
      } else {
        SubRowOk(rel, m.rows[i], r, p, i);
        ReduceOk(m, SubRow(rel, rel[i], m.rows[i], p), r, p);
      }
    }
  }

  // The number of rows found
  function Filled(rows: seq<seq<int>>): (n: nat)
    ensures n <= |rows|
  {
    if |rows| == 0 then 0 else Filled(rows[..|rows| - 1]) + if rows[|rows| - 1] == [] then 0 else 1
  }

  lemma {:induction false} FilledStore(rows: seq<seq<int>>, i: nat, row: seq<int>)
    requires i < |rows| && rows[i] == [] && row != []
    ensures Filled(rows[i := row]) == Filled(rows) + 1
  {
    var k := |rows| - 1;
    if i == k {
      assert rows[i := row][..k] == rows[..k];
    } else {
      assert rows[i := row][..k] == rows[..k][i := row];
      FilledStore(rows[..k], i, row);
    }
  }

  lemma {:induction false} FilledAll(rows: seq<seq<int>>)
    ensures Filled(rows) == |rows| <==> forall i :: 0 <= i < |rows| ==> rows[i] != []
  {
    if |rows| > 0 {
      var k := |rows| - 1;
      FilledAll(rows[..k]);
      assert forall i :: 0 <= i < k ==> rows[..k][i] == rows[i];
    }
  }

  // ---------- logarithms ----------

  function Dot(row: seq<int>, l: seq<int>, n: nat): int
    requires n <= |row| && n <= |l|
  {
    if n == 0 then 0 else Dot(row, l, n - 1) + row[n - 1] * l[n - 1]
  }

  // The logarithms l satisfy a relation.
  ghost predicate Satisfies(l: seq<int>, rel: seq<int>, r: nat, p: int)
    requires p > 0 && |l| == r && |rel| == r + 1
  {
    Eq(Dot(rel, l, r), rel[r], p)
  }

  ghost predicate SatisfiesAll(l: seq<int>, rows: seq<seq<int>>, r: nat, p: int)
    requires p > 1 && |l| == r && RowsOk(rows, r, p)
  {
    forall i :: 0 <= i < r && rows[i] != [] ==> Satisfies(l, rows[i], r, p)
  }

  lemma {:induction false} DotSub(rel: seq<int>, c: int, row: seq<int>, l: seq<int>, n: nat, p: int)
    requires p > 0 && |rel| == |row| && n <= |rel| && n <= |l|
    ensures Eq(Dot(SubRow(rel, c, row, p), l, n), Dot(rel, l, n) - c * Dot(row, l, n), p)
  {
    if n == 0 {
      assert c * 0 == 0;
      EqRefl(0, p);
    } else {
      DotSub(rel, c, row, l, n - 1, p);
      var k := n - 1;
      var s := SubRow(rel, c, row, p);
      EqMod(rel[k] - c * row[k], p);
      EqRefl(l[k], p);
      EqMul(s[k], rel[k] - c * row[k], l[k], l[k], p);
      EqAdd(Dot(s, l, k), Dot(rel, l, k) - c * Dot(row, l, k), s[k] * l[k], (rel[k] - c * row[k]) * l[k], p);
      DotStep(Dot(rel, l, k), Dot(row, l, k), rel[k], row[k], c, l[k]);
    }
  }

  lemma DotStep(a: int, b: int, x: int, y: int, c: int, l: int)
    ensures a - c * b + (x - c * y) * l == (a + x * l) - c * (b + y * l)
  {}

  lemma {:induction false} DotNorm(rel: seq<int>, inv: int, l: seq<int>, n: nat, p: int)
    requires p > 0 && n <= |rel| && n <= |l|
    ensures Eq(Dot(NormRow(rel, inv, p), l, n), inv * Dot(rel, l, n), p)
  {
    if n == 0 {
      assert inv * 0 == 0;
      EqRefl(0, p);
    } else {
      DotNorm(rel, inv, l, n - 1, p);
      var k := n - 1;
      var s := NormRow(rel, inv, p);
      EqMod(inv * rel[k], p);
      EqRefl(l[k], p);
      EqMul(s[k], inv * rel[k], l[k], l[k], p);
      EqAdd(Dot(s, l, k), inv * Dot(rel, l, k), s[k] * l[k], (inv * rel[k]) * l[k], p);
      NormStep(inv, Dot(rel, l, k), rel[k], l[k]);
    }
  }

  lemma NormStep(inv: int, a: int, x: int, l: int)
    ensures inv * a + (inv * x) * l == inv * (a + x * l)
  {}

  lemma SatisfiesSub(l: seq<int>, rel: seq<int>, c: int, row: seq<int>, r: nat, p: int)
    requires p > 0 && |l| == r && |rel| == r + 1 && |row| == r + 1 && Satisfies(l, rel, r, p) && Satisfies(l, row, r, p)
    ensures Satisfies(l, SubRow(rel, c, row, p), r, p)
  {
    hide Dot, SubRow, Eq;
    var s := SubRow(rel, c, row, p);
    DotSub(rel, c, row, l, r, p);
    EqRefl(c, p);
    EqMul(c, c, Dot(row, l, r), row[r], p);
    EqAdd(Dot(rel, l, r), rel[r], c * Dot(row, l, r), c * row[r], p);
    EqMod(rel[r] - c * row[r], p);
    EqSym(s[r], rel[r] - c * row[r], p);
    EqTrans(Dot(s, l, r), Dot(rel, l, r) - c * Dot(row, l, r), rel[r] - c * row[r], p);
    EqTrans(Dot(s, l, r), rel[r] - c * row[r], s[r], p);
  }

  lemma SatisfiesNorm(l: seq<int>, rel: seq<int>, inv: int, r: nat, p: int)
    requires p > 0 && |l| == r && |rel| == r + 1 && Satisfies(l, rel, r, p)
    ensures Satisfies(l, NormRow(rel, inv, p), r, p)
  {
    hide Dot, NormRow, Eq;
    var s := NormRow(rel, inv, p);
    DotNorm(rel, inv, l, r, p);
    EqRefl(inv, p);
    EqMul(inv, inv, Dot(rel, l, r), rel[r], p);
    EqMod(inv * rel[r], p);
    EqSym(s[r], inv * rel[r], p);
    EqTrans(Dot(s, l, r), inv * Dot(rel, l, r), inv * rel[r], p);
    EqTrans(Dot(s, l, r), inv * rel[r], s[r], p);
  }

  /** Logarithms that satisfy the relation and the rows satisfy the rows after the reduction. */
  lemma {:induction false} ReduceSound(m: Matrix, rel: seq<int>, l: seq<int>, r: nat, p: int)
    requires Prime(p) && p > 1 && RowsOk(m.rows, r, p) && RelOk(rel, r, p) && |l| == r
    requires SatisfiesAll(l, m.rows, r, p) && Satisfies(l, rel, r, p)
    ensures RowsOk(Reduce(m, rel, r, p).rows, r, p) && SatisfiesAll(l, Reduce(m, rel, r, p).rows, r, p)
    decreases TopIndex(rel, r) + 1
  {
    hide Satisfies, Inv;
    var i := TopIndex(rel, r);
    ReduceOk(m, rel, r, p);
    if i >= 0 && i >= m.minfound {
      if m.rows[i] == [] {
        SatisfiesNorm(l, rel, Inv(rel[i], p), r, p);
      } else {
        SubRowOk(rel, m.rows[i], r, p, i);
        SatisfiesSub(l, rel, rel[i], m.rows[i], r, p);
        ReduceSound(m, SubRow(rel, rel[i], m.rows[i], p), l, r, p);
      }
    }
  }

  // ---------- the dense routine ----------

  // The search for the last nonzero coefficient.
  method FindTop(relm: array<int>, r: nat) returns (i: int)
    requires r <= relm.Length
    ensures i == TopIndex(relm[..], r)
  {
    i := r - 1;
    while i >= 0 && relm[i] == 0
      invariant -1 <= i < r && forall k :: i < k < r ==> relm[k] == 0
    {
      i := i - 1;
    }
    TopIs(relm[..], r, i);
  }

  // do ... while: the next row that is still missing
  method Advance(rows: seq<seq<int>>, minfound: nat) returns (m: nat)
    requires minfound < |rows|
    ensures m == NextEmpty(rows, minfound + 1)
  {
    m := minfound + 1;
    while m < |rows| && rows[m] != []
      invariant minfound < m <= |rows| && NextEmpty(rows, m) == NextEmpty(rows, minfound + 1)
    {
      m := m + 1;
    }
  }

  method SubtractDense(relm: array<int>, z0: int, row: seq<int>, p: int)
    requires p > 0 && relm.Length == |row|
    modifies relm
    ensures relm[..] == SubRow(old(relm[..]), z0, row, p)
  {
    for j := 0 to |row|
      invariant forall k :: 0 <= k < |row| ==> relm[k] == if k < j then (old(relm[k]) - z0 * row[k]) % p else old(relm[k])
    {
      var z1 := z0 * row[j];
      relm[j] := relm[j] - z1;
      relm[j] := relm[j] % p;
    }
  }

  method NormalizeDense(relm: seq<int>, z1: int, p: int) returns (row: seq<int>)
    requires p > 0
    ensures row == NormRow(relm, z1, p)
  {
    row := [];
    for j := 0 to |relm|
      invariant |row| == j && forall k :: 0 <= k < j ==> row[k] == (z1 * relm[k]) % p
    {
      row := row + [(z1 * relm[j]) % p];
    }
  }

  /** The elimination loop of slow_index_calculus_step1. */
  method ReduceDense(rows: array<seq<int>>, minfound: nat, relm: array<int>, r: nat, p: int) returns (minfound': nat, added: nat)
    requires Prime(p) && rows.Length == r && relm.Length == r + 1
    requires RowsOk(rows[..], r, p) && RelOk(relm[..], r, p)
    modifies rows, relm
    ensures Matrix(rows[..], minfound') == Reduce(Matrix(old(rows[..]), minfound), old(relm[..]), r, p)
    ensures Filled(rows[..]) == old(Filled(rows[..])) + added
  {
    hide Prime, Inv, TopIndex;
    PrimeBig(p);
    minfound' := minfound;
    added := 0;
    ghost var m := Matrix(rows[..], minfound);
    ghost var goal := Reduce(m, relm[..], r, p);
    while true
      invariant rows[..] == m.rows && RelOk(relm[..], r, p) && Reduce(m, relm[..], r, p) == goal
      decreases TopIndex(relm[..], r) + 1
    {
      ghost var rel := relm[..];
      var i := FindTop(relm, r);
      ReduceStep(m, rel, r, p);
      TopIndexBounds(rel, r);
      if i < 0 { break; }
      if i < minfound { break; }
      var z0 := relm[i];
      if rows[i] == [] {
        var row := NormalizeDense(relm[..], Inv(z0, p), p);
        rows[i] := row;
        assert rows[..] == m.rows[i := row];
        FilledStore(m.rows, i, row);
        added := 1;
        if i == minfound { minfound' := Advance(rows[..], minfound); }
        break;
      }
      SubRowOk(rel, m.rows[i], r, p, i);
      SubtractDense(relm, z0, rows[i], p);
    }
  }

  lemma TopIndexBounds(rel: seq<int>, r: nat)
    requires r <= |rel|
    ensures -1 <= TopIndex(rel, r) < r
  {}

  lemma ReduceStep(m: Matrix, rel: seq<int>, r: nat, p: int)
    requires Prime(p) && p > 1 && RowsOk(m.rows, r, p) && RelOk(rel, r, p)
    ensures var i := TopIndex(rel, r);
            && (i < 0 || i < m.minfound ==> Reduce(m, rel, r, p) == m)
            && (i >= 0 && i >= m.minfound && m.rows[i] == [] ==>
                  var rows := m.rows[i := NormRow(rel, Inv(rel[i], p), p)];
                  Reduce(m, rel, r, p) == Matrix(rows, if i == m.minfound then NextEmpty(rows, i + 1) else m.minfound))
            && (i >= 0 && i >= m.minfound && m.rows[i] != [] ==>
                  RelOk(SubRow(rel, rel[i], m.rows[i], p), r, p) && Reduce(m, rel, r, p) == Reduce(m, SubRow(rel, rel[i], m.rows[i], p), r, p))
  {
    hide TopIndex, Inv;
    var i := TopIndex(rel, r);
    if i >= 0 && m.rows[i] != [] { SubRowOk(rel, m.rows[i], r, p, i); }
  }

  // ---------- the sparse routine ----------

  function DenseOf(c: seq<Cell>, r: nat): (s: seq<int>)
    ensures |s| == r && forall k :: 0 <= k < r ==> s[k] == At(c, k)
  {
    seq(r, k => At(c, k))
  }

  // The coefficients of the cells, and the constant.
  function DenseRel(c: seq<Cell>, km: int, r: nat): (s: seq<int>)
    ensures |s| == r + 1
  {
    DenseOf(c, r) + [km]
  }

  // A stored sparse row keeps its constant in cell 0, under index -1.
  function DenseRow(rp: seq<Cell>, r: nat): seq<int> {
    if |rp| == 0 then [] else DenseRel(rp[1..], rp[0].data, r)
  }

  // Cells of a relation: canonical, with indices below r.
  predicate CellsOk(c: seq<Cell>, r: nat, p: int) {
    Canon(c, p) && forall k :: 0 <= k < |c| ==> 0 <= c[k].ind < r
  }

  // A stored row i: the constant, the cells below i, and the unit pivot.
  predicate SparseRowOk(rp: seq<Cell>, i: nat, r: nat, p: int) {
    rp == [] || (|rp| >= 2 && 0 <= rp[0].data < p && CellsOk(rp[1..], r, p) && rp[|rp| - 1] == Cell(i, 1))
  }

  predicate SparseOk(rows: seq<seq<Cell>>, r: nat, p: int) {
    |rows| == r && forall i :: 0 <= i < r ==> SparseRowOk(rows[i], i, r, p)
  }

  function DenseRows(rows: seq<seq<Cell>>, r: nat): (d: seq<seq<int>>)
    ensures |d| == |rows|
  {
    seq(|rows|, i requires 0 <= i < |rows| => DenseRow(rows[i], r))
  }

  // The last cell is the last nonzero coefficient.
  lemma {:induction false} AtLast(c: seq<Cell>, p: int, k: int)
    requires Canon(c, p) && |c| > 0
    ensures At(c, c[|c| - 1].ind) == c[|c| - 1].data
    ensures k > c[|c| - 1].ind ==> At(c, k) == 0
    ensures k != c[|c| - 1].ind ==> At(c, k) == At(c[..|c| - 1], k)
    decreases |c|
  {
    if |c| > 1 {
      AtLast(c[1..], p, k);
      assert c[1..][..|c| - 2] == c[..|c| - 1][1..];
      assert c[0].ind < c[|c| - 1].ind;
    }
  }

  lemma SparseTop(c: seq<Cell>, km: int, r: nat, p: int)
    requires CellsOk(c, r, p)
    ensures TopIndex(DenseRel(c, km, r), r) == if |c| == 0 then -1 else c[|c| - 1].ind
    ensures |c| > 0 ==> DenseRel(c, km, r)[c[|c| - 1].ind] == c[|c| - 1].data
  {
    var d := DenseRel(c, km, r);
    var i := if |c| == 0 then -1 else c[|c| - 1].ind;
    forall k | i < k < r ensures d[k] == 0 { if |c| > 0 { AtLast(c, p, k); } }
    if |c| > 0 { AtLast(c, p, 0); assert d[i] == At(c, i); }
    TopIs(d, r, i);
  }

  lemma SparseRelOk(c: seq<Cell>, km: int, r: nat, p: int)
    requires CellsOk(c, r, p) && 0 <= km < p
    ensures RelOk(DenseRel(c, km, r), r, p)
  {
    forall k | 0 <= k < r ensures 0 <= At(c, k) < p { CanonAt(c, p, k); }
  }

  lemma SparseRowIsOk(rp: seq<Cell>, i: nat, r: nat, p: int)
    requires SparseRowOk(rp, i, r, p) && i < r
    ensures RowOk(DenseRow(rp, r), i, r, p) && (rp == [] <==> DenseRow(rp, r) == [])
  {
    if rp != [] {
      SparseRelOk(rp[1..], rp[0].data, r, p);
      SparseTop(rp[1..], rp[0].data, r, p);
      assert rp[1..][|rp| - 2] == Cell(i, 1);
    }
  }

  lemma SparseRowsOk(rows: seq<seq<Cell>>, r: nat, p: int)
    requires SparseOk(rows, r, p)
    ensures RowsOk(DenseRows(rows, r), r, p)
  {
    forall i | 0 <= i < r ensures RowOk(DenseRows(rows, r)[i], i, r, p) { SparseRowIsOk(rows[i], i, r, p); }
  }

  lemma {:induction false} MergeIndices(a: seq<Cell>, b: seq<Cell>, z: int, p: int, r: int)
    requires p > 0 && (forall k :: 0 <= k < |a| ==> 0 <= a[k].ind < r) && (forall k :: 0 <= k < |b| ==> 0 <= b[k].ind < r)
    ensures forall k :: 0 <= k < |Merge(a, b, z, p)| ==> 0 <= Merge(a, b, z, p)[k].ind < r
    decreases |a| + |b|
  {
    hide Minus, Negated, Vanishes;
    if |b| == 0 {
    } else if |a| == 0 || a[0].ind > b[0].ind {
      MergeIndices(a, b[1..], z, p, r);
    } else if a[0].ind < b[0].ind {
      MergeIndices(a[1..], b, z, p, r);
    } else {
      MergeIndices(a[1..], b[1..], z, p, r);
    }
  }

  /** Merging everything but the two pivots is subtracting the whole dense row. */
  lemma {:induction false} MergeIsSubRow(c: seq<Cell>, rp: seq<Cell>, km: int, km': int, i: nat, r: nat, p: int)
    requires Prime(p) && p > 0 && CellsOk(c, r, p) && |c| > 0 && c[|c| - 1].ind == i < r && SparseRowOk(rp, i, r, p) && rp != []
    requires km' == (km - c[|c| - 1].data * rp[0].data) % p
    ensures var a, b := c[..|c| - 1], rp[1..|rp| - 1]; var z := c[|c| - 1].data;
            && CellsOk(Merge(a, b, z, p), r, p)
            && DenseRel(Merge(a, b, z, p), km', r) == SubRow(DenseRel(c, km, r), z, DenseRow(rp, r), p)
  {
    hide Prime, Merge, At;
    var a, b, z := c[..|c| - 1], rp[1..|rp| - 1], c[|c| - 1].data;
    var cells := rp[1..];
    assert b == cells[..|cells| - 1] && cells[|cells| - 1] == Cell(i, 1);
    MergeCanon(a, b, z, p);
    assert forall k :: 0 <= k < |a| ==> a[k] == c[k];
    assert forall k :: 0 <= k < |b| ==> b[k] == cells[k];
    MergeIndices(a, b, z, p, i);
    var d, w := DenseRel(Merge(a, b, z, p), km', r), SubRow(DenseRel(c, km, r), z, DenseRow(rp, r), p);
    forall k | 0 <= k < r ensures d[k] == w[k] {
      MergeAt(a, b, z, p, k);
      AtLast(c, p, k);
      AtLast(cells, p, k);
      if k == i {
        BelowAt(a, k);
        BelowAt(b, k);
        ZeroMinus(z, p);
      }
    }
    assert d == w;
  }

  lemma {:induction false} BelowAt(c: seq<Cell>, k: int)
    requires forall i :: 0 <= i < |c| ==> c[i].ind < k
    ensures At(c, k) == 0
  {
    if |c| > 0 { BelowAt(c[1..], k); }
  }

  lemma ZeroMinus(z: int, p: int)
    requires p > 0
    ensures (0 - z * 0) % p == (z - z * 1) % p
  {}

  // ---------- new sparse rows ----------

  // Scaling by an invertible factor keeps cells canonical.
  function ScaledCells(c: seq<Cell>, inv: int, p: int): (s: seq<Cell>)
    requires p > 0
    ensures |s| == |c| && forall k :: 0 <= k < |c| ==> s[k] == Cell(c[k].ind, (c[k].data * inv) % p)
  {
    seq(|c|, k requires 0 <= k < |c| => Cell(c[k].ind, (c[k].data * inv) % p))
  }

  lemma {:induction false} ScaledAt(c: seq<Cell>, inv: int, p: int, k: int)
    requires p > 0
    ensures At(ScaledCells(c, inv, p), k) == (inv * At(c, k)) % p
  {
    if |c| == 0 {
      ZeroTimes(inv, p);
    } else {
      ScaledAt(c[1..], inv, p, k);
      assert ScaledCells(c, inv, p)[1..] == ScaledCells(c[1..], inv, p);
      Commute(c[0].data, inv);
    }
  }

  // The row stored for a relation with a new pivot.
  lemma NewRow(c: seq<Cell>, km: int, i: nat, r: nat, p: int, row: seq<Cell>)
    requires Prime(p) && p > 1 && CellsOk(c, r, p) && |c| > 0 && c[|c| - 1].ind == i < r && 0 <= km < p
    requires var inv := Inv(c[|c| - 1].data, p);
             row == [Cell(-1, (km * inv) % p)] + ScaledCells(c, inv, p)
    ensures SparseRowOk(row, i, r, p) && DenseRow(row, r) == NormRow(DenseRel(c, km, r), Inv(c[|c| - 1].data, p), p)
  {
    hide Inv, At, Prime;
    var z := c[|c| - 1].data;
    var inv := Inv(z, p);
    var s := ScaledCells(c, inv, p);
    assert row[1..] == s;
    InverseNonzero(z, p);
    forall k | 0 <= k < |c| ensures 0 < s[k].data < p {
      NonzeroTimes(c[k].data, inv, p);
    }
    PivotOne(z, p);
    assert row[|row| - 1] == s[|s| - 1];
    EqMod(km * inv, p);
    var d, w := DenseRow(row, r), NormRow(DenseRel(c, km, r), inv, p);
    forall k | 0 <= k < r ensures d[k] == w[k] { ScaledAt(c, inv, p, k); }
    Commute(km, inv);
    assert d == w;
  }

  lemma InverseNonzero(z: int, p: int)
    requires Prime(p) && 0 < z < p
    ensures 0 < Inv(z, p) < p
  {
    PivotOne(z, p);
    if Inv(z, p) == 0 { ZeroTimes(z, p); }
  }

  method StoreRow(relm: array<Cell>, relmcount: nat, km: int, z0: int, p: int) returns (rp: seq<Cell>)
    requires p > 0 && relmcount <= relm.Length
    ensures rp == [Cell(-1, (km * z0) % p)] + ScaledCells(relm[..relmcount], z0, p)
  {
    rp := [Cell(-1, (km * z0) % p)];
    for j := 0 to relmcount
      invariant |rp| == j + 1 && rp[0] == Cell(-1, (km * z0) % p)
      invariant forall k :: 0 <= k < j ==> rp[k + 1] == Cell(relm[k].ind, (relm[k].data * z0) % p)
    {
      var z1 := relm[j].data * z0;
      rp := rp + [Cell(relm[j].ind, z1 % p)];
    }
  }

  method AdvanceSparse(rows: seq<seq<Cell>>, minfound: nat, ghost r: nat) returns (m: nat)
    requires minfound < |rows| && forall i :: 0 <= i < |rows| ==> (rows[i] == [] <==> DenseRow(rows[i], r) == [])
    ensures m == NextEmpty(DenseRows(rows, r), minfound + 1)
  {
    m := minfound + 1;
    while m < |rows| && rows[m] != []
      invariant minfound < m <= |rows| && NextEmpty(DenseRows(rows, r), m) == NextEmpty(DenseRows(rows, r), minfound + 1)
    {
      m := m + 1;
    }
  }

  // km - z0 c0 without a negative intermediate value
  method SubtractConstant(km: int, z0: int, c0: int, p: int) returns (r: int)
    requires p > 0 && 0 <= km < p
    ensures r == (km - z0 * c0) % p && 0 <= r < p
  {
    MinusValue(km, z0, c0, p);
    EqMod(km - z0 * c0, p);
    var z1 := (z0 * c0) % p;
    if km >= z1 {
      r := km - z1;
    } else {
      z1 := p - z1;
      r := km + z1;
    }
  }

  // A relation with a new pivot becomes a row.
  method StoreNew(rows: array<seq<Cell>>, minfound: nat, relm: array<Cell>, relmcount: nat, km: int, rind: nat, r: nat, p: int) returns (minfound': nat)
    requires Prime(p) && p > 1 && rows.Length == r && 0 < relmcount <= relm.Length && rind < r && 0 <= km < p
    requires SparseOk(rows[..], r, p) && CellsOk(relm[..relmcount], r, p) && relm[relmcount - 1].ind == rind
    modifies rows
    ensures SparseOk(rows[..], r, p)
    ensures var rel := DenseRel(relm[..relmcount], km, r); var was := DenseRows(old(rows[..]), r);
            && |was| == r && DenseRows(rows[..], r) == was[rind := NormRow(rel, Inv(relm[relmcount - 1].data, p), p)]
            && minfound' == if rind == minfound then NextEmpty(DenseRows(rows[..], r), rind + 1) else minfound
  {
    hide Prime, Inv, At, Canon, SparseRowOk;
    minfound' := minfound;
    ghost var sparse := rows[..];
    var z0 := Inv(relm[relmcount - 1].data, p);
    var rp := StoreRow(relm, relmcount, km, z0, p);
    NewRow(relm[..relmcount], km, rind, r, p, rp);
    rows[rind] := rp;
    assert rows[..] == sparse[rind := rp];
    if rind == minfound {
      EmptyTogether(rows[..], r, p);
      minfound' := AdvanceSparse(rows[..], minfound, r);
    }
  }

  // The stored row is subtracted and the pivot drops out.
  method MergeInto(relm: array<Cell>, relmcount: nat, rp: seq<Cell>, km: int, ghost rind: nat, ghost r: nat, p: int) returns (count: nat, km': int)
    requires Prime(p) && p > 1 && relm.Length == r && 0 < relmcount <= r && rind < r && 0 <= km < p
    requires CellsOk(relm[..relmcount], r, p) && relm[relmcount - 1].ind == rind && SparseRowOk(rp, rind, r, p) && rp != []
    modifies relm
    ensures count <= r && CellsOk(relm[..count], r, p) && 0 <= km' < p && RelOk(DenseRel(relm[..count], km', r), r, p)
    ensures DenseRel(relm[..count], km', r) == SubRow(old(DenseRel(relm[..relmcount], km, r)), old(relm[relmcount - 1].data), DenseRow(rp, r), p)
  {
    hide Prime, Merge, At, Canon, SparseRowOk, RelOk;
    ghost var c := relm[..relmcount];
    MergeStep(c, rp, km, rind, r, p);
    var z0 := relm[relmcount - 1].data;
    assert relm[..relmcount - 1] == c[..|c| - 1];
    count := MergeCells(relm, relmcount - 1, rp[1..|rp| - 1], z0, p, rind);
    km' := SubtractConstant(km, z0, rp[0].data, p);
    CanonLength(relm[..count], p, r);
  }

  /** The elimination loop of index_calculus_step1 does on sparse rows what the dense loop does. */
  method ReduceSparse(rows: array<seq<Cell>>, minfound: nat, relm: array<Cell>, relmcount0: nat, km0: int, r: nat, p: int) returns (minfound': nat, added: nat)
    requires Prime(p) && rows.Length == r && relm.Length == r && relmcount0 <= r
    requires SparseOk(rows[..], r, p) && CellsOk(relm[..relmcount0], r, p) && 0 <= km0 < p
    requires RowsOk(DenseRows(rows[..], r), r, p) && RelOk(DenseRel(relm[..relmcount0], km0, r), r, p)
    modifies rows, relm
    ensures SparseOk(rows[..], r, p)
    ensures Matrix(DenseRows(rows[..], r), minfound')
         == Reduce(Matrix(DenseRows(old(rows[..]), r), minfound), DenseRel(old(relm[..relmcount0]), km0, r), r, p)
    ensures Filled(DenseRows(rows[..], r)) == Filled(DenseRows(old(rows[..]), r)) + added
  {
    hide Prime, Inv, TopIndex, Merge, At, Canon, SparseRowOk, RowOk, RelOk, Reduce, NextEmpty, NormRow, SubRow, Filled;
    PrimeBig(p);
    minfound' := minfound;
    added := 0;
    var relmcount: nat := relmcount0;
    var km := km0;
    ghost var sparse := rows[..];
    ghost var m := Matrix(DenseRows(sparse, r), minfound);
    ghost var rel := DenseRel(relm[..relmcount], km, r);
    ghost var goal := Reduce(m, rel, r, p);
    while relmcount > 0
      invariant 0 <= relmcount <= r && rows[..] == sparse && CellsOk(relm[..relmcount], r, p) && 0 <= km < p
      invariant rel == DenseRel(relm[..relmcount], km, r) && RelOk(rel, r, p) && Reduce(m, rel, r, p) == goal
      decreases TopIndex(rel, r) + 1
    {
      ghost var c := relm[..relmcount];
      SparseTop(c, km, r, p);
      ReduceStep(m, rel, r, p);
      var rind := relm[relmcount - 1].ind;
      var rp := rows[rind];
      assert 0 <= rind < r && rp == sparse[rind];
      SparseRowIsOk(rp, rind, r, p);
      if rind < minfound { break; }
      if |rp| == 0 {
        minfound' := StoreNew(rows, minfound, relm, relmcount, km, rind, r, p);
        FilledStore(m.rows, rind, NormRow(rel, Inv(c[|c| - 1].data, p), p));
        added := 1;
        return;
      }
      SubRowOk(rel, m.rows[rind], r, p, rind);
      relmcount, km := MergeInto(relm, relmcount, rp, km, rind, r, p);
      rel := DenseRel(relm[..relmcount], km, r);
    }
    if relmcount == 0 {
      SparseTop(relm[..relmcount], km, r, p);
      ReduceStep(m, rel, r, p);
    }
  }

  lemma EmptyTogether(rows: seq<seq<Cell>>, r: nat, p: int)
    requires SparseOk(rows, r, p)
    ensures forall i :: 0 <= i < |rows| ==> (rows[i] == [] <==> DenseRow(rows[i], r) == [])
  {
    forall i | 0 <= i < |rows| ensures rows[i] == [] <==> DenseRow(rows[i], r) == [] { SparseRowIsOk(rows[i], i, r, p); }
  }

  // Everything the merge needs, and its effect on the dense forms.
  lemma MergeStep(c: seq<Cell>, rp: seq<Cell>, km: int, i: nat, r: nat, p: int)
    requires Prime(p) && p > 1 && CellsOk(c, r, p) && |c| > 0 && c[|c| - 1].ind == i < r && SparseRowOk(rp, i, r, p) && rp != [] && 0 <= km < p
    ensures var a, b := c[..|c| - 1], rp[1..|rp| - 1]; var z := c[|c| - 1].data;
            && |rp| >= 2 && 0 < z < p && Canon(a, p) && Canon(b, p)
            && (forall k :: 0 <= k < |a| ==> 0 <= a[k].ind < i) && (forall k :: 0 <= k < |b| ==> 0 <= b[k].ind < i)
            && (var km' := (km - z * rp[0].data) % p;
                && CellsOk(Merge(a, b, z, p), r, p) && RelOk(DenseRel(Merge(a, b, z, p), km', r), r, p)
                && DenseRel(Merge(a, b, z, p), km', r) == SubRow(DenseRel(c, km, r), z, DenseRow(rp, r), p))
  {
    hide Merge, At, Prime;
    var z := c[|c| - 1].data;
    var km' := (km - z * rp[0].data) % p;
    EqMod(km - z * rp[0].data, p);
    MergeIsSubRow(c, rp, km, km', i, r, p);
    var cells := rp[1..];
    var b := rp[1..|rp| - 1];
    assert forall k :: 0 <= k < |b| ==> b[k] == cells[k];
    assert cells[|cells| - 1] == Cell(i, 1);
    SparseRelOk(Merge(c[..|c| - 1], b, z, p), km', r, p);
  }
}
