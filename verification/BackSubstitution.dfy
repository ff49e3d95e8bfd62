/** Back-substitution of the complete triangular rows (arith/indexcalculus.c), sparse and dense. */
module BackSubstitution {
  import opened Modular
  import opened Elimination
  import opened Relations

  // ---------- the solution of a triangular system ----------

  // Every row has been found.
  predicate Complete(rows: seq<seq<int>>, r: nat, p: int) {
    RowsOk(rows, r, p) && forall i :: 0 <= i < r ==> rows[i] != []
  }

  lemma {:induction false} DotTail(row: seq<int>, l: seq<int>, m: nat, n: nat)
    requires m < n <= |row| && n <= |l| && forall k :: m < k < n ==> row[k] == 0
    ensures Dot(row, l, n) == Dot(row, l, m) + row[m] * l[m]
  {
    if n > m + 1 {
      DotTail(row, l, m, n - 1);
      assert 0 * l[n - 1] == 0;
    }
  }

  lemma {:induction false} DotSame(row: seq<int>, row': seq<int>, l: seq<int>, l': seq<int>, n: nat)
    requires n <= |row| && n <= |row'| && n <= |l| && n <= |l'|
    requires forall k :: 0 <= k < n ==> row[k] == row'[k] && l[k] == l'[k]
    ensures Dot(row, l, n) == Dot(row', l', n)
  {
    if n > 0 { DotSame(row, row', l, l', n - 1); }
  }

  lemma {:induction false} DotCong(row: seq<int>, l: seq<int>, l': seq<int>, n: nat, p: int)
    requires p > 0 && n <= |row| && n <= |l| && n <= |l'| && forall k :: 0 <= k < n ==> Eq(l[k], l'[k], p)
    ensures Eq(Dot(row, l, n), Dot(row, l', n), p)
  {
    if n == 0 {
      EqRefl(0, p);
    } else {
      DotCong(row, l, l', n - 1, p);
      EqRefl(row[n - 1], p);
      EqMul(row[n - 1], row[n - 1], l[n - 1], l'[n - 1], p);
      EqAdd(Dot(row, l, n - 1), Dot(row, l', n - 1), row[n - 1] * l[n - 1], row[n - 1] * l'[n - 1], p);
    }
  }

  // Row i of a complete system fixes logarithm i from the ones before.
  lemma RowFixes(row: seq<int>, l: seq<int>, i: nat, r: nat, p: int)
    requires p > 0 && |l| == r && i < r && RowOk(row, i, r, p) && row != []
    ensures Satisfies(l, row, r, p) <==> Eq(l[i], row[r] - Dot(row, l, i), p)
  {
    DotTail(row, l, i, r);
    assert 1 * l[i] == l[i];
    assert Dot(row, l, i) + l[i] - row[r] == l[i] - (row[r] - Dot(row, l, i));
  }

  /** The first n rows, when none is missing, fix the first n logarithms; a complete system has at most one solution. */
  lemma {:induction false} SolutionUnique(rows: seq<seq<int>>, l: seq<int>, s: seq<int>, r: nat, p: int, n: nat)
    requires p > 1 && RowsOk(rows, r, p) && |l| == r && |s| == r && n <= r && forall i :: 0 <= i < n ==> rows[i] != []
    requires SatisfiesAll(l, rows, r, p) && SatisfiesAll(s, rows, r, p)
    ensures forall i :: 0 <= i < n ==> Eq(l[i], s[i], p)
  {
    hide Satisfies, Eq, Dot;
    if n > 0 {
      SolutionUnique(rows, l, s, r, p, n - 1);
      var i := n - 1;
      RowFixes(rows[i], l, i, r, p);
      RowFixes(rows[i], s, i, r, p);
      DotCong(rows[i], l, s, i, p);
      var k := rows[i][r];
      EqRefl(k, p);
      EqAdd(k, k, Dot(rows[i], l, i), Dot(rows[i], s, i), p);
      EqTrans(l[i], k - Dot(rows[i], l, i), k - Dot(rows[i], s, i), p);
      EqSym(s[i], k - Dot(rows[i], s, i), p);
      EqTrans(l[i], k - Dot(rows[i], s, i), s[i], p);
    }
  }

  // The first n logarithms of s solve the first n rows.
  ghost predicate SolvedTo(rows: seq<seq<int>>, s: seq<int>, r: nat, p: int, n: nat)
    requires p > 1 && Complete(rows, r, p) && |s| == r && n <= r
  {
    forall i :: 0 <= i < n ==> 0 <= s[i] < p && Eq(s[i], rows[i][r] - Dot(rows[i], s, i), p)
  }

  lemma SolvedAll(rows: seq<seq<int>>, s: seq<int>, r: nat, p: int)
    requires p > 1 && Complete(rows, r, p) && |s| == r && SolvedTo(rows, s, r, p, r)
    ensures SatisfiesAll(s, rows, r, p)
  {
    forall i | 0 <= i < r ensures Satisfies(s, rows[i], r, p) { RowFixes(rows[i], s, i, r, p); }
  }

  lemma SolvedNext(rows: seq<seq<int>>, s: seq<int>, s': seq<int>, r: nat, p: int, n: nat)
    requires p > 1 && Complete(rows, r, p) && |s| == r && |s'| == r && n < r && SolvedTo(rows, s, r, p, n)
    requires (forall k :: 0 <= k < n ==> s'[k] == s[k]) && 0 <= s'[n] < p && Eq(s'[n], rows[n][r] - Dot(rows[n], s, n), p)
    ensures SolvedTo(rows, s', r, p, n + 1)
  {
    hide Eq, Dot;
    CompleteLengths(rows, r, p);
    hide Complete, RowsOk;
    forall i | 0 <= i < n + 1 ensures Eq(s'[i], rows[i][r] - Dot(rows[i], s', i), p) {
      DotSame(rows[i], rows[i], s, s', i);
    }
  }

  // ---------- sparse ----------

  function CellDot(c: seq<Cell>, l: seq<int>): int
    requires forall k :: 0 <= k < |c| ==> 0 <= c[k].ind < |l|
  {
    if |c| == 0 then 0 else CellDot(c[..|c| - 1], l) + c[|c| - 1].data * l[c[|c| - 1].ind]
  }

  lemma {:induction false} CellDotDense(c: seq<Cell>, l: seq<int>, n: nat, r: nat, p: int)
    requires Canon(c, p) && n <= r == |l| && forall k :: 0 <= k < |c| ==> 0 <= c[k].ind < n
    ensures CellDot(c, l) == Dot(DenseOf(c, r), l, n)
    decreases |c|
  {
    hide At;
    var d := DenseOf(c, r);
    if |c| == 0 {
      forall k | 0 <= k < n ensures d[k] == 0 { NoCells(k); }
      DotZeros(d, l, n);
    } else {
      var c', x := c[..|c| - 1], c[|c| - 1];
      CellDotDense(c', l, x.ind, r, p);
      forall k | x.ind < k < n ensures d[k] == 0 { AtLast(c, p, k); }
      AtLast(c, p, 0);
      DotTail(d, l, x.ind, n);
      forall k | 0 <= k < x.ind ensures d[k] == DenseOf(c', r)[k] { AtLast(c, p, k); }
      DotSame(d, DenseOf(c', r), l, l, x.ind);
    }
  }

  lemma NoCells(k: int)
    ensures At([], k) == 0
  {}

  lemma {:induction false} DotZeros(row: seq<int>, l: seq<int>, n: nat)
    requires n <= |row| && n <= |l| && forall k :: 0 <= k < n ==> row[k] == 0
    ensures Dot(row, l, n) == 0
  {
    if n > 0 {
      DotZeros(row, l, n - 1);
      assert 0 * l[n - 1] == 0;
    }
  }

  // The constants of the rows.
  function Constants(rows: seq<seq<Cell>>): (s: seq<int>)
    requires forall i :: 0 <= i < |rows| ==> |rows[i]| > 0
    ensures |s| == |rows| && forall i :: 0 <= i < |s| ==> s[i] == rows[i][0].data
  {
    seq(|rows|, i requires 0 <= i < |rows| => rows[i][0].data)
  }

  // Rows that differ from the given ones in their constants only.
  ghost predicate SameCells(rows: seq<seq<Cell>>, rows': seq<seq<Cell>>) {
    |rows| == |rows'| && forall i :: 0 <= i < |rows| ==> |rows'[i]| == |rows[i]| > 0 && rows'[i][1..] == rows[i][1..]
  }

  lemma CompleteSparse(rows: seq<seq<Cell>>, r: nat, p: int)
    requires SparseOk(rows, r, p) && forall i :: 0 <= i < r ==> rows[i] != []
    ensures Complete(DenseRows(rows, r), r, p)
  {
    SparseRowsOk(rows, r, p);
    EmptyTogether(rows, r, p);
  }

  // One term: the cell's logarithm is already known.
  method SubtractTerm(c0: int, data: int, log: int, p: int, ghost k: int, ghost sum: int) returns (c: int)
    requires p > 0 && Eq(c0, k - sum, p)
    ensures 0 <= c < p && Eq(c, k - (sum + data * log), p)
  {
    EqMod(c0 - data * log, p);
    EqRefl(data * log, p);
    EqAdd(c0, k - sum, data * log, data * log, p);
    var z0 := data * log;
    c := c0 - z0;
    c := c % p;
    EqTrans(c, c0 - data * log, k - sum - data * log, p);
  }

  // The constant of row i less the terms of the logarithms before it.
  method SolveRow(rows: array<seq<Cell>>, i: nat, r: nat, p: int) returns (c: int)
    requires p > 1 && rows.Length == r && i < r && (forall k :: 0 <= k < r ==> |rows[k]| > 0)
    requires SparseRowOk(rows[i], i, r, p)
    ensures 0 <= c < p && Eq(c, rows[i][0].data - Dot(DenseOf(rows[i][1..], r), Constants(rows[..]), i), p)
  {
    hide Canon, Eq, Dot, At;
    var rp := rows[i];
    ghost var cells := rp[1..];
    ghost var b := cells[..|cells| - 1];
    ghost var s := Constants(rows[..]);
    SparsePart(rp, i, r, p);
    c := rp[0].data;
    EqRefl(c, p);
    for j := 1 to |rp| - 1
      invariant 0 <= c < p && Eq(c, rp[0].data - CellDot(b[..j - 1], s), p)
    {
      assert b[..j][..j - 1] == b[..j - 1] && b[j - 1] == rp[j];
      c := SubtractTerm(c, rp[j].data, rows[rp[j].ind][0].data, p, rp[0].data, CellDot(b[..j - 1], s));
    }
    assert b[..|rp| - 2] == b;
    CellDotDense(b, s, i, r, p);
    DotSame(DenseOf(cells, r), DenseOf(b, r), s, s, i);
  }

  lemma SparsePart(rp: seq<Cell>, i: nat, r: nat, p: int)
    requires i < r && SparseRowOk(rp, i, r, p) && rp != []
    ensures var cells := rp[1..]; var b := cells[..|cells| - 1];
            && Canon(b, p) && (forall k :: 0 <= k < |b| ==> 0 <= b[k].ind < i)
            && forall k :: 0 <= k < i ==> DenseOf(cells, r)[k] == DenseOf(b, r)[k]
  {
    hide At;
    var cells := rp[1..];
    assert cells[|cells| - 1] == Cell(i, 1);
    forall k | 0 <= k < i ensures DenseOf(cells, r)[k] == DenseOf(cells[..|cells| - 1], r)[k] { AtLast(cells, p, k); }
  }

  /** Sparse back-substitution: the constants become the one vector that satisfies every row. */
  method BackSparse(rows: array<seq<Cell>>, r: nat, p: int)
    requires Prime(p) && p > 1 && rows.Length == r && SparseOk(rows[..], r, p) && forall i :: 0 <= i < r ==> rows[i] != []
    modifies rows
    ensures SameCells(old(rows[..]), rows[..])
    ensures Complete(DenseRows(old(rows[..]), r), r, p) && SatisfiesAll(Constants(rows[..]), DenseRows(old(rows[..]), r), r, p)
    ensures forall i :: 0 <= i < r ==> 0 <= rows[i][0].data < p
  {
    hide Prime, Eq, Dot, SparseRowOk, RowOk, Complete, SolvedTo, At;
    ghost var was := rows[..];
    ghost var dense := DenseRows(was, r);
    CompleteSparse(was, r, p);
    SparseLengths(was, r, p);
    if r == 0 { NothingToSolve(dense, Constants(rows[..]), p); return; }
    FirstSolved(was, r, p);
    for i := 1 to r
      invariant SameCells(was, rows[..]) && (forall k :: i <= k < r ==> rows[k] == was[k])
      invariant SolvedTo(dense, Constants(rows[..]), r, p, i)
    {
      ghost var s := Constants(rows[..]);
      SparseLengths(was, r, p);
      var c := SolveRow(rows, i, r, p);
      DenseRowParts(was[i], s, i, r);
      rows[i] := [Cell(rows[i][0].ind, c)] + rows[i][1..];
      SolvedNext(dense, s, Constants(rows[..]), r, p, i);
    }
    SolvedAll(dense, Constants(rows[..]), r, p);
    SolvedRange(dense, Constants(rows[..]), r, p);
  }

  lemma SparseLengths(rows: seq<seq<Cell>>, r: nat, p: int)
    requires SparseOk(rows, r, p) && forall i :: 0 <= i < r ==> rows[i] != []
    ensures forall i :: 0 <= i < r ==> |rows[i]| > 0 && SparseRowOk(rows[i], i, r, p)
  {}

  lemma SolvedRange(rows: seq<seq<int>>, s: seq<int>, r: nat, p: int)
    requires p > 1 && Complete(rows, r, p) && |s| == r && SolvedTo(rows, s, r, p, r)
    ensures forall i :: 0 <= i < r ==> 0 <= s[i] < p
  {}

  lemma NothingToSolve(rows: seq<seq<int>>, s: seq<int>, p: int)
    requires p > 1 && Complete(rows, 0, p) && |s| == 0
    ensures SatisfiesAll(s, rows, 0, p)
  {}

  // Row 0 is its own solution.
  lemma FirstSolved(rows: seq<seq<Cell>>, r: nat, p: int)
    requires r > 0 && p > 1 && SparseOk(rows, r, p) && (forall i :: 0 <= i < r ==> |rows[i]| > 0)
    requires Complete(DenseRows(rows, r), r, p)
    ensures SolvedTo(DenseRows(rows, r), Constants(rows), r, p, 1)
  {
    EqRefl(rows[0][0].data, p);
    assert DenseRows(rows, r)[0] == DenseRel(rows[0][1..], rows[0][0].data, r);
  }

  lemma DenseRowParts(rp: seq<Cell>, s: seq<int>, i: nat, r: nat)
    requires |rp| > 0 && i <= r == |s|
    ensures |DenseRow(rp, r)| == r + 1 && DenseRow(rp, r)[r] == rp[0].data && Dot(DenseRow(rp, r), s, i) == Dot(DenseOf(rp[1..], r), s, i)
  {
    DotSame(DenseRow(rp, r), DenseOf(rp[1..], r), s, s, i);
  }

  // ---------- dense ----------

  function LastColumn(rows: seq<seq<int>>, r: nat): (s: seq<int>)
    requires forall i :: 0 <= i < |rows| ==> |rows[i]| == r + 1
    ensures |s| == |rows| && forall i :: 0 <= i < |s| ==> s[i] == rows[i][r]
  {
    seq(|rows|, i requires 0 <= i < |rows| => rows[i][r])
  }

  method SolveDenseRow(rows: array<seq<int>>, i: nat, r: nat, p: int) returns (c: int)
    requires p > 1 && rows.Length == r && i < r && (forall k :: 0 <= k < r ==> |rows[k]| == r + 1) && 0 <= rows[i][r] < p
    ensures 0 <= c < p && Eq(c, rows[i][r] - Dot(rows[i], LastColumn(rows[..], r), i), p)
  {
    hide Eq;
    ghost var s := LastColumn(rows[..], r);
    c := rows[i][r];
    EqRefl(c, p);
    for j := 0 to i
      invariant 0 <= c < p && Eq(c, rows[i][r] - Dot(rows[i], s, j), p)
    {
      if rows[i][j] != 0 {
        c := SubtractTerm(c, rows[i][j], rows[j][r], p, rows[i][r], Dot(rows[i], s, j));
      } else {
        assert 0 * s[j] == 0;
      }
    }
  }

  /** Dense back-substitution solves the same system. */
  method BackDense(rows: array<seq<int>>, r: nat, p: int)
    requires p > 1 && rows.Length == r && Complete(rows[..], r, p)
    modifies rows
    ensures forall i :: 0 <= i < r ==> |rows[i]| == r + 1 && rows[i][..r] == old(rows[i][..r]) && 0 <= rows[i][r] < p
    ensures SatisfiesAll(LastColumn(rows[..], r), old(rows[..]), r, p)
  {
    hide Eq, Dot, SolvedTo, Complete;
    ghost var was := rows[..];
    CompleteLengths(was, r, p);
    if r == 0 { NothingToSolve(was, LastColumn(rows[..], r), p); return; }
    FirstSolvedDense(was, r, p);
    for i := 1 to r
      invariant (forall k :: 0 <= k < r ==> |rows[k]| == r + 1 && rows[k][..r] == was[k][..r]) && (forall k :: i <= k < r ==> rows[k] == was[k])
      invariant SolvedTo(was, LastColumn(rows[..], r), r, p, i)
    {
      ghost var s := LastColumn(rows[..], r);
      var c := SolveDenseRow(rows, i, r, p);
      rows[i] := rows[i][r := c];
      SolvedNext(was, s, LastColumn(rows[..], r), r, p, i);
    }
    SolvedAll(was, LastColumn(rows[..], r), r, p);
    SolvedRange(was, LastColumn(rows[..], r), r, p);
  }

  lemma CompleteLengths(rows: seq<seq<int>>, r: nat, p: int)
    requires Complete(rows, r, p)
    ensures |rows| == r && forall i :: 0 <= i < r ==> |rows[i]| == r + 1 && 0 <= rows[i][r] < p
  {}

  lemma FirstSolvedDense(rows: seq<seq<int>>, r: nat, p: int)
    requires r > 0 && p > 1 && Complete(rows, r, p) && forall i :: 0 <= i < |rows| ==> |rows[i]| == r + 1
    ensures SolvedTo(rows, LastColumn(rows, r), r, p, 1)
  {
    EqRefl(rows[0][r], p);
  }
}
