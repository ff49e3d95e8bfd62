/** What reduction keeps (arith/indexcalculus.c): the rows that relations leave say no less than the relations. */
module RelationRows {
  import opened Modular
  import opened Relations
  import opened BackSubstitution
  import opened IndexCalculus

  // ---------- one relation ----------

  function ZeroRel(r: nat): (s: seq<int>)
    ensures |s| == r + 1 && forall k :: 0 <= k <= r ==> s[k] == 0
  {
    seq(r + 1, _ => 0)
  }

  // What is left of a relation when its reduction ends; nothing is left of one that was stored.
  function Left(m: Matrix, rel: seq<int>, r: nat, p: int): (s: seq<int>)
    requires Prime(p) && RowsOk(m.rows, r, p) && RelOk(rel, r, p)
    ensures RelOk(s, r, p) && (TopIndex(s, r) < 0 || TopIndex(s, r) < m.minfound)
    decreases TopIndex(rel, r) + 1
  {
    var i := TopIndex(rel, r);
    PrimeBig(p);
    if i < 0 || i < m.minfound then rel
    else if m.rows[i] == [] then
      TopIs(ZeroRel(r), r, -1);
      ZeroRel(r)
    else
      SubRowOk(rel, m.rows[i], r, p, i);
      Left(m, SubRow(rel, rel[i], m.rows[i], p), r, p)
  }

  lemma {:induction false} DotZero(s: seq<int>, l: seq<int>, n: nat)
    requires n <= |s| && n <= |l| && forall k :: 0 <= k < n ==> s[k] == 0
    ensures Dot(s, l, n) == 0
  {
    if n > 0 {
      DotZero(s, l, n - 1);
      assert 0 * l[n - 1] == 0;
    }
  }

  lemma SatisfiesZero(l: seq<int>, r: nat, p: int)
    requires p > 0 && |l| == r
    ensures Satisfies(l, ZeroRel(r), r, p)
  {
    DotZero(ZeroRel(r), l, r);
    EqRefl(0, p);
  }

  // A relation is satisfied with the row and what the row leaves of it.
  lemma SatisfiesBack(l: seq<int>, rel: seq<int>, c: int, row: seq<int>, r: nat, p: int)
    requires p > 0 && |l| == r && |rel| == r + 1 && |row| == r + 1 && Satisfies(l, SubRow(rel, c, row, p), r, p) && Satisfies(l, row, r, p)
    ensures Satisfies(l, rel, r, p)
  {
    var s := SubRow(rel, c, row, p);
    DotSub(rel, c, row, l, r, p);
    EqMod(rel[r] - c * row[r], p);
    var d, e, f := Dot(s, l, r), Dot(rel, l, r), Dot(row, l, r);
    hide Dot, SubRow;
    Combine3(-1, d - (e - c * f), 1, d - s[r], c, f - row[r], p);
    Combine2(1, -1 * (d - (e - c * f)) + 1 * (d - s[r]) + c * (f - row[r]), 1, s[r] - (rel[r] - c * row[r]), p);
    BackIdentity(d, e, c, f, s[r], row[r], rel[r]);
  }

  lemma BackIdentity(d: int, e: int, c: int, f: int, s: int, y: int, x: int)
    ensures 1 * (-1 * (d - (e - c * f)) + 1 * (d - s) + c * (f - y)) + 1 * (s - (x - c * y)) == e - x
  {}

  lemma NormBack(l: seq<int>, rel: seq<int>, i: nat, r: nat, p: int)
    requires Prime(p) && p > 1 && |l| == r && RelOk(rel, r, p) && i < r && rel[i] != 0
    requires Satisfies(l, NormRow(rel, Inv(rel[i], p), p), r, p)
    ensures Satisfies(l, rel, r, p)
  {
    var inv := Inv(rel[i], p);
    InverseNonzero(rel[i], p);
    hide Inv, Prime;
    var s := NormRow(rel, inv, p);
    DotNorm(rel, inv, l, r, p);
    EqMod(inv * rel[r], p);
    var d, e := Dot(s, l, r), Dot(rel, l, r);
    hide Dot, NormRow;
    EqSym(d, inv * e, p);
    EqTrans(inv * e, d, s[r], p);
    EqTrans(inv * e, s[r], inv * rel[r], p);
    if Eq(inv, 0, p) { EqSmall(inv, 0, p); }
    Cancel(inv, e, rel[r], p);
  }

  // Stored rows stay.
  lemma {:induction false} RowsStay(m: Matrix, rel: seq<int>, r: nat, p: int)
    requires Prime(p) && RowsOk(m.rows, r, p) && RelOk(rel, r, p)
    ensures var rows := Reduce(m, rel, r, p).rows; |rows| == r && forall i :: 0 <= i < r && m.rows[i] != [] ==> rows[i] == m.rows[i]
    decreases TopIndex(rel, r) + 1
  {
    hide Prime, Inv, NormRow, SubRow;
    PrimeBig(p);
    ReduceStep(m, rel, r, p);
    var i := TopIndex(rel, r);
    if i >= 0 && i >= m.minfound && m.rows[i] != [] {
      SubRowOk(rel, m.rows[i], r, p, i);
      RowsStay(m, SubRow(rel, rel[i], m.rows[i], p), r, p);
    }
  }

  lemma RowsBefore(m: Matrix, rel: seq<int>, l: seq<int>, r: nat, p: int)
    requires Prime(p) && p > 1 && RowsOk(m.rows, r, p) && RelOk(rel, r, p) && |l| == r
    requires RowsOk(Reduce(m, rel, r, p).rows, r, p) && SatisfiesAll(l, Reduce(m, rel, r, p).rows, r, p)
    ensures SatisfiesAll(l, m.rows, r, p)
  {
    hide Prime, Reduce, Satisfies;
    RowsStay(m, rel, r, p);
  }

  /** For logarithms that satisfy the rows after a reduction, the relation holds exactly when what is left of it does:
      nothing but a remainder below minfound is dropped. */
  lemma {:induction false} ReduceConverse(m: Matrix, rel: seq<int>, l: seq<int>, r: nat, p: int)
    requires Prime(p) && p > 1 && RowsOk(m.rows, r, p) && RelOk(rel, r, p) && |l| == r
    requires RowsOk(Reduce(m, rel, r, p).rows, r, p) && SatisfiesAll(l, Reduce(m, rel, r, p).rows, r, p)
    ensures Satisfies(l, rel, r, p) <==> Satisfies(l, Left(m, rel, r, p), r, p)
    decreases TopIndex(rel, r) + 1
  {
    hide Satisfies, Inv, Prime, NormRow, SubRow, TopIndex;
    var i := TopIndex(rel, r);
    TopNonzero(rel, r);
    ReduceStep(m, rel, r, p);
    if i >= 0 && i >= m.minfound {
      if m.rows[i] == [] {
        var row := NormRow(rel, Inv(rel[i], p), p);
        assert Reduce(m, rel, r, p).rows[i] == row;
        NormBack(l, rel, i, r, p);
        SatisfiesZero(l, r, p);
      } else {
        var s := SubRow(rel, rel[i], m.rows[i], p);
        SubRowOk(rel, m.rows[i], r, p, i);
        RowsBefore(m, rel, l, r, p);
        ReduceConverse(m, s, l, r, p);
        if Satisfies(l, rel, r, p) { SatisfiesSub(l, rel, rel[i], m.rows[i], r, p); }
        if Satisfies(l, s, r, p) { SatisfiesBack(l, rel, rel[i], m.rows[i], r, p); }
      }
    }
  }

  lemma TopNonzero(rel: seq<int>, r: nat)
    requires r <= |rel|
    ensures TopIndex(rel, r) < r && (TopIndex(rel, r) >= 0 ==> rel[TopIndex(rel, r)] != 0)
  {}

  // ---------- the rows below minfound are all there ----------

  predicate PrefixFull(m: Matrix) { m.minfound <= |m.rows| && forall k :: 0 <= k < m.minfound ==> m.rows[k] != [] }

  lemma {:induction false} PrefixKept(m: Matrix, rel: seq<int>, r: nat, p: int)
    requires Prime(p) && RowsOk(m.rows, r, p) && RelOk(rel, r, p) && PrefixFull(m)
    ensures PrefixFull(Reduce(m, rel, r, p))
    decreases TopIndex(rel, r) + 1
  {
    hide Prime, Inv, SubRow;
    PrimeBig(p);
    ReduceStep(m, rel, r, p);
    var i := TopIndex(rel, r);
    if i >= 0 && i >= m.minfound && m.rows[i] != [] {
      SubRowOk(rel, m.rows[i], r, p, i);
      PrefixKept(m, SubRow(rel, rel[i], m.rows[i], p), r, p);
    }
  }

  lemma {:induction false} DotBelow(s: seq<int>, l: seq<int>, l': seq<int>, n: nat, k: nat, p: int)
    requires p > 0 && n <= |s| && n <= |l| && n <= |l'| && (forall i :: 0 <= i < k && i < n ==> Eq(l[i], l'[i], p))
    requires forall i :: k <= i < n ==> s[i] == 0
    ensures Eq(Dot(s, l, n), Dot(s, l', n), p)
  {
    hide Eq;
    if n == 0 {
      EqRefl(0, p);
    } else {
      DotBelow(s, l, l', n - 1, k, p);
      var j := n - 1;
      if j < k {
        EqRefl(s[j], p);
        EqMul(s[j], s[j], l[j], l'[j], p);
      } else {
        assert s[j] * l[j] == 0 && s[j] * l'[j] == 0;
        EqRefl(0, p);
      }
      EqAdd(Dot(s, l, j), Dot(s, l', j), s[j] * l[j], s[j] * l'[j], p);
    }
  }

  /** Logarithms that satisfy the rows left satisfy the relation, whenever the relation and the rows before have a
      solution at all. */
  lemma {:induction false} ReduceComplete(m: Matrix, rel: seq<int>, l: seq<int>, l0: seq<int>, r: nat, p: int)
    requires Prime(p) && p > 1 && RowsOk(m.rows, r, p) && RelOk(rel, r, p) && |l| == |l0| == r && PrefixFull(m)
    requires RowsOk(Reduce(m, rel, r, p).rows, r, p) && SatisfiesAll(l, Reduce(m, rel, r, p).rows, r, p)
    requires SatisfiesAll(l0, m.rows, r, p) && Satisfies(l0, rel, r, p)
    ensures Satisfies(l, rel, r, p) && SatisfiesAll(l, m.rows, r, p)
  {
    hide Prime, Reduce, Dot, TopIndex, Eq, Satisfies;
    RowsBefore(m, rel, l, r, p);
    ReduceSound(m, rel, l0, r, p);
    ReduceConverse(m, rel, l, r, p);
    ReduceConverse(m, rel, l0, r, p);
    var s := Left(m, rel, r, p);
    hide Left;
    SolutionUnique(m.rows, l, l0, r, p, m.minfound);
    TopZeros(s, r);
    SameDot(s, l, l0, m.minfound, r, p);
  }

  lemma TopZeros(s: seq<int>, r: nat)
    requires r <= |s|
    ensures forall k :: TopIndex(s, r) < k < r ==> s[k] == 0
  {}

  lemma SameDot(s: seq<int>, l: seq<int>, l0: seq<int>, k: nat, r: nat, p: int)
    requires p > 0 && |l| == |l0| == r && |s| == r + 1 && (forall i :: k <= i < r ==> s[i] == 0) && (forall i :: 0 <= i < k && i < r ==> Eq(l[i], l0[i], p))
    requires Satisfies(l0, s, r, p)
    ensures Satisfies(l, s, r, p)
  {
    DotBelow(s, l, l0, r, k, p);
    EqTrans(Dot(s, l, r), Dot(s, l0, r), s[r], p);
  }

  // ---------- all relations ----------

  ghost predicate SolvesRelations(l: seq<int>, rels: seq<Relation>, r: nat, p: int)
    requires p > 1 && |l| == r && Shaped(rels, r)
  {
    forall i :: 0 <= i < |rels| ==> Satisfies(l, ModRel(rels[i], p), r, p)
  }

  lemma {:induction false} RunPrefix(rels: seq<Relation>, r: nat, p: int)
    requires Prime(p) && Shaped(rels, r)
    ensures PrefixFull(Run(rels, r, p))
  {
    hide Prime, Reduce;
    if |rels| > 0 {
      PrimeBig(p);
      ShapedInit(rels, r);
      RunPrefix(rels[..|rels| - 1], r, p);
      PrefixKept(Run(rels[..|rels| - 1], r, p), ModRel(rels[|rels| - 1], p), r, p);
    }
  }

  lemma RunLast(rels: seq<Relation>, r: nat, p: int)
    requires Prime(p) && p > 1 && Shaped(rels, r) && |rels| > 0
    ensures var init, x := rels[..|rels| - 1], rels[|rels| - 1];
            Shaped(init, r) && |x.rel| == r && Run(rels, r, p) == Reduce(Run(init, r, p), ModRel(x, p), r, p)
  {
    ShapedInit(rels, r);
    assert rels == rels[..|rels| - 1] + [rels[|rels| - 1]];
    RunStep(rels[..|rels| - 1], rels[|rels| - 1], r, p);
  }

  lemma SolvesInit(l: seq<int>, rels: seq<Relation>, r: nat, p: int)
    requires p > 1 && |l| == r && Shaped(rels, r) && |rels| > 0 && Shaped(rels[..|rels| - 1], r)
    ensures SolvesRelations(l, rels, r, p)
       <==> SolvesRelations(l, rels[..|rels| - 1], r, p) && Satisfies(l, ModRel(rels[|rels| - 1], p), r, p)
  {
    hide Satisfies;
    var init := rels[..|rels| - 1];
    if SolvesRelations(l, init, r, p) && Satisfies(l, ModRel(rels[|rels| - 1], p), r, p) {
      forall i | 0 <= i < |rels| ensures Satisfies(l, ModRel(rels[i], p), r, p) {
        if i < |init| { assert init[i] == rels[i]; }
      }
    }
    if SolvesRelations(l, rels, r, p) {
      forall i | 0 <= i < |init| ensures Satisfies(l, ModRel(init[i], p), r, p) { assert init[i] == rels[i]; }
    }
  }

  /** Relations that have a solution modulo p, and the rows they leave, have the same solutions. */
  lemma {:induction false} RunEquivalent(rels: seq<Relation>, l: seq<int>, l0: seq<int>, r: nat, p: int)
    requires Prime(p) && p > 1 && Shaped(rels, r) && |l| == |l0| == r && SolvesRelations(l0, rels, r, p)
    ensures SatisfiesAll(l, Run(rels, r, p).rows, r, p) <==> SolvesRelations(l, rels, r, p)
    ensures SatisfiesAll(l0, Run(rels, r, p).rows, r, p)
  {
    hide Prime, Satisfies, SatisfiesAll, SolvesRelations;
    if |rels| == 0 {
      EmptySystem(l, r, p);
      EmptySystem(l0, r, p);
    } else {
      var init, x := rels[..|rels| - 1], rels[|rels| - 1];
      RunLast(rels, r, p);
      SolvesInit(l, rels, r, p);
      SolvesInit(l0, rels, r, p);
      RunEquivalent(init, l, l0, r, p);
      RunPrefix(init, r, p);
      var m := Run(init, r, p);
      hide Run, Reduce, ModRel, PrefixFull;
      ReduceSound(m, ModRel(x, p), l0, r, p);
      if SatisfiesAll(l, Run(rels, r, p).rows, r, p) { ReduceComplete(m, ModRel(x, p), l, l0, r, p); }
      if SolvesRelations(l, rels, r, p) { ReduceSound(m, ModRel(x, p), l, r, p); }
    }
  }

  lemma EmptySystem(l: seq<int>, r: nat, p: int)
    requires Prime(p) && p > 1 && |l| == r
    ensures Shaped([], r) && SatisfiesAll(l, Run([], r, p).rows, r, p) && SolvesRelations(l, [], r, p)
  {}

  // ---------- more relations ----------

  /** Further relations leave a complete system complete. */
  lemma {:induction false} RunGrows(rels: seq<Relation>, more: seq<Relation>, r: nat, p: int)
    requires Prime(p) && p > 1 && Shaped(rels, r) && Shaped(more, r)
    ensures Shaped(rels + more, r)
    ensures Complete(Run(rels, r, p).rows, r, p) ==> Complete(Run(rels + more, r, p).rows, r, p)
  {
    hide Prime, Reduce, Run;
    if |more| == 0 {
      assert rels + more == rels;
    } else {
      var k := |more| - 1;
      ShapedInit(more, r);
      RunGrows(rels, more[..k], r, p);
      var mid := rels + more[..k];
      assert rels + more == mid + [more[k]];
      RunStep(mid, more[k], r, p);
      var m := Run(mid, r, p);
      RowsStay(m, ModRel(more[k], p), r, p);
      ReduceOk(m, ModRel(more[k], p), r, p);
    }
  }
}
