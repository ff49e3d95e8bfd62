/** Elimination of relations modulo a prime (arith/indexcalculus.c): the sparse merge of
    index_calculus_step1 refines the dense subtraction of slow_index_calculus_step1. */
module Elimination {
  import opened Modular

  datatype Cell = Cell(ind: int, data: int)

  // Coefficient k of a sparse row.
  function At(c: seq<Cell>, k: int): int {
    if |c| == 0 then 0 else if c[0].ind == k then c[0].data else At(c[1..], k)
  }

  // Cells are sorted, distinct, nonzero residues.
  predicate Canon(c: seq<Cell>, p: int) {
    && (forall i :: 0 <= i < |c| ==> 0 < c[i].data < p)
    && (forall i, j :: 0 <= i < j < |c| ==> c[i].ind < c[j].ind)
  }

  predicate Above(c: seq<Cell>, k: int) { forall i :: 0 <= i < |c| ==> c[i].ind > k }

  lemma {:induction false} AtAbove(c: seq<Cell>, k: int)
    requires Above(c, k)
    ensures At(c, k) == 0
  {
    if |c| > 0 { AtAbove(c[1..], k); }
  }

  lemma CanonTail(c: seq<Cell>, p: int)
    requires Canon(c, p) && |c| > 0
    ensures Canon(c[1..], p) && Above(c[1..], c[0].ind) && 0 < c[0].data < p
  {}

  lemma CanonCons(h: Cell, c: seq<Cell>, p: int)
    requires Canon(c, p) && Above(c, h.ind) && 0 < h.data < p
    ensures Canon([h] + c, p)
  {}

  // x - z y on residues, as the merge computes it
  function Minus(x: int, z: int, y: int, p: int): int
    requires p > 0
  {
    var z1 := (z * y) % p;
    if z1 > x then x + (p - z1) else x - z1
  }

  // -z y on residues
  function Negated(z: int, y: int, p: int): int
    requires p > 0
  {
    p - (z * y) % p
  }

  predicate Vanishes(x: int, z: int, y: int, p: int)
    requires p > 0
  {
    (z * y) % p == x
  }

  /** The sparse row a - z b. */
  function Merge(a: seq<Cell>, b: seq<Cell>, z: int, p: int): seq<Cell>
    requires p > 0
    decreases |a| + |b|
  {
    if |b| == 0 then a
    else if |a| == 0 || a[0].ind > b[0].ind then [Cell(b[0].ind, Negated(z, b[0].data, p))] + Merge(a, b[1..], z, p)
    else if a[0].ind < b[0].ind then [a[0]] + Merge(a[1..], b, z, p)
    else if Vanishes(a[0].data, z, b[0].data, p) then Merge(a[1..], b[1..], z, p)
    else [Cell(a[0].ind, Minus(a[0].data, z, b[0].data, p))] + Merge(a[1..], b[1..], z, p)
  }

  lemma MinusValue(x: int, z: int, y: int, p: int)
    requires p > 0 && 0 <= x < p
    ensures Minus(x, z, y, p) == (x - z * y) % p
  {
    EqMod(z * y, p);
    var k := EqElim((z * y) % p, z * y, p);
    var r := Minus(x, z, y, p);
    if (z * y) % p > x {
      EqIntro(r, x - z * y, 1 - k, p) by { ShiftOne(k, p); }
    } else {
      EqIntro(r, x - z * y, -k, p) by { ShiftOne(k, p); }
    }
    EqIffMod(r, x - z * y, p);
    SmallMod(r, p);
  }

  lemma ShiftOne(k: int, p: int)
    ensures (1 - k) * p == p - k * p && -k * p == -(k * p)
  {}

  lemma NonzeroTimes(z: int, y: int, p: int)
    requires Prime(p) && 0 < z < p && 0 < y < p
    ensures 0 < (z * y) % p < p
  {
    if Eq(z, 0, p) { EqSmall(z, 0, p); }
    if Eq(y, 0, p) { EqSmall(y, 0, p); }
    NonzeroProduct(z, y, p);
    EqMod(z * y, p);
  }

  lemma {:induction false} MergeAbove(a: seq<Cell>, b: seq<Cell>, z: int, p: int, k: int)
    requires p > 0 && Above(a, k) && Above(b, k)
    ensures Above(Merge(a, b, z, p), k)
    decreases |a| + |b|
  {
    if |b| == 0 {
    } else if |a| == 0 || a[0].ind > b[0].ind {
      MergeAbove(a, b[1..], z, p, k);
    } else if a[0].ind == b[0].ind {
      MergeAbove(a[1..], b[1..], z, p, k);
    } else {
      MergeAbove(a[1..], b, z, p, k);
    }
  }

  lemma {:induction false} MergeCanon(a: seq<Cell>, b: seq<Cell>, z: int, p: int)
    requires Prime(p) && 0 < z < p && Canon(a, p) && Canon(b, p)
    ensures Canon(Merge(a, b, z, p), p)
    decreases |a| + |b|
  {
    hide Prime, Merge;
    PrimeBig(p);
    MergeUnfold(a, b, z, p);
    if |a| > 0 { CanonTail(a, p); }
    if |b| == 0 {
    } else {
      CanonTail(b, p);
      NonzeroTimes(z, b[0].data, p);
      if |a| == 0 || a[0].ind > b[0].ind {
        MergeCanon(a, b[1..], z, p);
        MergeAbove(a, b[1..], z, p, b[0].ind);
        CanonCons(Cell(b[0].ind, Negated(z, b[0].data, p)), Merge(a, b[1..], z, p), p);
      } else if a[0].ind == b[0].ind {
        MergeCanon(a[1..], b[1..], z, p);
        MergeAbove(a[1..], b[1..], z, p, a[0].ind);
        if !Vanishes(a[0].data, z, b[0].data, p) {
          MinusCases(a[0].data, z, b[0].data, p);
          CanonCons(Cell(a[0].ind, Minus(a[0].data, z, b[0].data, p)), Merge(a[1..], b[1..], z, p), p);
        }
      } else {
        MergeCanon(a[1..], b, z, p);
        MergeAbove(a[1..], b, z, p, a[0].ind);
        CanonCons(a[0], Merge(a[1..], b, z, p), p);
      }
    }
  }

  lemma MergeUnfold(a: seq<Cell>, b: seq<Cell>, z: int, p: int)
    requires p > 0
    ensures |b| == 0 ==> Merge(a, b, z, p) == a
    ensures |b| > 0 && (|a| == 0 || a[0].ind > b[0].ind)
            ==> Merge(a, b, z, p) == [Cell(b[0].ind, Negated(z, b[0].data, p))] + Merge(a, b[1..], z, p)
    ensures |b| > 0 && |a| > 0 && a[0].ind == b[0].ind && Vanishes(a[0].data, z, b[0].data, p) ==> Merge(a, b, z, p) == Merge(a[1..], b[1..], z, p)
    ensures |b| > 0 && |a| > 0 && a[0].ind == b[0].ind && !Vanishes(a[0].data, z, b[0].data, p)
            ==> Merge(a, b, z, p) == [Cell(a[0].ind, Minus(a[0].data, z, b[0].data, p))] + Merge(a[1..], b[1..], z, p)
    ensures |b| > 0 && |a| > 0 && a[0].ind < b[0].ind ==> Merge(a, b, z, p) == [a[0]] + Merge(a[1..], b, z, p)
  {
    hide Vanishes, Negated, Minus;
  }

  lemma AtCons(h: Cell, c: seq<Cell>, k: int)
    ensures At([h] + c, k) == if h.ind == k then h.data else At(c, k)
  {
    assert ([h] + c)[1..] == c;
  }

  lemma MinusZero(x: int, z: int, p: int)
    requires p > 0 && 0 <= x < p
    ensures (x - z * 0) % p == x
  {
    SmallMod(x, p);
    assert z * 0 == 0;
  }

  lemma CanonAt(c: seq<Cell>, p: int, k: int)
    requires Canon(c, p) && p > 0
    ensures 0 <= At(c, k) < p
  {
    if |c| > 0 { CanonAt(c[1..], p, k); }
  }

  /** Cell for cell, the merge is the dense subtraction. */
  lemma {:induction false} MergeAt(a: seq<Cell>, b: seq<Cell>, z: int, p: int, k: int)
    requires Prime(p) && 0 < z < p && Canon(a, p) && Canon(b, p)
    ensures At(Merge(a, b, z, p), k) == (At(a, k) - z * At(b, k)) % p
    decreases |a| + |b|
  {
    hide Prime, Merge, Minus, At, Negated, Vanishes, Canon;
    PrimeBig(p);
    MergeUnfold(a, b, z, p);
    CanonAt(a, p, k);
    if |a| > 0 { CanonTail(a, p); }
    if |b| == 0 {
      AtUnfold(b, k);
      MinusZero(At(a, k), z, p);
    } else {
      CanonTail(b, p);
      if |a| == 0 || a[0].ind > b[0].ind {
        MergeAt(a, b[1..], z, p, k);
        InsertedAt(a, b, z, p, k);
      } else if a[0].ind == b[0].ind {
        MergeAt(a[1..], b[1..], z, p, k);
        MergeAbove(a[1..], b[1..], z, p, a[0].ind);
        CombinedAt(a, b, Merge(a[1..], b[1..], z, p), z, p, k);
      } else {
        MergeAt(a[1..], b, z, p, k);
        SkippedAt(a, b, Merge(a[1..], b, z, p), z, p, k);
      }
    }
  }

  lemma InsertedAt(a: seq<Cell>, b: seq<Cell>, z: int, p: int, k: int)
    requires Prime(p) && p > 0 && 0 < z < p && Canon(a, p) && Canon(b, p) && |b| > 0 && (|a| == 0 || a[0].ind > b[0].ind)
    requires At(Merge(a, b[1..], z, p), k) == (At(a, k) - z * At(b[1..], k)) % p
    ensures At([Cell(b[0].ind, Negated(z, b[0].data, p))] + Merge(a, b[1..], z, p), k) == (At(a, k) - z * At(b, k)) % p
  {
    hide Prime, Merge, At;
    AtCons(Cell(b[0].ind, Negated(z, b[0].data, p)), Merge(a, b[1..], z, p), k);
    AtUnfold(b, k);
    if b[0].ind == k {
      AtAbove(a, k);
      NonzeroTimes(z, b[0].data, p);
      NegResidue(z * b[0].data, p);
    }
  }

  lemma CombinedAt(a: seq<Cell>, b: seq<Cell>, rest: seq<Cell>, z: int, p: int, k: int)
    requires p > 0 && Canon(a, p) && Canon(b, p) && |a| > 0 && |b| > 0 && a[0].ind == b[0].ind && Above(rest, a[0].ind)
    requires At(rest, k) == (At(a[1..], k) - z * At(b[1..], k)) % p
    ensures At(if Vanishes(a[0].data, z, b[0].data, p) then rest else [Cell(a[0].ind, Minus(a[0].data, z, b[0].data, p))] + rest, k)
         == (At(a, k) - z * At(b, k)) % p
  {
    hide At, Minus;
    AtUnfold(a, k);
    AtUnfold(b, k);
    AtCons(Cell(a[0].ind, Minus(a[0].data, z, b[0].data, p)), rest, k);
    if a[0].ind == k {
      MinusValue(a[0].data, z, b[0].data, p);
      if Vanishes(a[0].data, z, b[0].data, p) {
        AtAbove(rest, k);
        MinusEqual(a[0].data, z, b[0].data, p);
      }
    }
  }

  lemma SkippedAt(a: seq<Cell>, b: seq<Cell>, rest: seq<Cell>, z: int, p: int, k: int)
    requires p > 0 && Canon(a, p) && Canon(b, p) && |a| > 0 && |b| > 0 && a[0].ind < b[0].ind
    requires At(rest, k) == (At(a[1..], k) - z * At(b, k)) % p
    ensures At([a[0]] + rest, k) == (At(a, k) - z * At(b, k)) % p
  {
    hide At;
    AtUnfold(a, k);
    AtCons(a[0], rest, k);
    if a[0].ind == k { AtAbove(b, k); MinusZero(a[0].data, z, p); }
  }

  lemma AtUnfold(c: seq<Cell>, k: int)
    ensures At(c, k) == if |c| == 0 then 0 else if c[0].ind == k then c[0].data else At(c[1..], k)
  {}

  lemma MinusEqual(x: int, z: int, y: int, p: int)
    requires p > 0 && 0 <= x < p && (z * y) % p == x
    ensures (x - z * y) % p == 0
  {
    EqMod(z * y, p);
  }

  lemma NegResidue(w: int, p: int)
    requires p > 0 && 0 < w % p
    ensures (0 - w) % p == p - w % p
  {
    EqMod(w, p);
    var k := EqElim(w % p, w, p);
    ShiftOne(k, p);
    EqIntro(p - w % p, 0 - w, 1 - k, p);
    EqIffMod(p - w % p, 0 - w, p);
    SmallMod(p - w % p, p);
  }

  // ---------- the merge in place ----------

  // Sorted distinct indices below r number at most r.
  lemma {:induction false} CanonLength(c: seq<Cell>, p: int, r: nat)
    requires Canon(c, p) && forall i :: 0 <= i < |c| ==> 0 <= c[i].ind < r
    ensures |c| <= r
    decreases |c|
  {
    if |c| > 0 {
      var n := |c| - 1;
      CanonLength(c[..n], p, c[n].ind);
    }
  }

  method DeleteAt(relm: array<Cell>, i: nat, count: nat)
    requires i < count <= relm.Length
    modifies relm
    ensures relm[..count - 1] == old(relm[..i]) + old(relm[i + 1..count])
  {
    var cpi := relm[i];
    forall k | i <= k < count - 1 { relm[k] := relm[k + 1]; }
    relm[count - 1] := cpi;
  }

  method InsertAt(relm: array<Cell>, i: nat, count: nat, cell: Cell)
    requires i <= count < relm.Length
    modifies relm
    ensures relm[..count + 1] == old(relm[..i]) + [cell] + old(relm[i..count])
  {
    forall k | i < k <= count { relm[k] := relm[k - 1]; }
    relm[i] := cell;
  }

  // What the loop has put in place: part i of the cells is final, the rest is still to be merged.
  ghost predicate Placed(s: seq<Cell>, i: nat, b: seq<Cell>, j: nat, all: seq<Cell>, z: int, p: int, r: nat)
    requires p > 0
  {
    && i <= |s| && j <= |b| && Canon(s, p) && Canon(b, p)
    && (forall k :: 0 <= k < |s| ==> 0 <= s[k].ind < r)
    && (forall k :: 0 <= k < |b| ==> 0 <= b[k].ind < r)
    && (j < |b| ==> forall k :: 0 <= k < i ==> s[k].ind < b[j].ind)
    && s[..i] + Merge(s[i..], b[j..], z, p) == all
  }

  lemma PlacedLength(s: seq<Cell>, i: nat, b: seq<Cell>, j: nat, all: seq<Cell>, z: int, p: int, r: nat)
    requires p > 0 && Placed(s, i, b, j, all, z, p, r)
    ensures |s| <= r
  {
    hide Merge;
    CanonLength(s, p, r);
  }

  // The four branches of the loop.
  lemma PlacedDelete(s: seq<Cell>, i: nat, b: seq<Cell>, j: nat, all: seq<Cell>, z: int, p: int, r: nat)
    requires p > 0 && Placed(s, i, b, j, all, z, p, r) && i < |s| && j < |b| && s[i].ind == b[j].ind && Vanishes(s[i].data, z, b[j].data, p)
    ensures Placed(s[..i] + s[i + 1..], i, b, j + 1, all, z, p, r)
  {
    hide Merge;
    MergeUnfold(s[i..], b[j..], z, p);
    var t := s[..i] + s[i + 1..];
    assert t[..i] == s[..i] && t[i..] == s[i..][1..] && b[j..][1..] == b[j + 1..];
  }

  lemma PlacedReplace(s: seq<Cell>, i: nat, b: seq<Cell>, j: nat, all: seq<Cell>, z: int, p: int, r: nat, v: int)
    requires p > 0 && Placed(s, i, b, j, all, z, p, r) && i < |s| && j < |b| && s[i].ind == b[j].ind && !Vanishes(s[i].data, z, b[j].data, p)
    requires v == Minus(s[i].data, z, b[j].data, p) && 0 < v < p
    ensures Placed(s[i := Cell(s[i].ind, v)], i + 1, b, j + 1, all, z, p, r)
  {
    hide Merge;
    MergeUnfold(s[i..], b[j..], z, p);
    var t := s[i := Cell(s[i].ind, v)];
    assert t[..i + 1] == s[..i] + [Cell(s[i].ind, v)] && t[i + 1..] == s[i..][1..] && b[j..][1..] == b[j + 1..];
    assert s[..i] + ([Cell(s[i].ind, v)] + Merge(t[i + 1..], b[j + 1..], z, p)) == t[..i + 1] + Merge(t[i + 1..], b[j + 1..], z, p);
  }

  lemma PlacedInsert(s: seq<Cell>, i: nat, b: seq<Cell>, j: nat, all: seq<Cell>, z: int, p: int, r: nat, v: int)
    requires p > 0 && Placed(s, i, b, j, all, z, p, r) && i <= |s| && j < |b| && (i == |s| || s[i].ind > b[j].ind)
    requires v == Negated(z, b[j].data, p) && 0 < v < p
    ensures Placed(s[..i] + [Cell(b[j].ind, v)] + s[i..], i + 1, b, j + 1, all, z, p, r)
  {
    hide Merge, Negated;
    MergeUnfold(s[i..], b[j..], z, p);
    var c := Cell(b[j].ind, v);
    var t := s[..i] + [c] + s[i..];
    assert t[..i + 1] == s[..i] + [c] && t[i + 1..] == s[i..] && b[j..][1..] == b[j + 1..];
    assert s[..i] + ([c] + Merge(s[i..], b[j + 1..], z, p)) == t[..i + 1] + Merge(t[i + 1..], b[j + 1..], z, p);
    InsertCanon(s, i, c, p, r);
  }

  // A cell put in its place keeps a row canonical.
  lemma InsertCanon(s: seq<Cell>, i: nat, c: Cell, p: int, r: nat)
    requires Canon(s, p) && i <= |s| && 0 < c.data < p && 0 <= c.ind < r && (forall k :: 0 <= k < |s| ==> 0 <= s[k].ind < r)
    requires (forall k :: 0 <= k < i ==> s[k].ind < c.ind) && (i == |s| || s[i].ind > c.ind)
    ensures var t := s[..i] + [c] + s[i..];
            Canon(t, p) && (forall k :: 0 <= k < |t| ==> 0 <= t[k].ind < r) && forall k :: 0 <= k < i + 1 ==> t[k].ind <= c.ind
  {
    var t := s[..i] + [c] + s[i..];
    assert forall k :: 0 <= k < i ==> t[k] == s[k];
    assert t[i] == c;
    assert forall k :: i < k < |t| ==> t[k] == s[k - 1];
    forall k | i <= k < |s| ensures s[k].ind > c.ind {
      if k > i { assert s[i].ind < s[k].ind; }
    }
  }

  lemma PlacedSkip(s: seq<Cell>, i: nat, b: seq<Cell>, j: nat, all: seq<Cell>, z: int, p: int, r: nat)
    requires p > 0 && Placed(s, i, b, j, all, z, p, r) && i < |s| && j < |b| && s[i].ind < b[j].ind
    ensures Placed(s, i + 1, b, j, all, z, p, r)
  {
    hide Merge;
    MergeUnfold(s[i..], b[j..], z, p);
    assert s[..i + 1] == s[..i] + [s[i]] && s[i + 1..] == s[i..][1..];
    assert s[..i] + ([s[i]] + Merge(s[i + 1..], b[j..], z, p)) == s[..i + 1] + Merge(s[i + 1..], b[j..], z, p);
  }

  lemma PlacedDone(s: seq<Cell>, i: nat, b: seq<Cell>, all: seq<Cell>, z: int, p: int, r: nat)
    requires p > 0 && Placed(s, i, b, |b|, all, z, p, r)
    ensures s == all
  {
    hide Merge;
    MergeUnfold(s[i..], b[|b|..], z, p);
    assert s[..i] + s[i..] == s;
  }

  lemma PlacedStart(a: seq<Cell>, b: seq<Cell>, z: int, p: int, r: nat)
    requires p > 0 && Canon(a, p) && Canon(b, p)
    requires (forall k :: 0 <= k < |a| ==> 0 <= a[k].ind < r) && (forall k :: 0 <= k < |b| ==> 0 <= b[k].ind < r)
    ensures Placed(a, 0, b, 0, Merge(a, b, z, p), z, p, r)
  {
    hide Merge;
    assert a[..0] == [] && a[0..] == a && b[0..] == b;
    assert [] + Merge(a, b, z, p) == Merge(a, b, z, p);
  }

  /** The merge loop of index_calculus_step1: the cells a become the cells of a - z b. */
  method MergeCells(relm: array<Cell>, count0: nat, b: seq<Cell>, z0: int, p: int, ghost r: nat) returns (count: nat)
    requires Prime(p) && 0 < z0 < p && count0 <= relm.Length && r < relm.Length
    requires Canon(relm[..count0], p) && Canon(b, p)
    requires forall k :: 0 <= k < count0 ==> 0 <= relm[k].ind < r
    requires forall k :: 0 <= k < |b| ==> 0 <= b[k].ind < r
    modifies relm
    ensures count <= relm.Length && relm[..count] == Merge(old(relm[..count0]), b, z0, p)
  {
    hide Prime, Merge, Placed, Minus, Canon;
    PrimeBig(p);
    count := count0;
    ghost var all := Merge(relm[..count], b, z0, p);
    PlacedStart(relm[..count], b, z0, p, r);
    var i, j := 0, 0;
    while i < count && j < |b|
      invariant i <= count <= relm.Length && j <= |b|
      invariant Placed(relm[..count], i, b, j, all, z0, p, r)
      decreases |b| - j, count - i
    {
      var cpi, cpj := relm[i], b[j];
      ghost var s := relm[..count];
      CellBounds(s, i, b, j, all, z0, p, r);
      NonzeroTimes(z0, cpj.data, p);
      PlacedLength(s, i, b, j, all, z0, p, r);
      if cpi.ind == cpj.ind {
        var z1 := (z0 * cpj.data) % p;
        if z1 == cpi.data {
          PlacedDelete(s, i, b, j, all, z0, p, r);
          assert s[..i] == relm[..i] && s[i + 1..] == relm[i + 1..count];
          DeleteAt(relm, i, count);
          count := count - 1;
        } else {
          MinusCases(cpi.data, z0, cpj.data, p);
          if z1 > cpi.data {
            z1 := p - z1;
            relm[i] := Cell(cpi.ind, cpi.data + z1);
          } else {
            relm[i] := Cell(cpi.ind, cpi.data - z1);
          }
          PlacedReplace(s, i, b, j, all, z0, p, r, relm[i].data);
          assert relm[..count] == s[i := relm[i]];
          i := i + 1;
        }
        j := j + 1;
      } else if cpi.ind > cpj.ind {
        var z1 := (z0 * cpj.data) % p;
        PlacedInsert(s, i, b, j, all, z0, p, r, p - z1);
        assert s[..i] == relm[..i] && s[i..] == relm[i..count];
        InsertAt(relm, i, count, Cell(cpj.ind, p - z1));
        count := count + 1;
        i := i + 1;
        j := j + 1;
      } else {
        PlacedSkip(s, i, b, j, all, z0, p, r);
        i := i + 1;
      }
    }
    if i == count {
      count := AppendRest(relm, count, b, j, z0, p, all, r);
    } else {
      PlacedDone(relm[..count], i, b, all, z0, p, r);
    }
  }

  // The cells of b past the end of a.
  method AppendRest(relm: array<Cell>, count0: nat, b: seq<Cell>, j0: nat, z0: int, p: int, ghost all: seq<Cell>, ghost r: nat) returns (count: nat)
    requires Prime(p) && 0 < z0 < p && p > 0 && count0 <= relm.Length && r < relm.Length && j0 <= |b|
    requires Placed(relm[..count0], count0, b, j0, all, z0, p, r)
    modifies relm
    ensures count <= relm.Length && relm[..count] == all
  {
    hide Prime, Merge, Placed, Minus, Canon;
    count := count0;
    var j := j0;
    while j < |b|
      invariant count <= relm.Length && j <= |b| && Placed(relm[..count], count, b, j, all, z0, p, r)
    {
      ghost var s := relm[..count];
      RestBounds(s, b, j, all, z0, p, r);
      NonzeroTimes(z0, b[j].data, p);
      PlacedLength(s, count, b, j, all, z0, p, r);
      var z1 := (z0 * b[j].data) % p;
      PlacedInsert(s, count, b, j, all, z0, p, r, p - z1);
      relm[count] := Cell(b[j].ind, p - z1);
      assert relm[..count + 1] == s[..count] + [Cell(b[j].ind, p - z1)] + s[count..];
      count := count + 1;
      j := j + 1;
    }
    PlacedDone(relm[..count], count, b, all, z0, p, r);
  }

  lemma CellBounds(s: seq<Cell>, i: nat, b: seq<Cell>, j: nat, all: seq<Cell>, z: int, p: int, r: nat)
    requires p > 0 && Placed(s, i, b, j, all, z, p, r) && i < |s| && j < |b|
    ensures 0 < s[i].data < p && 0 < b[j].data < p
  {}

  lemma RestBounds(s: seq<Cell>, b: seq<Cell>, j: nat, all: seq<Cell>, z: int, p: int, r: nat)
    requires p > 0 && Placed(s, |s|, b, j, all, z, p, r) && j < |b|
    ensures 0 < b[j].data < p
  {}

  lemma MinusCases(x: int, z: int, y: int, p: int)
    requires p > 0 && 0 < x < p && 0 < (z * y) % p < p && (z * y) % p != x
    ensures Minus(x, z, y, p) == (if (z * y) % p > x then x + (p - (z * y) % p) else x - (z * y) % p)
    ensures 0 < Minus(x, z, y, p) < p
  {}
}
