/** The inline carry loops of the GMP header (PBCVC/gmp.h), for operands of different sizes and
    for single limbs, with the destination equal to a source or separate. */
module Gmp {
  import opened Limbs

  // Limbs below i are done with a pending carry or borrow c of weight sign; the source is intact from i on.
  ghost predicate Pending(w: seq<Limb>, x: seq<Limb>, x0: seq<Limb>, i: nat, n: nat, c: int, y: int, sign: int) {
    && i <= n <= |w| && n <= |x| == |x0| && x[i..n] == x0[i..n]
    && Value(w[..i]) + sign * (c * Pw(i)) == Value(x0[..i]) + sign * y
  }

  // One more limb absorbs or passes on the carry.
  lemma PendingStep(w: seq<Limb>, w': seq<Limb>, x: seq<Limb>, x': seq<Limb>, x0: seq<Limb>, i: nat, n: nat, c: int, y: int, sign: int, z: Limb)
    requires Pending(w, x, x0, i, n, 1, y, sign) && i < n && |w'| == |w| && |x'| == |x|
    requires w'[..i] == w[..i] && w'[i] == z && x'[i + 1..n] == x[i + 1..n]
    requires z + sign * (c * BASE) == x[i] + sign
    ensures Pending(w', x', x0, i + 1, n, c, y, sign)
  {
    hide Value, Pw;
    assert x[i] == x[i..n][0] == x0[i];
    assert x[i + 1..n] == x[i..n][1..] && x0[i + 1..n] == x0[i..n][1..];
    PrefixStep(w', i);
    PrefixStep(x0, i);
    PwStep(i);
    PendingSum(Value(w[..i]), Value(x0[..i]), Pw(i), sign, c, y, z, x0[i]);
  }

  lemma PwStep(i: nat)
    ensures Pw(i + 1) == BASE * Pw(i)
  {}

  lemma PendingSum(w: int, x: int, p: int, sign: int, c: int, y: int, z: int, l: int)
    requires w + sign * (1 * p) == x + sign * y && z + sign * (c * BASE) == l + sign
    ensures (w + z * p) + sign * (c * (BASE * p)) == (x + l * p) + sign * y
  {
    assert (z + sign * (c * BASE)) * p == z * p + sign * (c * (BASE * p));
    assert (l + sign) * p == l * p + sign * (1 * p);
  }

  // __GMPN_COPY_REST
  method CopyRest(dst: array<Limb>, src: array<Limb>, n: nat, i: nat)
    requires i <= n <= dst.Length && n <= src.Length && dst != src
    modifies dst
    ensures dst[..i] == old(dst[..i]) && dst[i..n] == src[i..n] && dst[n..] == old(dst[n..])
  {
    forall k | i <= k < n { dst[k] := src[k]; }
  }

  // Nothing pending and the rest copied: the exact result.
  lemma Finished(w: seq<Limb>, x0: seq<Limb>, i: nat, n: nat, y: int, sign: int)
    requires i <= n <= |w| && n <= |x0| && w[i..n] == x0[i..n] && Value(w[..i]) == Value(x0[..i]) + sign * y
    ensures Value(w[..n]) == Value(x0[..n]) + sign * y
  {
    hide Value, Pw;
    ValueSplit(w[..n], i);
    ValueSplit(x0[..n], i);
    assert w[..n][..i] == w[..i] && x0[..n][..i] == x0[..i];
    assert w[..n][i..] == w[i..n] && x0[..n][i..] == x0[i..n];
  }

  // The ripple of __GMPN_AORS: pass the carry on while limbs overflow, then copy what is left.
  method Ripple(wp: array<Limb>, xp: array<Limb>, xsize: nat, i0: nat, sign: int, ghost x0: seq<Limb>, ghost y: int) returns (cout: int)
    requires (sign == 1 || sign == -1) && xsize <= wp.Length && xsize <= xp.Length
    requires Pending(wp[..], xp[..], x0, i0, xsize, 1, y, sign)
    modifies wp
    ensures 0 <= cout <= 1 && wp[xsize..] == old(wp[xsize..])
    ensures Value(wp[..xsize]) + sign * (cout * Pw(xsize)) == Value(x0[..xsize]) + sign * y
  {
    hide Value, Pw, Pending;
    var i := i0;
    PendingBounds(wp[..], xp[..], x0, i, xsize, 1, y, sign);
    var pending := 1;
    while pending == 1
      invariant 0 <= pending <= 1 && 0 <= i <= xsize && wp[xsize..] == old(wp[xsize..])
      invariant Pending(wp[..], xp[..], x0, i, xsize, pending, y, sign)
      decreases pending, xsize - i
    {
      if i >= xsize {
        PendingAll(wp[..], xp[..], x0, xsize, y, sign);
        assert wp[..xsize] == wp[..][..xsize];
        return 1;
      }
      var x := xp[i];
      ghost var w, s := wp[..], xp[..];
      wp[i] := (x + sign) % BASE;
      pending := if sign == 1 then (if wp[i] == 0 then 1 else 0) else (if x == 0 then 1 else 0);
      assert wp[xsize..] == w[xsize..];
      PendingStep(w, wp[..], s, xp[..], x0, i, xsize, pending, y, sign, wp[i]);
      i := i + 1;
    }
    PendingBounds(wp[..], xp[..], x0, i, xsize, 0, y, sign);
    ghost var low := wp[..i];
    if wp != xp { CopyRest(wp, xp, xsize, i); }
    assert wp[..][..i] == low && wp[..][i..xsize] == xp[i..xsize] == x0[i..xsize];
    Finished(wp[..], x0, i, xsize, y, sign);
    assert wp[..xsize] == wp[..][..xsize];
    cout := 0;
  }

  lemma PendingBounds(w: seq<Limb>, x: seq<Limb>, x0: seq<Limb>, i: nat, n: nat, c: int, y: int, sign: int)
    requires Pending(w, x, x0, i, n, c, y, sign)
    ensures i <= n <= |w| && n <= |x| == |x0| && x[i..n] == x0[i..n]
    ensures c == 0 ==> Value(w[..i]) == Value(x0[..i]) + sign * y
  {
    assert sign * (0 * Pw(i)) == 0;
  }

  lemma PendingAll(w: seq<Limb>, x: seq<Limb>, x0: seq<Limb>, n: nat, y: int, sign: int)
    requires Pending(w, x, x0, n, n, 1, y, sign)
    ensures n <= |w| && n <= |x0| && Value(w[..n]) + sign * (1 * Pw(n)) == Value(x0[..n]) + sign * y
  {}

  /** __GMPN_ADD: the exact sum of operands of different sizes, wp equal to xp or yp or separate. */
  method Add(wp: array<Limb>, xp: array<Limb>, xsize: nat, yp: array<Limb>, ysize: nat) returns (cout: int)
    requires ysize <= xsize <= wp.Length && xsize <= xp.Length && ysize <= yp.Length
    modifies wp
    ensures 0 <= cout <= 1 && wp[xsize..] == old(wp[xsize..])
    ensures Value(wp[..xsize]) + cout * Pw(xsize) == old(Value(xp[..xsize]) + Value(yp[..ysize]))
  {
    hide Value, Pw;
    ghost var x0, y := xp[..], Value(yp[..ysize]);
    ghost var tail := wp[xsize..];
    assert xp[..xsize] == x0[..xsize];
    var carry := 0;
    if ysize != 0 {
      ghost var rest := wp[ysize..];
      assert rest[xsize - ysize..] == tail;
      assert xp[..ysize] == x0[..ysize];
      carry := AddN(wp, xp, yp, ysize);
      assert wp[xsize..] == wp[ysize..][xsize - ysize..];
      assert wp == xp ==> xp[ysize..xsize] == rest[..xsize - ysize];
    } else {
      NoLimbs(wp[..], x0, yp[..]);
      assert yp[..0] == yp[..][..0];
    }
    assert wp[..ysize] == wp[..][..ysize];
    assert xp[..][ysize..xsize] == x0[ysize..xsize];
    if carry == 1 {
      Times1(Pw(ysize), y);
      cout := Ripple(wp, xp, xsize, ysize, 1, x0, y);
      Times1(cout * Pw(xsize), y);
    } else {
      Times0(Pw(ysize));
      if wp != xp { ghost var low := wp[..ysize]; CopyRest(wp, xp, xsize, ysize); assert wp[..][..ysize] == low; }
      assert wp[..][ysize..xsize] == x0[ysize..xsize];
      Finished(wp[..], x0, ysize, xsize, y, 1);
      assert wp[..xsize] == wp[..][..xsize];
      Times0(Pw(xsize));
      cout := 0;
    }
  }

  lemma Times1(p: int, y: int)
    ensures 1 * (1 * p) == p && 1 * p == p && 1 * y == y && -1 * (1 * p) == -p && -1 * p == -p && -1 * y == -y
  {}

  lemma Times0(p: int)
    ensures 0 * p == 0
  {}

  lemma NoLimbs(w: seq<Limb>, x: seq<Limb>, y: seq<Limb>)
    ensures Value(w[..0]) == 0 && Value(x[..0]) == 0 && Value(y[..0]) == 0
  {}

  /** __GMPN_SUB: the exact difference with its borrow. */
  method Sub(wp: array<Limb>, xp: array<Limb>, xsize: nat, yp: array<Limb>, ysize: nat) returns (cout: int)
    requires ysize <= xsize <= wp.Length && xsize <= xp.Length && ysize <= yp.Length
    modifies wp
    ensures 0 <= cout <= 1 && wp[xsize..] == old(wp[xsize..])
    ensures Value(wp[..xsize]) - cout * Pw(xsize) == old(Value(xp[..xsize]) - Value(yp[..ysize]))
  {
    hide Value, Pw;
    ghost var x0, y := xp[..], Value(yp[..ysize]);
    ghost var tail := wp[xsize..];
    assert xp[..xsize] == x0[..xsize];
    var borrow := 0;
    if ysize != 0 {
      ghost var rest := wp[ysize..];
      assert rest[xsize - ysize..] == tail;
      assert xp[0..0 + ysize] == x0[..ysize];
      borrow := SubN(wp, xp, 0, yp, ysize);
      assert wp[xsize..] == wp[ysize..][xsize - ysize..];
      assert wp == xp ==> xp[ysize..xsize] == rest[..xsize - ysize];
    } else {
      NoLimbs(wp[..], x0, yp[..]);
      assert yp[..0] == yp[..][..0];
    }
    assert wp[..ysize] == wp[..][..ysize];
    assert xp[..][ysize..xsize] == x0[ysize..xsize];
    if borrow == 1 {
      Times1(Pw(ysize), y);
      cout := Ripple(wp, xp, xsize, ysize, -1, x0, y);
      Times1(cout * Pw(xsize), y);
    } else {
      Times0(Pw(ysize));
      Times1(y, y);
      if wp != xp { ghost var low := wp[..ysize]; CopyRest(wp, xp, xsize, ysize); assert wp[..][..ysize] == low; }
      assert wp[..][ysize..xsize] == x0[ysize..xsize];
      Finished(wp[..], x0, ysize, xsize, y, -1);
      assert wp[..xsize] == wp[..][..xsize];
      Times0(Pw(xsize));
      cout := 0;
    }
  }

  // __GMPN_AORS_1: the first limb takes v, the others a carry of one.
  method AddOrSub1(dst: array<Limb>, src: array<Limb>, n: nat, v: Limb, sign: int) returns (cout: int)
    requires (sign == 1 || sign == -1) && 1 <= n <= dst.Length && n <= src.Length
    modifies dst
    ensures 0 <= cout <= 1 && dst[n..] == old(dst[n..])
    ensures Value(dst[..n]) + sign * (cout * Pw(n)) == old(Value(src[..n])) + sign * (v as int)
  {
    hide Pending;
    ghost var x0 := src[..];
    ghost var tail := dst[n..];
    var x := src[0];
    var r := (x + sign * (v as int)) % BASE;
    dst[0] := r;
    assert dst[n..] == tail;
    var carry := if sign == 1 then (if r < v then 1 else 0) else (if x < v then 1 else 0);
    FirstLimb(dst[..], src[..], x0, n, carry, v, sign);
    assert src[..n] == src[..][..n];
    if carry == 1 {
      cout := Ripple(dst, src, n, 1, sign, x0, v);
      assert x0[..n] == old(src[..n]);
    } else {
      PendingBounds(dst[..], src[..], x0, 1, n, 0, v, sign);
      ghost var low := dst[..1];
      if src != dst { CopyRest(dst, src, n, 1); }
      assert dst[..][..1] == low && dst[..][1..n] == x0[1..n];
      Finished(dst[..], x0, 1, n, v, sign);
      assert dst[..n] == dst[..][..n] && x0[..n] == old(src[..n]);
      Times0(Pw(n));
      cout := 0;
    }
  }

  lemma FirstLimb(w: seq<Limb>, x: seq<Limb>, x0: seq<Limb>, n: nat, c: int, v: Limb, sign: int)
    requires (sign == 1 || sign == -1) && 1 <= n <= |w| && n <= |x| == |x0| && x[1..] == x0[1..]
    requires w[0] == (x0[0] + sign * (v as int)) % BASE
    requires c == if sign == 1 then (if w[0] < v then 1 else 0) else (if x0[0] < v then 1 else 0)
    ensures Pending(w, x, x0, 1, n, c, v, sign)
  {
    assert x[1..n] == x[1..][..n - 1] && x0[1..n] == x0[1..][..n - 1];
    OneLimb(w, 0);
    OneLimb(x0, 0);
    assert w[..1] == w[0..0 + 1] && x0[..1] == x0[0..0 + 1];
    assert Pw(1) == BASE;
  }

  /** __GMPN_ADD_1 */
  method Add1Limb(dst: array<Limb>, src: array<Limb>, n: nat, v: Limb) returns (cout: int)
    requires 1 <= n <= dst.Length && n <= src.Length
    modifies dst
    ensures 0 <= cout <= 1 && dst[n..] == old(dst[n..])
    ensures Value(dst[..n]) + cout * Pw(n) == old(Value(src[..n])) + v
  {
    cout := AddOrSub1(dst, src, n, v, 1);
  }

  /** __GMPN_SUB_1 */
  method Sub1Limb(dst: array<Limb>, src: array<Limb>, n: nat, v: Limb) returns (cout: int)
    requires 1 <= n <= dst.Length && n <= src.Length
    modifies dst
    ensures 0 <= cout <= 1 && dst[n..] == old(dst[n..])
    ensures Value(dst[..n]) - cout * Pw(n) == old(Value(src[..n])) - v
  {
    cout := AddOrSub1(dst, src, n, v, -1);
  }
}
