/** Multi-limb naturals in 32-bit limbs and the GMP carry loops over them.

    `Value` reads a little-endian limb sequence. Every routine states what it does
    to the value, carry included, so nothing is lost when a limb wraps around. */
module Limbs {
  const BASE: int := 0x1_0000_0000

  type Limb = x: int | 0 <= x < 0x1_0000_0000

  function Pw(n: nat): (r: int)
    ensures r >= 1
  {
    if n == 0 then 1 else BASE * Pw(n - 1)
  }

  function Value(s: seq<Limb>): (r: int)
    ensures r >= 0
  {
    if s == [] then 0 else s[0] + BASE * Value(s[1..])
  }

  lemma PwAdd(m: nat, n: nat)
    ensures Pw(m + n) == Pw(m) * Pw(n)
  {
    if m > 0 {
      PwAdd(m - 1, n);
      assert Pw(m + n) == BASE * Pw(m - 1 + n);
      assert BASE * (Pw(m - 1) * Pw(n)) == (BASE * Pw(m - 1)) * Pw(n);
    } else {
      assert Pw(0) * Pw(n) == Pw(n);
    }
  }

  lemma {:induction false} ValueSnoc(s: seq<Limb>, x: Limb)
    ensures Value(s + [x]) == Value(s) + x * Pw(|s|)
  {
    if s == [] {
      assert s + [x] == [x];
      assert Value([x]) == x + BASE * Value([]);
    } else {
      ValueSnoc(s[1..], x);
      assert (s + [x])[1..] == s[1..] + [x];
      assert BASE * (x * Pw(|s| - 1)) == x * (BASE * Pw(|s| - 1));
    }
  }

  // The value of a limb sequence splits at any position.
  lemma {:induction false} ValueSplit(s: seq<Limb>, i: nat)
    requires i <= |s|
    ensures Value(s) == Value(s[..i]) + Pw(i) * Value(s[i..])
    decreases i
  {
    if i == 0 {
      assert s[..0] == [] && s[0..] == s;
    } else {
      ValueSplit(s[1..], i - 1);
      assert s[1..][..i - 1] == s[..i][1..];
      assert s[1..][i - 1..] == s[i..];
      SplitStep(s[0], Value(s[..i][1..]), Pw(i - 1), Value(s[i..]));
    }
  }

  lemma SplitStep(x: int, lo: int, p: int, hi: int)
    ensures x + BASE * (lo + p * hi) == (x + BASE * lo) + (BASE * p) * hi
  {}

  lemma {:induction false} ValueBound(s: seq<Limb>)
    ensures Value(s) < Pw(|s|)
  {
    if s != [] { ValueBound(s[1..]); }
  }

  lemma ValueZeros(s: seq<Limb>)
    requires forall i :: 0 <= i < |s| ==> s[i] == 0
    ensures Value(s) == 0
  {
    if s != [] { ValueZeros(s[1..]); }
  }

  // One more limb in a window of a sequence.
  lemma WindowStep(s: seq<Limb>, lo: nat, i: nat)
    requires lo + i < |s|
    ensures Value(s[lo..lo + i + 1]) == Value(s[lo..lo + i]) + s[lo + i] * Pw(i)
  {
    assert s[lo..lo + i + 1] == s[lo..lo + i] + [s[lo + i]];
    ValueSnoc(s[lo..lo + i], s[lo + i]);
  }

  lemma PrefixStep(s: seq<Limb>, i: nat)
    requires i < |s|
    ensures Value(s[..i + 1]) == Value(s[..i]) + s[i] * Pw(i)
  {
    WindowStep(s, 0, i);
    assert s[0..i] == s[..i] && s[0..i + 1] == s[..i + 1];
  }

  // The arithmetic of one limb step: if the new limb and carry hold the local sum,
  // the prefix invariant moves up by one limb.
  lemma CarryStep(vr: int, va: int, vb: int, c: int, c': int, x: int, y: int, z: int, p: int)
    requires vr + c * p == va + vb
    requires z + c' * BASE == x + y + c
    ensures (vr + z * p) + c' * (BASE * p) == (va + x * p) + (vb + y * p)
  {
    assert (z + c' * BASE) * p == (x + y + c) * p;
    assert (z + c' * BASE) * p == z * p + c' * (BASE * p);
    assert (x + y + c) * p == x * p + y * p + c * p;
  }

  lemma BorrowStep(vr: int, va: int, vb: int, c: int, c': int, x: int, y: int, z: int, p: int)
    requires vr - c * p == va - vb
    requires z - c' * BASE == x - y - c
    ensures (vr + z * p) - c' * (BASE * p) == (va + x * p) - (vb + y * p)
  {
    assert (z - c' * BASE) * p == (x - y - c) * p;
    assert (z - c' * BASE) * p == z * p - c' * (BASE * p);
    assert (x - y - c) * p == x * p - y * p - c * p;
  }

  // mpn_add_n: adds two n-limb numbers, returns the carry out. r may be a or b.
  method AddN(r: array<Limb>, a: array<Limb>, b: array<Limb>, n: nat) returns (carry: int)
    requires n <= r.Length && n <= a.Length && n <= b.Length
    modifies r
    ensures 0 <= carry <= 1
    ensures Value(r[..n]) + carry * Pw(n) == old(Value(a[..n]) + Value(b[..n]))
    ensures r[n..] == old(r[n..])
  {
    ghost var A, C := a[..], b[..];
    carry := 0;
    for i := 0 to n
      invariant 0 <= carry <= 1
      invariant Value(r[..i]) + carry * Pw(i) == Value(A[..i]) + Value(C[..i])
      invariant a[i..] == A[i..] && b[i..] == C[i..]
      invariant r[n..] == old(r[n..])
    {
      assert a[i] == a[i..][0] == A[i] && b[i] == b[i..][0] == C[i];
      assert a[i + 1..] == A[i..][1..] && b[i + 1..] == C[i..][1..];
      var s := a[i] + b[i] + carry;
      ghost var R0, c0 := r[..i], carry;
      r[i] := s % BASE;
      carry := s / BASE;
      PrefixStep(r[..], i); PrefixStep(A, i); PrefixStep(C, i);
      assert r[..][..i] == r[..i] == R0 && r[..][..i + 1] == r[..i + 1];
      CarryStep(Value(R0), Value(A[..i]), Value(C[..i]), c0, carry, A[i], C[i], r[i], Pw(i));
    }
    assert A[..n] == old(a[..n]) && C[..n] == old(b[..n]);
  }

  // mpn_sub_n: subtracts n-limb numbers, returns the borrow. r may be b, or a when ao is 0.
  method SubN(r: array<Limb>, a: array<Limb>, ao: nat, b: array<Limb>, n: nat) returns (borrow: int)
    requires n <= r.Length && ao + n <= a.Length && n <= b.Length
    requires r == a ==> ao == 0
    modifies r
    ensures 0 <= borrow <= 1
    ensures Value(r[..n]) - borrow * Pw(n) == old(Value(a[ao..ao + n]) - Value(b[..n]))
    ensures r[n..] == old(r[n..])
  {
    ghost var A, C := a[ao..ao + n], b[..];
    borrow := 0;
    for i := 0 to n
      invariant 0 <= borrow <= 1
      invariant Value(r[..i]) - borrow * Pw(i) == Value(A[..i]) - Value(C[..i])
      invariant a[ao + i..ao + n] == A[i..] && b[i..] == C[i..]
      invariant r[n..] == old(r[n..])
    {
      assert a[ao + i] == a[ao + i..ao + n][0] == A[i] && b[i] == b[i..][0] == C[i];
      assert a[ao + i + 1..ao + n] == A[i..][1..] && b[i + 1..] == C[i..][1..];
      var s := a[ao + i] - b[i] - borrow;
      ghost var R0, c0 := r[..i], borrow;
      r[i] := s % BASE;
      borrow := -(s / BASE);
      PrefixStep(r[..], i); PrefixStep(A, i); PrefixStep(C, i);
      assert r[..][..i] == r[..i] == R0 && r[..][..i + 1] == r[..i + 1];
      BorrowStep(Value(R0), Value(A[..i]), Value(C[..i]), c0, borrow, A[i], C[i], r[i], Pw(i));
    }
    assert A[..n] == A && C[..n] == old(b[..n]);
  }

  lemma MulLe(a: int, b: int, c: int)
    requires a <= b && 0 <= c
    ensures a * c <= b * c
  {}

  // The local sum of a multiply-accumulate step fits two limbs.
  lemma MulAccBound(x: Limb, y: Limb, v: Limb, c: Limb)
    ensures 0 <= x + y * v + c < BASE * BASE
  {
    MulLe(y, BASE - 1, v);
    MulLe(v, BASE - 1, BASE - 1);
    MulLe(0, y, v);
  }

  // mpn_addmul_1: adds the product of an n-limb number and a limb into a window, returns the carry limb.
  method AddMul1(r: array<Limb>, ro: nat, a: array<Limb>, n: nat, v: Limb) returns (carry: Limb)
    requires ro + n <= r.Length && n <= a.Length && r != a
    modifies r
    ensures Value(r[ro..ro + n]) + carry * Pw(n) == old(Value(r[ro..ro + n])) + v * Value(a[..n])
    ensures r[..ro] == old(r[..ro]) && r[ro + n..] == old(r[ro + n..])
  {
    ghost var X := r[..];
    carry := 0;
    for i := 0 to n
      invariant Value(r[ro..ro + i]) + carry * Pw(i) == Value(X[ro..ro + i]) + v * Value(a[..i])
      invariant r[..ro] == X[..ro] && r[ro + i..] == X[ro + i..]
    {
      assert r[ro + i] == r[ro + i..][0] == X[ro + i];
      assert r[ro + i + 1..] == X[ro + i..][1..];
      MulAccBound(r[ro + i], a[i], v, carry);
      var s := r[ro + i] + a[i] * v + carry;
      ghost var R0, c0 := r[ro..ro + i], carry;
      r[ro + i] := s % BASE;
      carry := s / BASE;
      WindowStep(r[..], ro, i); WindowStep(X, ro, i); PrefixStep(a[..], i);
      assert r[..][ro..ro + i] == r[ro..ro + i] == R0 && r[..][ro..ro + i + 1] == r[ro..ro + i + 1];
      assert a[..][..i] == a[..i] && a[..][..i + 1] == a[..i + 1];
      CarryStep(Value(R0), Value(X[ro..ro + i]), v * Value(a[..i]), c0, carry, X[ro + i], a[i] * v, r[ro + i], Pw(i));
      MulDistribute(v, Value(a[..i]), a[i], Pw(i));
    }
  }

  lemma MulDistribute(v: int, s: int, x: int, p: int)
    ensures v * (s + x * p) == v * s + (x * v) * p
  {}

  // mpn_mul_1: writes the product of an n-limb number and a limb, returns the high limb.
  method Mul1(r: array<Limb>, a: array<Limb>, n: nat, v: Limb) returns (carry: Limb)
    requires n <= r.Length && n <= a.Length && r != a
    modifies r
    ensures Value(r[..n]) + carry * Pw(n) == v * Value(a[..n])
    ensures r[n..] == old(r[n..])
  {
    carry := 0;
    for i := 0 to n
      invariant Value(r[..i]) + carry * Pw(i) == v * Value(a[..i])
      invariant r[n..] == old(r[n..])
    {
      MulAccBound(0, a[i], v, carry);
      var s := a[i] * v + carry;
      ghost var R0, c0 := r[..i], carry;
      r[i] := s % BASE;
      carry := s / BASE;
      PrefixStep(r[..], i); PrefixStep(a[..], i);
      assert r[..][..i] == r[..i] == R0 && r[..][..i + 1] == r[..i + 1];
      assert a[..][..i] == a[..i] && a[..][..i + 1] == a[..i + 1];
      CarryStep(Value(R0), 0, v * Value(a[..i]), c0, carry, 0, a[i] * v, r[i], Pw(i));
      MulDistribute(v, Value(a[..i]), a[i], Pw(i));
    }
  }

  lemma OneLimb(s: seq<Limb>, i: nat)
    requires i < |s|
    ensures Value(s[i..i + 1]) == s[i]
  {
    assert s[i..i + 1] == [s[i]];
    assert Value([s[i]]) == s[i] + BASE * Value([]);
  }

  // The carry loop behind mpn_add_1, in place: add a limb, then ripple the carry
  // through full limbs and stop at the first limb that absorbs it.
  method Add1(r: array<Limb>, ro: nat, n: nat, v: Limb) returns (cout: int)
    requires 1 <= n && ro + n <= r.Length
    modifies r
    ensures 0 <= cout <= 1
    ensures Value(r[ro..ro + n]) + cout * Pw(n) == old(Value(r[ro..ro + n])) + v
    ensures r[..ro] == old(r[..ro]) && r[ro + n..] == old(r[ro + n..])
  {
    hide Value, Pw, Rippled;
    ghost var X := r[..];
    var x := r[ro];
    r[ro] := (x + v) % BASE;
    cout := if r[ro] < x then 1 else 0;
    RippleStart(r[..], X, ro, cout, v);
    var i := 1;
    while cout != 0 && i < n
      invariant 1 <= i <= n && 0 <= cout <= 1
      invariant Rippled(r[..], X, ro, i, cout, v)
    {
      x := r[ro + i];
      ghost var R0 := r[..];
      r[ro + i] := (x + 1) % BASE;
      cout := if r[ro + i] < x then 1 else 0;
      RippleStep(R0, X, ro, i, cout, v, r[ro + i]);
      i := i + 1;
    }
    RippleEnd(r[..], X, ro, n, i, cout, v);
    assert r[..][ro..ro + n] == r[ro..ro + n];
    assert r[ro + n..] == r[..][ro + n..] && r[..ro] == r[..][..ro];
  }

  // The first limb takes v.
  lemma RippleStart(s: seq<Limb>, s0: seq<Limb>, ro: nat, cout: int, v: int)
    requires ro < |s0| && |s| == |s0| && s == s0[ro := s[ro]] && s[ro] + cout * BASE == s0[ro] + v
    ensures Rippled(s, s0, ro, 1, cout, v)
  {
    OneLimb(s, ro);
    OneLimb(s0, ro);
    assert Pw(1) == BASE;
  }

  // Nothing changes past the last limb with a carry.
  lemma RippleEnd(s: seq<Limb>, s0: seq<Limb>, ro: nat, n: nat, i: nat, cout: int, v: int)
    requires Rippled(s, s0, ro, i, cout, v) && i <= n && ro + n <= |s| && (cout == 0 || i == n)
    ensures |s| == |s0| && Value(s[ro..ro + n]) + cout * Pw(n) == Value(s0[ro..ro + n]) + v
    ensures s[..ro] == s0[..ro] && s[ro + n..] == s0[ro + n..]
  {
    hide Value, Pw;
    TailUnchanged(s, s0, ro, n, i);
    if cout == 0 { assert 0 * Pw(n) == 0 * Pw(i); }
  }

  // State of the carry loop: limbs [ro, ro+i) of s hold the sum so far, the rest is untouched.
  ghost predicate Rippled(s: seq<Limb>, s0: seq<Limb>, ro: nat, i: nat, cout: int, v: int) {
    && |s| == |s0| && ro + i <= |s|
    && Value(s[ro..ro + i]) + cout * Pw(i) == Value(s0[ro..ro + i]) + v
    && s[..ro] == s0[..ro] && s[ro + i..] == s0[ro + i..]
  }

  lemma RippleStep(s: seq<Limb>, s0: seq<Limb>, ro: nat, i: nat, cout: int, v: int, z: Limb)
    requires Rippled(s, s0, ro, i, 1, v) && ro + i < |s|
    requires z + cout * BASE - 1 == s[ro + i]
    ensures Rippled(s[ro + i := z], s0, ro, i + 1, cout, v)
  {
    var r := s[ro + i := z];
    assert s[ro + i] == s[ro + i..][0] == s0[ro + i];
    WindowStep(r, ro, i);
    WindowStep(s0, ro, i);
    assert r[ro..ro + i] == s[ro..ro + i];
    assert r[ro + i + 1..] == s[ro + i..][1..] == s0[ro + i + 1..];
    CarryStep(Value(s[ro..ro + i]), Value(s0[ro..ro + i]), v, 1, cout, s0[ro + i], 0, z, Pw(i));
  }

  // Windows that agree from limb i on differ in value as their first i limbs do.
  lemma TailUnchanged(s: seq<Limb>, r: seq<Limb>, ro: nat, n: nat, i: nat)
    requires |s| == |r| && i <= n && ro + n <= |s| && s[ro + i..] == r[ro + i..]
    ensures Value(s[ro..ro + n]) - Value(r[ro..ro + n]) == Value(s[ro..ro + i]) - Value(r[ro..ro + i])
    ensures s[ro + n..] == r[ro + n..]
  {
    ValueSplit(s[ro..ro + n], i);
    ValueSplit(r[ro..ro + n], i);
    assert s[ro..ro + n][..i] == s[ro..ro + i] && r[ro..ro + n][..i] == r[ro..ro + i];
    assert s[ro..ro + n][i..] == s[ro + i..][..n - i] == r[ro..ro + n][i..];
    assert s[ro + n..] == s[ro + i..][n - i..] == r[ro + n..];
  }

  // mpn_cmp: the first differing limb from the top decides.
  method Cmp(a: array<Limb>, ao: nat, b: array<Limb>, n: nat) returns (c: int)
    requires ao + n <= a.Length && n <= b.Length
    ensures c == 0 <==> Value(a[ao..ao + n]) == Value(b[..n])
    ensures c > 0 <==> Value(a[ao..ao + n]) > Value(b[..n])
  {
    var i := n;
    while i > 0
      invariant 0 <= i <= n
      invariant Value(a[ao..ao + n]) - Value(b[..n]) == Value(a[ao..ao + i]) - Value(b[..i])
    {
      i := i - 1;
      WindowStep(a[..], ao, i); PrefixStep(b[..], i);
      assert a[..][ao..ao + i] == a[ao..ao + i] && a[..][ao..ao + i + 1] == a[ao..ao + i + 1];
      assert b[..][..i] == b[..i] && b[..][..i + 1] == b[..i + 1];
      if a[ao + i] != b[i] {
        ValueBound(a[ao..ao + i]); ValueBound(b[..i]);
        TopLimbDecides(Value(a[ao..ao + i]), a[ao + i], Value(b[..i]), b[i], Pw(i));
        c := if a[ao + i] > b[i] then 1 else -1;
        return;
      }
    }
    c := 0;
  }

  lemma TopLimbDecides(u: int, x: int, v: int, y: int, p: int)
    requires 0 <= u < p && 0 <= v < p && x != y
    ensures x > y ==> u + x * p > v + y * p
    ensures x < y ==> u + x * p < v + y * p
  {
    if x > y { assert x * p >= (y + 1) * p; } else { assert y * p >= (x + 1) * p; }
  }

  // mpn_lshift by one bit: doubles, returns the bit shifted out. r may be a.
  method LShift1(r: array<Limb>, a: array<Limb>, n: nat) returns (out: int)
    requires n <= r.Length && n <= a.Length
    modifies r
    ensures 0 <= out <= 1
    ensures Value(r[..n]) + out * Pw(n) == 2 * old(Value(a[..n]))
    ensures r[n..] == old(r[n..])
  {
    ghost var A := a[..];
    out := 0;
    for i := 0 to n
      invariant 0 <= out <= 1
      invariant Value(r[..i]) + out * Pw(i) == 2 * Value(A[..i])
      invariant a[i..] == A[i..]
      invariant r[n..] == old(r[n..])
    {
      assert a[i] == a[i..][0] == A[i];
      assert a[i + 1..] == A[i..][1..];
      var s := 2 * a[i] + out;
      ghost var R0, c0 := r[..i], out;
      r[i] := s % BASE;
      out := s / BASE;
      PrefixStep(r[..], i); PrefixStep(A, i);
      assert r[..][..i] == r[..i] == R0 && r[..][..i + 1] == r[..i + 1];
      CarryStep(Value(R0), Value(A[..i]), Value(A[..i]), c0, out, A[i], A[i], r[i], Pw(i));
    }
    assert A[..n] == old(a[..n]);
  }

  // mpn_rshift by one bit in place: halves downwards, returns the bit shifted out.
  method RShift1(r: array<Limb>, n: nat) returns (out: int)
    requires n <= r.Length
    modifies r
    ensures 0 <= out <= 1
    ensures 2 * Value(r[..n]) + out == old(Value(r[..n]))
    ensures r[n..] == old(r[n..])
  {
    ghost var A := r[..n];
    out := 0;
    var i := n;
    while i > 0
      invariant 0 <= i <= n && 0 <= out <= 1
      invariant 2 * Value(r[i..n]) + out == Value(A[i..])
      invariant r[..i] == A[..i]
      invariant r[n..] == old(r[n..])
    {
      i := i - 1;
      assert r[i] == r[..i + 1][i] == A[i];
      assert r[..i] == A[..i + 1][..i];
      var s := out * BASE + r[i];
      ghost var R0, c0 := r[i + 1..n], out;
      r[i] := s / 2;
      out := s % 2;
      assert r[i..n] == [r[i]] + R0;
      assert A[i..][0] == A[i] && A[i..][1..] == A[i + 1..];
      assert r[i..n][1..] == R0;
    }
    assert A[0..] == A && r[0..n] == r[..n];
  }
}
