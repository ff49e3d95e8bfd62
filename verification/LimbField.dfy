/** Residues mod p on bare limbs (arith/fastfp.c), and the same operations reporting
    a zero result through a flag (arith/montfp.c, arith/fasterfp.c). */
module LimbField {
  import opened Modular
  import opened Limbs
  import opened Montgomery

  ghost predicate Modulus(prime: array<Limb>, t: nat)
    reads prime
  {
    prime.Length == t >= 1 && Value(prime[..]) > 1
  }

  // One conditional correction brings x in (-p, 2p) back to its residue.
  lemma Correction(x: int, p: int)
    requires p > 0 && -p <= x < 2 * p
    ensures x % p == if x < 0 then x + p else if x >= p then x - p else x
  {
    var k := if x < 0 then -1 else if x >= p then 1 else 0;
    EqIntro(x, x - k * p, k, p);
    EqIffMod(x, x - k * p, p);
    ModAtMost(x - k * p, p);
  }

  // Carry and borrow cancel: the wrapped difference is the true one.
  lemma Wrapped(s: int, carry: int, d: int, borrow: int, p: int, w: int)
    requires 0 <= s < w && 0 <= carry <= 1 && 0 <= d < w && 0 <= borrow <= 1
    requires d - borrow * w == s - p && p <= s + carry * w < 2 * p && p < w
    ensures d == s + carry * w - p
  {}

  // fp_add on limbs; r may be a or b.
  method FastAdd(r: array<Limb>, a: array<Limb>, b: array<Limb>, prime: array<Limb>, t: nat)
    requires Modulus(prime, t) && r.Length == a.Length == b.Length == t && r != prime
    requires Value(a[..]) < Value(prime[..]) && Value(b[..]) < Value(prime[..])
    modifies r
    ensures Value(r[..]) == old(Value(a[..]) + Value(b[..])) % Value(prime[..])
  {
    hide Value, Pw;
    ghost var p, w, x := Value(prime[..]), Pw(t), Value(a[..]) + Value(b[..]);
    assert a[..t] == a[..] && b[..t] == b[..] && prime[..t] == prime[..];
    var carry := AddN(r, a, b, t);
    assert r[..t] == r[..] == r[0..0 + t];
    ghost var s := Value(r[..]);
    ValueBound(r[..]); ValueBound(prime[..]);
    Correction(x, p);
    var cmp := 0;
    if carry == 0 { cmp := Cmp(r, 0, prime, t); }
    if carry != 0 || cmp >= 0 {
      var borrow := SubN(r, r, 0, prime, t);
      assert r[..t] == r[..];
      ValueBound(r[..]);
      Wrapped(s, carry, Value(r[..]), borrow, p, w);
    }
  }

  // fp_double on limbs; r may be a.
  method FastDouble(r: array<Limb>, a: array<Limb>, prime: array<Limb>, t: nat)
    requires Modulus(prime, t) && r.Length == a.Length == t && r != prime
    requires Value(a[..]) < Value(prime[..])
    modifies r
    ensures Value(r[..]) == 2 * old(Value(a[..])) % Value(prime[..])
  {
    hide Value, Pw;
    ghost var p, w, x := Value(prime[..]), Pw(t), 2 * Value(a[..]);
    assert a[..t] == a[..] && prime[..t] == prime[..];
    var carry := LShift1(r, a, t);
    assert r[..t] == r[..] == r[0..0 + t];
    ghost var s := Value(r[..]);
    ValueBound(r[..]); ValueBound(prime[..]);
    Correction(x, p);
    var cmp := 0;
    if carry == 0 { cmp := Cmp(r, 0, prime, t); }
    if carry != 0 || cmp >= 0 {
      var borrow := SubN(r, r, 0, prime, t);
      assert r[..t] == r[..];
      ValueBound(r[..]);
      Wrapped(s, carry, Value(r[..]), borrow, p, w);
    }
  }

  // fp_sub on limbs: add the modulus back after a borrow; r may be a or b.
  method FastSub(r: array<Limb>, a: array<Limb>, b: array<Limb>, prime: array<Limb>, t: nat)
    requires Modulus(prime, t) && r.Length == a.Length == b.Length == t && r != prime
    requires Value(a[..]) < Value(prime[..]) && Value(b[..]) < Value(prime[..])
    modifies r
    ensures Value(r[..]) == old(Value(a[..]) - Value(b[..])) % Value(prime[..])
  {
    hide Value, Pw;
    ghost var p, w, x := Value(prime[..]), Pw(t), Value(a[..]) - Value(b[..]);
    assert a[0..0 + t] == a[..] && b[..t] == b[..] && prime[..t] == prime[..];
    ValueBound(prime[..]);
    Correction(x, p);
    var borrow := SubN(r, a, 0, b, t);
    assert r[..t] == r[..];
    ValueBound(r[..]);
    if borrow != 0 {
      var carry := AddN(r, r, prime, t);
      assert r[..t] == r[..];
      ValueBound(r[..]);
    }
  }

  // fp_is0
  method FastIsZero(a: array<Limb>, t: nat) returns (z: bool)
    requires a.Length == t
    ensures z <==> Value(a[..]) == 0
  {
    for i := 0 to t
      invariant forall j :: 0 <= j < i ==> a[j] == 0
    {
      if a[i] != 0 {
        ValueSplit(a[..], i);
        assert a[..][i..][0] == a[i];
        LimbCounts(Value(a[..][..i]), Pw(i), a[i], Value(a[..][i..][1..]));
        return false;
      }
    }
    ValueZeros(a[..]);
    z := true;
  }

  lemma LimbCounts(lo: int, w: int, x: Limb, hi: int)
    requires lo >= 0 && w >= 1 && x > 0 && hi >= 0
    ensures lo + w * (x + BASE * hi) > 0
  {
    MulLe(1, w, x + BASE * hi);
  }

  // fp_neg on limbs; n may be a.
  method FastNeg(n: array<Limb>, a: array<Limb>, prime: array<Limb>, t: nat)
    requires Modulus(prime, t) && n.Length == a.Length == t && n != prime
    requires Value(a[..]) < Value(prime[..])
    modifies n
    ensures Value(n[..]) == -old(Value(a[..])) % Value(prime[..])
  {
    ghost var p, x := Value(prime[..]), Value(a[..]);
    Correction(-x, p);
    var z := FastIsZero(a, t);
    if z {
      for i := 0 to t
        invariant forall j :: 0 <= j < i ==> n[j] == 0
      {
        n[i] := 0;
      }
      ValueZeros(n[..]);
    } else {
      assert prime[0..0 + t] == prime[..] && a[..t] == a[..];
      var borrow := SubN(n, prime, 0, a, t);
      assert n[..t] == n[..];
      ValueBound(n[..]); ValueBound(prime[..]);
    }
  }

  lemma Parity(s: seq<Limb>)
    requires |s| >= 1
    ensures Value(s) % 2 == s[0] % 2
  {
    assert Value(s) == s[0] + BASE * Value(s[1..]);
  }

  // mpn_rshift by one with a carry shifted in at the top.
  method ShiftCarry(r: array<Limb>, t: nat, carry: int)
    requires r.Length == t >= 1 && 0 <= carry <= 1
    requires Value(r[..]) % 2 == 0
    modifies r
    ensures 2 * Value(r[..]) == old(Value(r[..])) + carry * Pw(t)
  {
    hide Value, Pw;
    ghost var s := Value(r[..]);
    ValueBound(r[..]);
    assert r[..t] == r[..];
    var out := RShift1(r, t);
    assert r[..t] == r[..];
    ghost var s1 := r[..];
    TopHalf(s1, s, out);
    if carry != 0 { r[t - 1] := SetTopBit(r[t - 1]); }
    assert r[..] == if carry != 0 then s1[t - 1 := SetTopBit(s1[t - 1])] else s1;
  }

  // fp_halve on limbs: for odd p the result doubles back to a; r may be a.
  method FastHalve(r: array<Limb>, a: array<Limb>, prime: array<Limb>, t: nat)
    requires Modulus(prime, t) && r.Length == a.Length == t && r != prime
    requires Value(a[..]) < Value(prime[..]) && Value(prime[..]) % 2 == 1
    modifies r
    ensures Value(r[..]) < Value(prime[..])
    ensures 2 * Value(r[..]) % Value(prime[..]) == old(Value(a[..]))
    ensures old(Value(a[..])) > 0 ==> Value(r[..]) > 0
  {
    hide Value, Pw;
    ghost var p, x := Value(prime[..]), Value(a[..]);
    Parity(a[..]);
    assert a[..t] == a[..] && prime[..t] == prime[..];
    var carry := 0;
    if a[0] % 2 == 1 {
      carry := AddN(r, a, prime, t);
    } else if r != a {
      for i := 0 to t
        invariant r[..i] == a[..i]
      {
        r[i] := a[i];
      }
    }
    assert r[..t] == r[..];
    ghost var s := Value(r[..]);
    EvenRadix(t);
    EvenSum(x, p, s, carry, Pw(t));
    ShiftCarry(r, t, carry);
    Correction(2 * Value(r[..]), p);
  }

  lemma EvenSum(x: int, p: int, s: int, carry: int, w: int)
    requires p % 2 == 1 && w % 2 == 0 && 0 <= carry <= 1
    requires s + carry * w == if x % 2 == 1 then x + p else x
    ensures s % 2 == 0
  {
    assert carry * w == if carry == 1 then w else 0;
  }

  // x |= 1 << 31
  function SetTopBit(x: Limb): Limb {
    if x < BASE / 2 then x + BASE / 2 else x
  }

  // After a right shift the top bit is free, so setting it adds b^t / 2.
  lemma TopHalf(r: seq<Limb>, s: int, out: int)
    requires |r| >= 1 && 2 * Value(r) + out == s < Pw(|r|) && out >= 0
    ensures 2 * Value(r[|r| - 1 := SetTopBit(r[|r| - 1])]) == 2 * Value(r) + Pw(|r|)
  {
    var n := |r| - 1;
    var x := r[n];
    var r' := r[n := SetTopBit(x)];
    assert r == r[..n] + [x] && r' == r[..n] + [SetTopBit(x)];
    hide Value, Pw;
    ValueSnoc(r[..n], x);
    ValueSnoc(r[..n], SetTopBit(x));
    PwUnfold(n);
    if x >= BASE / 2 { MulLe(BASE / 2, x, Pw(n)); }
    HalfMore(x, Pw(n));
  }

  lemma HalfMore(x: int, w: int)
    ensures (x + BASE / 2) * w == x * w + (BASE / 2) * w && 2 * ((BASE / 2) * w) == BASE * w
  {}

  lemma EvenRadix(t: nat)
    requires t >= 1
    ensures Pw(t) % 2 == 0
  {
    hide Pw;
    PwUnfold(t - 1);
    ModZero(Pw(t), (BASE / 2) * Pw(t - 1), 2) by { HalfMore(0, Pw(t - 1)); }
  }
}
