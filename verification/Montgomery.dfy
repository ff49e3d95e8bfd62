/** Montgomery multiplication and reduction on limbs (arith/montfp.c).

    `Acc` is what the multiplication loop keeps in its window, the missing carry
    included; the exactness theorem says when the program computes a Montgomery
    product, and the methods are the program's loops. */
module Montgomery {
  import opened Modular
  import opened Limbs

  // -p^-1 mod b, as the field data carries it.
  ghost predicate NegInverse(ninv: int, p: int) {
    0 <= ninv < BASE && (ninv * p + 1) % BASE == 0
  }

  // The window before the division by b in step i: the sum is kept in t+1 limbs.
  function Sum(acc: int, x: int, bv: int, t: nat): int {
    (acc + x * bv) % Pw(t + 1)
  }

  function Fold(s: int, p: int, ninv: int): int {
    (s + (s % BASE * ninv) % BASE * p) / BASE
  }

  // Contents of limbs i..i+t of the work area after i steps of the loop.
  function Acc(a: seq<Limb>, bv: int, p: int, ninv: int, t: nat, i: nat): int
    requires i <= |a|
  {
    if i == 0 then 0
    else Fold(Sum(Acc(a, bv, p, ninv, t, i - 1), a[i - 1], bv, t), p, ninv)
  }

  function FinalSubtract(v: int, p: int): int { if v >= p then v - p else v }

  // What mont_mul writes.
  function MontProduct(a: seq<Limb>, bv: int, p: int, ninv: int): int {
    FinalSubtract(Acc(a, bv, p, ninv, |a|, |a|), p)
  }

  // Step i needs limb i+t+1 for its sum, which the program does not provide.
  ghost predicate Wraps(a: seq<Limb>, bv: int, p: int, ninv: int, i: nat)
    requires i < |a|
  {
    Acc(a, bv, p, ninv, |a|, i) + a[i] * bv >= Pw(|a| + 1)
  }

  lemma {:induction false} ModFold(s: int, p: int, ninv: int)
    requires NegInverse(ninv, p)
    ensures (s + (s % BASE * ninv) % BASE * p) % BASE == 0
    ensures Fold(s, p, ninv) * BASE == s + (s % BASE * ninv) % BASE * p
  {
    var l := s % BASE;
    var u := (l * ninv) % BASE;
    EqMod(l * ninv, BASE);
    Combine3(l, ninv * p + 1, p, u - l * ninv, s / BASE, BASE, BASE);
    FoldIdentity(s / BASE, l, ninv, p, u);
    assert s == BASE * (s / BASE) + l;
  }

  lemma FoldIdentity(q: int, l: int, ninv: int, p: int, u: int)
    ensures l * (ninv * p + 1) + p * (u - l * ninv) + q * BASE == (BASE * q + l) + u * p
  {}

  lemma {:induction false} AccBound(a: seq<Limb>, bv: int, p: int, ninv: int, t: nat, i: nat)
    requires i <= |a| && 0 <= bv < p && NegInverse(ninv, p)
    ensures 0 <= Acc(a, bv, p, ninv, t, i) <= bv + p - 1
  {
    if i > 0 {
      AccBound(a, bv, p, ninv, t, i - 1);
      AccBoundStep(Acc(a, bv, p, ninv, t, i - 1), a[i - 1], bv, p, ninv, t);
    }
  }

  lemma AccBoundStep(acc: int, x: Limb, bv: int, p: int, ninv: int, t: nat)
    requires 0 <= bv < p && NegInverse(ninv, p) && 0 <= acc <= bv + p - 1
    ensures 0 <= Fold(Sum(acc, x, bv, t), p, ninv) <= bv + p - 1
  {
    var s := Sum(acc, x, bv, t);
    MulLe(x, BASE - 1, bv);
    MulLe(0, x, bv);
    ModAtMost(acc + x * bv, Pw(t + 1));
    var u := (s % BASE * ninv) % BASE;
    MulLe(u, BASE - 1, p);
    MulLe(0, u, p);
    ModFold(s, p, ninv);
  }

  lemma ModAtMost(x: int, m: int)
    requires x >= 0 && m > 0
    ensures 0 <= x % m <= x
    ensures x < m ==> x % m == x
    ensures x == x / m * m + x % m && x / m >= 0
  {
    assert x == m * (x / m) + x % m;
    if x / m < 0 { MulMono(x / m, -1, m); }
    MulLe(0, x / m, m);
    if x < m && x / m >= 1 { MulMono(1, x / m, m); }
  }

  // Value of the carries the program drops in its first i steps, in units of b^(t+1).
  ghost function Lost(a: seq<Limb>, bv: int, p: int, ninv: int, t: nat, i: nat): int
    requires i <= |a|
  {
    if i == 0 then 0
    else Lost(a, bv, p, ninv, t, i - 1) + (Acc(a, bv, p, ninv, t, i - 1) + a[i - 1] * bv) / Pw(t + 1) * Pw(i - 1)
  }

  // Window, dropped carries and the product of the limbs read so far agree modulo p.
  ghost predicate Tracks(acc: int, w: int, lost: int, m: int, v: int, bv: int, p: int)
    requires p > 0
  {
    Eq(acc * w + lost * m, v * bv, p)
  }

  // The loop invariant of mont_mul.
  lemma {:induction false} AccCongruence(a: seq<Limb>, bv: int, p: int, ninv: int, t: nat, i: nat)
    requires i <= |a| && 0 <= bv < p && NegInverse(ninv, p)
    ensures Tracks(Acc(a, bv, p, ninv, t, i), Pw(i), Lost(a, bv, p, ninv, t, i), Pw(t + 1), Value(a[..i]), bv, p)
  {
    hide Value, Tracks, Eq, NegInverse, Fold, Sum, Pw;
    PwUnfold(i);
    if i == 0 {
      TracksStart(p, bv, Pw(t + 1));
      ValueNone(a);
    } else {
      AccCongruence(a, bv, p, ninv, t, i - 1);
      AccBound(a, bv, p, ninv, t, i - 1);
      PrefixStep(a, i - 1);
      AccCongruenceStep(Acc(a, bv, p, ninv, t, i - 1), a[i - 1], bv, p, ninv, t, Pw(i - 1),
                        Lost(a, bv, p, ninv, t, i - 1), Value(a[..i - 1]));
    }
  }

  lemma TracksStart(p: int, bv: int, m: int)
    requires p > 0
    ensures Tracks(0, 1, 0, m, 0, bv, p)
  {
    EqRefl(0, p);
    assert 0 * m == 0 && 0 * bv == 0;
  }

  lemma ValueNone(a: seq<Limb>)
    ensures Value(a[..0]) == 0
  {}

  lemma AccCongruenceStep(acc: int, x: int, bv: int, p: int, ninv: int, t: nat, w: int, lost: int, v: int)
    requires 0 <= acc && 0 <= x && 0 <= bv < p && NegInverse(ninv, p)
    requires Tracks(acc, w, lost, Pw(t + 1), v, bv, p)
    ensures Tracks(Fold(Sum(acc, x, bv, t), p, ninv), BASE * w, lost + (acc + x * bv) / Pw(t + 1) * w, Pw(t + 1),
                   v + x * w, bv, p)
  {
    var m := Pw(t + 1);
    var s, k := Sum(acc, x, bv, t), (acc + x * bv) / m;
    MulLe(0, x, bv);
    ModAtMost(acc + x * bv, m);
    ModFold(s, p, ninv);
    var u := (s % BASE * ninv) % BASE;
    var h := EqElim(acc * w + lost * m, v * bv, p);
    AccStepIdentity(acc, x, bv, k, m, s, u, p, w, lost, v, h, Fold(s, p, ninv));
    EqIntro(Fold(s, p, ninv) * (BASE * w) + (lost + k * w) * m, (v + x * w) * bv, h + u * w, p);
  }

  lemma AccStepIdentity(acc: int, x: int, bv: int, k: int, m: int, s: int, u: int, p: int, w: int, lost: int, v: int, h: int, f: int)
    requires acc + x * bv == k * m + s && f * BASE == s + u * p
    requires acc * w + lost * m == v * bv + h * p
    ensures f * (BASE * w) + (lost + k * w) * m == (v + x * w) * bv + (h + u * w) * p
  {
    calc {
      f * (BASE * w) + (lost + k * w) * m;
      (f * BASE) * w + lost * m + (k * m) * w;
      (s + u * p) * w + lost * m + (k * m) * w;
      (k * m + s) * w + lost * m + (u * w) * p;
      (acc + x * bv) * w + lost * m + (u * w) * p;
      (acc * w + lost * m) + (x * w) * bv + (u * w) * p;
      (v + x * w) * bv + (h + u * w) * p;
    }
  }

  // b is invertible modulo p, so powers of b cancel.
  lemma {:induction false} CancelPower(n: nat, x: int, p: int, ninv: int)
    requires p > 0 && NegInverse(ninv, p) && Eq(x * Pw(n), 0, p)
    ensures Eq(x, 0, p)
  {
    if n > 0 {
      var y := x * Pw(n - 1);
      var k := (ninv * p + 1) / BASE;
      assert k * BASE == ninv * p + 1;
      assert x * Pw(n) == BASE * y by { assert Pw(n) == BASE * Pw(n - 1); assert x * (BASE * Pw(n - 1)) == BASE * (x * Pw(n - 1)); }
      ModZero(p, 1, p);
      Combine2(k, BASE * y, -(ninv * y), p, p);
      assert k * (BASE * y) + -(ninv * y) * p == y by {
        assert k * (BASE * y) == (k * BASE) * y;
        assert (ninv * p + 1) * y == ninv * y * p + y;
      }
      CancelPower(n - 1, x, p, ninv);
    }
  }

  // One step of the loss: at most one carry, none in the first step.
  lemma LostStep(a: seq<Limb>, bv: int, p: int, ninv: int, i: nat)
    requires i < |a| && 0 <= bv < p < Pw(|a|) && NegInverse(ninv, p)
    ensures Lost(a, bv, p, ninv, |a|, i + 1)
            == Lost(a, bv, p, ninv, |a|, i) + if Wraps(a, bv, p, ninv, i) then Pw(i) else 0
    ensures Wraps(a, bv, p, ninv, i) ==> i > 0 && (BASE + 1) * (p - 1) >= Pw(|a| + 1)
  {
    AccBound(a, bv, p, ninv, |a|, i);
    OneCarry(Acc(a, bv, p, ninv, |a|, i), a[i], bv, p, |a|);
  }

  lemma {:induction false} LostBound(a: seq<Limb>, bv: int, p: int, ninv: int, i: nat)
    requires i <= |a| && 0 <= bv < p < Pw(|a|) && NegInverse(ninv, p)
    ensures 0 <= Lost(a, bv, p, ninv, |a|, i)
    ensures i > 0 ==> Lost(a, bv, p, ninv, |a|, i) < 2 * Pw(i - 1)
    ensures Lost(a, bv, p, ninv, |a|, i) != 0 ==> (BASE + 1) * (p - 1) >= Pw(|a| + 1)
  {
    if i > 0 {
      LostBound(a, bv, p, ninv, i - 1);
      LostStep(a, bv, p, ninv, i - 1);
      if i > 1 { assert Pw(i - 1) == BASE * Pw(i - 2); }
    }
  }

  lemma {:induction false} LostZero(a: seq<Limb>, bv: int, p: int, ninv: int, i: nat)
    requires i <= |a| && 0 <= bv < p < Pw(|a|) && NegInverse(ninv, p)
    ensures Lost(a, bv, p, ninv, |a|, i) == 0 <==> forall j :: 0 <= j < i ==> !Wraps(a, bv, p, ninv, j)
  {
    if i > 0 {
      LostZero(a, bv, p, ninv, i - 1);
      LostBound(a, bv, p, ninv, i - 1);
      LostStep(a, bv, p, ninv, i - 1);
    }
  }

  lemma OneCarry(acc: int, x: Limb, bv: int, p: int, t: nat)
    requires 0 <= bv < p < Pw(t) && 0 <= acc <= bv + p - 1
    ensures (acc + x * bv) / Pw(t + 1) == if acc + x * bv >= Pw(t + 1) then 1 else 0
    ensures acc + x * bv >= Pw(t + 1) ==> (BASE + 1) * (p - 1) >= Pw(t + 1)
    ensures acc == 0 ==> acc + x * bv < Pw(t + 1)
  {
    var s, m := acc + x * bv, Pw(t + 1);
    MulLe(x, BASE - 1, bv);
    MulLe(0, x, bv);
    ModAtMost(s, m);
    assert m == BASE * Pw(t);
    if s / m >= 2 { MulMono(2, s / m, m); }
    if s >= m && s / m <= 0 { MulMono(s / m, 0, m); }
  }

  /** The exact condition for mont_mul: the word it writes is always below p, and it is
      the Montgomery product of its operands iff no step's sum needs the limb the loop
      does not allocate for it. */
  lemma MontExact(a: seq<Limb>, bv: int, p: int, ninv: int)
    requires 0 <= bv < p < Pw(|a|) && NegInverse(ninv, p)
    ensures 0 <= MontProduct(a, bv, p, ninv) < p
    ensures Eq(MontProduct(a, bv, p, ninv) * Pw(|a|), Value(a) * bv, p)
            <==> forall i :: 0 <= i < |a| ==> !Wraps(a, bv, p, ninv, i)
  {
    hide Value, Pw, Acc, Lost;
    var t := |a|;
    PwUnfold(t);
    AccBound(a, bv, p, ninv, t, t);
    AccCongruence(a, bv, p, ninv, t, t);
    LostBound(a, bv, p, ninv, t);
    LostZero(a, bv, p, ninv, t);
    assert a[..t] == a;
    var r, acc, lost := MontProduct(a, bv, p, ninv), Acc(a, bv, p, ninv, t, t), Lost(a, bv, p, ninv, t, t);
    var w := Pw(t);
    EqIntro(r, acc, if acc >= p then -1 else 0, p);
    EqRefl(w, p);
    EqMul(r, acc, w, w, p);
    assert acc * w - (acc * w + lost * Pw(t + 1)) == -(lost * Pw(t + 1));
    if lost == 0 {
      EqTrans(r * w, acc * w, Value(a) * bv, p);
    } else if Eq(r * w, Value(a) * bv, p) {
      Combine3(1, acc * w + lost * Pw(t + 1) - Value(a) * bv, 1, r * w - acc * w, -1, r * w - Value(a) * bv, p);
      assert Eq(lost * Pw(t + 1), 0, p);
      CancelPower(t + 1, lost, p, ninv);
      assert (BASE + 1) * p > BASE * BASE * Pw(t - 1);
      assert p > 2 * Pw(t - 1);
      EqSmall(lost, 0, p);
    }
  }

  /** A modulus with headroom, (b+1)(p-1) < b^(t+1), never loses a carry. */
  lemma Headroom(a: seq<Limb>, bv: int, p: int, ninv: int)
    requires 0 <= bv < p < Pw(|a|) && NegInverse(ninv, p)
    requires (BASE + 1) * (p - 1) < Pw(|a| + 1)
    ensures forall i :: 0 <= i < |a| ==> !Wraps(a, bv, p, ninv, i)
    ensures Eq(MontProduct(a, bv, p, ninv) * Pw(|a|), Value(a) * bv, p)
  {
    LostBound(a, bv, p, ninv, |a|);
    LostZero(a, bv, p, ninv, |a|);
    MontExact(a, bv, p, ninv);
  }

  lemma FirstFold()
    ensures Fold(0xc386_bbc4 * 0xffff_ffff_ffff_ffc4, 0xffff_ffff_ffff_ffc5, 2693454067) == 18520601516742541252
  {
    assert 0xc386_bbc4 * 0xffff_ffff_ffff_ffc4 == 60512459673084783584646790672;
    assert 60512459673084783584646790672 % BASE == 745274896;
    assert 745274896 * 2693454067 % BASE == 1031776560;
  }

  /** Without headroom the carry is lost: for the prime 2^64 - 59 and these two reduced
      operands mont_mul does not return their Montgomery product. */
  lemma HeadroomNeeded()
    ensures var p, ninv := 0xffff_ffff_ffff_ffc5, 2693454067;
            var a: seq<Limb>, bv := [0xc386_bbc4, 0xffff_ffff], 0xffff_ffff_ffff_ffc4;
            && NegInverse(ninv, p) && Value(a) < p && bv < p < Pw(2)
            && !Eq(MontProduct(a, bv, p, ninv) * Pw(2), Value(a) * bv, p)
  {
    var p, ninv := 0xffff_ffff_ffff_ffc5, 2693454067;
    var a: seq<Limb>, bv := [0xc386_bbc4, 0xffff_ffff], 0xffff_ffff_ffff_ffc4;
    PwUnfold(0); PwUnfold(1); PwUnfold(2);
    assert Value(a[1..]) == 0xffff_ffff + BASE * Value([]);
    assert Value(a) == 0xc386_bbc4 + BASE * 0xffff_ffff;
    hide Value, Pw, Acc;
    AccUnfold(a, bv, p, ninv, 2, 0);
    ModAtMost(0xc386_bbc4 * bv, Pw(3));
    assert Sum(0, 0xc386_bbc4, bv, 2) == 0xc386_bbc4 * 0xffff_ffff_ffff_ffc4;
    FirstFold();
    assert Wraps(a, bv, p, ninv, 1);
    MontExact(a, bv, p, ninv);
  }

  // The window z[i..i+t] with the limb above it: z[t+i] += mpn_addmul_1(z + i, x, t, v).
  method AddMulTop(z: array<Limb>, i: nat, x: array<Limb>, t: nat, v: Limb)
    requires i + t < z.Length && t <= x.Length && x != z
    modifies z
    ensures Value(z[i..i + t + 1]) == (old(Value(z[i..i + t + 1])) + v * Value(x[..t])) % Pw(t + 1)
    ensures z[i + t] < old(z[i + t]) <==> old(Value(z[i..i + t + 1])) + v * Value(x[..t]) >= Pw(t + 1)
    ensures old(Value(z[i..i + t + 1])) + v * Value(x[..t]) < 2 * Pw(t + 1)
    ensures z[..i] == old(z[..i]) && z[i + t + 1..] == old(z[i + t + 1..])
  {
    hide Value;
    ghost var Z := z[..];
    WindowStep(z[..], i, t);
    assert z[..][i..i + t] == z[i..i + t] && z[..][i..i + t + 1] == z[i..i + t + 1];
    var carry := AddMul1(z, i, x, t, v);
    assert z[i + t] == z[i + t..][0] == Z[i + t];
    ghost var lo := Value(z[i..i + t]);
    ghost var Z1 := z[..];
    z[i + t] := (z[i + t] + carry) % BASE;
    WindowStep(z[..], i, t);
    assert z[..][i..i + t] == z[i..i + t] == Z1[i..i + t] && z[..][i..i + t + 1] == z[i..i + t + 1];
    ValueBound(Z1[i..i + t]);
    TopWrap(Value(Z[i..i + t]), Z[i + t], lo, carry, v * Value(x[..t]), z[i + t], Pw(t));
    assert z[i + t + 1..] == Z1[i + t..][1..] == Z[i + t + 1..];
  }

  lemma TopSum(lo: int, top: Limb, w: int)
    requires 0 <= lo < w
    ensures 0 <= lo + top * w < BASE * w
  {
    MulLe(top, BASE - 1, w);
    MulLe(0, top, w);
  }

  lemma PwUnfold(n: nat)
    ensures Pw(n + 1) == BASE * Pw(n) && Pw(0) == 1
    ensures n > 0 ==> Pw(n) == BASE * Pw(n - 1)
  {}

  // Adding a carry into the top limb of a window, with wrap-around.
  lemma TopWrap(old_lo: int, old_top: Limb, lo: int, carry: Limb, prod: int, top: Limb, w: int)
    requires 0 <= lo < w && w >= 1 && lo + carry * w == old_lo + prod
    requires top == (old_top + carry) % BASE
    ensures lo + top * w == (old_lo + old_top * w + prod) % (BASE * w)
    ensures top < old_top <==> old_lo + old_top * w + prod >= BASE * w
    ensures old_lo + old_top * w + prod < 2 * (BASE * w)
  {
    var k := if old_top + carry >= BASE then 1 else 0;
    assert top == old_top + carry - k * BASE;
    assert (top + k * BASE) * w == (old_top + carry) * w;
    assert old_lo + old_top * w + prod == lo + top * w + k * (BASE * w);
    var x := old_lo + old_top * w + prod;
    TopSum(lo, top, w);
    EqIntro(x, lo + top * w, k, BASE * w);
    EqIffMod(x, lo + top * w, BASE * w);
    ModAtMost(lo + top * w, BASE * w);
  }

  // The quotient digit u depends only on the low limbs.
  lemma QuotientDigit(acc: int, x: int, b0: int, bhi: int, ninv: int, t: nat)
    ensures Sum(acc, x, b0 + BASE * bhi, t) % BASE * ninv % BASE == (acc + x * b0) * ninv % BASE
  {
    var bv := b0 + BASE * bhi;
    var s, k := Sum(acc, x, bv, t), (acc + x * bv) / Pw(t + 1);
    assert acc + x * bv == Pw(t + 1) * k + s;
    DigitIdentity(acc, x, b0, bhi, Pw(t), k, s);
    EqIntro(s, acc + x * b0, x * bhi - Pw(t) * k, BASE);
    EqMod(s, BASE);
    EqTrans(s % BASE, s, acc + x * b0, BASE);
    EqRefl(ninv, BASE);
    EqMul(s % BASE, acc + x * b0, ninv, ninv, BASE);
    EqIffMod(s % BASE * ninv, (acc + x * b0) * ninv, BASE);
  }

  lemma DigitIdentity(acc: int, x: int, b0: int, bhi: int, w: int, k: int, s: int)
    requires acc + x * (b0 + BASE * bhi) == (BASE * w) * k + s
    ensures s == acc + x * b0 + (x * bhi - w * k) * BASE
  {}

  lemma DropZeroLimb(z: seq<Limb>, f: int)
    requires |z| >= 1 && Value(z) == f * BASE
    ensures z[0] == 0 && Value(z[1..]) == f
  {
    assert z[0] + BASE * Value(z[1..]) == f * BASE;
  }

  // The low limb of the window is the accumulator modulo b.
  lemma LowLimb(s: seq<Limb>, x: int, b0: int, ninv: int)
    requires |s| >= 1
    ensures (s[0] + x * b0) * ninv % BASE == (Value(s) + x * b0) * ninv % BASE
  {
    EqIntro(s[0] + x * b0, Value(s) + x * b0, -Value(s[1..]), BASE);
    EqRefl(ninv, BASE);
    EqMul(s[0] + x * b0, Value(s) + x * b0, ninv, ninv, BASE);
    EqIffMod((s[0] + x * b0) * ninv, (Value(s) + x * b0) * ninv, BASE);
  }

  // Adding u*p clears the low limb: the window moves up by one limb, whose top limb is the carry.
  method ReduceLimb(z: array<Limb>, i: nat, prime: array<Limb>, t: nat, u: Limb, ninv: Limb)
    requires t == prime.Length && i + t + 1 < z.Length && prime != z
    requires NegInverse(ninv, Value(prime[..]))
    requires u == Value(z[i..i + t + 1]) % BASE * ninv % BASE
    modifies z
    ensures Value(z[i + 1..i + t + 2]) == Fold(old(Value(z[i..i + t + 1])), Value(prime[..]), ninv)
    ensures z[i + t + 2..] == old(z[i + t + 2..])
  {
    hide Value, Pw, NegInverse, Fold;
    ghost var s := Value(z[i..i + t + 1]);
    ValueBound(z[i..i + t + 1]);
    assert prime[..t] == prime[..];
    var v := z[i + t];
    AddMulTop(z, i, prime, t, u);
    ghost var lo, Z := z[i..i + t + 1], z[..];
    z[i + t + 1] := if z[i + t] < v then 1 else 0;
    ghost var z1 := z[i..i + t + 2];
    assert z1 == lo + [z[i + t + 1]];
    ValueSnoc(lo, z[i + t + 1]);
    MulLe(0, u, Value(prime[..]));
    ModCarry(s + u * Value(prime[..]), Value(lo), z[i + t + 1], Pw(t + 1));
    ModFold(s, Value(prime[..]), ninv);
    DropZeroLimb(z1, Fold(s, Value(prime[..]), ninv));
    assert z1[1..] == z[i + 1..i + t + 2];
    assert z[i + t + 2..] == Z[i + t + 1..][1..];
  }

  lemma ModCarry(x: int, r: int, k: int, m: int)
    requires m > 0 && 0 <= x < 2 * m && r == x % m && k == if x >= m then 1 else 0
    ensures x == r + k * m
  {
    EqIntro(x, x - k * m, k, m);
    EqIffMod(x, x - k * m, m);
    ModAtMost(x - k * m, m);
  }

  lemma FirstWindow(z: seq<Limb>, x: Limb, bs: seq<Limb>)
    requires |z| > |bs| && Value(z[..|bs|]) + z[|bs|] * Pw(|bs|) == x * Value(bs)
    ensures Value(z[0..|bs| + 1]) == Sum(0, x, Value(bs), |bs|)
  {
    PrefixStep(z, |bs|);
    assert z[0..|bs| + 1] == z[..|bs| + 1];
    ValueBound(z[..|bs| + 1]);
    ModAtMost(x * Value(bs), Pw(|bs| + 1));
  }

  // The final conditional subtraction on a value below 2p held in t limbs and a carry.
  lemma FinalWindow(lo: int, top: int, p: int, w: int, c: int, borrow: int)
    requires 0 <= lo < w && 0 <= top && 0 < p < w && lo + top * w < 2 * p
    requires if top != 0 || lo >= p then c - borrow * w == lo - p && 0 <= c < w && 0 <= borrow <= 1
             else c == lo
    ensures c == FinalSubtract(lo + top * w, p)
  {
    if top >= 2 { MulLe(2, top, w); }
  }

  // The common exit: subtract the modulus once when the window, top carry included, reaches it.
  method ReducedCopy(c: array<Limb>, z: array<Limb>, t: nat, top: nat, prime: array<Limb>)
    requires t == c.Length == prime.Length && 2 * t <= z.Length && c != z && c != prime
    requires Value(z[t..2 * t]) + top * Pw(t) < 2 * Value(prime[..]) && Value(prime[..]) > 0
    modifies c
    ensures Value(c[..]) == FinalSubtract(Value(z[t..2 * t]) + top * Pw(t), Value(prime[..]))
  {
    hide Value, Pw;
    ghost var lo, borrow := Value(z[t..2 * t]), 0;
    ValueBound(z[t..2 * t]); ValueBound(prime[..]);
    assert z[t..t + t] == z[t..2 * t] && prime[..t] == prime[..];
    var cmp := Cmp(z, t, prime, t);
    if top != 0 || cmp >= 0 {
      borrow := SubN(c, z, t, prime, t);
    } else {
      for j := 0 to t
        invariant c[..j] == z[t..t + j]
      {
        c[j] := z[t + j];
      }
    }
    assert c[..t] == c[..];
    ValueBound(c[..]);
    FinalWindow(lo, top, Value(prime[..]), Pw(t), Value(c[..]), borrow);
  }

  // First step of mont_mul, which writes the window instead of adding to it.
  method FirstPass(z: array<Limb>, a0: Limb, b: array<Limb>, prime: array<Limb>, ninv: Limb)
    requires 1 <= b.Length == prime.Length && z.Length > b.Length + 1 && b != z && prime != z
    requires NegInverse(ninv, Value(prime[..]))
    modifies z
    ensures Value(z[1..b.Length + 2]) == Fold(Sum(0, a0, Value(b[..]), b.Length), Value(prime[..]), ninv)
  {
    var t := b.Length;
    assert b[..t] == b[..];
    var u := a0 * b[0] * ninv % BASE;
    z[t] := Mul1(z, b, t, a0);
    assert z[..][..t] == z[..t] && z[..][0..t + 1] == z[0..t + 1];
    FirstWindow(z[..], a0, b[..]);
    QuotientDigit(0, a0, b[..][0], Value(b[..][1..]), ninv, t);
    ReduceLimb(z, 0, prime, t, u, ninv);
  }

  method NextPass(z: array<Limb>, i: nat, ai: Limb, b: array<Limb>, prime: array<Limb>, ninv: Limb)
    requires 1 <= b.Length == prime.Length && i + b.Length + 1 < z.Length && b != z && prime != z
    requires NegInverse(ninv, Value(prime[..]))
    modifies z
    ensures Value(z[i + 1..i + b.Length + 2])
            == Fold(Sum(old(Value(z[i..i + b.Length + 1])), ai, Value(b[..]), b.Length), Value(prime[..]), ninv)
  {
    var t := b.Length;
    assert b[..t] == b[..];
    assert z[i..i + t + 1][0] == z[i];
    LowLimb(z[i..i + t + 1], ai, b[0], ninv);
    QuotientDigit(Value(z[i..i + t + 1]), ai, b[..][0], Value(b[..][1..]), ninv, t);
    var u := (z[i] + ai * b[0]) * ninv % BASE;
    AddMulTop(z, i, b, t, ai);
    ReduceLimb(z, i, prime, t, u, ninv);
  }

  /** mont_mul: c = MontProduct(a, b), carries dropped where the program drops them. c may be a or b. */
  method MontMul(c: array<Limb>, a: array<Limb>, b: array<Limb>, prime: array<Limb>, ninv: Limb)
    requires 1 <= a.Length == b.Length == c.Length == prime.Length && c != prime
    requires NegInverse(ninv, Value(prime[..])) && Value(b[..]) < Value(prime[..])
    modifies c
    ensures Value(c[..]) == MontProduct(old(a[..]), old(Value(b[..])), Value(prime[..]), ninv)
  {
    hide Value, Pw, Acc;
    var t := a.Length;
    var z := new Limb[2 * t + 1];
    ghost var A, p, bv := a[..], Value(prime[..]), Value(b[..]);
    FirstPass(z, a[0], b, prime, ninv);
    AccUnfold(A, bv, p, ninv, t, 0);
    var i := 1;
    while i < t
      invariant 1 <= i <= t && a[..] == A && b[..] == old(b[..])
      invariant Value(z[i..i + t + 1]) == Acc(A, bv, p, ninv, t, i)
    {
      assert a[i] == A[i];
      NextPass(z, i, a[i], b, prime, ninv);
      AccUnfold(A, bv, p, ninv, t, i);
      i := i + 1;
    }
    WindowStep(z[..], t, t);
    assert z[..][t..t + t] == z[t..2 * t] && z[..][t..t + t + 1] == z[t..t + t + 1];
    AccBound(A, bv, p, ninv, t, t);
    ReducedCopy(c, z, t, z[2 * t], prime);
  }

  lemma AccUnfold(a: seq<Limb>, bv: int, p: int, ninv: int, t: nat, i: nat)
    requires i < |a|
    ensures Acc(a, bv, p, ninv, t, i + 1) == Fold(Sum(Acc(a, bv, p, ninv, t, i), a[i], bv, t), p, ninv)
    ensures i == 0 ==> Acc(a, bv, p, ninv, t, i) == 0
  {}

  // A change confined to limbs [lo, lo+n) moves the value by the change of that window.
  lemma WindowEffect(s: seq<Limb>, r: seq<Limb>, lo: nat, n: nat)
    requires |s| == |r| && lo + n <= |s|
    requires s[..lo] == r[..lo] && s[lo + n..] == r[lo + n..]
    ensures Value(r) - Value(s) == (Value(r[lo..lo + n]) - Value(s[lo..lo + n])) * Pw(lo)
  {
    hide Value, Pw;
    ValueSplit(s, lo);
    ValueSplit(r, lo);
    WindowTail(s[lo..], r[lo..], n);
    assert s[lo..][..n] == s[lo..lo + n] && r[lo..][..n] == r[lo..lo + n];
    WindowIdentity(Pw(lo), Value(s[lo..]), Value(r[lo..]), Value(r[lo..lo + n]) - Value(s[lo..lo + n]));
  }

  lemma WindowTail(s: seq<Limb>, r: seq<Limb>, n: nat)
    requires |s| == |r| >= n && s[n..] == r[n..]
    ensures Value(r) - Value(s) == Value(r[..n]) - Value(s[..n])
  {
    hide Value, Pw;
    ValueSplit(s, n);
    ValueSplit(r, n);
  }

  lemma WindowIdentity(w: int, x: int, y: int, d: int)
    requires y - x == d
    ensures w * y - w * x == d * w
  {}

  // The quotient digit clears the low limb of the window.
  lemma ClearsLimb(w: seq<Limb>, w': seq<Limb>, carry: int, u: Limb, p: int, ninv: int)
    requires |w| == |w'| >= 1 && NegInverse(ninv, p) && u == w[0] * ninv % BASE
    requires Value(w') + carry * Pw(|w|) == Value(w) + u * p
    ensures w'[0] == 0
  {
    EqMod(w[0] * ninv, BASE);
    Combine2(w[0], ninv * p + 1, p, u - w[0] * ninv, BASE);
    ClearIdentity(w[0], ninv, p, u, Value(w[1..]), Value(w'[1..]), carry, Pw(|w| - 1), w'[0]);
    EqIntro(w'[0], w[0] + u * p, Value(w[1..]) - Value(w'[1..]) - carry * Pw(|w| - 1), BASE);
    EqTrans(w'[0], w[0] + u * p, 0, BASE);
    EqSmall(w'[0], 0, BASE);
  }

  lemma ClearIdentity(w0: int, ninv: int, p: int, u: int, hi: int, hi': int, carry: int, w: int, w0': int)
    requires (w0' + BASE * hi') + carry * (BASE * w) == (w0 + BASE * hi) + u * p
    ensures w0 * (ninv * p + 1) + p * (u - w0 * ninv) == w0 + u * p
    ensures w0' == w0 + u * p + (hi - hi' - carry * w) * BASE
  {}

  // Loop state of mont_reduce: y plus its carried-out flag is the input plus a multiple of p,
  // and the low i limbs are clear.
  ghost predicate Reducing(y: seq<Limb>, flag: int, y0: int, m: int, p: int, i: nat) {
    && i <= |y| && 0 <= m < Pw(i) && flag >= 0
    && Value(y) + flag * Pw(|y|) == y0 + m * p
    && forall j :: 0 <= j < i ==> y[j] == 0
  }

  lemma ReducingStep(y: seq<Limb>, y1: seq<Limb>, y2: seq<Limb>, flag: int, cout: int, carry: Limb,
                     y0: int, m: int, p: int, ninv: int, i: nat, u: Limb, t: nat)
    requires |y| == |y1| == |y2| == 2 * t && i < t && NegInverse(ninv, p) && 0 <= cout
    requires Reducing(y, flag, y0, m, p, i) && u == y[i] * ninv % BASE
    requires Value(y1[i..i + t]) + carry * Pw(t) == Value(y[i..i + t]) + u * p
    requires y1[..i] == y[..i] && y1[i + t..] == y[i + t..]
    requires Value(y2[i + t..i + t + (t - i)]) + cout * Pw(t - i) == Value(y1[i + t..i + t + (t - i)]) + carry
    requires y2[..i + t] == y1[..i + t]
    ensures Reducing(y2, flag + cout, y0, m + u * Pw(i), p, i + 1)
  {
    hide Value, Pw;
    assert y1[i] == 0 by { ClearsLimb(y[i..i + t], y1[i..i + t], carry, u, p, ninv); }
    forall j | 0 <= j < i + 1 ensures y2[j] == 0 {
      assert y2[j] == y2[..i + t][j] == y1[..i + t][j];
      if j < i { assert y1[j] == y1[..i][j] == y[..i][j]; }
    }
    assert Value(y2) + cout * Pw(2 * t) == Value(y) + (u * p) * Pw(i) by {
      WindowEffect(y, y1, i, t);
      WindowEffect(y1, y2, i + t, t - i);
      PwAdd(i, t); PwAdd(i + t, t - i);
      ReducingIdentity(Value(y), Value(y1), Value(y2), Value(y[i..i + t]), Value(y1[i..i + t]),
                       Value(y1[i + t..i + t + (t - i)]), Value(y2[i + t..i + t + (t - i)]),
                       u * p, carry, cout, Pw(i), Pw(t), Pw(t - i));
    }
    PwUnfold(i);
    CollectIdentity(flag, cout, Pw(2 * t), m, u, Pw(i), p);
    MulLe(u, BASE - 1, Pw(i)); MulLe(0, u, Pw(i));
  }

  lemma CollectIdentity(flag: int, cout: int, r: int, m: int, u: int, w: int, p: int)
    ensures (flag + cout) * r == flag * r + cout * r
    ensures (m + u * w) * p == m * p + (u * p) * w
  {}

  lemma ReducingIdentity(v: int, v1: int, v2: int, a: int, a1: int, b1: int, b2: int, up: int, carry: int, cout: int,
                         wi: int, wt: int, wr: int)
    requires v1 - v == (a1 - a) * wi && v2 - v1 == (b2 - b1) * (wi * wt)
    requires a1 + carry * wt == a + up && b2 + cout * wr == b1 + carry
    ensures v2 + cout * ((wi * wt) * wr) == v + up * wi
  {
    assert (a1 + carry * wt) * wi == (a + up) * wi;
    assert (b2 + cout * wr) * (wi * wt) == (b1 + carry) * (wi * wt);
  }

  /** mont_reduce: for every input below p*R the word written is its Montgomery reduction,
      and the carry counter `flag` never exceeds 1. */
  method MontReduce(x: array<Limb>, y: array<Limb>, prime: array<Limb>, ninv: Limb) returns (flag: int)
    requires 1 <= x.Length == prime.Length && y.Length == 2 * prime.Length
    requires x != y && prime != y && x != prime
    requires NegInverse(ninv, Value(prime[..])) && Value(y[..]) < Value(prime[..]) * Pw(prime.Length)
    modifies x, y
    ensures 0 <= flag <= 1
    ensures Value(x[..]) < Value(prime[..])
    ensures Eq(Value(x[..]) * Pw(prime.Length), old(Value(y[..])), Value(prime[..]))
  {
    hide Value, Pw;
    var t := prime.Length;
    ghost var y0, p, m := Value(y[..]), Value(prime[..]), 0;
    assert prime[..t] == prime[..];
    flag := 0;
    var i := 0;
    while i < t
      invariant 0 <= i <= t
      invariant Reducing(y[..], flag, y0, m, p, i)
    {
      ghost var s0 := y[..];
      var u := y[i] * ninv % BASE;
      var carry := AddMul1(y, i, prime, t, u);
      ghost var s1 := y[..];
      var cout := Add1(y, i + t, t - i, carry);
      ghost var s2 := y[..];
      ReducingStep(s0, s1, s2, flag, cout, carry, y0, m, p, ninv, i, u, t);
      m := m + u * Pw(i);
      flag := flag + cout;
      i := i + 1;
    }
    ValueBound(prime[..]);
    ReducedHigh(y[..], flag, y0, m, p, t);
    assert y[..][t..] == y[t..2 * t];
    ReducedCopy(x, y, t, flag, prime);
    ghost var w := Value(y[t..2 * t]) + flag * Pw(t);
    MontReduceValue(Value(x[..]), w, y0, m, p, Pw(t));
  }

  lemma ReducedHigh(y: seq<Limb>, flag: int, y0: int, m: int, p: int, t: nat)
    requires |y| == 2 * t && Reducing(y, flag, y0, m, p, t)
    requires 0 <= y0 < p * Pw(t) && p < Pw(t)
    ensures (Value(y[t..]) + flag * Pw(t)) * Pw(t) == y0 + m * p
    ensures Value(y[t..]) + flag * Pw(t) < 2 * p && flag <= 1
  {
    ValueSplit(y, t);
    ValueZeros(y[..t]);
    PwAdd(t, t);
    HighBound(Value(y[t..]), flag, Pw(t), y0, m, p);
  }

  lemma HighBound(h: int, flag: int, w: int, y0: int, m: int, p: int)
    requires w * h + flag * (w * w) == y0 + m * p
    requires 0 <= y0 < p * w && p < w && 0 <= m < w && 0 <= h && 0 < p
    ensures (h + flag * w) * w == y0 + m * p
    ensures h + flag * w < 2 * p && flag <= 1
  {
    assert (h + flag * w) * w == w * h + flag * (w * w);
    MulLe(m, w, p);
    if h + flag * w >= 2 * p { MulLe(2 * p, h + flag * w, w); }
    if flag >= 2 { MulLe(2, flag, w); }
  }

  lemma MontReduceValue(x: int, v: int, y0: int, m: int, p: int, w: int)
    requires p > 0 && 0 <= v < 2 * p && v * w == y0 + m * p && x == FinalSubtract(v, p)
    ensures 0 <= x < p && Eq(x * w, y0, p)
  {
    var k := if v >= p then 1 else 0;
    assert x * w == (v - k * p) * w == v * w - (k * w) * p;
    EqIntro(x * w, y0, m - k * w, p);
  }
}
