/** F_p elements in Montgomery form with a zero flag (arith/montfp.c).

    `Val` is the residue an element stands for; every operation is proved against
    the arithmetic of residues, whatever the arguments alias. */
module MontField {
  import opened Modular
  import opened Limbs
  import opened Montgomery
  import opened LimbField
  import opened Bits

  // The residue stored as x*R mod p in the limbs, where w = R.
  ghost function Decode(x: int, w: int, p: int): int
    requires p > 0
  {
    x * Inv(w, p) % p
  }

  lemma DecodeLinear(c: int, k1: int, a: int, k2: int, b: int, w: int, p: int)
    requires p > 0 && Eq(c, k1 * a + k2 * b, p)
    ensures Decode(c, w, p) == (k1 * Decode(a, w, p) + k2 * Decode(b, w, p)) % p
  {
    var i := Inv(w, p);
    EqMod(a * i, p); EqMod(b * i, p);
    var x, y := a * i % p, b * i % p;
    Combine3(i, c - (k1 * a + k2 * b), -k1, x - a * i, -k2, y - b * i, p);
    LinearIdentity(i, c, k1, a, k2, b, x, y);
    EqIffMod(c * i, k1 * x + k2 * y, p);
  }

  lemma LinearIdentity(i: int, c: int, k1: int, a: int, k2: int, b: int, x: int, y: int)
    ensures i * (c - (k1 * a + k2 * b)) + -k1 * (x - a * i) + -k2 * (y - b * i) == c * i - (k1 * x + k2 * y)
  {}

  lemma DecodeProduct(c: int, a: int, b: int, w: int, p: int)
    requires p > 0 && Eq(w * Inv(w, p), 1, p) && Eq(c * w, a * b, p)
    ensures Decode(c, w, p) == Decode(a, w, p) * Decode(b, w, p) % p
  {
    var i := Inv(w, p);
    EqMod(a * i, p); EqMod(b * i, p);
    EqMul(a * i % p, a * i, b * i % p, b * i, p);
    EqSym((a * i % p) * (b * i % p), (a * i) * (b * i), p);
    Combine3(i * i, c * w - a * b, -(c * i), w * i - 1, 1, (a * i) * (b * i) - (a * i % p) * (b * i % p), p);
    ProductIdentity(c, w, a, b, i, (a * i % p) * (b * i % p));
    EqIffMod(c * i, (a * i % p) * (b * i % p), p);
  }

  lemma ProductIdentity(c: int, w: int, a: int, b: int, i: int, xy: int)
    ensures (i * i) * (c * w - a * b) + -(c * i) * (w * i - 1) + 1 * ((a * i) * (b * i) - xy) == c * i - xy
  {}

  // Decoding is exact: Decode(x) = v iff v is reduced and v*w = x modulo p.
  lemma DecodeExact(x: int, v: int, w: int, p: int)
    requires p > 0 && Eq(w * Inv(w, p), 1, p) && 0 <= v < p
    ensures Decode(x, w, p) == v <==> Eq(v * w, x, p)
  {
    var i := Inv(w, p);
    EqMod(x * i, p);
    if Decode(x, w, p) == v {
      Combine2(w, v - x * i, x, w * i - 1, p);
    }
    if Eq(v * w, x, p) {
      Combine2(i, v * w - x, -v, w * i - 1, p);
      ExactIdentity(x, v, w, i);
      EqIffMod(v, x * i, p);
      ModAtMost(v, p);
    }
    ExactIdentity(x, v, w, i);
  }

  lemma ExactIdentity(x: int, v: int, w: int, i: int)
    ensures w * (v - x * i) + x * (w * i - 1) == v * w - x
    ensures i * (v * w - x) + -v * (w * i - 1) == v - x * i
  {}

  // The limb count is chosen so that R is a power of b above p; p odd makes R invertible.
  lemma RadixInvertible(t: nat, p: int, ninv: int)
    requires p > 1 && NegInverse(ninv, p)
    ensures Eq(Pw(t) * Inv(Pw(t), p), 1, p)
  {
    var s, q := RadixBezout(t, p, ninv);
    InvCoprime(Pw(t), p, s, q);
  }

  lemma {:induction false} RadixBezout(t: nat, p: int, ninv: int) returns (s: int, q: int)
    requires p > 1 && NegInverse(ninv, p)
    ensures s * Pw(t) + q * p == 1
  {
    if t == 0 {
      s, q := 1, 0;
    } else {
      var s', q' := RadixBezout(t - 1, p, ninv);
      var k := (ninv * p + 1) / BASE;
      assert k * BASE == ninv * p + 1;
      s, q := s' * k, q' - s' * Pw(t - 1) * ninv;
      BezoutIdentity(s', q', Pw(t - 1), k, ninv, p);
    }
  }

  lemma BezoutIdentity(s: int, q: int, w: int, k: int, ninv: int, p: int)
    requires s * w + q * p == 1 && k * BASE == ninv * p + 1
    ensures (s * k) * (BASE * w) + (q - s * w * ninv) * p == 1
  {
    assert (s * k) * (BASE * w) == (s * w) * (k * BASE) == (s * w) * (ninv * p + 1);
  }

  // fp_field_data_s
  class FieldData {
    const t: nat
    const prime: array<Limb>
    const negpinv: Limb
    const R: array<Limb>
    const R3: array<Limb>

    ghost function P(): int reads prime { Value(prime[..]) }
    ghost function W(): int { Pw(t) }

    // field->order
    method Order() returns (p: int)
      ensures p == P()
    {
      p := Value(prime[..]);
    }

    // A prime modulus with the headroom mont_mul needs, and the constants derived from it.
    ghost predicate Valid()
      reads prime, R, R3
    {
      && t >= 1 && prime.Length == t && R.Length == t && R3.Length == t
      && prime != R && prime != R3
      && Prime(P()) && (BASE + 1) * (P() - 1) < Pw(t + 1)
      && NegInverse(negpinv, P())
      && Value(R[..]) == W() % P()
      && Value(R3[..]) == W() * W() * W() % P()
    }

    // field_init_mont_fp: limb constants from an odd prime of t limbs.
    constructor (p: int, t: nat)
      requires t >= 1 && Prime(p) && p % 2 == 1 && p < Pw(t) && (BASE + 1) * (p - 1) < Pw(t + 1)
      ensures Valid() && P() == p && this.t == t
      ensures fresh(prime) && fresh(R) && fresh(R3)
    {
      this.t := t;
      var primelimbs := FromInt(p, t);
      var w := Pw(t);
      this.prime := primelimbs;
      ModLess(w, p);
      var r := FromInt(w % p, t);
      this.R := r;
      // z = R mod p, cubed modulo p
      var z := (w % p) * (w % p) * (w % p) % p;
      CubeMod(w, p);
      var r3 := FromInt(z, t);
      this.R3 := r3;
      // p^-1 mod R, low limb as a machine int, negated
      var inv := Inv(p, w);
      var val := inv % BASE;
      NegLowLimb(p, t);
      this.negpinv := -val % BASE;
    }
  }

  lemma ModLess(w: int, p: int)
    requires p > 0
    ensures 0 <= w % p < p
  {
    EqMod(w, p);
  }

  lemma CubeMod(w: int, p: int)
    requires p > 0
    ensures (w % p) * (w % p) * (w % p) % p == w * w * w % p
    ensures 0 <= (w % p) * (w % p) * (w % p) % p < p
  {
    EqMod(w, p);
    EqMul(w % p, w, w % p, w, p);
    EqMul((w % p) * (w % p), w * w, w % p, w, p);
    EqIffMod((w % p) * (w % p) * (w % p), w * w * w, p);
    ModLess((w % p) * (w % p) * (w % p), p);
  }

  // The inverse of p modulo b^t, cut to its low limb and negated, is -p^-1 modulo b.
  lemma NegLowLimb(p: int, t: nat)
    requires t >= 1 && p > 0 && p % 2 == 1
    ensures NegInverse(-(Inv(p, Pw(t)) % BASE) % BASE, p)
  {
    var w := Pw(t);
    assert w == BASE * Pw(t - 1);
    assert w > 1;
    RadixTwo(t);
    var s, q := OddBezout(p, 32 * t);
    InvCoprime(p, w, s, q);
    var i := Inv(p, w);
    var k := EqElim(p * i, 1, w);
    var l := i % BASE;
    var ninv := -l % BASE;
    assert i == BASE * (i / BASE) + l;
    assert ninv == -l - (-l / BASE) * BASE;
    EqIntro(ninv * p, -1, p * (i / BASE) - p * (-l / BASE) - k * Pw(t - 1), BASE) by {
      LowLimbIdentity(p, i, i / BASE, l, -l / BASE, ninv, k, Pw(t - 1));
    }
    assert ninv * p + 1 == ninv * p - -1;
  }

  lemma LowLimbIdentity(p: int, i: int, ih: int, l: int, m: int, ninv: int, k: int, w: int)
    requires p * i == 1 + k * (BASE * w) && i == BASE * ih + l && ninv == -l - m * BASE
    ensures ninv * p == -1 + (p * ih - p * m - k * w) * BASE
  {
    assert p * (BASE * ih + l) == 1 + k * (BASE * w);
  }

  lemma TwoBase()
    ensures Two(32) == BASE
  {
    assert Two(8) == 256;
    TwoAdd(8, 8); TwoAdd(16, 16);
  }

  lemma {:induction false} RadixTwo(t: nat)
    ensures Pw(t) == Two(32 * t)
  {
    if t > 0 {
      RadixTwo(t - 1);
      TwoBase();
      TwoAdd(32, 32 * (t - 1));
    }
  }

  // An odd number is coprime to every power of two.
  lemma {:induction false} OddBezout(p: int, n: nat) returns (s: int, q: int)
    requires p % 2 == 1
    ensures s * p + q * Two(n) == 1
  {
    if n == 0 {
      s, q := 0, 1;
    } else {
      s, q := OddBezout(p, n - 1);
      var w := Two(n - 1);
      if q % 2 == 1 {
        assert (s + w) * p + (q - p) * w == s * p + q * w;
        s, q := s + w, q - p;
      }
      assert q == 2 * (q / 2);
      assert q * w == (q / 2) * (2 * w);
      q := q / 2;
    }
  }

  method FromInt(n: nat, t: nat) returns (d: array<Limb>)
    requires n < Pw(t)
    ensures fresh(d) && d.Length == t && Value(d[..]) == n
  {
    d := new Limb[t];
    Export(d, n);
  }

  // mpz_export into t limbs, high limbs cleared.
  method Export(d: array<Limb>, n: nat)
    requires n < Pw(d.Length)
    modifies d
    ensures Value(d[..]) == n
  {
    var rest, t := n, d.Length;
    for i := 0 to t
      invariant 0 <= rest < Pw(t - i)
      invariant Value(d[..i]) + rest * Pw(i) == n
    {
      ghost var d0 := d[..i];
      d[i] := rest % BASE;
      PrefixStep(d[..], i);
      assert d[..][..i] == d[..i] == d0 && d[..][..i + 1] == d[..i + 1];
      PwUnfold(t - i - 1);
      ExportStep(Value(d0), rest, Pw(i));
      rest := rest / BASE;
    }
    assert d[..t] == d[..];
  }

  lemma ExportStep(v: int, rest: int, w: int)
    ensures v + rest * w == (v + (rest % BASE) * w) + (rest / BASE) * (BASE * w)
  {
    assert rest == BASE * (rest / BASE) + rest % BASE;
    assert (BASE * (rest / BASE) + rest % BASE) * w == (rest / BASE) * (BASE * w) + (rest % BASE) * w;
  }

  // struct data_s: flag 0 is the zero element, whatever the limbs hold.
  class Element {
    var flag: int
    const d: array<Limb>

    constructor (t: nat)
      ensures flag == 0 && fresh(d) && d.Length == t
    {
      flag := 0;
      d := new Limb[t];
    }
  }

  // The residue an element stands for.
  ghost function Val(f: FieldData, e: Element): int
    requires f.Valid() && f.P() > 0
    reads f.prime, f.R, f.R3, e, e.d
  {
    if e.flag == 0 then 0 else Decode(Value(e.d[..]), f.W(), f.P())
  }

  // A well-formed element: limbs apart from the constants, reduced, and not zero when flagged.
  ghost predicate Ok(f: FieldData, e: Element)
    requires f.Valid()
    reads f.prime, f.R, f.R3, e, e.d
  {
    && e.d.Length == f.t && e.d != f.prime && e.d != f.R && e.d != f.R3
    && (e.flag != 0 ==> 0 < Value(e.d[..]) < f.P())
  }

  // Two element pointers: the same element or separate storage.
  ghost predicate Apart(a: Element, b: Element) { a == b || a.d != b.d }

  lemma FieldFacts(f: FieldData)
    requires f.Valid()
    ensures 1 < f.P() < f.W() && Eq(f.W() * Inv(f.W(), f.P()), 1, f.P())
    ensures f.prime[..f.t] == f.prime[..] && f.R[..f.t] == f.R[..]
  {
    ValueBound(f.prime[..]);
    RadixInvertible(f.t, f.P(), f.negpinv);
  }

  lemma DecodeScaled(z: int, w: int, p: int)
    requires p > 1 && Eq(w * Inv(w, p), 1, p)
    ensures Decode(z * w % p, w, p) == z % p
    ensures z * w % p == 0 <==> z % p == 0
  {
    EqMod(z, p); EqMod(z * w, p);
    EqRefl(w, p);
    EqMul(z % p, z, w, w, p);
    EqSym(z * w % p, z * w, p);
    EqTrans((z % p) * w, z * w, z * w % p, p);
    DecodeExact(z * w % p, z % p, w, p);
    if z % p == 0 { Combine(w, z, p); }
    if z * w % p == 0 {
      Combine2(Inv(w, p), z * w, -z, w * Inv(w, p) - 1, p);
      assert Inv(w, p) * (z * w) + -z * (w * Inv(w, p) - 1) == z;
    }
  }

  // fp_set_mpz: the flag is right exactly when z is zero or not a multiple of p.
  method SetMpz(f: FieldData, e: Element, z: int)
    requires f.Valid() && e.d.Length == f.t && e.d != f.prime && e.d != f.R && e.d != f.R3
    modifies e, e.d
    ensures Val(f, e) == z % f.P()
    ensures Ok(f, e) <==> z == 0 || z % f.P() != 0
  {
    FieldFacts(f);
    ghost var p, w := f.P(), f.W();
    if z == 0 {
      e.flag := 0;
    } else {
      var m := f.Order();
      var tmp := z * Pw(f.t) % m;
      ModLess(z * w, p);
      Export(e.d, tmp);
      e.flag := 2;
      DecodeScaled(z, w, p);
    }
  }

  ghost predicate Storage(f: FieldData, e: Element) {
    e.d.Length == f.t && e.d != f.prime && e.d != f.R && e.d != f.R3
  }

  lemma DecodeRange(x: int, w: int, p: int)
    requires p > 0
    ensures 0 <= Decode(x, w, p) < p
    ensures Decode(0, w, p) == 0
  {
    EqMod(x * Inv(w, p), p);
    assert 0 * Inv(w, p) == 0;
    ModAtMost(0, p);
  }

  // fp_set
  method Set(f: FieldData, c: Element, a: Element)
    requires f.Valid() && Ok(f, a) && Storage(f, c) && Apart(c, a)
    modifies c, c.d
    ensures Ok(f, c) && Val(f, c) == old(Val(f, a))
    ensures c != a && a.flag == 0 ==> c.flag == 0
    ensures a.flag != 0 ==> c.flag != 0 && c.d[..] == old(a.d[..])
  {
    if c == a { return; }
    if a.flag == 0 {
      c.flag := 0;
    } else {
      for i := 0 to f.t
        invariant c.d[..i] == a.d[..i]
      {
        c.d[i] := a.d[i];
      }
      assert c.d[..f.t] == c.d[..] && a.d[..f.t] == a.d[..];
      c.flag := 2;
    }
  }

  // Addition reporting a zero sum: limbs of the nonzero residue, or flag 0.
  method FlagAdd(c: array<Limb>, a: array<Limb>, b: array<Limb>, prime: array<Limb>, t: nat) returns (flag: int)
    requires Modulus(prime, t) && c.Length == a.Length == b.Length == t && c != prime
    requires 0 < Value(a[..]) < Value(prime[..]) && 0 < Value(b[..]) < Value(prime[..])
    modifies c
    ensures flag == 0 <==> old(Value(a[..]) + Value(b[..])) % Value(prime[..]) == 0
    ensures flag != 0 ==> Value(c[..]) == old(Value(a[..]) + Value(b[..])) % Value(prime[..])
  {
    hide Value, Pw;
    ghost var p, x := Value(prime[..]), Value(a[..]) + Value(b[..]);
    assert a[..t] == a[..] && b[..t] == b[..] && prime[..t] == prime[..];
    var carry := AddN(c, a, b, t);
    flag := SettleFlag(c, carry, prime, t, x);
  }

  // The correction both fp_add and fp_double make: with a carry the difference cannot be zero.
  method SettleFlag(c: array<Limb>, carry: int, prime: array<Limb>, t: nat, ghost x: int) returns (flag: int)
    requires Modulus(prime, t) && c.Length == t && c != prime && 0 <= carry <= 1
    requires Value(c[..t]) + carry * Pw(t) == x && 0 < x < 2 * Value(prime[..])
    modifies c
    ensures flag == 0 <==> x % Value(prime[..]) == 0
    ensures flag != 0 ==> Value(c[..]) == x % Value(prime[..])
  {
    hide Value, Pw;
    ghost var p, s := Value(prime[..]), Value(c[..]);
    assert c[..t] == c[..] == c[0..0 + t] && prime[..t] == prime[..];
    ValueBound(c[..]); ValueBound(prime[..]);
    Correction(x, p);
    flag := 2;
    var i := 1;
    if carry == 0 { i := Cmp(c, 0, prime, t); }
    if i == 0 {
      flag := 0;
    } else if i > 0 {
      var borrow := SubN(c, c, 0, prime, t);
      assert c[..t] == c[..];
      ValueBound(c[..]);
      Wrapped(s, carry, Value(c[..]), borrow, p, Pw(t));
    }
  }

  lemma DecodeMod(x: int, k1: int, a: int, k2: int, b: int, w: int, p: int)
    requires p > 0 && x == (k1 * a + k2 * b) % p
    ensures Decode(x, w, p) == (k1 * Decode(a, w, p) + k2 * Decode(b, w, p)) % p
  {
    EqMod(k1 * a + k2 * b, p);
    DecodeLinear(x, k1, a, k2, b, w, p);
  }

  // fp_add
  method Add(f: FieldData, c: Element, a: Element, b: Element)
    requires f.Valid() && Ok(f, a) && Ok(f, b) && Storage(f, c) && Apart(c, a) && Apart(c, b)
    modifies c, c.d
    ensures Ok(f, c) && Val(f, c) == old(Val(f, a) + Val(f, b)) % f.P()
  {
    hide Value, Pw, Decode;
    ghost var p, w, x, y := f.P(), f.W(), Value(a.d[..]), Value(b.d[..]);
    DecodeRange(x, w, p); DecodeRange(y, w, p);
    ModAtMost(Val(f, a), p); ModAtMost(Val(f, b), p);
    if a.flag == 0 {
      Set(f, c, b);
    } else if b.flag == 0 {
      Set(f, c, a);
    } else {
      DecodeMod((x + y) % p, 1, x, 1, y, w, p);
      EqMod(x + y, p);
      c.flag := FlagAdd(c.d, a.d, b.d, f.prime, f.t);
    }
  }

  // fp_double
  method Double(f: FieldData, c: Element, a: Element)
    requires f.Valid() && Ok(f, a) && Storage(f, c) && Apart(c, a)
    modifies c, c.d
    ensures Ok(f, c) && Val(f, c) == 2 * old(Val(f, a)) % f.P()
  {
    hide Value, Pw, Decode;
    ghost var p, w, x := f.P(), f.W(), Value(a.d[..]);
    DecodeRange(x, w, p);
    ModAtMost(0, p);
    if a.flag == 0 {
      c.flag := 0;
    } else {
      DecodeMod((x + x) % p, 1, x, 1, x, w, p);
      EqMod(x + x, p);
      assert a.d[..f.t] == a.d[..];
      var carry := LShift1(c.d, a.d, f.t);
      c.flag := SettleFlag(c.d, carry, f.prime, f.t, x + x);
    }
  }

  // fp_neg
  method Neg(f: FieldData, c: Element, a: Element)
    requires f.Valid() && Ok(f, a) && Storage(f, c) && Apart(c, a)
    modifies c, c.d
    ensures Ok(f, c) && Val(f, c) == -old(Val(f, a)) % f.P()
  {
    hide Value, Pw, Decode;
    ghost var p, w, x := f.P(), f.W(), Value(a.d[..]);
    DecodeRange(x, w, p);
    ModAtMost(0, p);
    if a.flag == 0 {
      c.flag := 0;
    } else {
      Correction(-x, p);
      DecodeMod(p - x, -1, x, 0, x, w, p);
      assert -1 * x + 0 * x == -x && -1 * Decode(x, w, p) + 0 * Decode(x, w, p) == -Decode(x, w, p);
      assert f.prime[0..0 + f.t] == f.prime[..] && a.d[..f.t] == a.d[..];
      ValueBound(f.prime[..]);
      var borrow := SubN(c.d, f.prime, 0, a.d, f.t);
      assert c.d[..f.t] == c.d[..];
      ValueBound(c.d[..]);
      c.flag := 2;
    }
  }

  // Subtraction of distinct residues: after a borrow the modulus is added back.
  method FlagSub(c: array<Limb>, a: array<Limb>, b: array<Limb>, prime: array<Limb>, t: nat) returns (flag: int)
    requires Modulus(prime, t) && c.Length == a.Length == b.Length == t && c != prime
    requires 0 < Value(a[..]) < Value(prime[..]) && 0 < Value(b[..]) < Value(prime[..])
    modifies c
    ensures flag == 0 <==> old(Value(a[..]) - Value(b[..])) % Value(prime[..]) == 0
    ensures flag != 0 ==> Value(c[..]) == old(Value(a[..]) - Value(b[..])) % Value(prime[..])
  {
    hide Value, Pw;
    ghost var p, x := Value(prime[..]), Value(a[..]) - Value(b[..]);
    assert a[0..0 + t] == a[..] && b[..t] == b[..] && prime[..t] == prime[..];
    ValueBound(prime[..]);
    Correction(x, p);
    var i := Cmp(a, 0, b, t);
    if i == 0 {
      flag := 0;
    } else {
      flag := 2;
      var borrow := SubN(c, a, 0, b, t);
      assert c[..t] == c[..];
      ValueBound(c[..]);
      if i < 0 {
        var carry := AddN(c, c, prime, t);
        assert c[..t] == c[..];
        ValueBound(c[..]);
      }
    }
  }

  // fp_sub
  method Sub(f: FieldData, c: Element, a: Element, b: Element)
    requires f.Valid() && Ok(f, a) && Ok(f, b) && Storage(f, c) && Apart(c, a) && Apart(c, b)
    modifies c, c.d
    ensures Ok(f, c) && Val(f, c) == old(Val(f, a) - Val(f, b)) % f.P()
  {
    hide Value, Pw, Decode;
    ghost var p, w, x, y := f.P(), f.W(), Value(a.d[..]), Value(b.d[..]);
    DecodeRange(x, w, p); DecodeRange(y, w, p);
    ModAtMost(Val(f, a), p);
    if a.flag == 0 {
      Neg(f, c, b);
    } else if b.flag == 0 {
      Set(f, c, a);
    } else {
      DecodeMod((x - y) % p, 1, x, -1, y, w, p);
      EqMod(x - y, p);
      c.flag := FlagSub(c.d, a.d, b.d, f.prime, f.t);
    }
  }

  // The Montgomery product of nonzero residues is nonzero.
  lemma ProductNonzero(x: int, y: int, r: int, w: int, p: int)
    requires Prime(p) && 0 < x < p && 0 < y < p && 0 <= r < p && Eq(r * w, x * y, p)
    ensures r > 0
  {
    if r == 0 {
      EqSym(0 * w, x * y, p);
      NoZeroDivisors(x, y, p);
      if Eq(x, 0, p) { EqSmall(x, 0, p); } else { EqSmall(y, 0, p); }
    }
  }

  // fp_mul
  method Mul(f: FieldData, c: Element, a: Element, b: Element)
    requires f.Valid() && Ok(f, a) && Ok(f, b) && Storage(f, c) && Apart(c, a) && Apart(c, b)
    modifies c, c.d
    ensures Ok(f, c) && Val(f, c) == old(Val(f, a) * Val(f, b)) % f.P()
  {
    FieldFacts(f);
    hide Value, Pw, Decode, MontProduct, FinalSubtract, Prime;
    ghost var p, w, A, x, y := f.P(), f.W(), a.d[..], Value(a.d[..]), Value(b.d[..]);
    ghost var va, vb := Val(f, a), Val(f, b);
    if a.flag == 0 || b.flag == 0 {
      assert va * vb == 0;
      ModAtMost(0, p);
      c.flag := 0;
    } else {
      MontExact(A, y, p, f.negpinv);
      Headroom(A, y, p, f.negpinv);
      MontMul(c.d, a.d, b.d, f.prime, f.negpinv);
      ghost var r := Value(c.d[..]);
      ProductNonzero(x, y, r, w, p);
      DecodeProduct(r, x, y, w, p);
      c.flag := 2;
    }
  }

  lemma DecodeNonzero(x: int, w: int, p: int)
    requires p > 0 && Eq(w * Inv(w, p), 1, p) && 0 < x < p
    ensures Decode(x, w, p) > 0
  {
    DecodeRange(x, w, p);
    DecodeExact(x, 0, w, p);
    if Eq(0, x, p) { EqSmall(0, x, p); }
  }

  // Only odd moduli have the Montgomery constant.
  lemma ModulusOdd(ninv: int, p: int)
    requires NegInverse(ninv, p)
    ensures p % 2 == 1
  {
    assert (ninv * p) % 2 == 1 by {
      assert ninv * p + 1 == BASE * ((ninv * p + 1) / BASE);
    }
    if p % 2 == 0 { EvenProduct(ninv, p); }
  }

  lemma EvenProduct(a: int, b: int)
    requires b % 2 == 0
    ensures (a * b) % 2 == 0
  {
    assert a * b == 2 * (a * (b / 2));
  }

  // fp_halve: the limbs are always right; on the odd path with a separate result the
  // program leaves the result's flag as it was, so the element is right iff it was set.
  method Halve(f: FieldData, c: Element, a: Element)
    requires f.Valid() && Ok(f, a) && Storage(f, c) && Apart(c, a)
    modifies c, c.d
    ensures a != c && old(a.flag) != 0 && old(a.d[0]) % 2 == 1 ==> c.flag == old(c.flag)
    ensures Ok(f, c)
    ensures 2 * Val(f, c) % f.P() == old(Val(f, a))
            <==> (c == a || old(a.flag) == 0 || old(a.d[0]) % 2 == 0 || old(c.flag) != 0)
  {
    ModulusOdd(f.negpinv, f.P());
    FieldFacts(f);
    hide Value, Pw, Decode;
    ghost var p, w, x, va := f.P(), f.W(), Value(a.d[..]), Val(f, a);
    DecodeRange(x, w, p);
    ModAtMost(0, p);
    if a.flag == 0 {
      c.flag := 0;
    } else {
      if a.d[0] % 2 == 0 && c != a { c.flag := 2; }
      FastHalve(c.d, a.d, f.prime, f.t);
      ghost var r := Value(c.d[..]);
      DecodeMod(x, 2, r, 0, r, w, p);
      DecodeNonzero(x, w, p);
    }
  }

  lemma PrimeSeven()
    ensures Prime(7) && Pw(1) == BASE && Pw(2) == BASE * BASE
  {
    assert Pw(2) == BASE * Pw(1) && Pw(1) == BASE * Pw(0);
  }

  // The Montgomery limb of 2 modulo 7 is 1.
  lemma LimbOfTwo(d: seq<Limb>)
    requires |d| == 1 && 0 < Value(d) < 7 && Eq(BASE * Inv(BASE, 7), 1, 7) && Decode(Value(d), BASE, 7) == 2
    ensures d[0] == 1
  {
    hide Inv, Decode;
    assert Value(d) == d[0] + BASE * Value(d[1..]);
    assert Value(d[1..]) == 0;
    DecodeExact(Value(d), 2, BASE, 7);
    var k := EqElim(2 * BASE, Value(d), 7);
  }

  method TwoModSeven(f: FieldData) returns (a: Element)
    requires f.Valid() && f.P() == 7 && f.t == 1
    ensures fresh(a) && fresh(a.d) && Ok(f, a) && Val(f, a) == 2 && a.flag != 0 && a.d[0] == 1
  {
    hide Value, Decode, Pw, Prime;
    PrimeSeven();
    FieldFacts(f);
    a := new Element(1);
    SetMpz(f, a, 2);
    LimbOfTwo(a.d[..]);
  }

  method ModSeven() returns (f: FieldData)
    ensures fresh(f) && f.Valid() && f.P() == 7 && f.t == 1
  {
    hide Value, Pw, Prime;
    PrimeSeven();
    f := new FieldData(7, 1);
  }

  /** Setting 7 modulo 7: the element is zero, but its flag says that it is not. */
  method SetMpzFails() returns (f: FieldData, e: Element)
    ensures f.Valid() && f.P() == 7 && Val(f, e) == 0 && e.flag != 0 && !Ok(f, e)
  {
    hide Value, Decode, Pw, Prime, NegInverse;
    f := ModSeven();
    e := new Element(1);
    SetMpz(f, e, 7);
  }

  /** Halving 2 modulo 7 into a new element: the result still reads as zero. */
  method HalveFails() returns (f: FieldData, c: Element, a: Element)
    ensures f.Valid() && f.P() == 7 && Ok(f, a) && Ok(f, c) && Val(f, a) == 2
    ensures Val(f, c) == 0 && 2 * Val(f, c) % 7 != Val(f, a)
  {
    hide Value, Decode, Pw, Prime, NegInverse;
    f := ModSeven();
    a := TwoModSeven(f);
    c := new Element(1);
    Halve(f, c, a);
  }

  // fp_to_mpz: a flagged element is nonzero, so the program's scan for the top limb stops.
  method ToMpz(f: FieldData, e: Element) returns (z: int)
    requires f.Valid() && Ok(f, e)
    ensures z == Val(f, e) && 0 <= z < f.P()
    ensures e.flag != 0 ==> z > 0
  {
    FieldFacts(f);
    hide Value, Pw, Decode, NegInverse, Prime;
    ghost var p, w, x := f.P(), f.W(), Value(e.d[..]);
    if e.flag == 0 {
      z := 0;
    } else {
      var tmp := Padded(e.d, f.t);
      var out := new Limb[f.t];
      BelowProduct(x, p, w);
      var flag := MontReduce(out, tmp, f.prime, f.negpinv);
      z := Value(out[..]);
      DecodeExact(x, z, w, p);
      DecodeNonzero(x, w, p);
    }
  }

  lemma BelowProduct(x: int, p: int, w: int)
    requires 0 <= x < p && w >= 1
    ensures x < p * w
  {
    MulLe(1, w, p);
  }

  // memcpy of the low half, memset of the high half
  method Padded(d: array<Limb>, t: nat) returns (tmp: array<Limb>)
    requires d.Length == t
    ensures fresh(tmp) && tmp.Length == 2 * t && Value(tmp[..]) == Value(d[..])
  {
    tmp := new Limb[2 * t];
    for i := 0 to t
      invariant tmp[..i] == d[..i]
    {
      tmp[i] := d[i];
    }
    for i := t to 2 * t
      invariant tmp[..t] == d[..t]
      invariant forall j :: t <= j < i ==> tmp[j] == 0
    {
      tmp[i] := 0;
    }
    PaddedValue(tmp[..], d[..], t);
  }

  lemma PaddedValue(s: seq<Limb>, r: seq<Limb>, t: nat)
    requires |r| == t && |s| == 2 * t && s[..t] == r[..t]
    requires forall j :: t <= j < 2 * t ==> s[j] == 0
    ensures Value(s) == Value(r)
  {
    ValueSplit(s, t);
    ValueZeros(s[t..]);
    assert r[..t] == r;
  }

  // fp_set1
  method Set1(f: FieldData, e: Element)
    requires f.Valid() && Storage(f, e)
    modifies e, e.d
    ensures Ok(f, e) && Val(f, e) == 1
  {
    FieldFacts(f);
    for i := 0 to f.t
      invariant e.d[..i] == f.R[..i]
    {
      e.d[i] := f.R[i];
    }
    assert e.d[..f.t] == e.d[..];
    e.flag := 2;
    RadixResidue(f.W(), f.P());
  }

  lemma RadixResidue(w: int, p: int)
    requires p > 1 && Eq(w * Inv(w, p), 1, p)
    ensures 0 < w % p < p && Decode(w % p, w, p) == 1
  {
    EqMod(w, p);
    EqSym(w % p, w, p);
    assert 1 * w == w;
    DecodeExact(w % p, 1, w, p);
    UnitNonzero(w, Inv(w, p), p);
    EqIffMod(w, 0, p);
    ModAtMost(0, p);
  }

  lemma UnitNonzero(w: int, i: int, p: int)
    requires p > 1 && Eq(w * i, 1, p)
    ensures !Eq(w, 0, p)
  {
    ZeroIsNotOne(w * i, p);
    EqRefl(i, p);
    if Eq(w, 0, p) { EqMul(w, 0, i, i, p); }
  }

  lemma ZeroIsNotOne(a: int, p: int)
    requires p > 1
    ensures !(Eq(a, 0, p) && Eq(a, 1, p))
  {
    EqIffMod(a, 0, p);
    EqIffMod(a, 1, p);
    ModAtMost(0, p);
    ModAtMost(1, p);
  }

  // fp_is1
  method IsOne(f: FieldData, e: Element) returns (one: bool)
    requires f.Valid() && Ok(f, e)
    ensures one <==> Val(f, e) == 1
  {
    FieldFacts(f);
    RadixResidue(f.W(), f.P());
    if e.flag == 0 { return false; }
    var c := Cmp(e.d, 0, f.R, f.t);
    assert e.d[0..0 + f.t] == e.d[..];
    one := c == 0;
    OneIsRadix(Value(e.d[..]), f.W(), f.P());
  }

  lemma OneIsRadix(x: int, w: int, p: int)
    requires p > 1 && Eq(w * Inv(w, p), 1, p) && 0 <= x < p
    ensures Decode(x, w, p) == 1 <==> x == w % p
  {
    RadixResidue(w, p);
    if Decode(x, w, p) == 1 {
      DecodeExact(x, 1, w, p);
      assert 1 * w == w;
      EqSym(w, x, p);
      EqIffMod(x, w, p);
      ModAtMost(x, p);
    }
  }

  // fp_invert: one Montgomery product with R^3 turns the plain inverse of aR into a^-1 R.
  method Invert(f: FieldData, c: Element, a: Element)
    requires f.Valid() && Ok(f, a) && a.flag != 0 && Storage(f, c) && Apart(c, a)
    modifies c, c.d
    ensures Ok(f, c) && Val(f, c) * old(Val(f, a)) % f.P() == 1
  {
    FieldFacts(f);
    ghost var p, w, x := f.P(), f.W(), Value(a.d[..]);
    var m := f.Order();
    var z := Inv(Value(a.d[..]), m);
    var tmp := new Limb[f.t];
    Export(tmp, z);
    CubeMod(w, p);
    NonzeroResidue(x, p);
    InvPrime(x, p);
    MontExact(tmp[..], Value(f.R3[..]), p, f.negpinv);
    Headroom(tmp[..], Value(f.R3[..]), p, f.negpinv);
    MontMul(c.d, tmp, f.R3, f.prime, f.negpinv);
    c.flag := 2;
    InverseProduct(Value(c.d[..]), x, z, w, w * w * w % p, p);
  }

  lemma NonzeroResidue(x: int, p: int)
    requires 0 < x < p
    ensures !Eq(x, 0, p)
  {
    if Eq(x, 0, p) { EqSmall(x, 0, p); }
  }

  lemma InverseProduct(r: int, x: int, z: int, w: int, r3: int, p: int)
    requires p > 1 && Eq(w * Inv(w, p), 1, p) && 0 <= r < p && r3 == w * w * w % p
    requires Eq(x * z, 1, p) && Eq(r * w, z * r3, p)
    ensures Decode(r, w, p) * Decode(x, w, p) % p == 1 && r > 0
  {
    var i := Inv(w, p);
    var dr, dx := Decode(r, w, p), Decode(x, w, p);
    assert Eq(r, z * w * w, p) by {
      EqMod(w * w * w, p);
      Combine3(i, r * w - z * r3, i * z, r3 - w * w * w, -(r - z * w * w), w * i - 1, p);
      CancelIdentity(r, z, w, r3, i);
    }
    EqMod(r * i, p); EqMod(x * i, p); EqRefl(i, p);
    EqMul(r, z * w * w, i, i, p);
    EqTrans(dr, r * i, z * w * w * i, p);
    EqMul(dr, z * w * w * i, dx, x * i, p);
    EqMul(x * z, 1, w * i, 1, p);
    EqMul(x * z * (w * i), 1, w * i, 1, p);
    assert (z * w * w * i) * (x * i) == x * z * (w * i) * (w * i) by { ReorderIdentity(z, w, i, x); }
    EqTrans(dr * dx, (z * w * w * i) * (x * i), 1, p);
    EqIffMod(dr * dx, 1, p);
    ModAtMost(1, p);
    DecodeRange(x, w, p);
    ModAtMost(0, p);
    assert 0 * dx == 0;
  }

  lemma CancelIdentity(r: int, z: int, w: int, r3: int, i: int)
    ensures i * (r * w - z * r3) + (i * z) * (r3 - w * w * w) + -(r - z * w * w) * (w * i - 1) == r - z * w * w
  {}

  lemma ReorderIdentity(z: int, w: int, i: int, x: int)
    ensures (z * w * w * i) * (x * i) == x * z * (w * i) * (w * i)
  {}
}
