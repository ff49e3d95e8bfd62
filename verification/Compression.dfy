/** Point compression (ecc/curve.c) over a prime field: the x coordinate and the sign of y
    determine a finite point. */
module Compression {
  import opened Modular
  import opened Bits
  import opened Bytes
  import opened Residues
  import opened Curve
  import opened CurveLaw
  import Tonelli

  // ---------- fixed-length big-endian bytes ----------

  lemma {:induction false} BytesRoundTrip(z: nat, n: nat)
    requires z < Two(8 * n)
    ensures FromBytes(ToBytes(z, n)) == z
  {
    if n > 0 {
      ByteShift(n);
      BytesRoundTrip(z / 256, n - 1);
      var s := ToBytes(z, n);
      assert s[..|s| - 1] == ToBytes(z / 256, n - 1);
    }
  }

  lemma ByteShift(n: nat)
    requires n >= 1
    ensures Two(8 * n) == Two(8 * (n - 1)) * 256
  {
    assert Two(8) == 256;
    TwoAdd(8 * (n - 1), 8);
  }

  // Bytes above the leading one are zero.
  lemma {:induction false} LeadingZeros(z: nat, count: nat, n: nat)
    requires z < Two(8 * count) && count <= n
    ensures ToBytes(z, n) == Zeros(n - count) + ToBytes(z, count)
    decreases n
  {
    if count > 0 {
      ByteShift(count);
      LeadingZeros(z / 256, count - 1, n - 1);
      assert Zeros(n - count) + (ToBytes(z / 256, count - 1) + [z % 256]) == (Zeros(n - count) + ToBytes(z / 256, count - 1)) + [z % 256];
    } else if n > 0 {
      LeadingZeros(0, 0, n - 1);
      assert Zeros(n - 1) + [0] == Zeros(n);
      assert Zeros(n) + ToBytes(z, 0) == Zeros(n);
      assert Zeros(n - 1) + ToBytes(0, 0) == Zeros(n - 1);
    }
  }

  // The fixed length of the elements of a field (fixed_length_in_bytes)
  function ByteCount(z: nat): nat { (SizeInBase2(z) + 7) / 8 }

  lemma {:induction false} SizeBound(n: nat)
    ensures n < Two(SizeInBase2(n))
  {
    if n >= 2 { SizeBound(n / 2); } else { assert Two(1) == 2 * Two(0); }
  }

  lemma {:induction false} SizeMono(m: nat, n: nat)
    requires m <= n
    ensures SizeInBase2(m) <= SizeInBase2(n)
  {
    if m >= 2 { SizeMono(m / 2, n / 2); }
  }

  lemma FitsBytes(z: nat, q: nat)
    requires z <= q
    ensures z < Two(8 * ByteCount(z)) && ByteCount(z) <= ByteCount(q) && z < Two(8 * ByteCount(q))
  {
    SizeBound(z);
    SizeMono(z, q);
    TwoMono(SizeInBase2(z), 8 * ByteCount(z));
    TwoMono(8 * ByteCount(z), 8 * ByteCount(q));
  }

  /** pbc_mpz_out_raw_n */
  method OutRawN(data: array<Byte>, n: nat, z: nat)
    requires n <= data.Length && ByteCount(z) <= n
    modifies data
    ensures data[..n] == ToBytes(z, n) && data[n..] == old(data[n..])
  {
    hide ToBytes, SizeInBase2;
    FitsBytes(z, z);
    if z != 0 {
      var count := ByteCount(z);
      var bytes := ToBytes(z, count);
      forall i | 0 <= i < count { data[n - count + i] := bytes[i]; }
      forall i | 0 <= i < n - count { data[i] := 0; }
      LeadingZeros(z, count, n);
      assert data[..n] == Zeros(n - count) + ToBytes(z, count);
    } else {
      forall i | 0 <= i < n { data[i] := 0; }
      LeadingZeros(0, 0, n) by { TwoZero(); }
      NoBytes();
      assert data[..n] == Zeros(n) + [];
    }
  }

  lemma TwoZero()
    ensures Two(8 * 0) == 1
  {}

  lemma NoBytes()
    ensures ToBytes(0, 0) == []
  {}

  // ---------- signs ----------

  // fp_sgn_odd: 0 for zero, otherwise by the parity of the residue
  function Sign(y: int, q: int): int
    requires q > 0
  {
    if y % q == 0 then 0 else if y % q % 2 == 1 then 1 else -1
  }

  lemma NegatedResidue(y: int, q: int)
    requires q > 0
    ensures (-y) % q == if y % q == 0 then 0 else q - y % q
  {
    var r := y % q;
    if r == 0 {
      Combine(-1, y, q);
    } else {
      var k := y / q;
      assert y == q * k + r;
      EqIntro(-y, q - r, -k - 1, q);
      EqIffMod(-y, q - r, q);
      SmallMod(q - r, q);
    }
  }

  lemma SignNegated(y: int, q: int)
    requires q > 0 && q % 2 == 1
    ensures Sign(-y, q) == -Sign(y, q)
  {
    EqMod(y, q);
    NegatedResidue(y, q);
    OtherParity(y % q, q);
  }

  lemma OtherParity(r: int, q: int)
    requires q % 2 == 1
    ensures (q - r) % 2 != r % 2
  {}

  lemma SignCong(y: int, z: int, q: int)
    requires q > 0 && Eq(y, z, q)
    ensures Sign(y, q) == Sign(z, q)
  {
    EqIffMod(y, z, q);
  }

  // ---------- compression ----------

  function Compressed(x: int, y: int, q: int): seq<Byte>
    requires q > 0
  {
    ToBytes(x % q, ByteCount(q)) + [if Sign(y, q) > 0 then 1 else 0]
  }

  /** element_to_bytes_compressed */
  method ToBytesCompressed(data: array<Byte>, p: Point, q: int) returns (len: nat)
    requires q > 0 && data.Length > ByteCount(q)
    modifies data
    ensures len == ByteCount(q) + 1 && data[..len] == Compressed(p.x, p.y, q) && data[len..] == old(data[len..])
    ensures FromBytes(data[..len - 1]) == p.x % q && data[len - 1] == p.y % q % 2
  {
    hide ToBytes, SizeInBase2, FromBytes;
    len := ByteCount(q);
    FitsBytes(p.x % q, q);
    BytesRoundTrip(p.x % q, len);
    ghost var rest := data[len + 1..];
    assert rest == data[len..][1..];
    OutRawN(data, len, p.x % q);
    assert data[len..][1..] == rest;
    if Sign(p.y, q) > 0 {
      data[len] := 1;
    } else {
      data[len] := 0;
    }
    len := len + 1;
    assert data[..len] == data[..len - 1] + [data[len - 1]];
    assert data[..len - 1] == ToBytes(p.x % q, len - 1);
  }

  // Two roots of one value that have the same sign are the same element.
  lemma SameSignRoots(y: int, z: int, q: int)
    requires Prime(q) && q > 2 && Eq(y * y, z * z, q) && Sign(y, q) == Sign(z, q)
    ensures Eq(y, z, q)
  {
    OddPrime(q);
    SquareDifference(y, z);
    NoZeroDivisors(y - z, y + z, q);
    if Eq(y + z, 0, q) {
      assert y + z == y - -z;
      SignCong(y, -z, q);
      SignNegated(z, q);
      assert Sign(y, q) == 0 && Sign(z, q) == 0;
      EqIffMod(y, z, q);
    }
  }

  // The other root has the other sign.
  lemma FixSign(y: int, r: int, q: int, bit: int)
    requires Prime(q) && q > 2 && Eq(r * r, y * y, q) && (bit == 1 || bit == 0) && (bit == 1 <==> Sign(y, q) > 0)
    ensures var r' := if (bit == 1 && Sign(r, q) < 0) || (bit == 0 && Sign(r, q) > 0) then -r else r; Eq(r', y, q)
  {
    OddPrime(q);
    SignNegated(r, q);
    var r' := if (bit == 1 && Sign(r, q) < 0) || (bit == 0 && Sign(r, q) > 0) then -r else r;
    assert r' * r' == r * r;
    if Sign(r', q) == Sign(y, q) {
      SameSignRoots(r', y, q);
    } else {
      ZeroRoots(r, y, q);
    }
  }

  // Roots of 0 are 0.
  lemma ZeroRoots(r: int, y: int, q: int)
    requires Prime(q) && Eq(r * r, y * y, q)
    ensures Sign(r, q) == 0 <==> Sign(y, q) == 0
  {
    NonzeroCong(r * r, y * y, q);
    EqIffMod(r, 0, q);
    EqIffMod(y, 0, q);
    ModZero(0, 0, q);
    if Eq(r, 0, q) { EqMul(r, 0, r, 0, q); NoZeroDivisors(y, y, q); }
    if Eq(y, 0, q) { EqMul(y, 0, y, 0, q); NoZeroDivisors(r, r, q); }
  }

  /** element_from_bytes_compressed: reads back the point that was compressed. */
  method FromBytesCompressed(e: Point, data: array<Byte>, a: int, b: int, nqr: int, q: int, ghost x: int, ghost y: int) returns (len: nat)
    requires Prime(q) && q > 2 && !IsSqr(nqr, q) && data.Length > ByteCount(q)
    requires data[..ByteCount(q) + 1] == Compressed(x, y, q) && OnCurve(Pt(x, y), a, b, q)
    modifies e
    ensures len == ByteCount(q) + 1 && !e.inf && SamePt(e.At(), Pt(x, y), q)
  {
    hide ToBytes, FromBytes, SizeInBase2, Eq, IsSqr, Sign, Prime, Tonelli.Scan1;
    len := ByteCount(q);
    FitsBytes(x % q, q);
    BytesRoundTrip(x % q, len);
    assert data[..len] == ToBytes(x % q, len) by { assert data[..len] == data[..len + 1][..len]; }
    assert data[len] == data[..len + 1][len];
    e.x := FromBytes(data[..len]);
    EqMod(x, q);
    e.inf := false;
    var t := e.x * e.x;
    t := t + a;
    t := t * e.x;
    t := t + b;
    var r := Tonelli.FpTonelli(t, nqr, q);
    RootOnCurve(e.x, x, y, a, b, t, r, q);
    FixSign(y, r, q, data[len]);
    e.y := r;
    if data[len] != 0 {
      if Sign(e.y, q) < 0 { e.y := -e.y; }
    } else if Sign(e.y, q) > 0 {
      e.y := -e.y;
    }
    len := len + 1;
  }

  lemma CubicForm(x: int, a: int, b: int)
    ensures Cubic(x, a, b) == (x * x + a) * x + b
  {}

  lemma RootOnCurve(ex: int, x: int, y: int, a: int, b: int, t: int, r: int, q: int)
    requires q > 0 && Eq(ex, x, q) && OnCurve(Pt(x, y), a, b, q) && t == (ex * ex + a) * ex + b
    requires Eq(r * r, t, q) <==> IsSqr(t, q)
    ensures Eq(r * r, y * y, q)
  {
    CubicForm(x, a, b);
    EqMul(ex, x, ex, x, q);
    EqRefl(a, q); EqRefl(b, q);
    EqAdd(ex * ex, x * x, a, a, q);
    EqMul(ex * ex + a, x * x + a, ex, x, q);
    EqAdd((ex * ex + a) * ex, (x * x + a) * x, b, b, q);
    EqSym(y * y, (x * x + a) * x + b, q);
    EqTrans(t, (x * x + a) * x + b, y * y, q);
    IsSqrIntro(t, y, q);
    EqTrans(r * r, t, y * y, q);
  }
}
