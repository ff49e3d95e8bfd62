/** Windowed and table-driven powers (arith/field.c), over any commutative monoid of elements. */
module PowWindow {
  import opened Bits

  datatype Monoid<!T> = Monoid(mul: (T, T) -> T, one: T)

  ghost predicate AssocAt<T>(g: Monoid<T>, a: T, b: T, c: T) { g.mul(g.mul(a, b), c) == g.mul(a, g.mul(b, c)) }

  ghost predicate CommAt<T>(g: Monoid<T>, a: T, b: T) { g.mul(a, b) == g.mul(b, a) }

  ghost predicate OneAt<T>(g: Monoid<T>, a: T) { g.mul(a, g.one) == a }

  ghost predicate Laws<T(!new)>(g: Monoid<T>) {
    (forall a, b, c :: AssocAt(g, a, b, c)) && (forall a, b :: CommAt(g, a, b)) && (forall a :: OneAt(g, a))
  }

  ghost function Pow<T>(g: Monoid<T>, a: T, n: nat): T {
    if n == 0 then g.one else g.mul(Pow(g, a, n - 1), a)
  }

  lemma Assoc<T(!new)>(g: Monoid<T>, a: T, b: T, c: T)
    requires Laws(g)
    ensures g.mul(g.mul(a, b), c) == g.mul(a, g.mul(b, c))
  {
    assert AssocAt(g, a, b, c);
  }

  lemma Comm<T(!new)>(g: Monoid<T>, a: T, b: T)
    requires Laws(g)
    ensures g.mul(a, b) == g.mul(b, a)
  {
    assert CommAt(g, a, b);
  }

  lemma One<T(!new)>(g: Monoid<T>, a: T)
    requires Laws(g)
    ensures g.mul(a, g.one) == a && g.mul(g.one, a) == a
  {
    assert OneAt(g, a);
    Comm(g, a, g.one);
  }

  lemma PowSmall<T(!new)>(g: Monoid<T>, a: T)
    requires Laws(g)
    ensures Pow(g, a, 0) == g.one && Pow(g, a, 1) == a
  {
    One(g, a);
    assert Pow(g, a, 1) == g.mul(Pow(g, a, 0), a);
  }

  lemma {:induction false} PowAdd<T(!new)>(g: Monoid<T>, a: T, m: nat, n: nat)
    requires Laws(g)
    ensures Pow(g, a, m + n) == g.mul(Pow(g, a, m), Pow(g, a, n))
  {
    hide Laws;
    if n == 0 {
      One(g, Pow(g, a, m));
    } else {
      PowAdd(g, a, m, n - 1);
      Assoc(g, Pow(g, a, m), Pow(g, a, n - 1), a);
    }
  }

  // (ab)(cd) = (ac)(bd)
  lemma Exchange<T(!new)>(g: Monoid<T>, a: T, b: T, c: T, d: T)
    requires Laws(g)
    ensures g.mul(g.mul(a, b), g.mul(c, d)) == g.mul(g.mul(a, c), g.mul(b, d))
  {
    hide Laws;
    Assoc(g, a, b, g.mul(c, d));
    Assoc(g, b, c, d);
    Comm(g, b, c);
    Assoc(g, c, b, d);
    Assoc(g, a, c, g.mul(b, d));
  }

  // ---------- square and multiply ----------

  // One binary digit more of the exponent.
  lemma PowDigit<T(!new)>(g: Monoid<T>, a: T, n: nat, s: nat)
    requires Laws(g)
    ensures var sq := g.mul(Pow(g, a, Shr(n, s + 1)), Pow(g, a, Shr(n, s + 1)));
            Pow(g, a, Shr(n, s)) == if TstBit(n, s) == 1 then g.mul(sq, a) else sq
  {
    hide Laws, Pow;
    ShrStep(n, s);
    var p := Shr(n, s + 1);
    PowAdd(g, a, p, p);
    PowAdd(g, a, 2 * p, 1);
    PowSmall(g, a);
    assert p + p == 2 * p;
  }

  lemma PowStart<T(!new)>(g: Monoid<T>, a: T, n: nat, s: nat)
    requires Laws(g) && s >= SizeInBase2(n)
    ensures Pow(g, a, Shr(n, s)) == g.one && Shr(n, s) == 0
  {
    ShrSize(n);
    ShrZero(n, SizeInBase2(n), s);
  }

  lemma {:induction false} ShrZero(n: nat, i: nat, j: nat)
    requires Shr(n, i) == 0 && i <= j
    ensures Shr(n, j) == 0
    decreases j
  {
    if i < j { ShrZero(n, i, j - 1); }
  }

  /** naive_generic_pow_mpz */
  method NaivePow<T(!new)>(g: Monoid<T>, a: T, n: nat) returns (x: T)
    requires Laws(g)
    ensures x == Pow(g, a, n)
  {
    hide Laws, Pow;
    if n == 0 {
      PowSmall(g, a);
      return g.one;
    }
    var result := g.one;
    var s := SizeInBase2(n) - 1;
    PowStart(g, a, n, SizeInBase2(n));
    while s >= 0
      invariant -1 <= s && result == Pow(g, a, Shr(n, s + 1))
    {
      PowDigit(g, a, n, s);
      result := g.mul(result, result);
      if TstBit(n, s) == 1 {
        result := g.mul(result, a);
      }
      s := s - 1;
    }
    x := result;
  }

  // ---------- sliding window ----------

  lemma PowZero<T>(g: Monoid<T>, a: T)
    ensures Pow(g, a, 0) == g.one
  {}

  lemma PowSucc<T>(g: Monoid<T>, a: T, n: nat)
    requires n >= 1
    ensures Pow(g, a, n) == g.mul(Pow(g, a, n - 1), a)
  {}

  ghost predicate Window<T>(g: Monoid<T>, a: T, k: nat, lookup: array<T>)
    reads lookup
  {
    lookup.Length == Two(k) && forall i :: 0 <= i < lookup.Length ==> lookup[i] == Pow(g, a, i)
  }

  /** build_pow_window: entry i is a^i. */
  method BuildPowWindow<T(!new)>(g: Monoid<T>, a: T, k: nat) returns (lookup: array<T>)
    requires k >= 1
    ensures fresh(lookup) && Window(g, a, k, lookup)
  {
    hide Pow, Two;
    PowZero(g, a);
    var lookupSize := Two(k);
    lookup := new T[lookupSize](_ => g.one);
    lookup[0] := g.one;
    for s := 1 to lookupSize
      invariant forall i :: 0 <= i < s ==> lookup[i] == Pow(g, a, i)
    {
      PowSucc(g, a, s);
      lookup[s] := g.mul(lookup[s - 1], a);
    }
  }

  // The pending word, shifted with the square of the result.
  lemma WordDigit<T(!new)>(g: Monoid<T>, a: T, p: nat, word: nat)
    requires Laws(g) && word <= p
    ensures g.mul(Pow(g, a, p - word), Pow(g, a, p - word)) == Pow(g, a, 2 * p - 2 * word)
  {
    PowAdd(g, a, p - word, p - word);
  }

  /** element_pow_wind: result = a^(prefix - pending word) throughout. */
  method PowWind<T(!new)>(g: Monoid<T>, ghost a: T, n: nat, k: nat, lookup: array<T>) returns (x: T)
    requires Laws(g) && k >= 1 && Window(g, a, k, lookup)
    ensures x == Pow(g, a, n)
  {
    hide Laws, Pow;
    if n == 0 {
      PowSmall(g, a);
      return g.one;
    }
    var result := g.one;
    var inword, word, wbits := false, 0, 0;
    var s := SizeInBase2(n) - 1;
    PowStart(g, a, n, SizeInBase2(n));
    while s >= 0
      invariant -1 <= s
      invariant inword ==> 0 < word < Two(wbits) && wbits < k && word <= Shr(n, s + 1) && s >= 0
      invariant result == Pow(g, a, Shr(n, s + 1) - if inword then word else 0)
      decreases s
    {
      WordDigit(g, a, Shr(n, s + 1), if inword then word else 0);
      result := g.mul(result, result);
      var bit := TstBit(n, s);
      ShrStep(n, s);
      if !inword && bit == 0 {
        s := s - 1;
        continue;
      }
      if !inword {
        inword := true;
        word, wbits := 1, 1;
      } else {
        word, wbits := 2 * word + bit, wbits + 1;
      }
      assert word <= Shr(n, s) && result == Pow(g, a, Shr(n, s) - word);
      assert word < Two(wbits) && wbits <= k;
      if wbits == k || s == 0 {
        TwoMono(wbits, k);
        PowAdd(g, a, Shr(n, s) - word, word);
        result := g.mul(result, lookup[word]);
        inword := false;
      }
      s := s - 1;
    }
    x := result;
  }

  // ---------- several bases at once ----------

  /** element_pow2_mpz */
  method Pow2<T(!new)>(g: Monoid<T>, a1: T, n1: nat, a2: T, n2: nat) returns (x: T)
    requires Laws(g)
    ensures x == g.mul(Pow(g, a1, n1), Pow(g, a2, n2))
  {
    hide Laws, Pow;
    One(g, g.one);
    if n1 == 0 && n2 == 0 {
      PowSmall(g, a1); PowSmall(g, a2);
      return g.one;
    }
    var result := g.one;
    var a1a2 := g.mul(a1, a2);
    var s1 := SizeInBase2(n1) - 1;
    var s2 := SizeInBase2(n2) - 1;
    var s := if s1 > s2 then s1 else s2;
    PowStart(g, a1, n1, s + 1);
    PowStart(g, a2, n2, s + 1);
    while s >= 0
      invariant -1 <= s && result == g.mul(Pow(g, a1, Shr(n1, s + 1)), Pow(g, a2, Shr(n2, s + 1)))
    {
      PowDigit(g, a1, n1, s);
      PowDigit(g, a2, n2, s);
      ghost var p1, p2 := Pow(g, a1, Shr(n1, s + 1)), Pow(g, a2, Shr(n2, s + 1));
      ghost var q1, q2 := g.mul(p1, p1), g.mul(p2, p2);
      Exchange(g, p1, p2, p1, p2);
      result := g.mul(result, result);
      var b1, b2 := TstBit(n1, s), TstBit(n2, s);
      if b1 == 1 && b2 == 1 {
        Exchange(g, q1, q2, a1, a2);
        result := g.mul(result, a1a2);
      } else if b1 == 1 {
        Exchange(g, q1, q2, a1, g.one);
        One(g, a1); One(g, q2);
        result := g.mul(result, a1);
      } else if b2 == 1 {
        Assoc(g, q1, q2, a2);
        result := g.mul(result, a2);
      }
      s := s - 1;
    }
    x := result;
  }

  // The factor that three binary digits select.
  ghost function Digit<T>(g: Monoid<T>, a: T, b: nat): T { if b == 1 then a else g.one }

  ghost function Selected<T>(g: Monoid<T>, a1: T, a2: T, a3: T, b1: nat, b2: nat, b3: nat): T {
    g.mul(g.mul(Digit(g, a1, b1), Digit(g, a2, b2)), Digit(g, a3, b3))
  }

  lemma SelectedTable<T(!new)>(g: Monoid<T>, a1: T, a2: T, a3: T)
    requires Laws(g)
    ensures Selected(g, a1, a2, a3, 0, 0, 0) == g.one && Selected(g, a1, a2, a3, 1, 0, 0) == a1
    ensures Selected(g, a1, a2, a3, 0, 1, 0) == a2 && Selected(g, a1, a2, a3, 0, 0, 1) == a3
    ensures Selected(g, a1, a2, a3, 1, 1, 0) == g.mul(a1, a2) && Selected(g, a1, a2, a3, 1, 0, 1) == g.mul(a1, a3)
    ensures Selected(g, a1, a2, a3, 0, 1, 1) == g.mul(a2, a3) && Selected(g, a1, a2, a3, 1, 1, 1) == g.mul(g.mul(a2, a3), a1)
  {
    hide Laws;
    One(g, g.one); One(g, a1); One(g, a2); One(g, a3); One(g, g.mul(a1, a2));
    Assoc(g, a1, a2, a3);
    Comm(g, a1, g.mul(a2, a3));
  }

  lemma DigitStep<T(!new)>(g: Monoid<T>, a: T, n: nat, s: nat)
    requires Laws(g)
    ensures Pow(g, a, Shr(n, s)) == g.mul(g.mul(Pow(g, a, Shr(n, s + 1)), Pow(g, a, Shr(n, s + 1))), Digit(g, a, TstBit(n, s)))
  {
    hide Laws, Pow;
    PowDigit(g, a, n, s);
    One(g, g.mul(Pow(g, a, Shr(n, s + 1)), Pow(g, a, Shr(n, s + 1))));
  }

  // (p1 p2 p3)^2 (d1 d2 d3) = (p1^2 d1)(p2^2 d2)(p3^2 d3)
  lemma TripleStep<T(!new)>(g: Monoid<T>, p1: T, p2: T, p3: T, d1: T, d2: T, d3: T)
    requires Laws(g)
    ensures var r := g.mul(g.mul(p1, p2), p3);
            g.mul(g.mul(r, r), g.mul(g.mul(d1, d2), d3))
            == g.mul(g.mul(g.mul(g.mul(p1, p1), d1), g.mul(g.mul(p2, p2), d2)), g.mul(g.mul(p3, p3), d3))
  {
    hide Laws;
    var u := g.mul(p1, p2);
    Exchange(g, u, p3, u, p3);
    Exchange(g, p1, p2, p1, p2);
    Exchange(g, g.mul(u, u), g.mul(p3, p3), g.mul(d1, d2), d3);
    Exchange(g, g.mul(p1, p1), g.mul(p2, p2), d1, d2);
  }

  ghost predicate TableOf<T>(g: Monoid<T>, a1: T, a2: T, a3: T, t: seq<T>) {
    && |t| == 8 && t[0] == Selected(g, a1, a2, a3, 0, 0, 0) && t[1] == Selected(g, a1, a2, a3, 1, 0, 0)
    && t[2] == Selected(g, a1, a2, a3, 0, 1, 0) && t[3] == Selected(g, a1, a2, a3, 1, 1, 0)
    && t[4] == Selected(g, a1, a2, a3, 0, 0, 1) && t[5] == Selected(g, a1, a2, a3, 1, 0, 1)
    && t[6] == Selected(g, a1, a2, a3, 0, 1, 1) && t[7] == Selected(g, a1, a2, a3, 1, 1, 1)
  }

  lemma TableAt<T>(g: Monoid<T>, a1: T, a2: T, a3: T, t: seq<T>, b1: nat, b2: nat, b3: nat)
    requires TableOf(g, a1, a2, a3, t) && b1 < 2 && b2 < 2 && b3 < 2
    ensures t[b1 + 2 * b2 + 4 * b3] == Selected(g, a1, a2, a3, b1, b2, b3)
  {}

  // Entry b1 + 2 b2 + 4 b3 of the table is the product of the bases that the digits select.
  method BuildTriple<T(!new)>(g: Monoid<T>, a1: T, a2: T, a3: T) returns (lookup: array<T>)
    requires Laws(g)
    ensures fresh(lookup) && lookup.Length == 8
    ensures TableOf(g, a1, a2, a3, lookup[..])
  {
    hide Laws, Selected;
    lookup := new T[8](_ => g.one);
    lookup[0] := g.one;
    lookup[1] := a1;
    lookup[2] := a2;
    lookup[4] := a3;
    lookup[3] := g.mul(a1, a2);
    lookup[5] := g.mul(a1, a3);
    lookup[6] := g.mul(a2, a3);
    lookup[7] := g.mul(lookup[6], a1);
    SelectedTable(g, a1, a2, a3);
  }

  /** element_pow3_mpz */
  method Pow3<T(!new)>(g: Monoid<T>, a1: T, n1: nat, a2: T, n2: nat, a3: T, n3: nat) returns (x: T)
    requires Laws(g)
    ensures x == g.mul(g.mul(Pow(g, a1, n1), Pow(g, a2, n2)), Pow(g, a3, n3))
  {
    hide Laws, Pow, Selected, Digit, Shr, SizeInBase2, TableOf;
    One(g, g.one);
    if n1 == 0 && n2 == 0 && n3 == 0 {
      PowSmall(g, a1); PowSmall(g, a2); PowSmall(g, a3);
      return g.one;
    }
    var result := g.one;
    var lookup := BuildTriple(g, a1, a2, a3);
    ghost var entries := lookup[..];
    var s1 := SizeInBase2(n1) - 1;
    var s2 := SizeInBase2(n2) - 1;
    var s3 := SizeInBase2(n3) - 1;
    var s := if s1 > s2 then (if s1 > s3 then s1 else s3) else (if s2 > s3 then s2 else s3);
    PowStart(g, a1, n1, s + 1);
    PowStart(g, a2, n2, s + 1);
    PowStart(g, a3, n3, s + 1);
    while s >= 0
      invariant -1 <= s && lookup[..] == entries
      invariant result == g.mul(g.mul(Pow(g, a1, Shr(n1, s + 1)), Pow(g, a2, Shr(n2, s + 1))), Pow(g, a3, Shr(n3, s + 1)))
    {
      DigitStep(g, a1, n1, s);
      DigitStep(g, a2, n2, s);
      DigitStep(g, a3, n3, s);
      result := g.mul(result, result);
      var b1, b2, b3 := TstBit(n1, s), TstBit(n2, s), TstBit(n3, s);
      SelectedUnfold(g, a1, a2, a3, b1, b2, b3);
      TripleStep(g, Pow(g, a1, Shr(n1, s + 1)), Pow(g, a2, Shr(n2, s + 1)), Pow(g, a3, Shr(n3, s + 1)),
                 Digit(g, a1, b1), Digit(g, a2, b2), Digit(g, a3, b3));
      var b := b1 + 2 * b2 + 4 * b3;
      TableAt(g, a1, a2, a3, entries, b1, b2, b3);
      assert lookup[b] == entries[b];
      result := g.mul(result, lookup[b]);
      s := s - 1;
    }
    ShrNone(n1); ShrNone(n2); ShrNone(n3);
    x := result;
  }

  lemma SelectedUnfold<T>(g: Monoid<T>, a1: T, a2: T, a3: T, b1: nat, b2: nat, b3: nat)
    ensures Selected(g, a1, a2, a3, b1, b2, b3) == g.mul(g.mul(Digit(g, a1, b1), Digit(g, a2, b2)), Digit(g, a3, b3))
  {}

  // ---------- base tables ----------

  ghost predicate BaseTable<T>(g: Monoid<T>, a: T, bits: nat, k: nat, table: array2<T>)
    requires k >= 1
    reads table
  {
    && table.Length0 == bits / k + 1 && table.Length1 == Two(k)
    && forall i, j :: 0 <= i < table.Length0 && 0 <= j < table.Length1 ==> table[i, j] == Pow(g, a, j * Two(k * i))
  }

  // Row i holds the powers of a^(2^(ki)).
  ghost predicate BaseRow<T>(g: Monoid<T>, a: T, k: nat, table: array2<T>, i: nat, upTo: nat)
    requires i < table.Length0 && upTo <= table.Length1
    reads table
  {
    forall j :: 0 <= j < upTo ==> table[i, j] == Pow(g, a, j * Two(k * i))
  }

  lemma RowStep<T(!new)>(g: Monoid<T>, a: T, w: nat, j: nat)
    requires Laws(g) && j >= 1
    ensures g.mul(Pow(g, a, w), Pow(g, a, (j - 1) * w)) == Pow(g, a, j * w)
  {
    hide Laws, Pow;
    var v := OneMore(j, w);
    PowAdd(g, a, w, v);
  }

  lemma OneMore(j: int, w: nat) returns (v: nat)
    requires j >= 1
    ensures v == (j - 1) * w && w + v == j * w
  {
    v := (j - 1) * w;
  }

  lemma RowWidth(k: nat, i: nat)
    ensures Two(k) * Two(k * i) == Two(k * (i + 1))
  {
    TwoAdd(k, k * i);
    assert k + k * i == k * (i + 1);
  }

  method BuildRow<T(!new)>(g: Monoid<T>, ghost a: T, k: nat, table: array2<T>, i: nat, multiplier: T)
    requires Laws(g) && i < table.Length0 && table.Length1 == Two(k) && multiplier == Pow(g, a, Two(k * i))
    modifies table
    ensures BaseRow(g, a, k, table, i, table.Length1)
    ensures forall i', j :: 0 <= i' < table.Length0 && i' != i && 0 <= j < table.Length1 ==> table[i', j] == old(table[i', j])
  {
    hide Laws, Pow, Two;
    PowSmall(g, a);
    table[i, 0] := g.one;
    var j := 1;
    while j < table.Length1
      invariant 1 <= j <= table.Length1
      invariant forall c :: 0 <= c < j ==> table[i, c] == Pow(g, a, c * Two(k * i))
      invariant forall i', c :: 0 <= i' < table.Length0 && i' != i && 0 <= c < table.Length1 ==> table[i', c] == old(table[i', c])
    {
      RowStep(g, a, Two(k * i), j);
      table[i, j] := g.mul(multiplier, table[i, j - 1]);
      j := j + 1;
    }
  }

  /** element_build_base_table: entry [i][j] is a^(j 2^(ki)). */
  method BuildBaseTable<T(!new)>(g: Monoid<T>, a: T, bits: nat, k: nat) returns (table: array2<T>)
    requires Laws(g) && k >= 1
    ensures fresh(table) && BaseTable(g, a, bits, k, table)
  {
    hide Laws, Pow, Two;
    var numLookups := bits / k + 1;
    var lookupSize := Two(k);
    table := new T[numLookups, lookupSize]((_, _) => g.one);
    var multiplier := a;
    PowSmall(g, a);
    TwoZero(k);
    var i := 0;
    while i < numLookups
      invariant 0 <= i <= numLookups && multiplier == Pow(g, a, Two(k * i))
      invariant forall r, c :: 0 <= r < i && 0 <= c < lookupSize ==> table[r, c] == Pow(g, a, c * Two(k * r))
    {
      label before:
      BuildRow(g, a, k, table, i, multiplier);
      forall r, c | 0 <= r < i + 1 && 0 <= c < lookupSize ensures table[r, c] == Pow(g, a, c * Two(k * r)) {
        if r < i { assert table[r, c] == old@before(table[r, c]); }
      }
      RowStep(g, a, Two(k * i), lookupSize);
      RowWidth(k, i);
      multiplier := g.mul(multiplier, table[i, lookupSize - 1]);
      i := i + 1;
    }
  }

  lemma TwoZero(k: nat)
    ensures Two(k * 0) == 1
  {}

  // The k digits of n from position k*row up.
  lemma WordShift(n: nat, at: nat, s: nat, word: int)
    requires word == Shr(n, at) - Shr(n, at + s) * Two(s)
    ensures word + TstBit(n, at + s) * Two(s) == Shr(n, at) - Shr(n, at + s + 1) * Two(s + 1)
  {
    ShrStep(n, at + s);
    assert (2 * Shr(n, at + s + 1) + TstBit(n, at + s)) * Two(s) == Shr(n, at + s + 1) * (2 * Two(s)) + TstBit(n, at + s) * Two(s);
  }

  method ReadWord(n: nat, k: nat, row: nat) returns (word: nat)
    requires k >= 1
    ensures word == Shr(n, k * row) - Shr(n, k * row + k) * Two(k)
    ensures word < Two(k)
  {
    hide Shr;
    word := 0;
    for s := 0 to k
      invariant 0 <= word < Two(s)
      invariant word as int == Shr(n, k * row) - Shr(n, k * row + s) * Two(s)
    {
      WordShift(n, k * row, s, word);
      word := word + TstBit(n, k * row + s) * Two(s);
    }
  }

  // What the first rows consumed is the exponent below position k*row.
  lemma RowConsumed<T(!new)>(g: Monoid<T>, a: T, n: nat, k: nat, row: nat, word: nat, done: nat)
    requires Laws(g) && done == n - Shr(n, k * row) * Two(k * row)
    requires word == Shr(n, k * row) - Shr(n, k * row + k) * Two(k)
    ensures done + word * Two(k * row) == n - Shr(n, k * (row + 1)) * Two(k * (row + 1))
    ensures g.mul(Pow(g, a, done), Pow(g, a, word * Two(k * row))) == Pow(g, a, done + word * Two(k * row))
  {
    hide Laws, Pow, Shr, Two;
    PowAdd(g, a, done, word * Two(k * row));
    RowWidth(k, row);
    assert k * row + k == k * (row + 1);
    assert word * Two(k * row) == Shr(n, k * row) * Two(k * row) - Shr(n, k * row + k) * (Two(k) * Two(k * row)) by {
      Regroup(Shr(n, k * row), Shr(n, k * row + k), Two(k), Two(k * row));
    }
  }

  lemma Regroup(p: int, q: int, r: int, s: int)
    ensures (p - q * r) * s == p * s - q * (r * s)
  {}

  /** element_pow_base_table, for an exponent whose digits fit the rows that were built. */
  method PowBaseTable<T(!new)>(g: Monoid<T>, ghost a: T, n: nat, ghost bits: nat, k: nat, table: array2<T>) returns (x: T)
    requires Laws(g) && k >= 1 && BaseTable(g, a, bits, k, table)
    requires SizeInBase2(n) <= k * (bits / k + 1)
    ensures x == Pow(g, a, n)
  {
    hide Laws, Pow, Shr, Two, SizeInBase2;
    PowSmall(g, a);
    if n == 0 { return g.one; }
    var result := g.one;
    var numLookups := SizeInBase2(n) / k + 1;
    ghost var done := 0;
    TwoZero(k);
    ShrNone(n);
    for row := 0 to numLookups
      invariant 0 <= done == n - Shr(n, k * row) * Two(k * row)
      invariant result == Pow(g, a, done)
    {
      var word := ReadWord(n, k, row);
      RowConsumed(g, a, n, k, row, word, done);
      if row >= table.Length0 { NoDigits(n, k, row, table.Length0); }
      if word > 0 {
        result := g.mul(result, table[row, word]);
      }
      done := done + word * Two(k * row);
    }
    RowsEnough(SizeInBase2(n), k);
    AllRead(n, k, numLookups);
    x := result;
  }

  lemma MulUp(k: nat, a: nat, b: nat)
    requires a <= b
    ensures k * a <= k * b
  {}

  // Rows past those that were built select nothing.
  lemma NoDigits(n: nat, k: nat, row: nat, rows: nat)
    requires k >= 1 && SizeInBase2(n) <= k * rows && row >= rows
    ensures Shr(n, k * row) == 0 && Shr(n, k * row + k) == 0
  {
    hide Shr, SizeInBase2;
    AllRead(n, k, rows);
    MulUp(k, rows, row);
    ShrZero(n, k * rows, k * row);
    ShrZero(n, k * rows, k * row + k);
  }

  lemma ShrNone(n: nat)
    ensures Shr(n, 0) == n
  {}

  lemma AllRead(n: nat, k: nat, rows: nat)
    requires SizeInBase2(n) <= k * rows
    ensures Shr(n, k * rows) == 0
  {
    ShrSize(n);
    ShrZero(n, SizeInBase2(n), k * rows);
  }

  lemma RowsEnough(size: nat, k: nat)
    requires k >= 1
    ensures size <= k * (size / k + 1)
  {
    assert size == k * (size / k) + size % k;
  }
}
