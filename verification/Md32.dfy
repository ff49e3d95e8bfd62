/** The streaming collector of 32-bit hash functions (crypto/md32_common.h): padding as in sections
    3.1 and 3.2 of RFC 1321 (little-endian) or section 5.1.1 of FIPS 180-4 (big-endian). */
module Md32 {
  import opened Modular
  import opened Bytes

  const CBLOCK := 64
  const WORD := 0x1_0000_0000
  const LENGTH := 0x1_0000_0000_0000_0000

  // ---------- the padded message ----------

  // The n low bytes of v, least significant first.
  function Little(v: nat, n: nat): (s: seq<Byte>)
    ensures |s| == n
  {
    if n == 0 then [] else [v % 256] + Little(v / 256, n - 1)
  }

  function Length64(v: nat, big: bool): (s: seq<Byte>)
    ensures |s| == 8
  {
    if big then ToBytes(v, 8) else Little(v, 8)
  }

  // The zeros that leave exactly eight bytes of the last block.
  function ZeroCount(len: nat): (k: nat)
    ensures k < CBLOCK && (len + 1 + k + 8) % CBLOCK == 0
  {
    (119 - len % CBLOCK) % CBLOCK
  }

  /** Message, 0x80, zeros, and the bit length modulo 2^64. */
  function Padded(m: seq<Byte>, big: bool): seq<Byte> {
    m + [0x80] + Zeros(ZeroCount(|m|)) + Length64((8 * |m|) % LENGTH, big)
  }

  lemma PaddedIs(m: seq<Byte>, big: bool)
    ensures Padded(m, big) == m + [0x80] + Zeros(ZeroCount(|m|)) + Length64((8 * |m|) % LENGTH, big)
  {}

  lemma DivideAgain(v: nat, w: nat)
    requires w >= 1
    ensures v / 256 / w == v / (256 * w)
  {
    var x, y := v / 256, v / 256 / w;
    var r := v % 256 + 256 * (x % w);
    assert v == 256 * x + v % 256 && x == w * y + x % w;
    assert v == 256 * w * y + r;
    assert 0 <= r < 256 * w;
    QuotientIs(v, 256 * w, y, r);
  }

  lemma QuotientIs(v: int, m: int, y: int, r: int)
    requires m > 0 && v == m * y + r && 0 <= r < m
    ensures v / m == y
  {
    assert v == m * (v / m) + v % m;
    assert (v / m - y) * m == r - v % m;
    SmallMultiple(v / m - y, m) by { assert m * (v / m - y) == (v / m - y) * m; }
  }

  lemma {:induction false} PowerPositive(n: nat)
    ensures Power(n) >= 1
  {
    if n > 0 { PowerPositive(n - 1); }
  }

  /** Byte i of the length from its low end: first in the little-endian form, last in the big-endian form. */
  lemma {:induction false} LengthByte(v: nat, n: nat, i: nat)
    requires i < n
    ensures Power(i) >= 1 && Little(v, n)[i] == v / Power(i) % 256 && ToBytes(v, n)[n - 1 - i] == v / Power(i) % 256
  {
    PowerPositive(i);
    if i > 0 {
      LengthByte(v / 256, n - 1, i - 1);
      DivideAgain(v, Power(i - 1));
      assert ToBytes(v, n)[n - 1 - i] == ToBytes(v / 256, n - 1)[n - 1 - i];
    } else {
      assert Power(0) == 1;
    }
  }

  // ---------- two words of length ----------

  lemma {:induction false} LittleSplit(lo: nat, hi: nat, n: nat, k: nat)
    requires lo < Power(n)
    ensures Little(lo + hi * Power(n), n + k) == Little(lo, n) + Little(hi, k)
  {
    if n == 0 {
    } else {
      PowerStep(lo, hi, n);
      LittleSplit(lo / 256, hi, n - 1, k);
      assert [lo % 256] + (Little(lo / 256, n - 1) + Little(hi, k)) == ([lo % 256] + Little(lo / 256, n - 1)) + Little(hi, k);
    }
  }

  function Power(n: nat): nat { if n == 0 then 1 else 256 * Power(n - 1) }

  lemma PowerStep(lo: nat, hi: nat, n: nat)
    requires n >= 1 && lo < Power(n)
    ensures lo / 256 < Power(n - 1)
    ensures (lo + hi * Power(n)) % 256 == lo % 256 && (lo + hi * Power(n)) / 256 == lo / 256 + hi * Power(n - 1)
  {
    assert hi * Power(n) == 256 * (hi * Power(n - 1));
    DivideStep(lo, hi * Power(n - 1));
  }

  lemma DivideStep(lo: nat, t: int)
    ensures (lo + 256 * t) % 256 == lo % 256 && (lo + 256 * t) / 256 == lo / 256 + t
  {}

  lemma {:induction false} BigSplit(lo: nat, hi: nat, n: nat, k: nat)
    requires lo < Power(n)
    ensures ToBytes(lo + hi * Power(n), n + k) == ToBytes(hi, k) + ToBytes(lo, n)
  {
    if n == 0 {
      assert ToBytes(hi, k) + ToBytes(lo, 0) == ToBytes(hi, k);
    } else {
      PowerStep(lo, hi, n);
      BigSplit(lo / 256, hi, n - 1, k);
      assert (ToBytes(hi, k) + ToBytes(lo / 256, n - 1)) + [lo % 256] == ToBytes(hi, k) + (ToBytes(lo / 256, n - 1) + [lo % 256]);
    }
  }

  lemma WordsOfLength(nl: nat, nh: nat)
    requires nl < WORD && nh < WORD
    ensures Length64(nh * WORD + nl, true) == ToBytes(nh, 4) + ToBytes(nl, 4)
    ensures Length64(nh * WORD + nl, false) == Little(nl, 4) + Little(nh, 4)
  {
    assert Power(4) == WORD by { assert Power(2) == 65536; }
    BigSplit(nl, nh, 4, 4);
    LittleSplit(nl, nh, 4, 4);
  }

  // ---------- the context ----------

  class HashCtx {
    var nl: nat
    var nh: nat
    var num: nat
    const data: array<Byte>
    // Blocks handed to the block function, and the message so far.
    ghost var blocks: seq<Byte>
    ghost var message: seq<Byte>

    ghost predicate Valid()
      reads this, data
    {
      && data.Length == CBLOCK && num < CBLOCK
      && |blocks| % CBLOCK == 0 && message == blocks + data[..num]
      && nl < WORD && nh < WORD && nh * WORD + nl == (8 * |message|) % LENGTH
      && forall i :: num <= i < CBLOCK ==> data[i] == 0
    }

    constructor ()
      ensures Valid() && fresh(data) && message == [] && blocks == []
    {
      nl, nh, num := 0, 0, 0;
      data := new Byte[CBLOCK](_ => 0);
      blocks, message := [], [];
    }

    // HASH_BLOCK_DATA_ORDER, an external function of whole blocks
    method BlockDataOrder(bytes: seq<Byte>)
      requires |bytes| % CBLOCK == 0
      modifies `blocks
      ensures blocks == old(blocks) + bytes
    {
      blocks := blocks + bytes;
    }

    // The two counter words.
    method AddLength(len: nat)
      requires nl < WORD && nh < WORD
      modifies `nl, `nh
      ensures nl < WORD && nh < WORD
      ensures nh * WORD + nl == (old(nh * WORD + nl) + 8 * len) % LENGTH
    {
      var l := (nl + len * 8) % WORD;
      CounterStep(nl, nh, len, l);
      if l < nl { nh := (nh + 1) % WORD; }
      nh := (nh + len / 0x2000_0000) % WORD;
      nl := l;
    }

    // The buffer holds fewer than a block of pending bytes, followed by zeros.
    ghost predicate Collected()
      reads this, data
    {
      data.Length == CBLOCK && num < CBLOCK && |blocks| % CBLOCK == 0 && forall i :: num <= i < CBLOCK ==> data[i] == 0
    }

    // The first part of HASH_UPDATE: pending bytes are completed to a block or joined by the whole input.
    method TopUp(input: seq<Byte>) returns (rest: seq<Byte>, done: bool)
      requires Collected() && num != 0
      modifies `num, `blocks, data
      ensures Collected() && old(blocks) <= blocks
      ensures done ==> blocks + data[..num] == old(blocks + data[..num]) + input
      ensures !done ==> num == 0 && blocks + rest == old(blocks + data[..num]) + input
    {
      var n, len := num, |input|;
      ghost var pending := data[..num];
      if len >= CBLOCK || len + n >= CBLOCK {
        FillBuffer(n, input[..CBLOCK - n]);
        assert data[..] == pending + input[..CBLOCK - n] by { assert data[..] == data[..n] + data[n..CBLOCK]; }
        BlockDataOrder(data[..]);
        rest := input[CBLOCK - n..];
        num := 0;
        ClearBuffer();
        assert input == input[..CBLOCK - n] + rest;
        done := false;
      } else {
        ghost var tail := data[n + len..];
        FillBuffer(n, input);
        assert forall i :: n + len <= i < CBLOCK ==> data[i] == tail[i - n - len];
        num := num + len;
        assert data[..num] == pending + input by { assert data[..num] == data[..n] + data[n..num]; }
        rest := [];
        done := true;
      }
    }

    // The rest of HASH_UPDATE: whole blocks straight from the input, the remainder into the empty buffer.
    method TakeBlocks(input: seq<Byte>)
      requires Collected() && num == 0
      modifies `num, `blocks, data
      ensures Collected() && old(blocks) <= blocks && blocks + data[..num] == old(blocks) + input
    {
      var rest := input;
      var n := |rest| / CBLOCK;
      if n > 0 {
        BlockDataOrder(rest[..n * CBLOCK]);
        rest := rest[n * CBLOCK..];
        assert input == input[..n * CBLOCK] + rest;
      }
      assert blocks + rest == old(blocks) + input;
      if |rest| == 0 {
        assert blocks + data[..num] == blocks + rest;
      } else {
        ghost var tail := data[|rest|..];
        num := |rest|;
        FillBuffer(0, rest);
        assert data[..num] == data[0..0 + |rest|];
        assert forall i :: |rest| <= i < CBLOCK ==> data[i] == tail[i - |rest|];
      }
    }

    /** HASH_UPDATE: the context continues with the message extended by the input. */
    method Update(input: seq<Byte>)
      requires Valid()
      modifies this, data
      ensures Valid() && message == old(message) + input && old(blocks) <= blocks
    {
      var len := |input|;
      if len == 0 {
        assert message + input == message;
        return;
      }
      AddLength(len);
      CounterOfMessage(|message|, len);
      var rest, done := input, false;
      if num != 0 {
        rest, done := TopUp(input);
      } else {
        assert data[..0] == [] && blocks + [] == blocks;
      }
      if !done { TakeBlocks(rest); }
      message := message + input;
    }

    // memcpy into the buffer at n
    method FillBuffer(n: nat, bytes: seq<Byte>)
      requires data.Length == CBLOCK && n + |bytes| <= CBLOCK
      modifies data
      ensures data[..n] == old(data[..n]) && data[n..n + |bytes|] == bytes && data[n + |bytes|..] == old(data[n + |bytes|..])
    {
      forall i | 0 <= i < |bytes| { data[n + i] := bytes[i]; }
    }

    method ClearBuffer()
      requires data.Length == CBLOCK
      modifies data
      ensures forall i :: 0 <= i < CBLOCK ==> data[i] == 0
    {
      forall i | 0 <= i < CBLOCK { data[i] := 0; }
    }

    // 0x80 and zeros up to the length field, with a block of its own when they do not fit.
    method Pad()
      requires Collected()
      modifies `blocks, data
      ensures |blocks| % CBLOCK == 0
      ensures var m := old(blocks + data[..num]); blocks + data[..CBLOCK - 8] == m + [0x80] + Zeros(ZeroCount(|m|))
    {
      ghost var m := blocks + data[..num];
      hide ZeroCount, Zeros, Collected;
      var n := Mark();
      ghost var done := 0;
      EmptyZeros(m + [0x80]);
      if n > CBLOCK - 8 {
        done := CBLOCK - n;
        ghost var head := data[..n];
        ZeroTo(n, CBLOCK);
        assert data[..] == data[..CBLOCK];
        assert blocks + (head + Zeros(done)) == (blocks + head) + Zeros(done);
        n := 0;
        BlockDataOrder(data[..]);
        assert blocks + data[..0] == blocks;
      }
      ghost var left := CBLOCK - 8 - n;
      ghost var whole, head := blocks, data[..n];
      ZeroTo(n, CBLOCK - 8);
      assert whole + (head + Zeros(left)) == (whole + head) + Zeros(left);
      JoinZeros(m + [0x80], done, left);
    }

    method Mark() returns (n: nat)
      requires Collected()
      modifies data
      ensures data.Length == CBLOCK && n == num + 1 <= CBLOCK && |blocks| % CBLOCK == 0
      ensures blocks + data[..n] == old(blocks + data[..num]) + [0x80]
      ensures ZeroCount(|blocks| + num) == if n > CBLOCK - 8 then CBLOCK - n + CBLOCK - 8 else CBLOCK - 8 - n
    {
      hide ZeroCount;
      n := num;
      RoomForPadding(|blocks|, n, |blocks| + n);
      data[n] := 0x80; // there is always room for one
      n := n + 1;
    }

    // memset up to position e
    method ZeroTo(n: nat, e: nat)
      requires n <= e <= CBLOCK == data.Length
      modifies data
      ensures data[..n] == old(data[..n]) && data[..e] == old(data[..n]) + Zeros(e - n)
    {
      forall i | n <= i < e { data[i] := 0; }
    }

    // The two words of length in the chosen byte order.
    method PutLength(big: bool)
      requires data.Length == CBLOCK && nl < WORD && nh < WORD
      modifies data
      ensures data[..] == old(data[..CBLOCK - 8]) + Length64(nh * WORD + nl, big)
    {
      WordsOfLength(nl, nh);
      ghost var low := data[..CBLOCK - 8];
      if big {
        L2cBig(nh, CBLOCK - 8);
        ghost var mid := data[CBLOCK - 8..CBLOCK - 4];
        L2cBig(nl, CBLOCK - 4);
        Assemble(data[..], low, mid, ToBytes(nl, 4));
      } else {
        L2cLittle(nl, CBLOCK - 8);
        ghost var mid := data[CBLOCK - 8..CBLOCK - 4];
        L2cLittle(nh, CBLOCK - 4);
        Assemble(data[..], low, mid, Little(nh, 4));
      }
    }

    /** HASH_FINAL: the blocks are then exactly the padded message. */
    method Final(big: bool)
      requires Valid()
      modifies this, data
      ensures blocks == Padded(old(message), big) && num == 0 && forall i :: 0 <= i < CBLOCK ==> data[i] == 0
    {
      hide Padded, Zeros, ZeroCount, Length64;
      ghost var m := message;
      Pad();
      ghost var head := blocks + data[..CBLOCK - 8];
      PutLength(big);
      assert blocks + data[..] == head + Length64(nh * WORD + nl, big);
      PaddedIs(m, big);
      BlockDataOrder(data[..]);
      num := 0;
      ClearBuffer();
    }

    // HOST_l2c, most significant byte first
    method L2cBig(l: nat, at: nat)
      requires l < WORD && data.Length == CBLOCK && at + 4 <= CBLOCK
      modifies data
      ensures data[..at] == old(data[..at]) && data[at..at + 4] == ToBytes(l, 4) && data[at + 4..] == old(data[at + 4..])
    {
      BytesOfWord(l);
      data[at] := l / 0x100_0000 % 256;
      data[at + 1] := l / 0x1_0000 % 256;
      data[at + 2] := l / 0x100 % 256;
      data[at + 3] := l % 256;
    }

    // HOST_l2c, least significant byte first
    method L2cLittle(l: nat, at: nat)
      requires l < WORD && data.Length == CBLOCK && at + 4 <= CBLOCK
      modifies data
      ensures data[..at] == old(data[..at]) && data[at..at + 4] == Little(l, 4) && data[at + 4..] == old(data[at + 4..])
    {
      BytesOfWord(l);
      data[at] := l % 256;
      data[at + 1] := l / 0x100 % 256;
      data[at + 2] := l / 0x1_0000 % 256;
      data[at + 3] := l / 0x100_0000 % 256;
    }
  }

  lemma Assemble(all: seq<Byte>, low: seq<Byte>, mid: seq<Byte>, top: seq<Byte>)
    requires |all| == CBLOCK && |low| == CBLOCK - 8 && |mid| == 4 && |top| == 4
    requires all[..CBLOCK - 4][..CBLOCK - 8] == low && all[..CBLOCK - 4][CBLOCK - 8..] == mid && all[CBLOCK - 4..] == top
    ensures all == low + (mid + top)
  {
    assert all == all[..CBLOCK - 4] + all[CBLOCK - 4..];
    assert all[..CBLOCK - 4] == low + mid;
  }

  lemma EmptyZeros(m: seq<Byte>)
    ensures m + Zeros(0) == m
  {}

  lemma JoinZeros(m: seq<Byte>, j: nat, k: nat)
    ensures m + Zeros(j) + Zeros(k) == m + Zeros(j + k)
  {}

  lemma BytesOfWord(l: nat)
    requires l < WORD
    ensures ToBytes(l, 4) == [l / 0x100_0000 % 256, l / 0x1_0000 % 256, l / 0x100 % 256, l % 256]
    ensures Little(l, 4) == [l % 256, l / 0x100 % 256, l / 0x1_0000 % 256, l / 0x100_0000 % 256]
  {
    var a, b, c := l / 256, l / 256 / 256, l / 256 / 256 / 256;
    assert l / 0x1_0000 == b && l / 0x100_0000 == c;
    assert ToBytes(c, 1) == [c % 256] && ToBytes(b, 2) == ToBytes(c, 1) + [b % 256] && ToBytes(a, 3) == ToBytes(b, 2) + [a % 256];
    assert Little(c, 1) == [c % 256] && Little(b, 2) == [b % 256] + Little(c, 1) && Little(a, 3) == [a % 256] + Little(b, 2);
  }

  // The low word overflows exactly when it comes out smaller.
  lemma CounterStep(nl: nat, nh: nat, len: nat, l: nat)
    requires nl < WORD && nh < WORD && l == (nl + len * 8) % WORD
    ensures var carry := if l < nl then 1 else 0;
            var h := ((nh + carry) % WORD + len / 0x2000_0000) % WORD;
            l < WORD && h * WORD + l == (nh * WORD + nl + 8 * len) % LENGTH
  {
    var hi, lo := len / 0x2000_0000, len % 0x2000_0000;
    assert len * 8 == hi * WORD + 8 * lo;
    LowWord(nl, hi, lo, l);
    var carry := if l < nl then 1 else 0;
    assert nl + 8 * lo == l + carry * WORD;
    var t := nh + carry + hi;
    assert nh * WORD + nl + 8 * len == t * WORD + l;
    HighWord(t, l);
    CarryHigh(nh, carry, hi);
  }

  lemma LowWord(nl: nat, hi: nat, lo: nat, l: nat)
    requires nl < WORD && lo < 0x2000_0000 && l == (nl + (hi * WORD + 8 * lo)) % WORD
    ensures l < WORD && nl + 8 * lo == l + (if l < nl then WORD else 0)
  {
    var c := if nl + 8 * lo >= WORD then 1 else 0;
    Remainder(nl + (hi * WORD + 8 * lo), hi + c, nl + 8 * lo - c * WORD, WORD);
  }

  lemma HighWord(t: nat, l: nat)
    requires l < WORD
    ensures (t * WORD + l) % LENGTH == (t % WORD) * WORD + l
  {
    var k, r := t / WORD, t % WORD;
    Remainder(t * WORD + l, k, r * WORD + l, LENGTH);
  }

  lemma Remainder(a: int, k: int, r: int, m: int)
    requires m > 0 && a == k * m + r && 0 <= r < m
    ensures a % m == r
  {
    EqIntro(r, a, -k, m);
    EqIffMod(r, a, m);
  }

  lemma CarryHigh(nh: nat, carry: nat, hi: nat)
    ensures ((nh + carry) % WORD + hi) % WORD == (nh + carry + hi) % WORD
  {}

  lemma CounterOfMessage(before: nat, len: nat)
    ensures ((8 * before) % LENGTH + 8 * len) % LENGTH == (8 * (before + len)) % LENGTH
  {}

  // Where the padding ends, by the room left in the last block.
  lemma RoomForPadding(whole: nat, n: nat, len: nat)
    requires whole % CBLOCK == 0 && n < CBLOCK && len == whole + n
    ensures ZeroCount(len) == if n + 1 > CBLOCK - 8 then CBLOCK - (n + 1) + CBLOCK - 8 else CBLOCK - 8 - (n + 1)
  {
    assert len % CBLOCK == n;
  }

  // ---------- whole messages ----------

  function Concat(chunks: seq<seq<Byte>>): seq<Byte> {
    if |chunks| == 0 then [] else chunks[0] + Concat(chunks[1..])
  }

  lemma ConcatNext(chunks: seq<seq<Byte>>, i: nat)
    requires i < |chunks|
    ensures Concat(chunks[i..]) == chunks[i] + Concat(chunks[i + 1..])
  {
    assert chunks[i..][1..] == chunks[i + 1..];
  }

  lemma ConcatEnd(chunks: seq<seq<Byte>>)
    requires |chunks| == 0
    ensures Concat(chunks) == []
  {}

  /** However a message is split, the blocks are those of the padded whole. */
  method HashChunks(c: HashCtx, chunks: seq<seq<Byte>>, big: bool)
    requires c.Valid() && c.message == []
    modifies c, c.data
    ensures c.blocks == Padded(Concat(chunks), big)
  {
    hide Padded, Concat;
    ghost var all := Concat(chunks);
    assert chunks[0..] == chunks;
    assert [] + all == all;
    for i := 0 to |chunks|
      invariant c.Valid() && c.message + Concat(chunks[i..]) == all
    {
      ConcatNext(chunks, i);
      ghost var m := c.message;
      c.Update(chunks[i]);
      assert (m + chunks[i]) + Concat(chunks[i + 1..]) == m + (chunks[i] + Concat(chunks[i + 1..]));
    }
    ConcatEnd(chunks[|chunks|..]);
    assert c.message == c.message + [] == all;
    c.Final(big);
  }

  // ---------- padding loses nothing ----------

  lemma {:induction false} LittleInjective(u: nat, v: nat, n: nat)
    requires u < Power(n) && v < Power(n) && Little(u, n) == Little(v, n)
    ensures u == v
  {
    if n > 0 {
      assert Little(u, n)[1..] == Little(u / 256, n - 1) && Little(v, n)[1..] == Little(v / 256, n - 1);
      assert u % 256 == Little(u, n)[0] == Little(v, n)[0] == v % 256;
      LittleInjective(u / 256, v / 256, n - 1);
    }
  }

  lemma {:induction false} BigInjective(u: nat, v: nat, n: nat)
    requires u < Power(n) && v < Power(n) && ToBytes(u, n) == ToBytes(v, n)
    ensures u == v
  {
    if n > 0 {
      assert ToBytes(u, n)[..n - 1] == ToBytes(u / 256, n - 1) && ToBytes(v, n)[..n - 1] == ToBytes(v / 256, n - 1);
      assert u % 256 == ToBytes(u, n)[n - 1] == ToBytes(v, n)[n - 1] == v % 256;
      BigInjective(u / 256, v / 256, n - 1);
    }
  }

  /** Messages below 2^61 bytes with the same padded form are the same. */
  lemma {:induction false} PaddingInjective(m: seq<Byte>, m': seq<Byte>, big: bool)
    requires 8 * |m| < LENGTH && 8 * |m'| < LENGTH && Padded(m, big) == Padded(m', big)
    ensures m == m'
  {
    hide Padded, Length64, Little, ToBytes, Power;
    PaddedParts(m, big);
    PaddedParts(m', big);
    PowerEight();
    if big { BigInjective(8 * |m|, 8 * |m'|, 8); } else { LittleInjective(8 * |m|, 8 * |m'|, 8); }
  }

  lemma PaddedParts(m: seq<Byte>, big: bool)
    requires 8 * |m| < LENGTH
    ensures var p := Padded(m, big); |p| >= |m| + 8 && p[..|m|] == m && p[|p| - 8..] == (if big then ToBytes(8 * |m|, 8) else Little(8 * |m|, 8))
  {
    hide ToBytes, Little, ZeroCount, Zeros, Padded;
    PaddedIs(m, big);
    SmallMod(8 * |m|, LENGTH);
    PartsOf(m, [0x80] + Zeros(ZeroCount(|m|)), Length64(8 * |m|, big));
    assert m + [0x80] + Zeros(ZeroCount(|m|)) == m + ([0x80] + Zeros(ZeroCount(|m|)));
  }

  lemma PartsOf(m: seq<Byte>, pad: seq<Byte>, tail: seq<Byte>)
    ensures var p := m + pad + tail; p[..|m|] == m && p[|p| - |tail|..] == tail
  {}

  lemma PowerEight()
    ensures Power(8) == 0x1_0000_0000_0000_0000
  {
    assert Power(2) == 65536;
    assert Power(4) == 65536 * Power(2);
    assert Power(6) == 65536 * Power(4);
    assert Power(8) == 65536 * Power(6);
  }
}
