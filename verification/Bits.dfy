/** Binary digits of an exponent, as mpz_tstbit and mpz_sizeinbase(n, 2) read them. */
module Bits {
  function Two(n: nat): (r: int)
    ensures r >= 1
  {
    if n == 0 then 1 else 2 * Two(n - 1)
  }

  // n >> j
  function Shr(n: nat, j: nat): nat {
    if j == 0 then n else Shr(n, j - 1) / 2
  }

  function TstBit(n: nat, j: nat): nat { Shr(n, j) % 2 }

  // mpz_sizeinbase(n, 2), which is 1 for n = 0
  function SizeInBase2(n: nat): (s: nat)
    ensures s >= 1
  {
    if n < 2 then 1 else 1 + SizeInBase2(n / 2)
  }

  lemma ShrStep(n: nat, j: nat)
    ensures Shr(n, j) == 2 * Shr(n, j + 1) + TstBit(n, j)
  {}

  lemma {:induction false} ShrShift(n: nat, j: nat)
    ensures Shr(n, j + 1) == Shr(n / 2, j)
  {
    if j > 0 { ShrShift(n, j - 1); }
  }

  // Past the leading bit nothing is left, and the leading bit of a positive number is 1.
  lemma {:induction false} ShrSize(n: nat)
    ensures Shr(n, SizeInBase2(n)) == 0
    ensures n > 0 ==> Shr(n, SizeInBase2(n) - 1) == 1
  {
    if n >= 2 {
      ShrSize(n / 2);
      ShrShift(n, SizeInBase2(n / 2));
      ShrShift(n, SizeInBase2(n / 2) - 1);
    } else {
      assert Shr(n, 1) == Shr(n, 0) / 2;
    }
  }

  lemma {:induction false} TwoAdd(m: nat, n: nat)
    ensures Two(m + n) == Two(m) * Two(n)
  {
    if m > 0 {
      TwoAdd(m - 1, n);
      assert 2 * (Two(m - 1) * Two(n)) == (2 * Two(m - 1)) * Two(n);
    }
  }

  lemma {:induction false} TwoMono(i: nat, j: nat)
    requires i <= j
    ensures Two(i) <= Two(j)
  {
    if i < j { TwoMono(i, j - 1); }
  }
}
