/** Bytes of numbers, most significant first. */
module Bytes {
  type Byte = b: int | 0 <= b < 256

  // mpz_export, most significant byte first: the n low bytes of z
  function ToBytes(z: nat, n: nat): (s: seq<Byte>)
    ensures |s| == n
  {
    if n == 0 then [] else ToBytes(z / 256, n - 1) + [z % 256]
  }

  // mpz_import
  function FromBytes(s: seq<Byte>): nat {
    if |s| == 0 then 0 else FromBytes(s[..|s| - 1]) * 256 + s[|s| - 1]
  }

  function Zeros(n: nat): (s: seq<Byte>)
    ensures |s| == n && forall i :: 0 <= i < n ==> s[i] == 0
  {
    seq(n, _ => 0)
  }
}
