/** The zero padding SHA-1 and MD5 share: a 0x80 marker, zeros, and eight octets of length,
    filling whole 64-octet blocks. */
module Padding {
  /** The number of zero octets between the marker and the length of an n-octet message. */
  function PadZeros(n: nat): (k: nat)
    ensures k < 64 && (n + 1 + k + 8) % 64 == 0
  {
    if n % 64 <= 55 then 55 - n % 64 else 119 - n % 64
  }

  /** It is the least number that reaches a block boundary. */
  lemma PadZerosLeast(n: nat, k: nat)
    requires (n + 1 + k + 8) % 64 == 0
    ensures PadZeros(n) <= k
  {
  }

  lemma PadZerosOfTail(whole: nat, tail: nat)
    requires whole % 64 == 0 && tail < 64
    ensures PadZeros(whole + tail) == if tail <= 55 then 55 - tail else 119 - tail
  {
  }
}
