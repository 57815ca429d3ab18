/** The Secure Hash Standard as FIPS PUB 180-1 defines it: padding (section 4), the
    functions and constants (sections 5 and 6), and the digest (section 7). */
module Sha1Spec {
  import opened Bytes
  import opened Padding
  import opened Words

  datatype Hash = Hash(a: bv32, b: bv32, c: bv32, d: bv32, e: bv32)

  const IV := Hash(0x67452301, 0xEFCDAB89, 0x98BADCFE, 0x10325476, 0xC3D2E1F0)

  function Choice(b: bv32, c: bv32, d: bv32): bv32 { (b & c) | (!b & d) }
  function Parity(b: bv32, c: bv32, d: bv32): bv32 { b ^ c ^ d }
  function Majority(b: bv32, c: bv32, d: bv32): bv32 { (b & c) | (b & d) | (c & d) }

  function F(t: nat, b: bv32, c: bv32, d: bv32): bv32 {
    if t < 20 then Choice(b, c, d)
    else if t < 40 then Parity(b, c, d)
    else if t < 60 then Majority(b, c, d)
    else Parity(b, c, d)
  }

  function K(t: nat): bv32 {
    if t < 20 then 0x5A827999
    else if t < 40 then 0x6ED9EBA1
    else if t < 60 then 0x8F1BBCDC
    else 0xCA62C1D6
  }

  /** The constants are the integer parts of 2^30 times the square roots of 2, 3, 5 and 10. */
  lemma ConstantsAreRoots(t: nat)
    requires t < 80
    ensures var n := if t < 20 then 2 else if t < 40 then 3 else if t < 60 then 5 else 10;
      var k := K(t) as int;
      k * k <= n * 0x1000_0000_0000_0000 < (k + 1) * (k + 1)
  {
  }

  /** Which function a round uses. */
  lemma RoundFunctions(t: nat, b: bv32, c: bv32, d: bv32)
    requires t < 80
    ensures F(t, b, c, d) ==
      if t <= 19 then Choice(b, c, d) else if 40 <= t <= 59 then Majority(b, c, d) else Parity(b, c, d)
  {
    hide Choice, Parity, Majority;
  }

  // What the three functions are, on any set m of bit places: choice; majority, where two that agree decide;
  // and parity, where two that agree leave the third.

  lemma ChoiceOnes(b: bv32, c: bv32, d: bv32, m: bv32)
    requires b & m == m
    ensures Choice(b, c, d) & m == c & m
  {
  }

  lemma ChoiceZeros(b: bv32, c: bv32, d: bv32, m: bv32)
    requires b & m == 0
    ensures Choice(b, c, d) & m == d & m
  {
  }

  lemma MajorityFirst(b: bv32, c: bv32, d: bv32, m: bv32)
    requires b & m == c & m
    ensures Majority(b, c, d) & m == b & m
  {
  }

  lemma MajorityMiddle(b: bv32, c: bv32, d: bv32, m: bv32)
    requires b & m == d & m
    ensures Majority(b, c, d) & m == b & m
  {
  }

  lemma MajorityLast(b: bv32, c: bv32, d: bv32, m: bv32)
    requires c & m == d & m
    ensures Majority(b, c, d) & m == c & m
  {
  }

  lemma ParityLast(b: bv32, c: bv32, d: bv32, m: bv32)
    requires b & m == c & m
    ensures Parity(b, c, d) & m == d & m
  {
  }

  lemma ParityMiddle(b: bv32, c: bv32, d: bv32, m: bv32)
    requires b & m == d & m
    ensures Parity(b, c, d) & m == c & m
  {
  }

  lemma ParityFirst(b: bv32, c: bv32, d: bv32, m: bv32)
    requires c & m == d & m
    ensures Parity(b, c, d) & m == b & m
  {
  }

  /** Word t of a block, octets taken most significant first. */
  function BlockWord(block: seq<byte>, t: nat): bv32
    requires |block| == 64 && t < 16
  {
    Octet(block[4 * t], 24) | Octet(block[4 * t + 1], 16) | Octet(block[4 * t + 2], 8) | Octet(block[4 * t + 3], 0)
  }

  /** The message schedule. */
  function W(block: seq<byte>, t: nat): bv32
    requires |block| == 64
  {
    if t < 16 then BlockWord(block, t)
    else Rotl(1, Xor4(W(block, t - 3), W(block, t - 8), W(block, t - 14), W(block, t - 16)))
  }

  lemma ScheduleStep(block: seq<byte>, t: nat)
    requires |block| == 64
    ensures t < 16 ==> W(block, t) == BlockWord(block, t)
    ensures t >= 16 ==>
      W(block, t) == Rotl(1, Xor4(W(block, t - 3), W(block, t - 8), W(block, t - 14), W(block, t - 16)))
  {
    hide Rotl, Xor4, BlockWord;
  }

  function Step(t: nat, h: Hash, w: bv32): Hash {
    Hash(Add(Add(Add(Add(Rotl(5, h.a), F(t, h.b, h.c, h.d)), h.e), w), K(t)), h.a, Rotl(30, h.b), h.c, h.d)
  }

  function Rounds(t: nat, h: Hash, block: seq<byte>): Hash
    requires |block| == 64
  {
    if t == 0 then h else Step(t - 1, Rounds(t - 1, h, block), W(block, t - 1))
  }

  function Compress(h: Hash, block: seq<byte>): Hash
    requires |block| == 64
  {
    var r := Rounds(80, h, block);
    Hash(Add(h.a, r.a), Add(h.b, r.b), Add(h.c, r.c), Add(h.d, r.d), Add(h.e, r.e))
  }

  /** The chaining value after all the 64-octet blocks of m. */
  function Fold(m: seq<byte>): Hash
    requires |m| % 64 == 0
  {
    if m == [] then IV else Compress(Fold(m[..|m| - 64]), m[|m| - 64..])
  }

  /** The bit length of an n-octet message as a 64-bit number. */
  function BitLength(n: nat): (r: seq<byte>)
    requires n < 0x2000_0000_0000_0000
    ensures |r| == 8
  {
    BE32(n / 0x2000_0000) + BE32(8 * n % 0x1_0000_0000)
  }

  /** Section 4: a one bit, the fewest zero bits that reach 448 modulo 512, the bit length. */
  function Pad(m: seq<byte>): (p: seq<byte>)
    requires |m| < 0x2000_0000_0000_0000
    ensures |p| % 64 == 0
  {
    m + [0x80] + Zeros(PadZeros(|m|)) + BitLength(|m|)
  }

  /** Section 7. */
  function Digest(m: seq<byte>): Hash
    requires |m| < 0x2000_0000_0000_0000
  {
    Fold(Pad(m))
  }

  lemma FoldBlock(m: seq<byte>, block: seq<byte>)
    requires |m| % 64 == 0 && |block| == 64
    ensures Fold(m + block) == Compress(Fold(m), block)
  {
    assert (m + block)[..|m + block| - 64] == m;
    assert (m + block)[|m + block| - 64..] == block;
  }

  /** When the last partial block has room for the marker and the length, one block closes the message. */
  lemma DigestOneBlock(whole: seq<byte>, tail: seq<byte>, last: seq<byte>)
    requires |whole| % 64 == 0 && |tail| <= 55 && |whole + tail| < 0x2000_0000_0000_0000
    requires last == tail + [0x80] + Zeros(55 - |tail|) + BitLength(|whole + tail|)
    ensures Digest(whole + tail) == Compress(Fold(whole), last)
  {
    hide BitLength;
    PadZerosOfTail(|whole|, |tail|);
    assert Pad(whole + tail) == whole + last;
    FoldBlock(whole, last);
  }

  lemma PadTwoBlocks(whole: seq<byte>, tail: seq<byte>)
    requires |whole| % 64 == 0 && 55 < |tail| < 64 && |whole + tail| < 0x2000_0000_0000_0000
    ensures Pad(whole + tail)
         == (whole + (tail + [0x80] + Zeros(63 - |tail|))) + (Zeros(56) + BitLength(|whole + tail|))
  {
    hide BitLength;
    PadZerosOfTail(|whole|, |tail|);
    assert Zeros(119 - |tail|) == Zeros(63 - |tail|) + Zeros(56);
  }

  /** Otherwise the marker fills out one block and the length goes into a second. */
  lemma DigestTwoBlocks(whole: seq<byte>, tail: seq<byte>, first: seq<byte>, last: seq<byte>)
    requires |whole| % 64 == 0 && 55 < |tail| < 64 && |whole + tail| < 0x2000_0000_0000_0000
    requires first == tail + [0x80] + Zeros(63 - |tail|)
    requires last == Zeros(56) + BitLength(|whole + tail|)
    ensures Digest(whole + tail) == Compress(Compress(Fold(whole), first), last)
  {
    hide BitLength, Compress;
    PadTwoBlocks(whole, tail);
    FoldBlock(whole, first);
    FoldBlock(whole + first, last);
  }
}
