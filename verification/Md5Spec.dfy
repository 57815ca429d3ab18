/** The MD5 message-digest algorithm as RFC 1321 defines it, sections 3.1 to 3.5. */
module Md5Spec {
  import opened Bytes
  import opened Padding
  import opened Words

  datatype State = State(a: bv32, b: bv32, c: bv32, d: bv32)

  const IV := State(0x67452301, 0xefcdab89, 0x98badcfe, 0x10325476)

  function F(x: bv32, y: bv32, z: bv32): bv32 { (x & y) | (!x & z) }
  function G(x: bv32, y: bv32, z: bv32): bv32 { (x & z) | (y & !z) }
  function H(x: bv32, y: bv32, z: bv32): bv32 { x ^ y ^ z }
  function I(x: bv32, y: bv32, z: bv32): bv32 { y ^ (x | !z) }

  /** The four functions on any set m of bit places, as section 3.4 explains them: if x then y else z; if z
      then x else y; parity, where two that agree leave the third; and y against x or not z. */
  lemma Functions(x: bv32, y: bv32, z: bv32, m: bv32)
    ensures x & m == m ==> F(x, y, z) & m == y & m
    ensures x & m == 0 ==> F(x, y, z) & m == z & m
    ensures z & m == m ==> G(x, y, z) & m == x & m
    ensures z & m == 0 ==> G(x, y, z) & m == y & m
    ensures x & m == y & m ==> H(x, y, z) & m == z & m
    ensures x & m == z & m ==> H(x, y, z) & m == y & m
    ensures y & m == z & m ==> H(x, y, z) & m == x & m
    ensures x & m == m || z & m == 0 ==> I(x, y, z) & m == !y & m
    ensures x & m == 0 && z & m == m ==> I(x, y, z) & m == y & m
  {
    hide F, G, H, I;
    if x & m == m { FOnes(x, y, z, m); }
    if x & m == 0 { FZeros(x, y, z, m); }
    if z & m == m { GOnes(x, y, z, m); }
    if z & m == 0 { GZeros(x, y, z, m); }
    if x & m == y & m { HLast(x, y, z, m); }
    if x & m == z & m { HMiddle(x, y, z, m); }
    if y & m == z & m { HFirst(x, y, z, m); }
    if x & m == m || z & m == 0 { IFlips(x, y, z, m); }
    if x & m == 0 && z & m == m { IKeeps(x, y, z, m); }
  }

  lemma FOnes(x: bv32, y: bv32, z: bv32, m: bv32)
    requires x & m == m
    ensures F(x, y, z) & m == y & m
  {
  }

  lemma FZeros(x: bv32, y: bv32, z: bv32, m: bv32)
    requires x & m == 0
    ensures F(x, y, z) & m == z & m
  {
  }

  lemma GOnes(x: bv32, y: bv32, z: bv32, m: bv32)
    requires z & m == m
    ensures G(x, y, z) & m == x & m
  {
  }

  lemma GZeros(x: bv32, y: bv32, z: bv32, m: bv32)
    requires z & m == 0
    ensures G(x, y, z) & m == y & m
  {
  }

  lemma HLast(x: bv32, y: bv32, z: bv32, m: bv32)
    requires x & m == y & m
    ensures H(x, y, z) & m == z & m
  {
  }

  lemma HMiddle(x: bv32, y: bv32, z: bv32, m: bv32)
    requires x & m == z & m
    ensures H(x, y, z) & m == y & m
  {
  }

  lemma HFirst(x: bv32, y: bv32, z: bv32, m: bv32)
    requires y & m == z & m
    ensures H(x, y, z) & m == x & m
  {
  }

  lemma IFlips(x: bv32, y: bv32, z: bv32, m: bv32)
    requires x & m == m || z & m == 0
    ensures I(x, y, z) & m == !y & m
  {
  }

  lemma IKeeps(x: bv32, y: bv32, z: bv32, m: bv32)
    requires x & m == 0 && z & m == m
    ensures I(x, y, z) & m == y & m
  {
  }

  /** Operation i, counted from 0, of the 64: the bitwise function of its round. */
  function Operand(i: nat, s: State): bv32 {
    if i < 16 then F(s.b, s.c, s.d)
    else if i < 32 then G(s.b, s.c, s.d)
    else if i < 48 then H(s.b, s.c, s.d)
    else I(s.b, s.c, s.d)
  }

  /** One row [abcd k s i] of the listing in section 3.4: the word index k, the shift s and
      T[i], the integer part of 4294967296 * |sin i|. */
  datatype Row = Row(k: nat, s: nat, t: bv32)

  function Listing(i: nat): (r: Row)
    ensures r.k < 16 && r.s <= 32
  {
    if i < 16 then Listing1(i) else if i < 32 then Listing2(i) else if i < 48 then Listing3(i) else Listing4(i)
  }

  function Listing1(i: nat): (r: Row)
    ensures r.k < 16 && r.s <= 32
  {
    match i
    case 0 => Row(0, 7, 0xd76aa478)
    case 1 => Row(1, 12, 0xe8c7b756)
    case 2 => Row(2, 17, 0x242070db)
    case 3 => Row(3, 22, 0xc1bdceee)
    case 4 => Row(4, 7, 0xf57c0faf)
    case 5 => Row(5, 12, 0x4787c62a)
    case 6 => Row(6, 17, 0xa8304613)
    case 7 => Row(7, 22, 0xfd469501)
    case 8 => Row(8, 7, 0x698098d8)
    case 9 => Row(9, 12, 0x8b44f7af)
    case 10 => Row(10, 17, 0xffff5bb1)
    case 11 => Row(11, 22, 0x895cd7be)
    case 12 => Row(12, 7, 0x6b901122)
    case 13 => Row(13, 12, 0xfd987193)
    case 14 => Row(14, 17, 0xa679438e)
    case _ => Row(15, 22, 0x49b40821)
  }

  function Listing2(i: nat): (r: Row)
    ensures r.k < 16 && r.s <= 32
  {
    match i
    case 16 => Row(1, 5, 0xf61e2562)
    case 17 => Row(6, 9, 0xc040b340)
    case 18 => Row(11, 14, 0x265e5a51)
    case 19 => Row(0, 20, 0xe9b6c7aa)
    case 20 => Row(5, 5, 0xd62f105d)
    case 21 => Row(10, 9, 0x02441453)
    case 22 => Row(15, 14, 0xd8a1e681)
    case 23 => Row(4, 20, 0xe7d3fbc8)
    case 24 => Row(9, 5, 0x21e1cde6)
    case 25 => Row(14, 9, 0xc33707d6)
    case 26 => Row(3, 14, 0xf4d50d87)
    case 27 => Row(8, 20, 0x455a14ed)
    case 28 => Row(13, 5, 0xa9e3e905)
    case 29 => Row(2, 9, 0xfcefa3f8)
    case 30 => Row(7, 14, 0x676f02d9)
    case _ => Row(12, 20, 0x8d2a4c8a)
  }

  function Listing3(i: nat): (r: Row)
    ensures r.k < 16 && r.s <= 32
  {
    match i
    case 32 => Row(5, 4, 0xfffa3942)
    case 33 => Row(8, 11, 0x8771f681)
    case 34 => Row(11, 16, 0x6d9d6122)
    case 35 => Row(14, 23, 0xfde5380c)
    case 36 => Row(1, 4, 0xa4beea44)
    case 37 => Row(4, 11, 0x4bdecfa9)
    case 38 => Row(7, 16, 0xf6bb4b60)
    case 39 => Row(10, 23, 0xbebfbc70)
    case 40 => Row(13, 4, 0x289b7ec6)
    case 41 => Row(0, 11, 0xeaa127fa)
    case 42 => Row(3, 16, 0xd4ef3085)
    case 43 => Row(6, 23, 0x04881d05)
    case 44 => Row(9, 4, 0xd9d4d039)
    case 45 => Row(12, 11, 0xe6db99e5)
    case 46 => Row(15, 16, 0x1fa27cf8)
    case _ => Row(2, 23, 0xc4ac5665)
  }

  function Listing4(i: nat): (r: Row)
    ensures r.k < 16 && r.s <= 32
  {
    match i
    case 48 => Row(0, 6, 0xf4292244)
    case 49 => Row(7, 10, 0x432aff97)
    case 50 => Row(14, 15, 0xab9423a7)
    case 51 => Row(5, 21, 0xfc93a039)
    case 52 => Row(12, 6, 0x655b59c3)
    case 53 => Row(3, 10, 0x8f0ccc92)
    case 54 => Row(10, 15, 0xffeff47d)
    case 55 => Row(1, 21, 0x85845dd1)
    case 56 => Row(8, 6, 0x6fa87e4f)
    case 57 => Row(15, 10, 0xfe2ce6e0)
    case 58 => Row(6, 15, 0xa3014314)
    case 59 => Row(13, 21, 0x4e0811a1)
    case 60 => Row(4, 6, 0xf7537e82)
    case 61 => Row(11, 10, 0xbd3af235)
    case 62 => Row(2, 15, 0x2ad7d2bb)
    case _ => Row(9, 21, 0xeb86d391)
  }

  /** [abcd k s i] denotes a = b + ((a + f(b,c,d) + X[k] + T[i]) <<< s); the next operation
      then takes the registers one place round. */
  function Step(i: nat, s: State, x: seq<bv32>): State
    requires i < 64 && |x| == 16
  {
    State(s.d,
          Add(s.b, Rotl(Listing(i).s, Add(Add(Add(s.a, Operand(i, s)), x[Listing(i).k]), Listing(i).t))),
          s.b, s.c)
  }

  function Steps(n: nat, s: State, x: seq<bv32>): State
    requires n <= 64 && |x| == 16
  {
    if n == 0 then s else Step(n - 1, Steps(n - 1, s, x), x)
  }

  /** Word t of a block, octets taken least significant first. */
  function BlockWord(block: seq<byte>, t: nat): bv32
    requires |block| == 64 && t < 16
  {
    Octet(block[4 * t], 0) | Octet(block[4 * t + 1], 8) | Octet(block[4 * t + 2], 16) | Octet(block[4 * t + 3], 24)
  }

  function BlockWords(block: seq<byte>): (x: seq<bv32>)
    requires |block| == 64
    ensures |x| == 16
  {
    seq(16, t requires 0 <= t < 16 => BlockWord(block, t))
  }

  function Transform(s: State, block: seq<byte>): State
    requires |block| == 64
  {
    var r := Steps(64, s, BlockWords(block));
    State(Add(s.a, r.a), Add(s.b, r.b), Add(s.c, r.c), Add(s.d, r.d))
  }

  /** The state after all the 64-octet blocks of m. */
  function Fold(m: seq<byte>): State
    requires |m| % 64 == 0
  {
    if m == [] then IV else Transform(Fold(m[..|m| - 64]), m[|m| - 64..])
  }

  /** The low-order 64 bits of the bit length, least significant octet first. */
  function BitLength(n: nat): (r: seq<byte>)
    ensures |r| == 8
  {
    LE32(8 * n % 0x1_0000_0000) + LE32(8 * n / 0x1_0000_0000 % 0x1_0000_0000)
  }

  /** Sections 3.1 and 3.2. */
  function Pad(m: seq<byte>): (p: seq<byte>)
    ensures |p| % 64 == 0
  {
    m + [0x80] + Zeros(PadZeros(|m|)) + BitLength(|m|)
  }

  /** Section 3.5: A, B, C, D, low-order octet first. */
  function Output(s: State): (r: seq<byte>)
    ensures |r| == 16
  {
    hide LE32;
    LE32(s.a as uint32) + LE32(s.b as uint32) + LE32(s.c as uint32) + LE32(s.d as uint32)
  }

  function Digest(m: seq<byte>): (r: seq<byte>)
    ensures |r| == 16
  {
    Output(Fold(Pad(m)))
  }

  lemma FoldBlock(m: seq<byte>, block: seq<byte>)
    requires |m| % 64 == 0 && |block| == 64
    ensures Fold(m + block) == Transform(Fold(m), block)
  {
    hide Transform;
    assert (m + block)[..|m + block| - 64] == m;
    assert (m + block)[|m + block| - 64..] == block;
  }
}
