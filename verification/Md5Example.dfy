/** The third example of RFC 1321, section A.5: the digest of "abc", step by step. Every row of the listing and
    every function of the definition takes part in it. */
module Md5Example {
  import opened Bytes
  import opened Padding
  import opened Words
  import opened Md5Spec

  const ABC: seq<byte> := [0x61, 0x62, 0x63]

  /** The one padded block. */
  function Block(): (b: seq<byte>)
    ensures |b| == 64
  {
    [0x61, 0x62, 0x63, 0x80] + Zeros(52) + [24] + Zeros(7)
  }

  lemma PaddedBlock()
    ensures Pad(ABC) == Block()
  {
    assert PadZeros(3) == 52;
    assert BitLength(3) == [24] + Zeros(7);
  }

  /** A step, with its row of the listing, its function value, its partial sums and its rotation given. */
  lemma NextStep(x: seq<bv32>, i: nat, s: State, k: nat, n: nat, t: bv32, w: bv32, f: bv32,
                 x1: bv32, x2: bv32, x3: bv32, r: bv32, v: bv32)
    requires |x| == 16 && i < 64 && Steps(i, IV, x) == s
    requires Listing(i) == Row(k, n, t) && x[k] == w && Operand(i, s) == f
    requires Add(s.a, f) == x1 && Add(x1, w) == x2 && Add(x2, t) == x3 && Rotl(n, x3) == r && Add(s.b, r) == v
    ensures Steps(i + 1, IV, x) == State(s.d, v, s.b, s.c)
  {
    hide Add, Rotl, Operand, Listing;
  }

  lemma WordOf(b: seq<byte>, t: nat, a: byte, c: byte, d: byte, e: byte, w: bv32)
    requires |b| == 64 && t < 16
    requires b[4 * t] == a && b[4 * t + 1] == c && b[4 * t + 2] == d && b[4 * t + 3] == e
    requires Octet(a, 0) | Octet(c, 8) | Octet(d, 16) | Octet(e, 24) == w
    ensures BlockWords(b)[t] == w
  {
    hide Octet;
  }

  lemma OctetValues()
    ensures Octet(0, 24) == 0 && Octet(0, 16) == 0 && Octet(0, 8) == 0 && Octet(0, 0) == 0
    ensures Octet(0x61, 0) == 0x61 && Octet(0x62, 8) == 0x6200
    ensures Octet(0x63, 16) == 0x630000 && Octet(0x80, 24) == 0x80000000 && Octet(24, 0) == 24
  {
  }

  lemma OrZeros(a: bv32, b: bv32, c: bv32, d: bv32)
    requires b == 0 && c == 0 && d == 0
    ensures a | b | c | d == a
  {
  }

  lemma OrOctets(a: bv32, b: bv32, c: bv32, d: bv32)
    requires a == 0x61 && b == 0x6200 && c == 0x630000 && d == 0x80000000
    ensures a | b | c | d == 0x80636261
  {
  }

  lemma BlockOctets(b: seq<byte>)
    requires b == Block()
    ensures b[0] == 0x61 && b[1] == 0x62 && b[2] == 0x63 && b[3] == 0x80 && b[56] == 24
    ensures forall i :: 4 <= i < 64 && i != 56 ==> b[i] == 0
  {
  }

  lemma BlockWordsAre(b: seq<byte>)
    requires b == Block()
    ensures var x := BlockWords(b);
      x[0] == 0x80636261 && x[14] == 24 && forall t :: 0 < t < 16 && t != 14 ==> x[t] == 0
  {
    hide Octet, BlockWords, Block;
    BlockOctets(b);
    OctetValues();
    OrOctets(Octet(0x61, 0), Octet(0x62, 8), Octet(0x63, 16), Octet(0x80, 24));
    OrZeros(Octet(24, 0), Octet(0, 8), Octet(0, 16), Octet(0, 24));
    OrZeros(Octet(0, 0), Octet(0, 8), Octet(0, 16), Octet(0, 24));
    WordOf(b, 0, 0x61, 0x62, 0x63, 0x80, 0x80636261);
    WordOf(b, 14, 24, 0, 0, 0, 24);
    forall t: nat | 0 < t < 16 && t != 14 ensures BlockWords(b)[t] == 0 {
      WordOf(b, t, 0, 0, 0, 0, 0);
    }
  }

  /** The sixteen words of the block. */
  predicate BlockOf(x: seq<bv32>) {
    |x| == 16 && x[0] == 0x80636261 && x[14] == 24 && forall t :: 0 < t < 16 && t != 14 ==> x[t] == 0
  }

  lemma Steps8(x: seq<bv32>)
    requires BlockOf(x)
    ensures Steps(8, IV, x) == State(0xc73741ef, 0x928d99f6, 0x207dc67b, 0x8bac3051)
  {
    hide Steps;
    StepsStart(x);
    NextStep(x, 0, State(0x67452301, 0xefcdab89, 0x98badcfe, 0x10325476), 0, 7, 0xd76aa478,
             0x80636261, 0x98badcfe, 0xffffffff, 0x80636260, 0x57ce06d8, 0xe7036c2b, 0xd6d117b4);
    NextStep(x, 1, State(0x10325476, 0xd6d117b4, 0xefcdab89, 0x98badcfe), 1, 12, 0xe8c7b756,
             0x00000000, 0xceebcbca, 0xdf1e2040, 0xdf1e2040, 0xc7e5d796, 0x5d796c7e, 0x344a8432);
    NextStep(x, 2, State(0x98badcfe, 0x344a8432, 0xd6d117b4, 0xefcdab89), 2, 17, 0x242070db,
             0x00000000, 0xdfc52fb9, 0x78800cb7, 0x78800cb7, 0x9ca07d92, 0xfb253940, 0x2f6fbd72);
    NextStep(x, 3, State(0xefcdab89, 0x2f6fbd72, 0x344a8432, 0xd6d117b4), 3, 22, 0xc1bdceee,
             0x00000000, 0xf4da86b6, 0xe4a8323f, 0xe4a8323f, 0xa666012d, 0x4b699980, 0x7ad956f2);
    NextStep(x, 4, State(0xd6d117b4, 0x7ad956f2, 0x2f6fbd72, 0x344a8432), 4, 7, 0xf57c0faf,
             0x00000000, 0x2e4b9472, 0x051cac26, 0x051cac26, 0xfa98bbd5, 0x4c5deafd, 0xc73741ef);
    NextStep(x, 5, State(0x344a8432, 0xc73741ef, 0x7ad956f2, 0x2f6fbd72), 5, 12, 0x4787c62a,
             0x00000000, 0x6a59fcf2, 0x9ea48124, 0x9ea48124, 0xe62c474e, 0xc474ee62, 0x8bac3051);
    NextStep(x, 6, State(0x2f6fbd72, 0x8bac3051, 0xc73741ef, 0x7ad956f2), 6, 17, 0xa8304613,
             0x00000000, 0xf37546e3, 0x22e50455, 0x22e50455, 0xcb154a68, 0x94d1962a, 0x207dc67b);
    NextStep(x, 7, State(0x7ad956f2, 0x207dc67b, 0x8bac3051, 0xc73741ef), 7, 22, 0xfd469501,
             0x00000000, 0xc72e01d5, 0x420758c7, 0x420758c7, 0x3f4dedc8, 0x720fd37b, 0x928d99f6);
  }

  lemma Steps16(x: seq<bv32>)
    requires BlockOf(x)
    ensures Steps(16, IV, x) == State(0xdda9b9a6, 0x72aff2e0, 0xe396856b, 0xa1051895)
  {
    hide Steps;
    Steps8(x);
    NextStep(x, 8, State(0xc73741ef, 0x928d99f6, 0x207dc67b, 0x8bac3051), 8, 7, 0x698098d8,
             0x00000000, 0x092da073, 0xd064e262, 0xd064e262, 0x39e57b3a, 0xf2bd9d1c, 0x854b3712);
    NextStep(x, 9, State(0x8bac3051, 0x854b3712, 0x928d99f6, 0x207dc67b), 9, 12, 0x8b44f7af,
             0x00000000, 0xa03dd17b, 0x2bea01cc, 0x2bea01cc, 0xb72ef97b, 0xef97bb72, 0x74e2f284);
    NextStep(x, 10, State(0x207dc67b, 0x74e2f284, 0x854b3712, 0x928d99f6), 10, 17, 0xffff5bb1,
             0x00000000, 0x864f3b72, 0xa6cd01ed, 0xa6cd01ed, 0xa6cc5d9e, 0xbb3d4d98, 0x3020401c);
    NextStep(x, 11, State(0x928d99f6, 0x3020401c, 0x74e2f284, 0x854b3712), 11, 22, 0x895cd7be,
             0x00000000, 0xb56b7706, 0x47f910fc, 0x47f910fc, 0xd155e8ba, 0x2eb4557a, 0x5ed49596);
    NextStep(x, 12, State(0x854b3712, 0x5ed49596, 0x3020401c, 0x74e2f284), 12, 7, 0x6b901122,
             0x00000000, 0x30226214, 0xb56d9926, 0xb56d9926, 0x20fdaa48, 0x7ed52410, 0xdda9b9a6);
    NextStep(x, 13, State(0x74e2f284, 0xdda9b9a6, 0x5ed49596, 0x3020401c), 13, 12, 0xfd987193,
             0x00000000, 0x7c80d19e, 0xf163c422, 0xf163c422, 0xeefc35b5, 0xc35b5eef, 0xa1051895);
    NextStep(x, 14, State(0x3020401c, 0xa1051895, 0xdda9b9a6, 0x5ed49596), 14, 17, 0xa679438e,
             0x00000018, 0xdfd19d86, 0x0ff1dda2, 0x0ff1ddba, 0xb66b2148, 0x42916cd6, 0xe396856b);
    NextStep(x, 15, State(0x5ed49596, 0xe396856b, 0xa1051895, 0xdda9b9a6), 15, 22, 0x49b40821,
             0x00000000, 0xbd2d3885, 0x1c01ce1b, 0x1c01ce1b, 0x65b5d63c, 0x8f196d75, 0x72aff2e0);
  }

  lemma Steps24(x: seq<bv32>)
    requires BlockOf(x)
    ensures Steps(24, IV, x) == State(0x59a8ffda, 0x47092c07, 0xabfc7920, 0x6d002f1e)
  {
    hide Steps;
    Steps16(x);
    NextStep(x, 16, State(0xdda9b9a6, 0x72aff2e0, 0xe396856b, 0xa1051895), 1, 5, 0xf61e2562,
             0x00000000, 0x629795ea, 0x40414f90, 0x40414f90, 0x365f74f2, 0xcbee9e46, 0x3e9e9126);
    NextStep(x, 17, State(0xa1051895, 0x3e9e9126, 0x72aff2e0, 0xe396856b), 6, 9, 0xc040b340,
             0x00000000, 0x32bff3a2, 0xd3c50c37, 0xd3c50c37, 0x9405bf77, 0x0b7eef28, 0x4a1d804e);
    NextStep(x, 18, State(0xe396856b, 0x4a1d804e, 0x3e9e9126, 0x72aff2e0), 11, 14, 0x265e5a51,
             0x00000000, 0x4e1d8146, 0x31b406b1, 0x31b406b1, 0x58126102, 0x98409604, 0xe25e1652);
    NextStep(x, 19, State(0x72aff2e0, 0xe25e1652, 0x4a1d804e, 0x3e9e9126), 0, 20, 0xe9b6c7aa,
             0x80636261, 0x621f104a, 0xd4cf032a, 0x5532658b, 0x3ee92d35, 0xd353ee92, 0xb5b204e4);
    NextStep(x, 20, State(0x3e9e9126, 0xb5b204e4, 0xe25e1652, 0x4a1d804e), 5, 5, 0xd62f105d,
             0x00000000, 0xa0521654, 0xdef0a77a, 0xdef0a77a, 0xb51fb7d7, 0xa3f6faf6, 0x59a8ffda);
    NextStep(x, 21, State(0x4a1d804e, 0x59a8ffda, 0xb5b204e4, 0xe25e1652), 10, 9, 0x02441453,
             0x00000000, 0x55a816f6, 0x9fc59744, 0x9fc59744, 0xa209ab97, 0x13572f44, 0x6d002f1e);
    NextStep(x, 22, State(0xe25e1652, 0x6d002f1e, 0x59a8ffda, 0xb5b204e4), 15, 14, 0xd8a1e681,
             0x00000000, 0x6d08ff1e, 0x4f671570, 0x4f671570, 0x2808fbf1, 0x3efc4a02, 0xabfc7920);
    NextStep(x, 23, State(0xb5b204e4, 0xabfc7920, 0x6d002f1e, 0x59a8ffda), 4, 20, 0xe7d3fbc8,
             0x00000000, 0x2da87904, 0xe35a7de8, 0xe35a7de8, 0xcb2e79b0, 0x9b0cb2e7, 0x47092c07);
  }

  lemma Steps32(x: seq<bv32>)
    requires BlockOf(x)
    ensures Steps(32, IV, x) == State(0x790a77fb, 0x726342d3, 0xa62884aa, 0x9f47e4f8)
  {
    hide Steps;
    Steps24(x);
    NextStep(x, 24, State(0x59a8ffda, 0x47092c07, 0xabfc7920, 0x6d002f1e), 9, 5, 0x21e1cde6,
             0x00000000, 0xc7fc7c26, 0x21a57c00, 0x21a57c00, 0x438749e6, 0x70e93cc8, 0xb7f268cf);
    NextStep(x, 25, State(0x6d002f1e, 0xb7f268cf, 0x47092c07, 0xabfc7920), 14, 9, 0xc33707d6,
             0x00000018, 0xe7f16c07, 0x54f19b25, 0x54f19b3d, 0x1828a313, 0x51462630, 0x09388eff);
    NextStep(x, 26, State(0xabfc7920, 0x09388eff, 0xb7f268cf, 0x47092c07), 3, 14, 0xf4d50d87,
             0x00000000, 0xb1fa4ccf, 0x5df6c5ef, 0x5df6c5ef, 0x52cbd376, 0xf4dd94b2, 0xfe1623b1);
    NextStep(x, 27, State(0x47092c07, 0xfe1623b1, 0x09388eff, 0xb7f268cf), 8, 20, 0x455a14ed,
             0x00000000, 0xbe1aa6b1, 0x0523d2b8, 0x0523d2b8, 0x4a7de7a5, 0x7a54a7de, 0x786acb8f);
    NextStep(x, 28, State(0xb7f268cf, 0x786acb8f, 0xfe1623b1, 0x09388eff), 13, 5, 0xa9e3e905,
             0x00000000, 0xfe2eab8f, 0xb621145e, 0xb621145e, 0x6004fd63, 0x009fac6c, 0x790a77fb);
    NextStep(x, 29, State(0x09388eff, 0x790a77fb, 0x786acb8f, 0xfe1623b1), 2, 9, 0xfcefa3f8,
             0x00000000, 0x786aebbf, 0x81a37abe, 0x81a37abe, 0x7e931eb6, 0x263d6cfd, 0x9f47e4f8);
    NextStep(x, 30, State(0xfe1623b1, 0x9f47e4f8, 0x790a77fb, 0x786acb8f), 7, 14, 0x676f02d9,
             0x00000000, 0x1942f4f8, 0x175918a9, 0x175918a9, 0x7ec81b82, 0x06e09fb2, 0xa62884aa);
    NextStep(x, 31, State(0x786acb8f, 0xa62884aa, 0x9f47e4f8, 0x790a77fb), 12, 20, 0x8d2a4c8a,
             0x00000000, 0xa64d84aa, 0x1eb85039, 0x1eb85039, 0xabe29cc3, 0xcc3abe29, 0x726342d3);
  }

  lemma Steps40(x: seq<bv32>)
    requires BlockOf(x)
    ensures Steps(40, IV, x) == State(0x21b117b9, 0x5a2f5ea5, 0x3575227e, 0x6e7429d5)
  {
    hide Steps;
    Steps32(x);
    NextStep(x, 32, State(0x790a77fb, 0x726342d3, 0xa62884aa, 0x9f47e4f8), 5, 4, 0xfffa3942,
             0x00000000, 0x4b0c2281, 0xc4169a7c, 0xc4169a7c, 0xc410d3be, 0x410d3bec, 0xb3707ebf);
    NextStep(x, 33, State(0x9f47e4f8, 0xb3707ebf, 0x726342d3, 0xa62884aa), 8, 11, 0x8771f681,
             0x00000000, 0x673bb8c6, 0x06839dbe, 0x06839dbe, 0x8df5943f, 0xaca1fc6f, 0x60127b2e);
    NextStep(x, 34, State(0xa62884aa, 0x60127b2e, 0xb3707ebf, 0x726342d3), 11, 16, 0x6d9d6122,
             0x00000000, 0xa1014742, 0x4729cbec, 0x4729cbec, 0xb4c72d0e, 0x2d0eb4c7, 0x8d212ff5);
    NextStep(x, 35, State(0x726342d3, 0x8d212ff5, 0x60127b2e, 0xb3707ebf), 14, 23, 0xfde5380c,
             0x00000018, 0x5e432a64, 0xd0a66d37, 0xd0a66d4f, 0xce8ba55b, 0xade745d2, 0x3b0875c7);
    NextStep(x, 36, State(0xb3707ebf, 0x3b0875c7, 0x8d212ff5, 0x60127b2e), 1, 4, 0xa4beea44,
             0x00000000, 0xd63b211c, 0x89ab9fdb, 0x89ab9fdb, 0x2e6a8a1f, 0xe6a8a1f2, 0x21b117b9);
    NextStep(x, 37, State(0x60127b2e, 0x21b117b9, 0x3b0875c7, 0x8d212ff5), 4, 11, 0x4bdecfa9,
             0x00000000, 0x97984d8b, 0xf7aac8b9, 0xf7aac8b9, 0x43899862, 0x4cc3121c, 0x6e7429d5);
    NextStep(x, 38, State(0x8d212ff5, 0x6e7429d5, 0x21b117b9, 0x3b0875c7), 7, 16, 0xf6bb4b60,
             0x00000000, 0x74cd4bab, 0x01ee7ba0, 0x01ee7ba0, 0xf8a9c700, 0xc700f8a9, 0x3575227e);
    NextStep(x, 39, State(0x3b0875c7, 0x3575227e, 0x6e7429d5, 0x21b117b9), 10, 23, 0xbebfbc70,
             0x00000000, 0x7ab01c12, 0xb5b891d9, 0xb5b891d9, 0x74784e49, 0x24ba3c27, 0x5a2f5ea5);
  }

  lemma Steps48(x: seq<bv32>)
    requires BlockOf(x)
    ensures Steps(48, IV, x) == State(0x7f2e507b, 0x7beb9700, 0x8fae6399, 0x99d9679d)
  {
    hide Steps;
    Steps40(x);
    NextStep(x, 40, State(0x21b117b9, 0x5a2f5ea5, 0x3575227e, 0x6e7429d5), 13, 4, 0x289b7ec6,
             0x00000000, 0x012e550e, 0x22df6cc7, 0x22df6cc7, 0x4b7aeb8d, 0xb7aeb8d4, 0x11de1779);
    NextStep(x, 41, State(0x6e7429d5, 0x11de1779, 0x5a2f5ea5, 0x3575227e), 0, 11, 0xeaa127fa,
             0x80636261, 0x7e846ba2, 0xecf89577, 0x6d5bf7d8, 0x57fd1fd2, 0xe8fe92bf, 0xfadcaa38);
    NextStep(x, 42, State(0x3575227e, 0xfadcaa38, 0x11de1779, 0x5a2f5ea5), 3, 16, 0xd4ef3085,
             0x00000000, 0xb12de3e4, 0xe6a30662, 0xe6a30662, 0xbb9236e7, 0x36e7bb92, 0x31c465ca);
    NextStep(x, 43, State(0x5a2f5ea5, 0x31c465ca, 0xfadcaa38, 0x11de1779), 6, 23, 0x04881d05,
             0x00000000, 0xdac6d88b, 0x34f63730, 0x34f63730, 0x397e5435, 0x1a9cbf2a, 0x4c6124f4);
    NextStep(x, 44, State(0x11de1779, 0x4c6124f4, 0x31c465ca, 0xfadcaa38), 9, 4, 0xd9d4d039,
             0x00000000, 0x8779eb06, 0x9958027f, 0x9958027f, 0x732cd2b8, 0x32cd2b87, 0x7f2e507b);
    NextStep(x, 45, State(0xfadcaa38, 0x7f2e507b, 0x4c6124f4, 0x31c465ca), 12, 11, 0xe6db99e5,
             0x00000000, 0x028b1145, 0xfd67bb7d, 0xfd67bb7d, 0xe4435562, 0x1aab1722, 0x99d9679d);
    NextStep(x, 46, State(0x31c465ca, 0x99d9679d, 0x7f2e507b, 0x4c6124f4), 15, 16, 0x1fa27cf8,
             0x00000000, 0xaa961312, 0xdc5a78dc, 0xdc5a78dc, 0xfbfcf5d4, 0xf5d4fbfc, 0x8fae6399);
    NextStep(x, 47, State(0x4c6124f4, 0x8fae6399, 0x99d9679d, 0x7f2e507b), 2, 23, 0xc4ac5665,
             0x00000000, 0x6959547f, 0xb5ba7973, 0xb5ba7973, 0x7a66cfd8, 0xec3d3367, 0x7beb9700);
  }

  lemma Steps56(x: seq<bv32>)
    requires BlockOf(x)
    ensures Steps(56, IV, x) == State(0x06cc5e8a, 0x3bfa2c27, 0x7d632dd0, 0x5b0d97aa)
  {
    hide Steps;
    Steps48(x);
    NextStep(x, 48, State(0x7f2e507b, 0x7beb9700, 0x8fae6399, 0x99d9679d), 0, 6, 0xf4292244,
             0x80636261, 0xf041fcfb, 0x6f704d76, 0xefd3afd7, 0xe3fcd21b, 0xff3486f8, 0x7b201df8);
    NextStep(x, 49, State(0x99d9679d, 0x7b201df8, 0x7beb9700, 0x8fae6399), 7, 10, 0x432aff97,
             0x00000000, 0x009a0afe, 0x9a73729b, 0x9a73729b, 0xdd9e7232, 0x79c8cb76, 0xf4e8e96e);
    NextStep(x, 50, State(0x8fae6399, 0xf4e8e96e, 0x7b201df8, 0x7beb9700), 14, 15, 0xab9423a7,
             0x00000018, 0x8fdcf407, 0x1f8b57a0, 0x1f8b57b8, 0xcb1f7b5f, 0xbdafe58f, 0xb298cefd);
    NextStep(x, 51, State(0x7beb9700, 0xb298cefd, 0xf4e8e96e, 0x7b201df8), 5, 21, 0xfc93a039,
             0x00000000, 0x42370791, 0xbe229e91, 0xbe229e91, 0xbab63eca, 0xd95756c7, 0x8bf025c4);
    NextStep(x, 52, State(0x7b201df8, 0x8bf025c4, 0xb298cefd, 0xf4e8e96e), 12, 6, 0x655b59c3,
             0x00000000, 0x396ff928, 0xb4901720, 0xb4901720, 0x19eb70e3, 0x7adc38c6, 0x06cc5e8a);
    NextStep(x, 53, State(0xf4e8e96e, 0x06cc5e8a, 0x8bf025c4, 0xb298cefd), 3, 10, 0x8f0ccc92,
             0x00000000, 0xc41f5a4e, 0xb90843bc, 0xb90843bc, 0x4815104e, 0x54413920, 0x5b0d97aa);
    NextStep(x, 54, State(0xb298cefd, 0x5b0d97aa, 0x06cc5e8a, 0x8bf025c4), 10, 15, 0xffeff47d,
             0x00000000, 0x79c38131, 0x2c5c502e, 0x2c5c502e, 0x2c4c44ab, 0x22559626, 0x7d632dd0);
    NextStep(x, 55, State(0x8bf025c4, 0x7d632dd0, 0x5b0d97aa, 0x06cc5e8a), 1, 21, 0x85845dd1,
             0x00000000, 0xa67e3a5f, 0x326e6023, 0x326e6023, 0xb7f2bdf4, 0xbe96fe57, 0x3bfa2c27);
  }

  lemma Steps64(x: seq<bv32>)
    requires BlockOf(x)
    ensures Steps(64, IV, x) == State(0x310ade8f, 0xc08226b3, 0xe484b9d8, 0x624d8cb2)
  {
    hide Steps;
    Steps56(x);
    NextStep(x, 56, State(0x06cc5e8a, 0x3bfa2c27, 0x7d632dd0, 0x5b0d97aa), 8, 6, 0x6fa87e4f,
             0x00000000, 0xc29941a7, 0xc965a031, 0xc965a031, 0x390e1e80, 0x4387a00e, 0x7f81cc35);
    NextStep(x, 57, State(0x5b0d97aa, 0x7f81cc35, 0x3bfa2c27, 0x7d632dd0), 15, 10, 0xfe2ce6e0,
             0x00000000, 0xc467f218, 0x1f7589c2, 0x1f7589c2, 0x1da270a2, 0x89c28876, 0x094454ab);
    NextStep(x, 58, State(0x7d632dd0, 0x094454ab, 0x7f81cc35, 0x3bfa2c27), 6, 15, 0xa3014314,
             0x00000000, 0xb2c41bce, 0x3027499e, 0x3027499e, 0xd3288cb2, 0x46596994, 0x4f9dbe3f);
    NextStep(x, 59, State(0x3bfa2c27, 0x4f9dbe3f, 0x094454ab, 0x7f81cc35), 13, 21, 0x4e0811a1,
             0x00000000, 0xc6bbeb54, 0x02b6177b, 0x02b6177b, 0x50be291c, 0x238a17c5, 0x7327d604);
    NextStep(x, 60, State(0x7f81cc35, 0x7327d604, 0x4f9dbe3f, 0x094454ab), 4, 6, 0xf7537e82,
             0x00000000, 0xb822416b, 0x37a40da0, 0x37a40da0, 0x2ef78c22, 0xbde3088b, 0x310ade8f);
    NextStep(x, 61, State(0x094454ab, 0x310ade8f, 0x7327d604, 0x4f9dbe3f), 11, 10, 0xbd3af235,
             0x00000000, 0xc24d09cb, 0xcb915e76, 0xcb915e76, 0x88cc50ab, 0x3142ae23, 0x624d8cb2);
    NextStep(x, 62, State(0x4f9dbe3f, 0x624d8cb2, 0x310ade8f, 0x7327d604), 2, 15, 0x2ad7d2bb,
             0x00000000, 0xdfd77374, 0x2f7531b3, 0x2f7531b3, 0x5a4d046e, 0x82372d26, 0xe484b9d8);
    NextStep(x, 63, State(0x7327d604, 0xe484b9d8, 0x624d8cb2, 0x310ade8f), 9, 21, 0xeb86d391,
             0x00000000, 0x8cb8354a, 0xffe00b4e, 0xffe00b4e, 0xeb66dedf, 0xdbfd6cdb, 0xc08226b3);
  }

  lemma StepsStart(x: seq<bv32>)
    requires |x| == 16
    ensures Steps(0, IV, x) == IV
  {
  }

  lemma LastSums()
    ensures Add(0x67452301, 0x310ade8f) == 0x98500190 && Add(0xefcdab89, 0xc08226b3) == 0xb04fd23c
    ensures Add(0x98badcfe, 0xe484b9d8) == 0x7d3f96d6 && Add(0x10325476, 0x624d8cb2) == 0x727fe128
  {
  }

  lemma LastOctets()
    ensures LE32(0x98500190) == [0x90, 0x01, 0x50, 0x98]
    ensures LE32(0xb04fd23c) == [0x3c, 0xd2, 0x4f, 0xb0]
    ensures LE32(0x7d3f96d6) == [0xd6, 0x96, 0x3f, 0x7d]
    ensures LE32(0x727fe128) == [0x28, 0xe1, 0x7f, 0x72]
  {
  }

  lemma FoldOfAbc()
    ensures Fold(Pad(ABC)) == State(0x98500190, 0xb04fd23c, 0x7d3f96d6, 0x727fe128)
  {
    hide Steps, BlockWords, Block, Add;
    var b := Block();
    PaddedBlock();
    BlockWordsAre(b);
    Steps64(BlockWords(b));
    LastSums();
    assert Fold([]) == IV;
    assert [] + b == b;
    FoldBlock([], b);
  }

  /** The published digest. */
  lemma DigestOfAbc()
    ensures Digest(ABC)
         == [0x90, 0x01, 0x50, 0x98, 0x3c, 0xd2, 0x4f, 0xb0,
             0xd6, 0x96, 0x3f, 0x7d, 0x28, 0xe1, 0x7f, 0x72]
  {
    hide Fold, Pad, LE32;
    FoldOfAbc();
    LastOctets();
    assert (0x98500190 as bv32) as uint32 == 0x98500190 && (0xb04fd23c as bv32) as uint32 == 0xb04fd23c;
    assert (0x7d3f96d6 as bv32) as uint32 == 0x7d3f96d6 && (0x727fe128 as bv32) as uint32 == 0x727fe128;
  }
}
