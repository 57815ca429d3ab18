/** The example of Appendix A of FIPS PUB 180-1: the digest of "abc", word by word and round by round. Every
    constant, rotation and round function of the definition takes part in it. */
module Sha1Example {
  import opened Bytes
  import opened Padding
  import opened Words
  import opened Sha1Spec

  const ABC: seq<byte> := [0x61, 0x62, 0x63]

  /** The one padded block. */
  function Block(): (b: seq<byte>)
    ensures |b| == 64
  {
    [0x61, 0x62, 0x63, 0x80] + Zeros(59) + [24]
  }

  lemma PaddedBlock()
    ensures Pad(ABC) == Block()
  {
    assert PadZeros(3) == 52;
    assert BitLength(3) == Zeros(7) + [24];
    assert Zeros(52) + Zeros(7) == Zeros(59);
  }

  /** A word of the schedule, with the exclusive or and its rotation given. */
  lemma NextWord(b: seq<byte>, t: nat, w3: bv32, w8: bv32, w14: bv32, w16: bv32, x: bv32, w: bv32)
    requires |b| == 64 && 16 <= t
    requires W(b, t - 3) == w3 && W(b, t - 8) == w8 && W(b, t - 14) == w14 && W(b, t - 16) == w16
    requires Xor4(w3, w8, w14, w16) == x && Rotl(1, x) == w
    ensures W(b, t) == w
  {
    hide Rotl, Xor4;
    ScheduleStep(b, t);
  }

  /** A round, with its rotations, its round function and its partial sums given. */
  lemma NextRound(b: seq<byte>, t: nat, s: Hash, w: bv32, r5: bv32, f: bv32, x1: bv32, x2: bv32, x3: bv32, x4: bv32,
                  r30: bv32)
    requires |b| == 64 && Rounds(t, IV, b) == s && W(b, t) == w
    requires Rotl(5, s.a) == r5 && F(t, s.b, s.c, s.d) == f && Rotl(30, s.b) == r30
    requires Add(r5, f) == x1 && Add(x1, s.e) == x2 && Add(x2, w) == x3 && Add(x3, K(t)) == x4
    ensures Rounds(t + 1, IV, b) == Hash(x4, s.a, r30, s.c, s.d)
  {
    hide Add, Rotl, F, K, W;
  }

  lemma WordOf(b: seq<byte>, t: nat, a: byte, c: byte, d: byte, e: byte, w: bv32)
    requires |b| == 64 && t < 16
    requires b[4 * t] == a && b[4 * t + 1] == c && b[4 * t + 2] == d && b[4 * t + 3] == e
    requires Octet(a, 24) | Octet(c, 16) | Octet(d, 8) | Octet(e, 0) == w
    ensures W(b, t) == w
  {
    hide Octet;
    ScheduleStep(b, t);
  }

  lemma ZeroWord()
    ensures Octet(0, 24) == 0 && Octet(0, 16) == 0 && Octet(0, 8) == 0 && Octet(0, 0) == 0
  {
  }

  lemma MarkedWord()
    ensures Octet(0x61, 24) == 0x61000000 && Octet(0x62, 16) == 0x620000
    ensures Octet(0x63, 8) == 0x6300 && Octet(0x80, 0) == 0x80 && Octet(24, 0) == 24
  {
  }

  lemma OrZeros(a: bv32, b: bv32, c: bv32, d: bv32)
    requires a == 0 && b == 0 && c == 0
    ensures a | b | c | d == d
  {
  }

  lemma OrOctets(a: bv32, b: bv32, c: bv32, d: bv32)
    requires a == 0x61000000 && b == 0x620000 && c == 0x6300 && d == 0x80
    ensures a | b | c | d == 0x61626380
  {
  }

  lemma FirstWords(b: seq<byte>)
    requires b == Block()
    ensures W(b, 0) == 0x61626380 && W(b, 15) == 24
    ensures forall t: nat :: 0 < t < 15 ==> W(b, t) == 0
  {
    hide Octet, W, Block;
    BlockOctets(b);
    ZeroWord();
    MarkedWord();
    OrOctets(Octet(0x61, 24), Octet(0x62, 16), Octet(0x63, 8), Octet(0x80, 0));
    OrZeros(Octet(0, 24), Octet(0, 16), Octet(0, 8), Octet(24, 0));
    OrZeros(Octet(0, 24), Octet(0, 16), Octet(0, 8), Octet(0, 0));
    WordOf(b, 0, 0x61, 0x62, 0x63, 0x80, 0x61626380);
    WordOf(b, 15, 0, 0, 0, 24, 24);
    forall t: nat | 0 < t < 15 ensures W(b, t) == 0 {
      WordOf(b, t, 0, 0, 0, 0, 0);
    }
  }

  lemma BlockOctets(b: seq<byte>)
    requires b == Block()
    ensures b[0] == 0x61 && b[1] == 0x62 && b[2] == 0x63 && b[3] == 0x80 && b[63] == 24
    ensures forall i :: 4 <= i < 63 ==> b[i] == 0
  {
  }

  lemma Words16(b: seq<byte>)
    requires b == Block()
    ensures W(b, 16) == 0xC2C4C700
    ensures W(b, 17) == 0x00000000
    ensures W(b, 18) == 0x00000030
    ensures W(b, 19) == 0x85898E01
    ensures W(b, 20) == 0x00000000
    ensures W(b, 21) == 0x00000060
    ensures W(b, 22) == 0x0B131C03
    ensures W(b, 23) == 0x00000030
  {
    hide W, Block;
    FirstWords(b);
    NextWord(b, 16, 0x00000000, 0x00000000, 0x00000000, 0x61626380, 0x61626380, 0xC2C4C700);
    NextWord(b, 17, 0x00000000, 0x00000000, 0x00000000, 0x00000000, 0x00000000, 0x00000000);
    NextWord(b, 18, 0x00000018, 0x00000000, 0x00000000, 0x00000000, 0x00000018, 0x00000030);
    NextWord(b, 19, 0xC2C4C700, 0x00000000, 0x00000000, 0x00000000, 0xC2C4C700, 0x85898E01);
    NextWord(b, 20, 0x00000000, 0x00000000, 0x00000000, 0x00000000, 0x00000000, 0x00000000);
    NextWord(b, 21, 0x00000030, 0x00000000, 0x00000000, 0x00000000, 0x00000030, 0x00000060);
    NextWord(b, 22, 0x85898E01, 0x00000000, 0x00000000, 0x00000000, 0x85898E01, 0x0B131C03);
    NextWord(b, 23, 0x00000000, 0x00000018, 0x00000000, 0x00000000, 0x00000018, 0x00000030);
  }

  lemma Words24(b: seq<byte>)
    requires b == Block()
    ensures W(b, 24) == 0x85898EC1
    ensures W(b, 25) == 0x16263806
    ensures W(b, 26) == 0x00000000
    ensures W(b, 27) == 0x00000180
    ensures W(b, 28) == 0x2C4C700C
    ensures W(b, 29) == 0x000000F0
    ensures W(b, 30) == 0x93AFB507
    ensures W(b, 31) == 0x5898E048
  {
    hide W, Block;
    FirstWords(b);
    Words16(b);
    NextWord(b, 24, 0x00000060, 0xC2C4C700, 0x00000000, 0x00000000, 0xC2C4C760, 0x85898EC1);
    NextWord(b, 25, 0x0B131C03, 0x00000000, 0x00000000, 0x00000000, 0x0B131C03, 0x16263806);
    NextWord(b, 26, 0x00000030, 0x00000030, 0x00000000, 0x00000000, 0x00000000, 0x00000000);
    NextWord(b, 27, 0x85898EC1, 0x85898E01, 0x00000000, 0x00000000, 0x000000C0, 0x00000180);
    NextWord(b, 28, 0x16263806, 0x00000000, 0x00000000, 0x00000000, 0x16263806, 0x2C4C700C);
    NextWord(b, 29, 0x00000000, 0x00000060, 0x00000018, 0x00000000, 0x00000078, 0x000000F0);
    NextWord(b, 30, 0x00000180, 0x0B131C03, 0xC2C4C700, 0x00000000, 0xC9D7DA83, 0x93AFB507);
    NextWord(b, 31, 0x2C4C700C, 0x00000030, 0x00000000, 0x00000018, 0x2C4C7024, 0x5898E048);
  }

  lemma Words32(b: seq<byte>)
    requires b == Block()
    ensures W(b, 32) == 0x8E9A9202
    ensures W(b, 33) == 0x00000600
    ensures W(b, 34) == 0xB131C0F0
    ensures W(b, 35) == 0x16263BC6
    ensures W(b, 36) == 0x4EBED41E
    ensures W(b, 37) == 0x626380A1
    ensures W(b, 38) == 0x16263806
    ensures W(b, 39) == 0x000018C0
  {
    hide W, Block;
    Words16(b);
    Words24(b);
    NextWord(b, 32, 0x000000F0, 0x85898EC1, 0x00000030, 0xC2C4C700, 0x474D4901, 0x8E9A9202);
    NextWord(b, 33, 0x93AFB507, 0x16263806, 0x85898E01, 0x00000000, 0x00000300, 0x00000600);
    NextWord(b, 34, 0x5898E048, 0x00000000, 0x00000000, 0x00000030, 0x5898E078, 0xB131C0F0);
    NextWord(b, 35, 0x8E9A9202, 0x00000180, 0x00000060, 0x85898E01, 0x0B131DE3, 0x16263BC6);
    NextWord(b, 36, 0x00000600, 0x2C4C700C, 0x0B131C03, 0x00000000, 0x275F6A0F, 0x4EBED41E);
    NextWord(b, 37, 0xB131C0F0, 0x000000F0, 0x00000030, 0x00000060, 0xB131C050, 0x626380A1);
    NextWord(b, 38, 0x16263BC6, 0x93AFB507, 0x85898EC1, 0x0B131C03, 0x0B131C03, 0x16263806);
    NextWord(b, 39, 0x4EBED41E, 0x5898E048, 0x16263806, 0x00000030, 0x00000C60, 0x000018C0);
  }

  lemma Words40(b: seq<byte>)
    requires b == Block()
    ensures W(b, 40) == 0xD2E138C4
    ensures W(b, 41) == 0x00000F00
    ensures W(b, 42) == 0x3AFB5079
    ensures W(b, 43) == 0x898E04E5
    ensures W(b, 44) == 0xE2BA3C2B
    ensures W(b, 45) == 0x000060C0
    ensures W(b, 46) == 0x053A37CD
    ensures W(b, 47) == 0x74458547
  {
    hide W, Block;
    Words24(b);
    Words32(b);
    NextWord(b, 40, 0x626380A1, 0x8E9A9202, 0x00000000, 0x85898EC1, 0x69709C62, 0xD2E138C4);
    NextWord(b, 41, 0x16263806, 0x00000600, 0x00000180, 0x16263806, 0x00000780, 0x00000F00);
    NextWord(b, 42, 0x000018C0, 0xB131C0F0, 0x2C4C700C, 0x00000000, 0x9D7DA83C, 0x3AFB5079);
    NextWord(b, 43, 0xD2E138C4, 0x16263BC6, 0x000000F0, 0x00000180, 0xC4C70272, 0x898E04E5);
    NextWord(b, 44, 0x00000F00, 0x4EBED41E, 0x93AFB507, 0x2C4C700C, 0xF15D1E15, 0xE2BA3C2B);
    NextWord(b, 45, 0x3AFB5079, 0x626380A1, 0x5898E048, 0x000000F0, 0x00003060, 0x000060C0);
    NextWord(b, 46, 0x898E04E5, 0x16263806, 0x8E9A9202, 0x93AFB507, 0x829D1BE6, 0x053A37CD);
    NextWord(b, 47, 0xE2BA3C2B, 0x000018C0, 0x00000600, 0x5898E048, 0xBA22C2A3, 0x74458547);
  }

  lemma Words48(b: seq<byte>)
    requires b == Block()
    ensures W(b, 48) == 0xDA9415ED
    ensures W(b, 49) == 0x26380A16
    ensures W(b, 50) == 0x626383A1
    ensures W(b, 51) == 0x4EBF54DE
    ensures W(b, 52) == 0x3835B44B
    ensures W(b, 53) == 0x0000F600
    ensures W(b, 54) == 0x1E84C7A3
    ensures W(b, 55) == 0x98E04D98
  {
    hide W, Block;
    Words32(b);
    Words40(b);
    NextWord(b, 48, 0x000060C0, 0xD2E138C4, 0xB131C0F0, 0x8E9A9202, 0xED4A0AF6, 0xDA9415ED);
    NextWord(b, 49, 0x053A37CD, 0x00000F00, 0x16263BC6, 0x00000600, 0x131C050B, 0x26380A16);
    NextWord(b, 50, 0x74458547, 0x3AFB5079, 0x4EBED41E, 0xB131C0F0, 0xB131C1D0, 0x626383A1);
    NextWord(b, 51, 0xDA9415ED, 0x898E04E5, 0x626380A1, 0x16263BC6, 0x275FAA6F, 0x4EBF54DE);
    NextWord(b, 52, 0x26380A16, 0xE2BA3C2B, 0x16263806, 0x4EBED41E, 0x9C1ADA25, 0x3835B44B);
    NextWord(b, 53, 0x626383A1, 0x000060C0, 0x000018C0, 0x626380A1, 0x00007B00, 0x0000F600);
    NextWord(b, 54, 0x4EBF54DE, 0x053A37CD, 0xD2E138C4, 0x16263806, 0x8F4263D1, 0x1E84C7A3);
    NextWord(b, 55, 0x3835B44B, 0x74458547, 0x00000F00, 0x000018C0, 0x4C7026CC, 0x98E04D98);
  }

  lemma Words56(b: seq<byte>)
    requires b == Block()
    ensures W(b, 56) == 0x651D16A0
    ensures W(b, 57) == 0x62658CA1
    ensures W(b, 58) == 0x458544D6
    ensures W(b, 59) == 0x44584CB7
    ensures W(b, 60) == 0x7BA06619
    ensures W(b, 61) == 0x6380AEA2
    ensures W(b, 62) == 0x0AE55269
    ensures W(b, 63) == 0x627B49A1
  {
    hide W, Block;
    Words40(b);
    Words48(b);
    NextWord(b, 56, 0x0000F600, 0xDA9415ED, 0x3AFB5079, 0xD2E138C4, 0x328E8B50, 0x651D16A0);
    NextWord(b, 57, 0x1E84C7A3, 0x26380A16, 0x898E04E5, 0x00000F00, 0xB132C650, 0x62658CA1);
    NextWord(b, 58, 0x98E04D98, 0x626383A1, 0xE2BA3C2B, 0x3AFB5079, 0x22C2A26B, 0x458544D6);
    NextWord(b, 59, 0x651D16A0, 0x4EBF54DE, 0x000060C0, 0x898E04E5, 0xA22C265B, 0x44584CB7);
    NextWord(b, 60, 0x62658CA1, 0x3835B44B, 0x053A37CD, 0xE2BA3C2B, 0xBDD0330C, 0x7BA06619);
    NextWord(b, 61, 0x458544D6, 0x0000F600, 0x74458547, 0x000060C0, 0x31C05751, 0x6380AEA2);
    NextWord(b, 62, 0x44584CB7, 0x1E84C7A3, 0xDA9415ED, 0x053A37CD, 0x8572A934, 0x0AE55269);
    NextWord(b, 63, 0x7BA06619, 0x98E04D98, 0x26380A16, 0x74458547, 0xB13DA4D0, 0x627B49A1);
  }

  lemma Words64(b: seq<byte>)
    requires b == Block()
    ensures W(b, 64) == 0x7CD45C9D
    ensures W(b, 65) == 0x000F0000
    ensures W(b, 66) == 0xFB50753A
    ensures W(b, 67) == 0xEC6765E8
    ensures W(b, 68) == 0xBA3C2BE2
    ensures W(b, 69) == 0x0060C000
    ensures W(b, 70) == 0x3A37CD05
    ensures W(b, 71) == 0x458546F4
  {
    hide W, Block;
    Words48(b);
    Words56(b);
    NextWord(b, 64, 0x6380AEA2, 0x651D16A0, 0x626383A1, 0xDA9415ED, 0xBE6A2E4E, 0x7CD45C9D);
    NextWord(b, 65, 0x0AE55269, 0x62658CA1, 0x4EBF54DE, 0x26380A16, 0x00078000, 0x000F0000);
    NextWord(b, 66, 0x627B49A1, 0x458544D6, 0x3835B44B, 0x626383A1, 0x7DA83A9D, 0xFB50753A);
    NextWord(b, 67, 0x7CD45C9D, 0x44584CB7, 0x0000F600, 0x4EBF54DE, 0x7633B2F4, 0xEC6765E8);
    NextWord(b, 68, 0x000F0000, 0x7BA06619, 0x1E84C7A3, 0x3835B44B, 0x5D1E15F1, 0xBA3C2BE2);
    NextWord(b, 69, 0xFB50753A, 0x6380AEA2, 0x98E04D98, 0x0000F600, 0x00306000, 0x0060C000);
    NextWord(b, 70, 0xEC6765E8, 0x0AE55269, 0x651D16A0, 0x1E84C7A3, 0x9D1BE682, 0x3A37CD05);
    NextWord(b, 71, 0xBA3C2BE2, 0x627B49A1, 0x62658CA1, 0x98E04D98, 0x22C2A37A, 0x458546F4);
  }

  lemma Words72(b: seq<byte>)
    requires b == Block()
    ensures W(b, 72) == 0xB8599DD6
    ensures W(b, 73) == 0x380A1A26
    ensures W(b, 74) == 0x01E02203
    ensures W(b, 75) == 0xE7CC3456
    ensures W(b, 76) == 0xE6E60B69
    ensures W(b, 77) == 0x00F60A00
    ensures W(b, 78) == 0x5795EF4F
    ensures W(b, 79) == 0x822E0879
  {
    hide W, Block;
    Words56(b);
    Words64(b);
    NextWord(b, 72, 0x0060C000, 0x7CD45C9D, 0x458544D6, 0x651D16A0, 0x5C2CCEEB, 0xB8599DD6);
    NextWord(b, 73, 0x3A37CD05, 0x000F0000, 0x44584CB7, 0x62658CA1, 0x1C050D13, 0x380A1A26);
    NextWord(b, 74, 0x458546F4, 0xFB50753A, 0x7BA06619, 0x458544D6, 0x80F01101, 0x01E02203);
    NextWord(b, 75, 0xB8599DD6, 0xEC6765E8, 0x6380AEA2, 0x44584CB7, 0x73E61A2B, 0xE7CC3456);
    NextWord(b, 76, 0x380A1A26, 0xBA3C2BE2, 0x0AE55269, 0x7BA06619, 0xF37305B4, 0xE6E60B69);
    NextWord(b, 77, 0x01E02203, 0x0060C000, 0x627B49A1, 0x6380AEA2, 0x007B0500, 0x00F60A00);
    NextWord(b, 78, 0xE7CC3456, 0x3A37CD05, 0x7CD45C9D, 0x0AE55269, 0xABCAF7A7, 0x5795EF4F);
    NextWord(b, 79, 0xE6E60B69, 0x458546F4, 0x000F0000, 0x627B49A1, 0xC117043C, 0x822E0879);
  }

  lemma Rounds8(b: seq<byte>)
    requires b == Block()
    ensures Rounds(8, IV, b) == Hash(0x9E8C07D4, 0x993E30C1, 0x0FF1F290, 0xB3F52677, 0xF3763846)
  {
    hide W, Rounds, Block;
    FirstWords(b);
    RoundsStart(b);
    NextRound(b, 0, Hash(0x67452301, 0xEFCDAB89, 0x98BADCFE, 0x10325476, 0xC3D2E1F0), 0x61626380,
              0xE8A4602C, 0x98BADCFE, 0x815F3D2A, 0x45321F1A, 0xA694829A, 0x0116FC33, 0x7BF36AE2);
    NextRound(b, 1, Hash(0x0116FC33, 0x67452301, 0x7BF36AE2, 0x98BADCFE, 0x10325476), 0x00000000,
              0x22DF8660, 0xFBFBFEFE, 0x1EDB855E, 0x2F0DD9D4, 0x2F0DD9D4, 0x8990536D, 0x59D148C0);
    NextRound(b, 2, Hash(0x8990536D, 0x0116FC33, 0x59D148C0, 0x7BF36AE2, 0x98BADCFE), 0x00000000,
              0x320A6DB1, 0x7BF14AC0, 0xADFBB871, 0x46B6956F, 0x46B6956F, 0xA1390F08, 0xC045BF0C);
    NextRound(b, 3, Hash(0xA1390F08, 0x8990536D, 0xC045BF0C, 0x59D148C0, 0x7BF36AE2), 0x00000000,
              0x2721E114, 0xD0411B8C, 0xF762FCA0, 0x73566782, 0x73566782, 0xCDD8E11B, 0x626414DB);
    NextRound(b, 4, Hash(0xCDD8E11B, 0xA1390F08, 0x626414DB, 0xC045BF0C, 0x59D148C0), 0x00000000,
              0xBB1C2379, 0x6064B40C, 0x1B80D785, 0x75522045, 0x75522045, 0xCFD499DE, 0x284E43C2);
    NextRound(b, 5, Hash(0xCFD499DE, 0xCDD8E11B, 0x284E43C2, 0x626414DB, 0xC045BF0C), 0x00000000,
              0xFA933BD9, 0x2A6C55C2, 0x24FF919B, 0xE54550A7, 0xE54550A7, 0x3FC7CA40, 0xF3763846);
    NextRound(b, 6, Hash(0x3FC7CA40, 0xCFD499DE, 0xF3763846, 0x284E43C2, 0x626414DB), 0x00000000,
              0xF8F94807, 0xE35E5A46, 0xDC57A24D, 0x3EBBB728, 0x3EBBB728, 0x993E30C1, 0xB3F52677);
    NextRound(b, 7, Hash(0x993E30C1, 0x3FC7CA40, 0xB3F52677, 0xF3763846, 0x284E43C2), 0x00000000,
              0x27C61833, 0xF3F53246, 0x1BBB4A79, 0x44098E3B, 0x44098E3B, 0x9E8C07D4, 0x0FF1F290);
  }

  lemma Rounds16(b: seq<byte>)
    requires b == Block()
    ensures Rounds(16, IV, b) == Hash(0x20BDD62F, 0x196BEE77, 0x644A3DA5, 0x1181ED99, 0x18C623F9)
  {
    hide W, Rounds, Block;
    FirstWords(b);
    Rounds8(b);
    NextRound(b, 8, Hash(0x9E8C07D4, 0x993E30C1, 0x0FF1F290, 0xB3F52677, 0xF3763846), 0x00000000,
              0xD180FA93, 0x2BF136B6, 0xFD723149, 0xF0E8698F, 0xF0E8698F, 0x4B6AE328, 0x664F8C30);
    NextRound(b, 9, Hash(0x4B6AE328, 0x9E8C07D4, 0x664F8C30, 0x0FF1F290, 0xB3F52677), 0x00000000,
              0x6D5C6509, 0x077DF410, 0x74DA5919, 0x28CF7F90, 0x28CF7F90, 0x8351F929, 0x27A301F5);
    NextRound(b, 10, Hash(0x8351F929, 0x4B6AE328, 0x27A301F5, 0x664F8C30, 0x0FF1F290), 0x00000000,
              0x6A3F2530, 0x27270D30, 0x91663260, 0xA15824F0, 0xA15824F0, 0xFBDA9E89, 0x12DAB8CA);
    NextRound(b, 11, Hash(0xFBDA9E89, 0x8351F929, 0x12DAB8CA, 0x27A301F5, 0x664F8C30), 0x00000000,
              0x7B53D13F, 0x26F2B8DC, 0xA2468A1B, 0x0896164B, 0x0896164B, 0x63188FE4, 0x60D47E4A);
    NextRound(b, 12, Hash(0x63188FE4, 0xFBDA9E89, 0x60D47E4A, 0x12DAB8CA, 0x27A301F5), 0x00000000,
              0x6311FC8C, 0x60D03E4A, 0xC3E23AD6, 0xEB853CCB, 0xEB853CCB, 0x4607B664, 0x7EF6A7A2);
    NextRound(b, 13, Hash(0x4607B664, 0x63188FE4, 0x7EF6A7A2, 0x60D47E4A, 0x12DAB8CA), 0x00000000,
              0xC0F6CC88, 0x62D4F7AA, 0x23CBC432, 0x36A67CFC, 0x36A67CFC, 0x9128F695, 0x18C623F9);
    NextRound(b, 14, Hash(0x9128F695, 0x4607B664, 0x18C623F9, 0x7EF6A7A2, 0x60D47E4A), 0x00000000,
              0x251ED2B2, 0x38F623E2, 0x5E14F694, 0xBEE974DE, 0xBEE974DE, 0x196BEE77, 0x1181ED99);
    NextRound(b, 15, Hash(0x196BEE77, 0x9128F695, 0x1181ED99, 0x18C623F9, 0x7EF6A7A2), 0x00000018,
              0x2D7DCEE3, 0x19C6E5F9, 0x4744B4DC, 0xC63B5C7E, 0xC63B5C96, 0x20BDD62F, 0x644A3DA5);
  }

  lemma Rounds24(b: seq<byte>)
    requires b == Block()
    ensures Rounds(24, IV, b) == Hash(0xD541F12D, 0x21283486, 0x0CE88EFF, 0x868DEC32, 0x7F67875F)
  {
    hide W, Rounds, Block;
    Words16(b);
    Rounds16(b);
    NextRound(b, 16, Hash(0x20BDD62F, 0x196BEE77, 0x644A3DA5, 0x1181ED99, 0x18C623F9), 0xC2C4C700,
              0x17BAC5E4, 0x00CA2DAD, 0x1884F391, 0x314B178A, 0xF40FDE8A, 0x4E925823, 0xC65AFB9D);
    NextRound(b, 17, Hash(0x4E925823, 0x20BDD62F, 0xC65AFB9D, 0x644A3DA5, 0x1181ED99), 0x00000000,
              0xD24B0469, 0x445AFB8D, 0x16A5FFF6, 0x2827ED8F, 0x2827ED8F, 0x82AA6728, 0xC82F758B);
    NextRound(b, 18, Hash(0x82AA6728, 0x4E925823, 0xC82F758B, 0xC65AFB9D, 0x644A3DA5), 0x00000030,
              0x554CE510, 0xC84AF39F, 0x1D97D8AF, 0x81E21654, 0x81E21684, 0xDC64901D, 0xD3A49608);
    NextRound(b, 19, Hash(0xDC64901D, 0x82AA6728, 0xD3A49608, 0xC82F758B, 0xC65AFB9D), 0x85898E01,
              0x8C9203BB, 0xCAA5168B, 0x57371A46, 0x1D9215E3, 0xA31BA3E4, 0xFD9E1D7D, 0x20AA99CA);
    NextRound(b, 20, Hash(0xFD9E1D7D, 0xDC64901D, 0x20AA99CA, 0xD3A49608, 0xC82F758B), 0x00000000,
              0xB3C3AFBF, 0x2F6A9FDF, 0xE32E4F9E, 0xAB5DC529, 0xAB5DC529, 0x1A37B0CA, 0x77192407);
    NextRound(b, 21, Hash(0x1A37B0CA, 0xFD9E1D7D, 0x77192407, 0x20AA99CA, 0xD3A49608), 0x00000060,
              0x46F61943, 0xAA2DA0B0, 0xF123B9F3, 0xC4C84FFB, 0xC4C8505B, 0x33A23BFC, 0x7F67875F);
    NextRound(b, 22, Hash(0x33A23BFC, 0x1A37B0CA, 0x7F67875F, 0x77192407, 0x20AA99CA), 0x0B131C03,
              0x74477F86, 0x12491392, 0x86909318, 0xA73B2CE2, 0xB24E48E5, 0x21283486, 0x868DEC32);
    NextRound(b, 23, Hash(0x21283486, 0x33A23BFC, 0x868DEC32, 0x7F67875F, 0x77192407), 0x00000030,
              0x250690C4, 0xCA485091, 0xEF4EE155, 0x6668055C, 0x6668058C, 0xD541F12D, 0x0CE88EFF);
  }

  lemma Rounds32(b: seq<byte>)
    requires b == Block()
    ensures Rounds(32, IV, b) == Hash(0x3B845D33, 0x1267B407, 0x717EEBD7, 0xA0DC2D4B, 0xD2AA1365)
  {
    hide W, Rounds, Block;
    Words24(b);
    Rounds24(b);
    NextRound(b, 24, Hash(0xD541F12D, 0x21283486, 0x0CE88EFF, 0x868DEC32, 0x7F67875F), 0x85898EC1,
              0xA83E25BA, 0xAB4D564B, 0x538B7C05, 0xD2F30364, 0x587C9225, 0xC7567DC6, 0x884A0D21);
    NextRound(b, 25, Hash(0xC7567DC6, 0xD541F12D, 0x884A0D21, 0x0CE88EFF, 0x868DEC32), 0x16263806,
              0xEACFB8D8, 0x51E372F3, 0x3CB32BCB, 0xC34117FD, 0xD9675003, 0x48413BA4, 0x75507C4B);
    NextRound(b, 26, Hash(0x48413BA4, 0xC7567DC6, 0x75507C4B, 0x884A0D21, 0x0CE88EFF), 0x00000000,
              0x08277489, 0x3A4C0CAC, 0x42738135, 0x4F5C1034, 0x4F5C1034, 0xBE35FBD5, 0xB1D59F71);
    NextRound(b, 27, Hash(0xBE35FBD5, 0x48413BA4, 0xB1D59F71, 0x75507C4B, 0x884A0D21), 0x00000180,
              0xC6BF7AB7, 0x8CC4D89E, 0x53845355, 0xDBCE6076, 0xDBCE61F6, 0x4AA84D97, 0x12104EE9);
    NextRound(b, 28, Hash(0x4AA84D97, 0xBE35FBD5, 0x12104EE9, 0xB1D59F71, 0x75507C4B), 0x2C4C700C,
              0x5509B2E9, 0x1DF02A4D, 0x72F9DD36, 0xE84A5981, 0x1496C98D, 0x8370B52E, 0x6F8D7EF5);
    NextRound(b, 29, Hash(0x8370B52E, 0x4AA84D97, 0x6F8D7EF5, 0x12104EE9, 0xB1D59F71), 0x000000F0,
              0x6E16A5D0, 0x37357D8B, 0xA54C235B, 0x5721C2CC, 0x5721C3BC, 0xC5FBAF5D, 0xD2AA1365);
    NextRound(b, 30, Hash(0xC5FBAF5D, 0x8370B52E, 0xD2AA1365, 0x6F8D7EF5, 0x12104EE9), 0x93AFB507,
              0xBF75EBB8, 0x3E57D8BE, 0xFDCDC476, 0x0FDE135F, 0xA38DC866, 0x1267B407, 0xA0DC2D4B);
    NextRound(b, 31, Hash(0x1267B407, 0xC5FBAF5D, 0xA0DC2D4B, 0xD2AA1365, 0x6F8D7EF5), 0x5898E048,
              0x4CF680E2, 0xB78D9173, 0x04841255, 0x7411914A, 0xCCAA7192, 0x3B845D33, 0x717EEBD7);
  }

  lemma Rounds40(b: seq<byte>)
    requires b == Block()
    ensures Rounds(40, IV, b) == Hash(0x32DE1CBA, 0x4C986405, 0xF718E5CF, 0x03D447F6, 0xF72EEC32)
  {
    hide W, Rounds, Block;
    Words32(b);
    Rounds32(b);
    NextRound(b, 32, Hash(0x3B845D33, 0x1267B407, 0x717EEBD7, 0xA0DC2D4B, 0xD2AA1365), 0x8E9A9202,
              0x708BA667, 0xC3C5729B, 0x34511902, 0x06FB2C67, 0x9595BE69, 0x046FAA0A, 0xC499ED01);
    NextRound(b, 33, Hash(0x046FAA0A, 0x3B845D33, 0xC499ED01, 0x717EEBD7, 0xA0DC2D4B), 0x00000600,
              0x8DF54140, 0x8E635BE5, 0x1C589D25, 0xBD34CA70, 0xBD34D070, 0x2C0EBC11, 0xCEE1174C);
    NextRound(b, 34, Hash(0x2C0EBC11, 0x046FAA0A, 0xCEE1174C, 0xC499ED01, 0x717EEBD7), 0xB131C0F0,
              0x81D78225, 0x0E175047, 0x8FEED26C, 0x016DBE43, 0xB29F7F33, 0x21796AD4, 0x811BEA82);
    NextRound(b, 35, Hash(0x21796AD4, 0x2C0EBC11, 0x811BEA82, 0xCEE1174C, 0xC499ED01), 0x16263BC6,
              0x2F2D5A84, 0x63F441DF, 0x93219C63, 0x57BB8964, 0x6DE1C52A, 0xDCBBB0CB, 0x4B03AF04);
    NextRound(b, 36, Hash(0xDCBBB0CB, 0x21796AD4, 0x4B03AF04, 0x811BEA82, 0xCEE1174C), 0x4EBED41E,
              0x9776197B, 0xEB612F52, 0x82D748CD, 0x51B86019, 0xA0773437, 0x0F511FD8, 0x085E5AB5);
    NextRound(b, 37, Hash(0x0F511FD8, 0xDCBBB0CB, 0x085E5AB5, 0x4B03AF04, 0x811BEA82), 0x626380A1,
              0xEA23FB01, 0x9FE6457A, 0x8A0A407B, 0x0B262AFD, 0x6D89AB9E, 0xDC63973F, 0xF72EEC32);
    NextRound(b, 38, Hash(0xDC63973F, 0x0F511FD8, 0xF72EEC32, 0x085E5AB5, 0x4B03AF04), 0x16263806,
              0x8C72E7FB, 0xF021A95F, 0x7C94915A, 0xC798405E, 0xDDBE7864, 0x4C986405, 0x03D447F6);
    NextRound(b, 39, Hash(0x4C986405, 0xDC63973F, 0x03D447F6, 0xF72EEC32, 0x085E5AB5), 0x000018C0,
              0x930C80A9, 0x28993CFB, 0xBBA5BDA4, 0xC4041859, 0xC4043119, 0x32DE1CBA, 0xF718E5CF);
  }

  lemma Rounds48(b: seq<byte>)
    requires b == Block()
    ensures Rounds(48, IV, b) == Hash(0xBEAD02CA, 0xA01B846C, 0x8714787C, 0x503CA382, 0xFB86C6AB)
  {
    hide W, Rounds, Block;
    Words40(b);
    Rounds40(b);
    NextRound(b, 40, Hash(0x32DE1CBA, 0x4C986405, 0xF718E5CF, 0x03D447F6, 0xF72EEC32), 0xD2E138C4,
              0x5BC39746, 0x479865C7, 0xA35BFD0D, 0x9A8AE93F, 0x6D6C2203, 0xFC87DEDF, 0x53261901);
    NextRound(b, 41, Hash(0xFC87DEDF, 0x32DE1CBA, 0x53261901, 0xF718E5CF, 0x03D447F6), 0x00000F00,
              0x90FBDBFF, 0x731E1D8B, 0x0419F98A, 0x07EE4180, 0x07EE5080, 0x970A0D5C, 0x8CB7872E);
    NextRound(b, 42, Hash(0x970A0D5C, 0xFC87DEDF, 0x8CB7872E, 0x53261901, 0xF718E5CF), 0x3AFB5079,
              0xE141AB92, 0xDCA79F0F, 0xBDE94AA1, 0xB5023070, 0xEFFD80E9, 0x7F193DC5, 0xFF21F7B7);
    NextRound(b, 43, Hash(0x7F193DC5, 0x970A0D5C, 0xFF21F7B7, 0x8CB7872E, 0x53261901), 0x898E04E5,
              0xE327B8AF, 0x9F23873E, 0x824B3FED, 0xD57158EE, 0x5EFF5DD3, 0xEE1B1AAF, 0x25C28357);
    NextRound(b, 44, Hash(0xEE1B1AAF, 0x7F193DC5, 0x25C28357, 0xFF21F7B7, 0x8CB7872E), 0xE2BA3C2B,
              0xC36355FD, 0x7F01B7D7, 0x42650DD4, 0xCF1C9502, 0xB1D6D12D, 0x40F28E09, 0x5FC64F71);
    NextRound(b, 45, Hash(0x40F28E09, 0xEE1B1AAF, 0x5FC64F71, 0x25C28357, 0xFF21F7B7), 0x000060C0,
              0x1E51C128, 0x6FC20B77, 0x8E13CC9F, 0x8D35C456, 0x8D362516, 0x1C51E1F2, 0xFB86C6AB);
    NextRound(b, 46, Hash(0x1C51E1F2, 0x40F28E09, 0xFB86C6AB, 0x5FC64F71, 0x25C28357), 0x053A37CD,
              0x8A3C3E43, 0x5BC6CE29, 0xE6030C6C, 0x0BC58FC3, 0x10FFC790, 0xA01B846C, 0x503CA382);
    NextRound(b, 47, Hash(0xA01B846C, 0x1C51E1F2, 0x503CA382, 0xFB86C6AB, 0x5FC64F71), 0x74458547,
              0x03708D94, 0x5814E3A2, 0x5B857136, 0xBB4BC0A7, 0x2F9145EE, 0xBEAD02CA, 0x8714787C);
  }

  lemma Rounds56(b: seq<byte>)
    requires b == Block()
    ensures Rounds(56, IV, b) == Hash(0x5E6456AF, 0x7B71F76D, 0x09FA7C76, 0x792410DB, 0x8E11EB59)
  {
    hide W, Rounds, Block;
    Words48(b);
    Rounds48(b);
    NextRound(b, 48, Hash(0xBEAD02CA, 0xA01B846C, 0x8714787C, 0x503CA382, 0xFB86C6AB), 0xDA9415ED,
              0xD5A05957, 0x801CA06C, 0x55BCF9C3, 0x5143C06E, 0x2BD7D65B, 0xBAF39337, 0x2806E11B);
    NextRound(b, 49, Hash(0xBAF39337, 0xBEAD02CA, 0x2806E11B, 0x8714787C, 0x503CA382), 0x26380A16,
              0x5E7266F7, 0xAE04605A, 0x0C76C751, 0x5CB36AD3, 0x82EB74E9, 0x120731C5, 0xAFAB40B2);
    NextRound(b, 50, Hash(0x120731C5, 0xBAF39337, 0xAFAB40B2, 0x2806E11B, 0x8714787C), 0x626383A1,
              0x40E638A2, 0xAAA3C133, 0xEB89F9D5, 0x729E7251, 0xD501F5F2, 0x641DB2CE, 0xEEBCE4CD);
    NextRound(b, 51, Hash(0x641DB2CE, 0x120731C5, 0xEEBCE4CD, 0xAFAB40B2, 0x2806E11B), 0x4EBF54DE,
              0x83B659CC, 0xAEAF60C5, 0x3265BA91, 0x5A6C9BAC, 0xA92BF08A, 0x3847AD66, 0x4481CC71);
    NextRound(b, 52, Hash(0x3847AD66, 0x641DB2CE, 0x4481CC71, 0xEEBCE4CD, 0xAFAB40B2), 0x3835B44B,
              0x08F5ACC7, 0x649DE4CD, 0x6D939194, 0x1D3ED246, 0x55748691, 0xE490436D, 0x99076CB3);
    NextRound(b, 53, Hash(0xE490436D, 0x3847AD66, 0x99076CB3, 0x4481CC71, 0xEEBCE4CD), 0x0000F600,
              0x92086DBC, 0x1807EC73, 0xAA105A2F, 0x98CD3EFC, 0x98CE34FC, 0x27E9F1D8, 0x8E11EB59);
    NextRound(b, 54, Hash(0x27E9F1D8, 0xE490436D, 0x8E11EB59, 0x99076CB3, 0x4481CC71), 0x1E84C7A3,
              0xFD3E3B04, 0x8C116B79, 0x894FA67D, 0xCDD172EE, 0xEC563A91, 0x7B71F76D, 0x792410DB);
    NextRound(b, 55, Hash(0x7B71F76D, 0x27E9F1D8, 0x792410DB, 0x8E11EB59, 0x99076CB3), 0x98E04D98,
              0x6E3EEDAF, 0x2F21F1D9, 0x9D60DF88, 0x36684C3B, 0xCF4899D3, 0x5E6456AF, 0x09FA7C76);
  }

  lemma Rounds64(b: seq<byte>)
    requires b == Block()
    ensures Rounds(64, IV, b) == Hash(0x6B61C9E1, 0xB66C020B, 0x9523272C, 0xF5D5B051, 0x8FD4B796)
  {
    hide W, Rounds, Block;
    Words56(b);
    Rounds56(b);
    NextRound(b, 56, Hash(0x5E6456AF, 0x7B71F76D, 0x09FA7C76, 0x792410DB, 0x8E11EB59), 0x651D16A0,
              0xCC8AD5EB, 0x7970747F, 0x45FB4A6A, 0xD40D35C3, 0x392A4C63, 0xC846093F, 0x5EDC7DDB);
    NextRound(b, 57, Hash(0xC846093F, 0x5E6456AF, 0x5EDC7DDB, 0x09FA7C76, 0x792410DB), 0x62658CA1,
              0x08C127F9, 0x5EFC7CFF, 0x67BDA4F8, 0xE0E1B5D3, 0x43474274, 0xD262FF50, 0xD79915AB);
    NextRound(b, 58, Hash(0xD262FF50, 0xC846093F, 0xD79915AB, 0x5EDC7DDB, 0x09FA7C76), 0x458544D6,
              0x4C5FEA1A, 0xDEDC1DBB, 0x2B3C07D5, 0x3536844B, 0x7ABBC921, 0x09D785FD, 0xF211824F);
    NextRound(b, 59, Hash(0x09D785FD, 0xD262FF50, 0xF211824F, 0xD79915AB, 0x5EDC7DDB), 0x44584CB7,
              0x3AF0BFA1, 0xD211974B, 0x0D0256EC, 0x6BDED4C7, 0xB037217E, 0x3F52DE5A, 0x3498BFD4);
    NextRound(b, 60, Hash(0x3F52DE5A, 0x09D785FD, 0x3498BFD4, 0xF211824F, 0xD79915AB), 0x7BA06619,
              0xEA5BCB47, 0xCF5EB866, 0xB9BA83AD, 0x91539958, 0x0CF3FF71, 0xD756C147, 0x4275E17F);
    NextRound(b, 61, Hash(0xD756C147, 0x3F52DE5A, 0x4275E17F, 0x3498BFD4, 0xF211824F), 0x6380AEA2,
              0xEAD828FA, 0x49BF80F1, 0x3497A9EB, 0x26A92C3A, 0x8A29DADC, 0x548C9CB2, 0x8FD4B796);
    NextRound(b, 62, Hash(0x548C9CB2, 0xD756C147, 0x8FD4B796, 0x4275E17F, 0x3498BFD4), 0x0AE55269,
              0x9193964A, 0x1AF797AE, 0xAC8B2DF8, 0xE123EDCC, 0xEC094035, 0xB66C020B, 0xF5D5B051);
    NextRound(b, 63, Hash(0xB66C020B, 0x548C9CB2, 0xF5D5B051, 0x8FD4B796, 0x4275E17F), 0x627B49A1,
              0xCD804176, 0x2E8D9B75, 0xFC0DDCEB, 0x3E83BE6A, 0xA0FF080B, 0x6B61C9E1, 0x9523272C);
  }

  lemma Rounds72(b: seq<byte>)
    requires b == Block()
    ensures Rounds(72, IV, b) == Hash(0x39859DE7, 0xC199F8C7, 0x8FC96230, 0x125C24F0, 0xDE37534A)
  {
    hide W, Rounds, Block;
    Words64(b);
    Rounds64(b);
    NextRound(b, 64, Hash(0x6B61C9E1, 0xB66C020B, 0x9523272C, 0xF5D5B051, 0x8FD4B796), 0x7CD45C9D,
              0x6C393C2D, 0xD69A9576, 0x42D3D1A3, 0xD2A88939, 0x4F7CE5D6, 0x19DFA7AC, 0xED9B0082);
    NextRound(b, 65, Hash(0x19DFA7AC, 0x6B61C9E1, 0xED9B0082, 0x9523272C, 0xF5D5B051), 0x000F0000,
              0x3BF4F583, 0x13D9EE4F, 0x4FCEE3D2, 0x45A49423, 0x45B39423, 0x101655F9, 0x5AD87278);
    NextRound(b, 66, Hash(0x101655F9, 0x19DFA7AC, 0x5AD87278, 0xED9B0082, 0x9523272C), 0xFB50753A,
              0x02CABF22, 0xAE9CD556, 0xB1679478, 0x468ABBA4, 0x41DB30DE, 0x0C3DF2B4, 0x0677E9EB);
    NextRound(b, 67, Hash(0x0C3DF2B4, 0x101655F9, 0x0677E9EB, 0x5AD87278, 0xED9B0082), 0xEC6765E8,
              0x87BE5681, 0x4CB9CE6A, 0xD47824EB, 0xC213256D, 0xAE7A8B55, 0x78DD4D2B, 0x4405957E);
    NextRound(b, 68, Hash(0x78DD4D2B, 0x0C3DF2B4, 0x4405957E, 0x0677E9EB, 0x5AD87278), 0xBA3C2BE2,
              0x1BA9A56F, 0x4E4F8E21, 0x69F93390, 0xC4D1A608, 0x7F0DD1EA, 0x497093C0, 0x030F7CAD);
    NextRound(b, 69, Hash(0x497093C0, 0x78DD4D2B, 0x030F7CAD, 0x4405957E, 0x0677E9EB), 0x0060C000,
              0x2E127809, 0x3FD7A4F8, 0x6DEA1D01, 0x746206EC, 0x74C2C6EC, 0x3F2588C2, 0xDE37534A);
    NextRound(b, 70, Hash(0x3F2588C2, 0x497093C0, 0xDE37534A, 0x030F7CAD, 0x4405957E), 0x3A37CD05,
              0xE4B11847, 0x9448BC27, 0x78F9D46E, 0xBCFF69EC, 0xF73736F1, 0xC199F8C7, 0x125C24F0);
    NextRound(b, 71, Hash(0xC199F8C7, 0x3F2588C2, 0x125C24F0, 0xDE37534A, 0x030F7CAD), 0x458546F4,
              0x333F18F8, 0xF34EFF78, 0x268E1870, 0x299D951D, 0x6F22DC11, 0x39859DE7, 0x8FC96230);
  }

  lemma Rounds80(b: seq<byte>)
    requires b == Block()
    ensures Rounds(80, IV, b) == Hash(0x42541B35, 0x5738D5E1, 0x21834873, 0x681E6DF6, 0xD8FDF6AD)
  {
    hide W, Rounds, Block;
    Words72(b);
    Rounds72(b);
    NextRound(b, 72, Hash(0x39859DE7, 0xC199F8C7, 0x8FC96230, 0x125C24F0, 0xDE37534A), 0xB8599DD6,
              0x30B3BCE7, 0x5C0CBE07, 0x8CC07AEE, 0x6AF7CE38, 0x23516C0E, 0xEDB42DE4, 0xF0667E31);
    NextRound(b, 73, Hash(0xEDB42DE4, 0x39859DE7, 0xF0667E31, 0x8FC96230, 0x125C24F0), 0x380A1A26,
              0xB685BC9D, 0x462A81E6, 0xFCB03E83, 0x0F0C6373, 0x47167D99, 0x11793F6F, 0xCE616779);
    NextRound(b, 74, Hash(0x11793F6F, 0xEDB42DE4, 0xCE616779, 0xF0667E31, 0x8FC96230), 0x01E02203,
              0x2F27EDE2, 0xD3B334AC, 0x02DB228E, 0x92A484BE, 0x9484A6C1, 0x5EE76897, 0x3B6D0B79);
    NextRound(b, 75, Hash(0x5EE76897, 0x11793F6F, 0x3B6D0B79, 0xCE616779, 0xF0667E31), 0xE7CC3456,
              0xDCED12EB, 0xE475536F, 0xC162665A, 0xB1C8E48B, 0x999518E1, 0x63F7DAB7, 0xC45E4FDB);
    NextRound(b, 76, Hash(0x63F7DAB7, 0x5EE76897, 0xC45E4FDB, 0x3B6D0B79, 0xCE616779), 0xE6E60B69,
              0x7EFB56EC, 0xA1D42C35, 0x20CF8321, 0xEF30EA9A, 0xD616F603, 0xA079B7D9, 0xD7B9DA25);
    NextRound(b, 77, Hash(0xA079B7D9, 0x63F7DAB7, 0xD7B9DA25, 0xC45E4FDB, 0x3B6D0B79), 0x00F60A00,
              0x0F36FB34, 0x70104F49, 0x7F474A7D, 0xBAB455F6, 0xBBAA5FF6, 0x860D21CC, 0xD8FDF6AD);
    NextRound(b, 78, Hash(0x860D21CC, 0xA079B7D9, 0xD8FDF6AD, 0xD7B9DA25, 0xC45E4FDB), 0x5795EF4F,
              0xC1A43990, 0xAF3D9B51, 0x70E1D4E1, 0x354024BC, 0x8CD6140B, 0x5738D5E1, 0x681E6DF6);
    NextRound(b, 79, Hash(0x5738D5E1, 0x860D21CC, 0x681E6DF6, 0xD8FDF6AD, 0xD7B9DA25), 0x822E0879,
              0xE71ABC2A, 0x36EEBA97, 0x1E0976C1, 0xF5C350E6, 0x77F1595F, 0x42541B35, 0x21834873);
  }

  lemma RoundsStart(b: seq<byte>)
    requires |b| == 64
    ensures Rounds(0, IV, b) == IV
  {
  }

  lemma LastSums()
    ensures Add(0x67452301, 0x42541B35) == 0xA9993E36 && Add(0xEFCDAB89, 0x5738D5E1) == 0x4706816A
    ensures Add(0x98BADCFE, 0x21834873) == 0xBA3E2571 && Add(0x10325476, 0x681E6DF6) == 0x7850C26C
    ensures Add(0xC3D2E1F0, 0xD8FDF6AD) == 0x9CD0D89D
  {
  }

  /** The published digest. */
  lemma DigestOfAbc()
    ensures Digest(ABC) == Hash(0xA9993E36, 0x4706816A, 0xBA3E2571, 0x7850C26C, 0x9CD0D89D)
  {
    hide W, Rounds, Block, Add;
    var b := Block();
    PaddedBlock();
    Rounds80(b);
    LastSums();
    assert Fold([]) == IV;
    assert [] + b == b;
    FoldBlock([], b);
  }
}
