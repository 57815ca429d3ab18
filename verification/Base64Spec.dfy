/** Base 64 as section 4 of RFC 4648 defines it, and what the decoder of
    components/websocket/include/c_base64.h makes of arbitrary input. */
module Base64Spec {
  import opened Bytes

  const PAD: byte := 61  // '='

  /** Table 1 of RFC 4648. */
  function Symbol(k: nat): (c: byte)
    requires k < 64
  {
    if k < 26 then 65 + k          // 'A'..'Z'
    else if k < 52 then 71 + k     // 'a'..'z'
    else if k < 62 then k - 4      // '0'..'9'
    else if k == 62 then 43 else 47
  }

  const UPPER: string := "ABCDEFGHIJKLMNOPQRSTUVWXYZ"
  const LOWER: string := "abcdefghijklmnopqrstuvwxyz"
  const DIGITS: string := "0123456789"
  const ALPHABET: string := UPPER + LOWER + DIGITS + "+/"

  lemma Letters(k: nat)
    requires k < 26
    ensures |UPPER| == |LOWER| == 26 && UPPER[k] as int == 65 + k && LOWER[k] as int == 97 + k
  {
  }

  lemma Digits(k: nat)
    requires k < 10
    ensures |DIGITS| == 10 && DIGITS[k] as int == 48 + k
  {
  }

  /** The symbols are those of the literal both routines of the source spell out, and the padding is '='. */
  lemma SymbolIs(k: nat)
    requires k < 64
    ensures |ALPHABET| == 64 && Symbol(k) == ALPHABET[k] as int && PAD == '=' as int
  {
    Letters(0);
    Digits(0);
    if k < 26 {
      Letters(k);
    } else if k < 52 {
      Letters(k - 26);
    } else if k < 62 {
      Digits(k - 52);
    }
  }

  function Symbols(k: seq<nat>): (r: seq<byte>)
    requires forall i :: 0 <= i < |k| ==> k[i] < 64
    ensures |r| == |k|
  {
    seq(|k|, i requires 0 <= i < |k| => Symbol(k[i]))
  }

  /** The six-bit groups of three octets. */
  function Groups(a: byte, b: byte, c: byte): (g: seq<nat>)
    ensures |g| == 4 && forall i :: 0 <= i < 4 ==> g[i] < 64
  {
    [a / 4, a % 4 * 16 + b / 16, b % 16 * 4 + c / 64, c % 64]
  }

  function Encode(s: seq<byte>): seq<byte> {
    if |s| == 0 then []
    else if |s| == 1 then Symbols(Groups(s[0], 0, 0)[..2]) + [PAD, PAD]
    else if |s| == 2 then Symbols(Groups(s[0], s[1], 0)[..3]) + [PAD]
    else Symbols(Groups(s[0], s[1], s[2])) + Encode(s[3..])
  }

  /** The decoder's alphabet: the 64 symbols, and NUL, which its table loop also enters, with value 64. */
  predicate InAlphabet(c: byte) {
    65 <= c <= 90 || 97 <= c <= 122 || 48 <= c <= 57 || c == 43 || c == 47 || c == 0
  }

  function Value(c: byte): (v: nat)
    requires InAlphabet(c)
    ensures v <= 64
  {
    if 65 <= c <= 90 then c - 65
    else if 97 <= c <= 122 then c - 71
    else if 48 <= c <= 57 then c + 4
    else if c == 43 then 62
    else if c == 47 then 63
    else 64
  }

  lemma SymbolValue(k: nat)
    requires k < 64
    ensures InAlphabet(Symbol(k)) && Value(Symbol(k)) == k && Symbol(k) != PAD && Symbol(k) != 0
  {
  }

  /** The values of the alphabet members before the first '='. */
  function Values(text: seq<byte>): (v: seq<nat>)
    ensures |v| <= |text|
    ensures forall i :: 0 <= i < |v| ==> v[i] <= 64
  {
    if text == [] || text[0] == PAD then []
    else if InAlphabet(text[0]) then [Value(text[0])] + Values(text[1..])
    else Values(text[1..])
  }

  /** Four values as the decoder's accumulator holds them. */
  function Bits(v0: nat, v1: nat, v2: nat, v3: nat): nat {
    ((v0 * 64 + v1) * 64 + v2) * 64 + v3
  }

  function Triple(bits: nat): (r: seq<byte>)
    ensures |r| == 3
  {
    [bits / 0x1_0000 % 0x100, bits / 0x100 % 0x100, bits % 0x100]
  }

  /** The octets of all complete groups, and of the incomplete last one when '=' was seen. */
  function Octets(v: seq<nat>, padded: bool): seq<byte> {
    if |v| >= 4 then Triple(Bits(v[0], v[1], v[2], v[3])) + Octets(v[4..], padded)
    else if !padded || |v| < 2 then []
    else if |v| == 2 then Triple(Bits(v[0], v[1], 0, 0))[..1]
    else Triple(Bits(v[0], v[1], v[2], 0))[..2]
  }

  /** What the decoder writes. */
  function Decode(text: seq<byte>): seq<byte> {
    Octets(Values(text), PAD in text)
  }

  /** How many errors it reports: one exactly when '=' leaves a lone symbol behind. */
  function Errors(text: seq<byte>): nat {
    if PAD in text && |Values(text)| % 4 == 1 then 1 else 0
  }

  lemma TripleOf(a: byte, b: byte, c: byte)
    ensures Triple(a * 0x1_0000 + b * 0x100 + c) == [a, b, c]
  {
    assert (a * 0x1_0000 + b * 0x100 + c) / 0x100 == a * 0x100 + b;
  }

  lemma GroupsBits(a: byte, b: byte, c: byte)
    ensures var g := Groups(a, b, c); Triple(Bits(g[0], g[1], g[2], g[3])) == [a, b, c]
  {
    hide Triple;
    TripleOf(a, b, c);
    assert a == a / 4 * 4 + a % 4 && b == b / 16 * 16 + b % 16 && c == c / 64 * 64 + c % 64;
  }

  /** The decoder reads a run of symbols back as the values it was made from. */
  lemma {:induction false} SymbolsValues(k: seq<nat>)
    requires forall i :: 0 <= i < |k| ==> k[i] < 64
    ensures Values(Symbols(k)) == k && PAD !in Symbols(k)
  {
    if k != [] {
      SymbolValue(k[0]);
      SymbolsValues(k[1..]);
      assert Symbols(k)[1..] == Symbols(k[1..]);
    }
  }

  /** A text that starts with symbols. */
  lemma {:induction false} ValuesPrefix(text: seq<byte>, rest: seq<byte>)
    requires forall i :: 0 <= i < |text| ==> text[i] != PAD
    ensures Values(text + rest) == Values(text) + Values(rest)
    ensures PAD in text + rest <==> PAD in rest
  {
    if text == [] {
      assert text + rest == rest;
    } else {
      assert (text + rest)[1..] == text[1..] + rest;
      ValuesPrefix(text[1..], rest);
    }
  }

  /** The values and padding of an encoding, one leading group at a time. */
  lemma EncodeValues(s: seq<byte>)
    ensures |s| == 1 ==> Values(Encode(s)) == Groups(s[0], 0, 0)[..2] && PAD in Encode(s)
    ensures |s| == 2 ==> Values(Encode(s)) == Groups(s[0], s[1], 0)[..3] && PAD in Encode(s)
    ensures |s| >= 3 ==>
      && Values(Encode(s)) == Groups(s[0], s[1], s[2]) + Values(Encode(s[3..]))
      && (PAD in Encode(s) <==> PAD in Encode(s[3..]))
  {
    hide Groups, Symbols, Values, Encode;
    if |s| > 0 {
      var k, rest := LeadingGroups(s), AfterLeading(s);
      EncodeLeading(s);
      SymbolsValues(k);
      ValuesPrefix(Symbols(k), rest);
      if |s| < 3 {
        ValuesStopAtPad(rest);
      }
    }
  }

  lemma ValuesStopAtPad(text: seq<byte>)
    requires text != [] && text[0] == PAD
    ensures Values(text) == []
  {
  }

  function LeadingGroups(s: seq<byte>): (g: seq<nat>)
    requires s != []
    ensures forall i :: 0 <= i < |g| ==> g[i] < 64
  {
    if |s| == 1 then Groups(s[0], 0, 0)[..2]
    else if |s| == 2 then Groups(s[0], s[1], 0)[..3]
    else Groups(s[0], s[1], s[2])
  }

  function AfterLeading(s: seq<byte>): seq<byte>
    requires s != []
  {
    if |s| == 1 then [PAD, PAD] else if |s| == 2 then [PAD] else Encode(s[3..])
  }

  /** An encoding starts with the symbols of its leading group. */
  lemma EncodeLeading(s: seq<byte>)
    requires s != []
    ensures Encode(s) == Symbols(LeadingGroups(s)) + AfterLeading(s)
  {
    hide Groups, Symbols;
  }

  /** Section 4 of RFC 4648: for every octet string, of every length, decoding undoes encoding. */
  lemma {:induction false} RoundTrip(s: seq<byte>)
    ensures Decode(Encode(s)) == s
    ensures Errors(Encode(s)) == 0
  {
    hide Encode, Triple, Bits, Values;
    EncodeValues(s);
    if |s| == 0 {
      EncodeEmpty();
    } else if |s| == 1 {
      GroupsBits(s[0], 0, 0);
    } else if |s| == 2 {
      GroupsBits(s[0], s[1], 0);
    } else {
      GroupsBits(s[0], s[1], s[2]);
      RoundTrip(s[3..]);
      assert Values(Encode(s))[4..] == Values(Encode(s[3..]));
    }
  }

  lemma EncodeEmpty()
    ensures Encode([]) == [] && Values([]) == []
  {
  }

  /** The vectors of section 10 of RFC 4648: "f" gives "Zg==", "fo" "Zm8=", "foo" "Zm9v", and behind that
      "b" "Yg==", "ba" "YmE=" and "bar" "YmFy". */
  lemma Vectors()
    ensures Encode([102]) == [90, 103, 61, 61] && Encode([102, 111]) == [90, 109, 56, 61]
    ensures Encode([102, 111, 111]) == [90, 109, 57, 118]
    ensures Encode([102, 111, 111] + [98]) == [90, 109, 57, 118] + [89, 103, 61, 61]
    ensures Encode([102, 111, 111] + [98, 97]) == [90, 109, 57, 118] + [89, 109, 69, 61]
    ensures Encode([102, 111, 111] + [98, 97, 114]) == [90, 109, 57, 118] + [89, 109, 70, 121]
  {
    hide Encode, Groups, Symbol;
    ShortVectors();
    LongVectors();
    AfterThree(102, 111, 111, [98]);
    AfterThree(102, 111, 111, [98, 97]);
    AfterThree(102, 111, 111, [98, 97, 114]);
  }

  lemma ShortVectors()
    ensures Encode([102]) == [90, 103, 61, 61] && Encode([98]) == [89, 103, 61, 61]
    ensures Encode([102, 111]) == [90, 109, 56, 61] && Encode([98, 97]) == [89, 109, 69, 61]
  {
    hide Encode;
    OneOctet(102, 25, 32);
    OneOctet(98, 24, 32);
    TwoOctets(102, 111, 25, 38, 60);
    TwoOctets(98, 97, 24, 38, 4);
  }

  lemma LongVectors()
    ensures Encode([102, 111, 111]) == [90, 109, 57, 118] && Encode([98, 97, 114]) == [89, 109, 70, 121]
  {
    hide Encode;
    ThreeOctets(102, 111, 111, 25, 38, 61, 47);
    ThreeOctets(98, 97, 114, 24, 38, 5, 50);
  }

  lemma OneOctet(a: byte, k0: nat, k1: nat)
    requires k0 < 64 && k1 < 64 && Groups(a, 0, 0)[..2] == [k0, k1]
    ensures Encode([a]) == [Symbol(k0), Symbol(k1), 61, 61]
  {
    hide Symbol, Groups;
  }

  lemma TwoOctets(a: byte, b: byte, k0: nat, k1: nat, k2: nat)
    requires k0 < 64 && k1 < 64 && k2 < 64 && Groups(a, b, 0)[..3] == [k0, k1, k2]
    ensures Encode([a, b]) == [Symbol(k0), Symbol(k1), Symbol(k2), 61]
  {
    hide Symbol, Groups;
  }

  lemma ThreeOctets(a: byte, b: byte, c: byte, k0: nat, k1: nat, k2: nat, k3: nat)
    requires k0 < 64 && k1 < 64 && k2 < 64 && k3 < 64
    requires Groups(a, b, c) == [k0, k1, k2, k3]
    ensures Encode([a, b, c]) == [Symbol(k0), Symbol(k1), Symbol(k2), Symbol(k3)]
  {
    hide Symbol, Groups;
    assert [a, b, c][3..] == [];
  }

  lemma AfterThree(a: byte, b: byte, c: byte, rest: seq<byte>)
    ensures Encode([a, b, c] + rest) == Encode([a, b, c]) + Encode(rest)
  {
    hide Symbols, Groups;
    assert ([a, b, c] + rest)[3..] == rest && [a, b, c][3..] == [];
  }

  /** An '=' behind a lone symbol is the one error; behind two or three symbols it is none. */
  lemma {:induction false} OddTexts(text: seq<byte>)
    requires |text| <= 3 && forall i :: 0 <= i < |text| ==> 'A' as int <= text[i] <= 'Z' as int
    ensures Errors(text + [61]) == if |text| == 1 then 1 else 0
    ensures Errors(text) == 0
  {
    hide Values;
    ValuesPrefix(text, [61]);
    ValuesStopAtPad([61]);
    LetterValues(text);
  }

  lemma {:induction false} LetterValues(text: seq<byte>)
    requires forall i :: 0 <= i < |text| ==> 'A' as int <= text[i] <= 'Z' as int
    ensures |Values(text)| == |text|
  {
    if text != [] {
      LetterValues(text[1..]);
    }
  }

  /** A NUL counts 64. */
  lemma NulText(z: seq<byte>)
    requires z == [0, 0, 0, 0]
    ensures Decode(z) == [4, 16, 64]
  {
    hide Values;
    NulValues(z);
    var v := Values(z);
    assert v == [64, 64, 64, 64] && v[4..] == [];
    assert Octets([], false) == [];
  }

  lemma {:induction false} NulValues(z: seq<byte>)
    requires forall i :: 0 <= i < |z| ==> z[i] == 0
    ensures |Values(z)| == |z| && PAD !in z && forall i :: 0 <= i < |z| ==> Values(z)[i] == 64
  {
    if z != [] {
      NulValues(z[1..]);
    }
  }

  /** Distinct octet strings have distinct encodings. */
  lemma EncodeInjective(s: seq<byte>, t: seq<byte>)
    requires Encode(s) == Encode(t)
    ensures s == t
  {
    RoundTrip(s);
    RoundTrip(t);
  }

  /** An encoding cut short before its padding decodes, without an error, to as many whole triples as
      it still holds: the decoder never notices the rest of the last group. */
  lemma {:induction false} TruncatedUnreported(s: seq<byte>, n: nat)
    requires n <= |Encode(s)| && PAD !in Encode(s)[..n]
    ensures n / 4 * 3 <= |s| && Decode(Encode(s)[..n]) == s[..n / 4 * 3]
    ensures Errors(Encode(s)[..n]) == 0
    decreases |s|
  {
    hide Values, Groups, Symbols, Bits, Triple, Encode;
    var cut := Encode(s)[..n];
    if n >= 4 {
      EncodeShort(s);
      EncodeLeading(s);
      var k, rest := LeadingGroups(s), Encode(s[3..]);
      assert cut == Symbols(k) + rest[..n - 4];
      SymbolsValues(k);
      ValuesPrefix(Symbols(k), rest[..n - 4]);
      TruncatedUnreported(s[3..], n - 4);
      GroupsBits(s[0], s[1], s[2]);
      assert Values(cut)[4..] == Values(rest[..n - 4]);
      assert s[..n / 4 * 3] == s[..3] + s[3..][..(n - 4) / 4 * 3];
    }
  }

  lemma EncodeShort(s: seq<byte>)
    ensures s == [] ==> Encode(s) == []
    ensures 0 < |s| < 3 ==> |Encode(s)| == 4 && Encode(s)[3] == PAD
  {
  }

  /** Octets the decoder passes over. */
  predicate Noise(c: byte) {
    c != PAD && !InAlphabet(c)
  }

  function WithoutNoise(text: seq<byte>): seq<byte> {
    if text == [] then []
    else if Noise(text[0]) then WithoutNoise(text[1..])
    else [text[0]] + WithoutNoise(text[1..])
  }

  /** Section 3.3 of RFC 4648: noise anywhere changes neither the output nor the error count, so
      two texts that differ only in noise decode alike. */
  lemma {:induction false} NoiseIgnored(text: seq<byte>)
    ensures Values(WithoutNoise(text)) == Values(text)
    ensures PAD in WithoutNoise(text) <==> PAD in text
    ensures Decode(WithoutNoise(text)) == Decode(text) && Errors(WithoutNoise(text)) == Errors(text)
  {
    if text != [] {
      NoiseIgnored(text[1..]);
      assert text == [text[0]] + text[1..];
    }
  }

  lemma {:induction false} WithoutNoiseAppend(a: seq<byte>, b: seq<byte>)
    ensures WithoutNoise(a + b) == WithoutNoise(a) + WithoutNoise(b)
  {
    if a == [] {
      assert a + b == b;
    } else {
      assert (a + b)[1..] == a[1..] + b;
      WithoutNoiseAppend(a[1..], b);
    }
  }

  lemma {:induction false} AllNoise(n: seq<byte>)
    requires forall i :: 0 <= i < |n| ==> Noise(n[i])
    ensures WithoutNoise(n) == []
  {
    if n != [] {
      AllNoise(n[1..]);
    }
  }

  /** Noise inserted anywhere is as if it were not there. */
  lemma NoiseInserted(a: seq<byte>, n: seq<byte>, b: seq<byte>)
    requires forall i :: 0 <= i < |n| ==> Noise(n[i])
    ensures Decode(a + n + b) == Decode(a + b) && Errors(a + n + b) == Errors(a + b)
  {
    hide Decode, Errors, WithoutNoise, Noise;
    AllNoise(n);
    WithoutNoiseAppend(a + n, b);
    WithoutNoiseAppend(a, n);
    WithoutNoiseAppend(a, b);
    assert WithoutNoise(a) + [] == WithoutNoise(a);
    NoiseIgnored(a + n + b);
    NoiseIgnored(a + b);
  }

  /** No other octet is ignored wherever it stands: '=' ends the text and every alphabet member counts. So
      the octets ignored are those the standard calls for, except NUL. */
  lemma IgnoredExactly(c: byte)
    ensures (forall a: seq<byte>, b: seq<byte> :: Ignored(a, c, b)) <==> Noise(c)
    ensures Noise(c) <==> c != PAD && (forall k :: 0 <= k < 64 ==> Symbol(k) != c) && c != 0
  {
    hide Decode, Errors;
    if Noise(c) {
      forall a: seq<byte>, b: seq<byte> ensures Ignored(a, c, b) {
        NoiseInserted(a, [c], b);
      }
      forall k: nat | k < 64 ensures Symbol(k) != c {
        SymbolValue(k);
      }
    } else {
      NotIgnored(c);
      if InAlphabet(c) && c != 0 {
        assert Symbol(Value(c)) == c;
      }
    }
  }

  predicate Ignored(a: seq<byte>, c: byte, b: seq<byte>) {
    Decode(a + [c] + b) == Decode(a + b) && Errors(a + [c] + b) == Errors(a + b)
  }

  /** After AA an '=' releases an octet; after AAA any alphabet member completes a group. */
  lemma NotIgnored(c: byte)
    requires !Noise(c)
    ensures exists a: seq<byte> :: !Ignored(a, c, [])
  {
    var a: seq<byte> := if c == PAD then [65, 65] else [65, 65, 65];
    ValuesPrefix(a, [c]);
    assert a + [] == a && a + [c] + [] == a + [c];
    assert [c][1..] == [];
    ValuesOfA(a);
    OctetsLength(Values(a), false);
    if c == PAD {
      OctetsLength(Values(a + [c]), true);
    } else {
      OctetsLength(Values(a + [c]), false);
    }
    assert |Decode(a)| == 0 && |Decode(a + [c])| > 0;
    assert !Ignored(a, c, []);
  }

  lemma {:induction false} ValuesOfA(a: seq<byte>)
    requires forall i :: 0 <= i < |a| ==> a[i] == 65
    ensures |Values(a)| == |a|
  {
    if a != [] {
      ValuesOfA(a[1..]);
    }
  }

  /** Four times the octets written never exceeds three times the octets consumed. */
  lemma {:induction false} OutputBound(text: seq<byte>)
    ensures 4 * |Decode(text)| <= 3 * |text|
  {
    OctetsLength(Values(text), PAD in text);
    if PAD in text {
      PadNotAValue(text);
    }
  }

  lemma {:induction false} OctetsLength(v: seq<nat>, padded: bool)
    ensures |Octets(v, padded)| == |v| / 4 * 3 + if padded && |v| % 4 >= 2 then |v| % 4 - 1 else 0
  {
    if |v| >= 4 {
      OctetsLength(v[4..], padded);
    }
  }

  lemma {:induction false} PadNotAValue(text: seq<byte>)
    requires PAD in text
    ensures |Values(text)| < |text|
  {
    if text[0] != PAD {
      PadNotAValue(text[1..]);
    }
  }
}
