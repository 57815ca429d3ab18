/** The streaming MD5 context of components/websocket/wsock_md5.c. */
module Md5 {
  import opened Bytes
  import opened Words
  import opened Padding
  import opened Md5Spec

  // The round macros. Each is operation i of the algorithm: a += f(b, c, d) + x[k] + ac,
  // rotate left by s, add b. The result stands where a stood.

  method FF(a: bv32, b: bv32, c: bv32, d: bv32, x: seq<bv32>, k: nat, s: nat, ac: bv32, ghost i: nat, ghost h: State)
    returns (r: bv32)
    requires |x| == 16 && i < 16 && Row(k, s, ac) == Listing1(i)
    requires State(a, b, c, d) == Steps(i, h, x)
    ensures State(d, r, b, c) == Steps(i + 1, h, x)
  {
    hide Add, Rotl, F, Listing1, Listing2, Listing3, Listing4;
    AddRegroups(a, F(b, c, d), x[k], ac);
    r := Add(a, Add(Add(F(b, c, d), x[k]), ac));
    r := Rotl(s, r);
    AddCommutes(r, b);
    r := Add(r, b);
  }

  method GG(a: bv32, b: bv32, c: bv32, d: bv32, x: seq<bv32>, k: nat, s: nat, ac: bv32, ghost i: nat, ghost h: State)
    returns (r: bv32)
    requires |x| == 16 && 16 <= i < 32 && Row(k, s, ac) == Listing2(i)
    requires State(a, b, c, d) == Steps(i, h, x)
    ensures State(d, r, b, c) == Steps(i + 1, h, x)
  {
    hide Add, Rotl, G, Listing1, Listing2, Listing3, Listing4;
    AddRegroups(a, G(b, c, d), x[k], ac);
    r := Add(a, Add(Add(G(b, c, d), x[k]), ac));
    r := Rotl(s, r);
    AddCommutes(r, b);
    r := Add(r, b);
  }

  method HH(a: bv32, b: bv32, c: bv32, d: bv32, x: seq<bv32>, k: nat, s: nat, ac: bv32, ghost i: nat, ghost h: State)
    returns (r: bv32)
    requires |x| == 16 && 32 <= i < 48 && Row(k, s, ac) == Listing3(i)
    requires State(a, b, c, d) == Steps(i, h, x)
    ensures State(d, r, b, c) == Steps(i + 1, h, x)
  {
    hide Add, Rotl, H, Listing1, Listing2, Listing3, Listing4;
    AddRegroups(a, H(b, c, d), x[k], ac);
    r := Add(a, Add(Add(H(b, c, d), x[k]), ac));
    r := Rotl(s, r);
    AddCommutes(r, b);
    r := Add(r, b);
  }

  method II(a: bv32, b: bv32, c: bv32, d: bv32, x: seq<bv32>, k: nat, s: nat, ac: bv32, ghost i: nat, ghost h: State)
    returns (r: bv32)
    requires |x| == 16 && 48 <= i < 64 && Row(k, s, ac) == Listing4(i)
    requires State(a, b, c, d) == Steps(i, h, x)
    ensures State(d, r, b, c) == Steps(i + 1, h, x)
  {
    hide Add, Rotl, I, Listing1, Listing2, Listing3, Listing4;
    AddRegroups(a, I(b, c, d), x[k], ac);
    r := Add(a, Add(Add(I(b, c, d), x[k]), ac));
    r := Rotl(s, r);
    AddCommutes(r, b);
    r := Add(r, b);
  }

  /** Round 1 of MD5Transform. */
  method Round1(x: seq<bv32>, a0: bv32, b0: bv32, c0: bv32, d0: bv32, ghost h: State)
    returns (a: bv32, b: bv32, c: bv32, d: bv32)
    requires |x| == 16 && State(a0, b0, c0, d0) == Steps(0, h, x)
    ensures State(a, b, c, d) == Steps(16, h, x)
  {
    hide Steps;
    a, b, c, d := a0, b0, c0, d0;
    a := FF(a, b, c, d, x, 0, 7, 0xd76aa478, 0, h);
    d := FF(d, a, b, c, x, 1, 12, 0xe8c7b756, 1, h);
    c := FF(c, d, a, b, x, 2, 17, 0x242070db, 2, h);
    b := FF(b, c, d, a, x, 3, 22, 0xc1bdceee, 3, h);
    a := FF(a, b, c, d, x, 4, 7, 0xf57c0faf, 4, h);
    d := FF(d, a, b, c, x, 5, 12, 0x4787c62a, 5, h);
    c := FF(c, d, a, b, x, 6, 17, 0xa8304613, 6, h);
    b := FF(b, c, d, a, x, 7, 22, 0xfd469501, 7, h);
    a := FF(a, b, c, d, x, 8, 7, 0x698098d8, 8, h);
    d := FF(d, a, b, c, x, 9, 12, 0x8b44f7af, 9, h);
    c := FF(c, d, a, b, x, 10, 17, 0xffff5bb1, 10, h);
    b := FF(b, c, d, a, x, 11, 22, 0x895cd7be, 11, h);
    a := FF(a, b, c, d, x, 12, 7, 0x6b901122, 12, h);
    d := FF(d, a, b, c, x, 13, 12, 0xfd987193, 13, h);
    c := FF(c, d, a, b, x, 14, 17, 0xa679438e, 14, h);
    b := FF(b, c, d, a, x, 15, 22, 0x49b40821, 15, h);
  }

  /** Round 2 of MD5Transform. */
  method Round2(x: seq<bv32>, a0: bv32, b0: bv32, c0: bv32, d0: bv32, ghost h: State)
    returns (a: bv32, b: bv32, c: bv32, d: bv32)
    requires |x| == 16 && State(a0, b0, c0, d0) == Steps(16, h, x)
    ensures State(a, b, c, d) == Steps(32, h, x)
  {
    hide Steps;
    a, b, c, d := a0, b0, c0, d0;
    a := GG(a, b, c, d, x, 1, 5, 0xf61e2562, 16, h);
    d := GG(d, a, b, c, x, 6, 9, 0xc040b340, 17, h);
    c := GG(c, d, a, b, x, 11, 14, 0x265e5a51, 18, h);
    b := GG(b, c, d, a, x, 0, 20, 0xe9b6c7aa, 19, h);
    a := GG(a, b, c, d, x, 5, 5, 0xd62f105d, 20, h);
    d := GG(d, a, b, c, x, 10, 9, 0x02441453, 21, h);
    c := GG(c, d, a, b, x, 15, 14, 0xd8a1e681, 22, h);
    b := GG(b, c, d, a, x, 4, 20, 0xe7d3fbc8, 23, h);
    a := GG(a, b, c, d, x, 9, 5, 0x21e1cde6, 24, h);
    d := GG(d, a, b, c, x, 14, 9, 0xc33707d6, 25, h);
    c := GG(c, d, a, b, x, 3, 14, 0xf4d50d87, 26, h);
    b := GG(b, c, d, a, x, 8, 20, 0x455a14ed, 27, h);
    a := GG(a, b, c, d, x, 13, 5, 0xa9e3e905, 28, h);
    d := GG(d, a, b, c, x, 2, 9, 0xfcefa3f8, 29, h);
    c := GG(c, d, a, b, x, 7, 14, 0x676f02d9, 30, h);
    b := GG(b, c, d, a, x, 12, 20, 0x8d2a4c8a, 31, h);
  }

  /** Round 3 of MD5Transform. */
  method Round3(x: seq<bv32>, a0: bv32, b0: bv32, c0: bv32, d0: bv32, ghost h: State)
    returns (a: bv32, b: bv32, c: bv32, d: bv32)
    requires |x| == 16 && State(a0, b0, c0, d0) == Steps(32, h, x)
    ensures State(a, b, c, d) == Steps(48, h, x)
  {
    hide Steps;
    a, b, c, d := a0, b0, c0, d0;
    a := HH(a, b, c, d, x, 5, 4, 0xfffa3942, 32, h);
    d := HH(d, a, b, c, x, 8, 11, 0x8771f681, 33, h);
    c := HH(c, d, a, b, x, 11, 16, 0x6d9d6122, 34, h);
    b := HH(b, c, d, a, x, 14, 23, 0xfde5380c, 35, h);
    a := HH(a, b, c, d, x, 1, 4, 0xa4beea44, 36, h);
    d := HH(d, a, b, c, x, 4, 11, 0x4bdecfa9, 37, h);
    c := HH(c, d, a, b, x, 7, 16, 0xf6bb4b60, 38, h);
    b := HH(b, c, d, a, x, 10, 23, 0xbebfbc70, 39, h);
    a := HH(a, b, c, d, x, 13, 4, 0x289b7ec6, 40, h);
    d := HH(d, a, b, c, x, 0, 11, 0xeaa127fa, 41, h);
    c := HH(c, d, a, b, x, 3, 16, 0xd4ef3085, 42, h);
    b := HH(b, c, d, a, x, 6, 23, 0x04881d05, 43, h);
    a := HH(a, b, c, d, x, 9, 4, 0xd9d4d039, 44, h);
    d := HH(d, a, b, c, x, 12, 11, 0xe6db99e5, 45, h);
    c := HH(c, d, a, b, x, 15, 16, 0x1fa27cf8, 46, h);
    b := HH(b, c, d, a, x, 2, 23, 0xc4ac5665, 47, h);
  }

  /** Round 4 of MD5Transform. */
  method Round4(x: seq<bv32>, a0: bv32, b0: bv32, c0: bv32, d0: bv32, ghost h: State)
    returns (a: bv32, b: bv32, c: bv32, d: bv32)
    requires |x| == 16 && State(a0, b0, c0, d0) == Steps(48, h, x)
    ensures State(a, b, c, d) == Steps(64, h, x)
  {
    hide Steps;
    a, b, c, d := a0, b0, c0, d0;
    a := II(a, b, c, d, x, 0, 6, 0xf4292244, 48, h);
    d := II(d, a, b, c, x, 7, 10, 0x432aff97, 49, h);
    c := II(c, d, a, b, x, 14, 15, 0xab9423a7, 50, h);
    b := II(b, c, d, a, x, 5, 21, 0xfc93a039, 51, h);
    a := II(a, b, c, d, x, 12, 6, 0x655b59c3, 52, h);
    d := II(d, a, b, c, x, 3, 10, 0x8f0ccc92, 53, h);
    c := II(c, d, a, b, x, 10, 15, 0xffeff47d, 54, h);
    b := II(b, c, d, a, x, 1, 21, 0x85845dd1, 55, h);
    a := II(a, b, c, d, x, 8, 6, 0x6fa87e4f, 56, h);
    d := II(d, a, b, c, x, 15, 10, 0xfe2ce6e0, 57, h);
    c := II(c, d, a, b, x, 6, 15, 0xa3014314, 58, h);
    b := II(b, c, d, a, x, 13, 21, 0x4e0811a1, 59, h);
    a := II(a, b, c, d, x, 4, 6, 0xf7537e82, 60, h);
    d := II(d, a, b, c, x, 11, 10, 0xbd3af235, 61, h);
    c := II(c, d, a, b, x, 2, 15, 0x2ad7d2bb, 62, h);
    b := II(b, c, d, a, x, 9, 21, 0xeb86d391, 63, h);
  }

  /** Decode: sixteen words from a block, least significant octet first. */
  method Decode(input: seq<byte>) returns (output: array<bv32>)
    requires |input| == 64
    ensures fresh(output) && output[..] == BlockWords(input)
  {
    hide Octet;
    output := new bv32[16];
    var i, j := 0, 0;
    while j < 64
      invariant 0 <= i <= 16 && j == 4 * i
      invariant forall k :: 0 <= k < i ==> output[k] == BlockWord(input, k)
    {
      output[i] := Octet(input[j], 0) | Octet(input[j + 1], 8) | Octet(input[j + 2], 16) | Octet(input[j + 3], 24);
      i, j := i + 1, j + 4;
    }
  }

  /** What Encode writes for a list of words. */
  function Encoded(words: seq<uint32>): (r: seq<byte>)
    ensures |r| == 4 * |words|
  {
    if words == [] then [] else Encoded(words[..|words| - 1]) + LE32(words[|words| - 1])
  }

  /** Encode: octets from words, least significant first. */
  method Encode(output: array<byte>, input: seq<uint32>)
    requires output.Length == 4 * |input|
    modifies output
    ensures output[..] == Encoded(input)
  {
    var i, j := 0, 0;
    while j < output.Length
      invariant 0 <= i <= |input| && j == 4 * i
      invariant output[..j] == Encoded(input[..i])
    {
      output[j] := input[i] % 0x100;
      output[j + 1] := input[i] / 0x100 % 0x100;
      output[j + 2] := input[i] / 0x1_0000 % 0x100;
      output[j + 3] := input[i] / 0x100_0000 % 0x100;
      assert input[..i + 1][..i] == input[..i];
      assert output[..j + 4] == output[..j] + LE32(input[i]);
      i, j := i + 1, j + 4;
    }
    assert input[..i] == input;
    assert output[..j] == output[..];
  }

  lemma EncodedPair(w0: uint32, w1: uint32)
    ensures Encoded([w0, w1]) == LE32(w0) + LE32(w1)
  {
    hide LE32;
    assert [w0, w1][..1] == [w0];
    assert Encoded([w0]) == Encoded([]) + LE32(w0);
  }

  lemma EncodedQuad(w0: uint32, w1: uint32, w2: uint32, w3: uint32)
    ensures Encoded([w0, w1, w2, w3]) == LE32(w0) + LE32(w1) + LE32(w2) + LE32(w3)
  {
    hide LE32;
    var q := [w0, w1, w2, w3];
    assert q[..3] == [w0, w1, w2];
    assert q[..3][..2] == [w0, w1];
    EncodedPair(w0, w1);
    assert Encoded(q[..3]) == Encoded([w0, w1]) + LE32(w2);
  }

  function StateOf(w: seq<bv32>): State
    requires |w| == 4
  {
    State(w[0], w[1], w[2], w[3])
  }

  class Context {
    const state: array<bv32>
    var count0: uint32
    var count1: uint32
    const buffer: array<byte>
    ghost var message: seq<byte>  // everything absorbed since initialisation
    ghost var whole: seq<byte>    // the part of it already transformed
    ghost var carries: nat        // how often the 64-bit counter has wrapped

    ghost predicate Shape()
      reads this
    {
      state.Length == 4 && buffer.Length == 64 && state as object != buffer
    }

    ghost predicate Counts(n: nat)
      reads this
    {
      carries * 0x1_0000_0000_0000_0000 + count1 * 0x1_0000_0000 + count0 == 8 * n
    }

    ghost predicate Valid()
      reads this, state, buffer
    {
      && Shape()
      && Counts(|message|)
      && |whole| % 64 == 0 && |whole| <= |message| < |whole| + 64
      && message == whole + buffer[..|message| - |whole|]
      && StateOf(state[..]) == Fold(whole)
    }

    /** WsockMD5Init */
    constructor ()
      ensures Valid() && message == [] && fresh(state) && fresh(buffer)
    {
      state := new bv32[4];
      buffer := new byte[64];
      count0, count1 := 0, 0;
      message, whole, carries := [], [], 0;
      new;
      state[0] := 0x67452301;
      state[1] := 0xefcdab89;
      state[2] := 0x98badcfe;
      state[3] := 0x10325476;
    }

    /** MD5Transform */
    method Transform(block: seq<byte>)
      requires Shape() && |block| == 64
      modifies state
      ensures StateOf(state[..]) == Md5Spec.Transform(old(StateOf(state[..])), block)
    {
      hide Add, Steps, Md5Spec.BlockWords;
      ghost var h := StateOf(state[..]);
      var words := Decode(block);
      var x := words[..];
      StepsZero(h, x);
      var a, b, c, d := Round1(x, state[0], state[1], state[2], state[3], h);
      a, b, c, d := Round2(x, a, b, c, d, h);
      a, b, c, d := Round3(x, a, b, c, d, h);
      a, b, c, d := Round4(x, a, b, c, d, h);
      state[0] := Add(state[0], a);
      state[1] := Add(state[1], b);
      state[2] := Add(state[2], c);
      state[3] := Add(state[3], d);
    }

    /** MD5_memcpy into the context's buffer. */
    method Buffer(index: nat, input: seq<byte>)
      requires Shape() && index + |input| <= 64
      modifies buffer
      ensures buffer[..index + |input|] == old(buffer[..index]) + input
    {
      for i := 0 to |input|
        invariant buffer[..index + i] == old(buffer[..index]) + input[..i]
      {
        buffer[index + i] := input[i];
        assert input[..i + 1] == input[..i] + [input[i]];
      }
      assert input[..|input|] == input;
    }

    /** count[0] += inputLen << 3, with the carry into count[1]. */
    method CountLow(shifted: uint32, ghost bits: nat)
      requires carries * 0x1_0000_0000_0000_0000 + count1 * 0x1_0000_0000 + count0 == bits
      modifies this`count0, this`count1, this`carries
      ensures carries * 0x1_0000_0000_0000_0000 + count1 * 0x1_0000_0000 + count0 == bits + shifted
    {
      count0 := (count0 + shifted) % 0x1_0000_0000;
      if count0 < shifted {
        CountHigh(1);
      }
    }

    /** count[1] += k. */
    method CountHigh(k: uint32)
      modifies this`count1, this`carries
      ensures carries * 0x1_0000_0000 + count1 == old(carries * 0x1_0000_0000 + count1) + k
    {
      carries := carries + (count1 + k) / 0x1_0000_0000;
      count1 := (count1 + k) % 0x1_0000_0000;
    }

    /** The counter update at the head of WsockMD5Update, and the buffer index before it. */
    method CountBits(inputLen: uint32, ghost n: nat) returns (index: nat)
      requires Counts(n)
      modifies this`count0, this`count1, this`carries
      ensures index == n % 64
      ensures Counts(n + inputLen)
    {
      index := count0 / 8 % 64;
      BufferIndex(carries * 0x1_0000_0000 + count1, count0, n);
      ShiftedLength(inputLen);
      CountLow(inputLen * 8 % 0x1_0000_0000, 8 * n);
      CountHigh(inputLen / 0x2000_0000);
    }

    /** Transforming one whole block extends the part already folded. */
    method Consume(block: seq<byte>)
      requires Shape() && |block| == 64
      requires |whole| % 64 == 0 && StateOf(state[..]) == Fold(whole)
      modifies this`whole, state
      ensures whole == old(whole) + block
      ensures |whole| % 64 == 0 && StateOf(state[..]) == Fold(whole)
    {
      hide Md5Spec.Transform, Fold;
      Transform(block);
      FoldBlock(whole, block);
      whole := whole + block;
    }

    /** The loop that transforms whole blocks straight from the input; i + 63 is a 32-bit sum. */
    method ConsumeDirect(input: seq<byte>, start: nat) returns (i: nat)
      requires Shape() && start <= |input| < 0x1_0000_0000 && Stops(start, |input|)
      requires |whole| % 64 == 0 && StateOf(state[..]) == Fold(whole)
      modifies this`whole, state
      ensures start <= i <= |input| < i + 64
      ensures whole == old(whole) + input[start..i]
      ensures |whole| % 64 == 0 && StateOf(state[..]) == Fold(whole)
    {
      hide Fold, U32, Stops;
      i := start;
      GuardEnds(start, start, |input|);
      while U32(i + 63) < |input|
        invariant start <= i <= |input| && (i - start) % 64 == 0
        invariant U32(i + 63) < |input| <==> i + 63 < |input|
        invariant whole == old(whole) + input[start..i]
        invariant |whole| % 64 == 0 && StateOf(state[..]) == Fold(whole)
        decreases |input| - i
      {
        Consume(input[i..i + 64]);
        assert input[start..i + 64] == input[start..i] + input[i..i + 64];
        assert (i + 64 - start) % 64 == 0 by {
          AddMultiple(i - start, 1);
        }
        GuardEnds(start, i + 64, |input|);
        i := i + 64;
      }
    }

    /** The branch of WsockMD5Update taken when the input completes the buffered block. */
    method FillAndConsume(index: nat, input: seq<byte>) returns (i: nat)
      requires Shape() && index < 64 && 64 - index <= |input| < 0x1_0000_0000 && Stops(64 - index, |input|)
      requires |whole| % 64 == 0 && StateOf(state[..]) == Fold(whole)
      modifies this`whole, state, buffer
      ensures i <= |input| < i + 64
      ensures whole + input[i..] == old(whole) + old(buffer[..index]) + input
      ensures |whole| % 64 == 0 && StateOf(state[..]) == Fold(whole)
    {
      hide Fold;
      var partLen := 64 - index;
      Buffer(index, input[..partLen]);
      assert buffer[..] == old(buffer[..index]) + input[..partLen];
      Consume(buffer[..]);
      i := ConsumeDirect(input, partLen);
      assert input == input[..partLen] + input[partLen..i] + input[i..];
    }

    /** WsockMD5Update */
    method Update(input: seq<byte>)
      requires Valid() && |input| < 0x1_0000_0000 && Takes(|message|, |input|)
      modifies this, state, buffer
      ensures Valid() && message == old(message) + input
    {
      hide Fold;
      ghost var before, tail := whole, buffer[..|message| - |whole|];
      var index := CountBits(|input|, |message|);
      TailLength(|message|, |whole|);
      var i := 0;
      if |input| >= 64 - index {
        TakesStops(|message|, index, |input|);
        i := FillAndConsume(index, input);
        index := 0;
      }
      Buffer(index, input[i..]);
      message := message + input;
      Reassemble(before, tail, input, whole, i, buffer[..index + |input| - i]);
    }

    /** The two WsockMD5Update calls that append the padding and the length. */
    method Close(bits: seq<byte>)
      requires Valid() && bits == BitLength(|message|)
      modifies this, state, buffer
      ensures Shape() && StateOf(state[..]) == Fold(Pad(old(message)))
    {
      hide Fold, BitLength;
      var index := count0 / 8 % 64;
      BufferIndex(carries * 0x1_0000_0000 + count1, count0, |message|);
      var padLen := if index < 56 then 56 - index else 120 - index;
      assert padLen == 1 + PadZeros(|message|);
      var padding := [0x80] + Zeros(63);
      TakesEnough(|message|, padLen);
      Update(padding[..padLen]);
      assert padding[..padLen] == [0x80] + Zeros(PadZeros(|old(message)|));
      TakesEnough(|message|, 8);
      Update(bits);
      assert message == Pad(old(message));
      WholeIsAll(message, whole);
    }

    /** WsockMD5Final: the digest goes out and the context is zeroized. */
    method Final(digest: array<byte>)
      requires Valid() && digest.Length == 16 && digest != buffer
      modifies this, state, buffer, digest
      ensures digest[..] == Digest(old(message))
      ensures count0 == 0 && count1 == 0
      ensures forall k :: 0 <= k < 4 ==> state[k] == 0
      ensures forall k :: 0 <= k < 64 ==> buffer[k] == 0
    {
      hide Digest, Fold, BitLength, LE32, Pad;
      var bits := new byte[8];
      Encode(bits, [count0, count1]);
      EncodedPair(count0, count1);
      BitLengthWords(carries, count1, count0, |message|);
      Close(bits[..]);
      var words: seq<uint32> := [state[0] as uint32, state[1] as uint32, state[2] as uint32, state[3] as uint32];
      Encode(digest, words);
      EncodedQuad(words[0], words[1], words[2], words[3]);
      DigestIs(old(message), StateOf(state[..]));
      Zeroize();
    }

    /** MD5_memset over the whole context. */
    method Zeroize()
      requires Shape()
      modifies this`count0, this`count1, state, buffer
      ensures count0 == 0 && count1 == 0
      ensures forall k :: 0 <= k < 4 ==> state[k] == 0
      ensures forall k :: 0 <= k < 64 ==> buffer[k] == 0
    {
      for k := 0 to 4
        invariant forall j :: 0 <= j < k ==> state[j] == 0
      {
        state[k] := 0;
      }
      for k := 0 to 64
        invariant forall j :: 0 <= j < 4 ==> state[j] == 0
        invariant forall j :: 0 <= j < k ==> buffer[j] == 0
      {
        buffer[k] := 0;
      }
      count0, count1 := 0, 0;
    }
  }

  /** Where the direct loop over n octets from start on ends: less than a block is left. */
  function LoopEnd(start: nat, n: nat): (i: nat)
    requires start <= n
    ensures start <= i <= n < i + 64 && (i - start) % 64 == 0
  {
    n - (n - start) % 64
  }

  /** At that place the 32-bit sum i + 63 has not wrapped. */
  predicate Stops(start: nat, n: nat)
    requires start <= n
  {
    LoopEnd(start, n) + 63 < 0x1_0000_0000
  }

  /** So on a context that has absorbed before octets an input of n octets is taken exactly. */
  predicate Takes(before: nat, n: nat) {
    n - (before + n) % 64 <= 0xFFFF_FFC0
  }

  lemma TakesStops(before: nat, index: nat, n: nat)
    requires index == before % 64 && n >= 64 - index && Takes(before, n)
    ensures Stops(64 - index, n)
  {
    assert before == 64 * (before / 64) + index;
    AddMultiple(n - (64 - index), before / 64 + 1);
    assert n - (64 - index) + 64 * (before / 64 + 1) == before + n;
  }

  /** The guard ends the loop at its last block exactly when the sum does not wrap there; otherwise it
      still holds, with less than a block left. */
  lemma GuardAtEnd(start: nat, n: uint32)
    requires start <= n && start <= 64
    ensures U32(LoopEnd(start, n) + 63) >= n <==> Stops(start, n)
  {
  }

  lemma GuardEnds(start: nat, i: nat, n: uint32)
    requires start <= i <= n && (i - start) % 64 == 0 && Stops(start, n)
    ensures U32(i + 63) == i + 63
  {
  }

  /** It is so for every input of at most 2^32 - 64 octets, and for every input that comes first. */
  lemma TakesEnough(before: nat, n: uint32)
    ensures n <= 0xFFFF_FFC0 || before % 64 == 0 ==> Takes(before, n)
  {
    if before % 64 == 0 {
      AddMultiple(n, before / 64);
    }
  }

  lemma TailLength(n: nat, whole: nat)
    requires whole % 64 == 0 && whole <= n < whole + 64
    ensures n % 64 == n - whole
  {
  }

  lemma Reassemble(before: seq<byte>, tail: seq<byte>, input: seq<byte>, whole: seq<byte>, i: nat, rest: seq<byte>)
    requires i <= |input|
    requires (whole + input[i..] == before + tail + input && rest == input[i..])
          || (whole == before && i == 0 && rest == tail + input)
    ensures before + tail + input == whole + rest
  {
    assert before + tail + input == before + (tail + input);
    assert input[0..] == input;
  }

  lemma WholeIsAll(m: seq<byte>, whole: seq<byte>)
    requires |m| % 64 == 0 && |whole| % 64 == 0 && |whole| <= |m| < |whole| + 64 && whole <= m
    ensures whole == m
  {
  }

  lemma DigestIs(m: seq<byte>, s: State)
    requires s == Fold(Pad(m))
    ensures Digest(m) == LE32(s.a as uint32) + LE32(s.b as uint32) + LE32(s.c as uint32) + LE32(s.d as uint32)
  {
    hide Fold, Pad, LE32;
  }

  /** The two counter words are the 64 low-order bits of the length. */
  lemma BitLengthWords(carries: nat, high: uint32, low: uint32, n: nat)
    requires carries * 0x1_0000_0000_0000_0000 + high * 0x1_0000_0000 + low == 8 * n
    ensures BitLength(n) == LE32(low) + LE32(high)
  {
    DivMod(carries * 0x1_0000_0000 + high, low);
    DivMod(carries, high);
  }

  lemma DivMod(q: nat, r: uint32)
    ensures (q * 0x1_0000_0000 + r) / 0x1_0000_0000 == q
    ensures (q * 0x1_0000_0000 + r) % 0x1_0000_0000 == r
  {
  }

  lemma StepsZero(h: State, x: seq<bv32>)
    requires |x| == 16
    ensures Steps(0, h, x) == h
  {
  }

  lemma BufferIndex(high: nat, low: uint32, n: nat)
    requires high * 0x1_0000_0000 + low == 8 * n
    ensures low / 8 % 64 == n % 64
  {
    var p := n - high * 0x2000_0000;
    assert low == 8 * p;
    assert n == p + 64 * (high * 0x80_0000);
    AddMultiple(p, high * 0x80_0000);
  }

  lemma AddMultiple(p: nat, k: nat)
    ensures (p + 64 * k) % 64 == p % 64
  {
  }

  /** An input length in bytes, as the two pieces that are added to the counter words. */
  lemma ShiftedLength(n: uint32)
    ensures n * 8 == n / 0x2000_0000 * 0x1_0000_0000 + n * 8 % 0x1_0000_0000
  {
  }

  /** WsockMDData: the one-shot digest. */
  method OneShot(data: seq<byte>) returns (digest: array<byte>)
    requires |data| < 0x1_0000_0000
    ensures fresh(digest) && digest[..] == Digest(data)
  {
    hide Digest;
    var c := new Context();
    TakesEnough(0, |data|);
    c.Update(data);
    assert [] + data == data;
    digest := new byte[16];
    c.Final(digest);
  }

  /** Any sequence of WsockMD5Update calls: the digest of everything they were given. */
  method DigestOfPieces(pieces: seq<seq<byte>>) returns (digest: seq<byte>)
    requires forall i :: 0 <= i < |pieces| ==>
      |pieces[i]| < 0x1_0000_0000 && Takes(|Concat(pieces[..i])|, |pieces[i]|)
    ensures digest == Digest(Concat(pieces))
  {
    hide Digest, Concat;
    ConcatEmpty<byte>();
    var c := new Context();
    for i := 0 to |pieces|
      invariant c.Valid() && fresh(c) && fresh(c.state) && fresh(c.buffer)
      invariant c.message == Concat(pieces[..i])
    {
      ConcatTake(pieces, i);
      c.Update(pieces[i]);
    }
    assert pieces[..|pieces|] == pieces;
    var out := new byte[16];
    c.Final(out);
    digest := out[..];
  }
}
