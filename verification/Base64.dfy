/** The table-driven encoder and accumulator-loop decoder of components/websocket/include/c_base64.h. */
module Base64 {
  import opened Bytes
  import opened Base64Spec

  /** The 65-octet table both routines declare: the symbols and the string terminator. */
  const TABLE: seq<byte> := seq(64, k requires 0 <= k < 64 => Symbol(k)) + [0]

  /** The table indices of base64_encode: src[i] >> 2 and its neighbours, masked. */
  function Indices(a: byte, b: byte, c: byte): (k: seq<nat>)
    ensures k == Groups(a, b, c)
  {
    ShiftMask(a);
    ShiftMask(b);
    ShiftMask(c);
    SmallMod(a / 4, 64);
    SmallMod(b / 16, 16);
    SmallMod(c / 64, 4);
    var x: int, y: int, z: int := a, b, c;
    [x / 4 % 64, x * 16 % 64 + y / 16 % 16, y * 4 % 64 + z / 64 % 4, z % 64]
  }

  lemma ShiftMask(x: int)
    ensures x * 16 % 64 == x % 4 * 16
    ensures x * 4 % 64 == x % 16 * 4
  {
    Remainder(x / 4, x % 4 * 16);
    Remainder(x / 16, x % 16 * 4);
  }

  lemma Remainder(q: int, r: int)
    requires 0 <= r < 64
    ensures (q * 64 + r) % 64 == r
  {
  }

  lemma SmallMod(x: nat, m: nat)
    requires x < m
    ensures x % m == x
  {
  }

  function Padding(n: nat): (r: seq<byte>)
    requires 2 <= n <= 4
    ensures |r| == 4 - n
  {
    if n == 4 then [] else if n == 3 then [PAD] else [PAD, PAD]
  }

  /** The first n symbols of a group, then '=' up to four. */
  method PutGroup(k: seq<nat>, n: nat, dst: array<byte>, j: nat)
    requires n <= |k| == 4 && forall i :: 0 <= i < 4 ==> k[i] < 64
    requires 2 <= n && j + 4 <= dst.Length
    modifies dst
    ensures dst[..j + 4] == old(dst[..j]) + (Symbols(k[..n]) + Padding(n))
    ensures dst[j + 4..] == old(dst[j + 4..])
  {
    hide Symbol;
    ghost var before := dst[..j];
    GroupOctets(k, n);
    dst[j] := TABLE[k[0]];
    dst[j + 1] := TABLE[k[1]];
    dst[j + 2] := if n < 3 then PAD else TABLE[k[2]];
    dst[j + 3] := if n < 4 then PAD else TABLE[k[3]];
    assert dst[..j + 4] == before + [dst[j], dst[j + 1], dst[j + 2], dst[j + 3]];
  }

  lemma GroupOctets(k: seq<nat>, n: nat)
    requires |k| == 4 && 2 <= n <= 4 && forall i :: 0 <= i < 4 ==> k[i] < 64
    ensures Symbols(k[..n]) + Padding(n)
         == [TABLE[k[0]], TABLE[k[1]], if n < 3 then PAD else TABLE[k[2]], if n < 4 then PAD else TABLE[k[3]]]
  {
    hide Symbol;
    assert forall i :: 0 <= i < n ==> Symbols(k[..n])[i] == Symbol(k[..n][i]) == TABLE[k[i]];
    if n == 2 {
      assert Symbols(k[..n]) == [TABLE[k[0]], TABLE[k[1]]];
    } else if n == 3 {
      assert Symbols(k[..n]) == [TABLE[k[0]], TABLE[k[1]], TABLE[k[2]]];
    } else {
      assert Symbols(k[..n]) == [TABLE[k[0]], TABLE[k[1]], TABLE[k[2]], TABLE[k[3]]];
    }
  }

  /** base64_encode */
  method EncodeInto(src: seq<byte>, dst: array<byte>) returns (j: nat)
    requires dst.Length > (|src| + 2) / 3 * 4
    modifies dst
    ensures j == |Encode(src)| == (|src| + 2) / 3 * 4
    ensures dst[..j] == Encode(src) && dst[j] == 0
    ensures dst[j + 1..] == old(dst[j + 1..])
  {
    hide Symbols, Groups, Padding, Encode;
    ghost var total := |Encode(src)|;
    EncodeLength(src);
    var i := 0;
    j := 0;
    assert src[0..] == src;
    while i < |src| - |src| % 3
      invariant 0 <= i <= |src| - |src| % 3 && i % 3 == 0
      invariant j <= total < dst.Length
      invariant j + |Encode(src[i..])| == total
      invariant dst[..j] + Encode(src[i..]) == Encode(src)
      invariant dst[total + 1..] == old(dst[total + 1..])
    {
      EncodeStep(src, i);
      assert |src| - i >= 3;
      PutGroup(Indices(src[i], src[i + 1], src[i + 2]), 4, dst, j);
      assert dst[total + 1..] == dst[j + 4..][total + 1 - (j + 4)..];
      i, j := i + 3, j + 4;
    }
    ghost var rest := dst[total..];
    j := PutTail(src, i, dst, j);
    assert j == total && dst[..j] == Encode(src);
    assert dst[j + 1..] == rest[1..] == old(dst[j + 1..]);
    dst[j] := 0;
  }

  /** The one or two octets left over, as a padded group. */
  method PutTail(src: seq<byte>, i: nat, dst: array<byte>, j0: nat) returns (j: nat)
    requires i == |src| - |src| % 3 && j0 + |Encode(src[i..])| <= dst.Length
    modifies dst
    ensures j == j0 + |Encode(src[i..])|
    ensures dst[..j] == old(dst[..j0]) + Encode(src[i..])
    ensures dst[j..] == old(dst[j..])
  {
    hide Symbols, Groups, Padding, Encode;
    EncodeTail(src, i);
    j := j0;
    if |src| % 3 == 1 {
      PutGroup(Indices(src[i], 0, 0), 2, dst, j);
      j := j + 4;
    } else if |src| % 3 == 2 {
      PutGroup(Indices(src[i], src[i + 1], 0), 3, dst, j);
      j := j + 4;
    }
  }

  lemma EncodeTail(s: seq<byte>, i: nat)
    requires i == |s| - |s| % 3
    ensures |s| % 3 == 0 ==> Encode(s[i..]) == []
    ensures |s| % 3 == 1 ==> Encode(s[i..]) == Symbols(Groups(s[i], 0, 0)[..2]) + Padding(2)
    ensures |s| % 3 == 2 ==> Encode(s[i..]) == Symbols(Groups(s[i], s[i + 1], 0)[..3]) + Padding(3)
  {
    hide Symbols, Groups;
  }

  lemma {:induction false} EncodeLength(s: seq<byte>)
    ensures |Encode(s)| == (|s| + 2) / 3 * 4
  {
    if |s| >= 3 {
      EncodeLength(s[3..]);
    }
  }

  lemma EncodeStep(s: seq<byte>, i: nat)
    requires i + 3 <= |s|
    ensures Encode(s[i..]) == Symbols(Groups(s[i], s[i + 1], s[i + 2])[..4]) + Padding(4) + Encode(s[i + 3..])
    ensures |Encode(s[i..])| == 4 + |Encode(s[i + 3..])|
  {
    assert s[i..][3..] == s[i + 3..];
    assert Groups(s[i], s[i + 1], s[i + 2])[..4] == Groups(s[i], s[i + 1], s[i + 2]);
  }

  /** The two static tables of _base64Decode. They start out zero and keep what earlier calls filled in. */
  class Tables {
    const inalphabet: array<bool>
    const decoder: array<byte>

    ghost predicate Valid()
      reads this, inalphabet
    {
      && inalphabet.Length == 256 && decoder.Length == 256 && inalphabet as object != decoder
      && forall c: byte :: inalphabet[c] ==> InAlphabet(c)
    }

    ghost predicate Filled()
      reads this, inalphabet, decoder
    {
      && Valid()
      && (forall c: byte :: inalphabet[c] <==> InAlphabet(c))
      && (forall c: byte :: InAlphabet(c) ==> decoder[c] == Value(c))
    }

    constructor ()
      ensures Valid() && fresh(inalphabet) && fresh(decoder)
    {
      inalphabet := new bool[256](_ => false);
      decoder := new byte[256](_ => 0);
    }

    /** The table-filling loop, on whatever earlier calls have left. */
    method Fill()
      requires Valid()
      modifies inalphabet, decoder
      ensures Filled()
    {
      var i := 64;
      while i >= 0
        invariant -1 <= i <= 64 && Valid()
        invariant forall c: byte :: InAlphabet(c) && Value(c) > i ==> inalphabet[c] && decoder[c] == Value(c)
      {
        TableValue(i);
        inalphabet[TABLE[i]] := true;
        decoder[TABLE[i]] := i;
        i := i - 1;
      }
    }
  }

  lemma TableValue(i: nat)
    requires i <= 64
    ensures InAlphabet(TABLE[i]) && Value(TABLE[i]) == i
    ensures forall c: byte :: InAlphabet(c) && Value(c) == i ==> c == TABLE[i]
  {
    if i < 64 {
      SymbolValue(i);
    }
  }

  /** The values of the group that is not complete yet. */
  function Rest(v: seq<nat>): (r: seq<nat>)
    ensures |r| == |v| % 4
  {
    v[|v| - |v| % 4..]
  }

  /** What the decoding loop has done after reading some prefix of the input. */
  ghost predicate Progress(seen: seq<byte>, bits: nat, charCount: nat, written: seq<byte>) {
    var v := Values(seen);
    && PAD !in seen
    && charCount == |v| % 4
    && written == Octets(v, false)
    && bits == Pending(Rest(v))
  }

  /** The accumulator while a group is incomplete. */
  function Pending(v: seq<nat>): nat {
    if |v| == 0 then 0
    else if |v| == 1 then v[0] * 64
    else if |v| == 2 then (v[0] * 64 + v[1]) * 64
    else ((v[0] * 64 + v[1]) * 64 + v[2]) * 64
  }

  lemma ValuesSnoc(seen: seq<byte>, c: byte)
    requires PAD !in seen && c != PAD
    ensures Values(seen + [c]) == Values(seen) + if InAlphabet(c) then [Value(c)] else []
  {
    hide InAlphabet, Value;
    ValuesPrefix(seen, [c]);
    assert [c][1..] == [];
  }

  lemma {:induction false} OctetsSnoc(v: seq<nat>, d: nat)
    ensures |v| % 4 == 3 ==>
      (Octets(v + [d], false) == Octets(v, false) + Triple(Bits(v[|v| - 3], v[|v| - 2], v[|v| - 1], d)))
    ensures |v| % 4 != 3 ==> Octets(v + [d], false) == Octets(v, false)
  {
    hide Triple, Bits;
    var w := v + [d];
    if |v| >= 4 {
      OctetsSnoc(v[4..], d);
      assert w[4..] == v[4..] + [d];
      assert Octets(w, false) == Triple(Bits(v[0], v[1], v[2], v[3])) + Octets(w[4..], false);
    } else if |v| == 3 {
      assert w[4..] == [];
    }
  }

  /** An alphabet member moves the accumulator on, or completes a group. */
  lemma StepMember(seen: seq<byte>, c: byte, bits: nat, charCount: nat, written: seq<byte>)
    requires Progress(seen, bits, charCount, written) && c != PAD && InAlphabet(c)
    ensures charCount < 3 ==> Progress(seen + [c], (bits + Value(c)) * 64, charCount + 1, written)
    ensures charCount == 3 ==> Progress(seen + [c], 0, 0, written + Triple(bits + Value(c)))
    ensures charCount < 4
  {
    hide InAlphabet, Value, Octets, Triple;
    var v := Values(seen);
    ValuesSnoc(seen, c);
    OctetsSnoc(v, Value(c));
    SnocRest(v, Value(c));
    if charCount == 3 {
      var r := v[|v| - 3..];
      assert bits + Value(c) == Bits(r[0], r[1], r[2], Value(c));
      assert Values(seen + [c])[|v| + 1..] == [];
    }
  }

  lemma SnocRest(v: seq<nat>, d: nat)
    ensures |v| % 4 == 3 ==> |v + [d]| % 4 == 0
    ensures |v| % 4 < 3 ==> |v + [d]| % 4 == |v| % 4 + 1
    ensures |v| % 4 < 3 ==> Rest(v + [d]) == Rest(v) + [d]
  {
  }

  lemma StepNoise(seen: seq<byte>, c: byte, bits: nat, charCount: nat, written: seq<byte>)
    requires Progress(seen, bits, charCount, written) && Noise(c)
    ensures Progress(seen + [c], bits, charCount, written)
  {
    hide Octets;
    ValuesSnoc(seen, c);
    assert Values(seen) + [] == Values(seen);
  }

  /** What the '=' branch of the decoder writes for the incomplete group. */
  function Closing(v: seq<nat>): (r: seq<byte>)
    requires |v| < 4
  {
    var bits := Pending(v);
    if |v| == 2 then [bits / 0x400 % 0x100]
    else if |v| == 3 then [bits / 0x1_0000 % 0x100, bits / 0x100 % 0x100]
    else []
  }

  lemma {:induction false} OctetsClose(v: seq<nat>)
    ensures Octets(v, true) == Octets(v, false) + Closing(Rest(v))
  {
    hide Triple, Bits, Closing;
    if |v| >= 4 {
      OctetsClose(v[4..]);
      assert Rest(v[4..]) == Rest(v);
    } else {
      assert Rest(v) == v;
      CloseShort(v);
    }
  }

  lemma CloseShort(v: seq<nat>)
    requires |v| < 4
    ensures Closing(v) == Octets(v, true)
  {
    hide Bits;
    if |v| == 2 {
      PendingTwo(v);
    } else if |v| == 3 {
      PendingThree(v);
    }
  }

  lemma PendingTwo(v: seq<nat>)
    requires |v| == 2
    ensures Pending(v) / 0x400 == Bits(v[0], v[1], 0, 0) / 0x1_0000
  {
    var w := v[0] * 64 + v[1];
    assert Pending(v) == 64 * w && Bits(v[0], v[1], 0, 0) == 0x1000 * w;
  }

  lemma PendingThree(v: seq<nat>)
    requires |v| == 3
    ensures Pending(v) == Bits(v[0], v[1], v[2], 0)
  {
  }

  /** Everything up to the first '=' decides the values. */
  lemma ValuesAtPad(text: seq<byte>, i: nat)
    requires i < |text| && text[i] == PAD && PAD !in text[..i]
    ensures Values(text) == Values(text[..i])
  {
    assert text == text[..i] + text[i..];
    ValuesPrefix(text[..i], text[i..]);
    ValuesStopAtPad(text[i..]);
  }

  lemma WrittenFits(seen: seq<byte>, bits: nat, charCount: nat, written: seq<byte>)
    requires Progress(seen, bits, charCount, written)
    ensures 4 * |written| + 3 * charCount <= 3 * |seen|
  {
    OctetsLength(Values(seen), false);
  }

  /** _base64Decode */
  method DecodeInto(tables: Tables, input: seq<byte>, output: array<byte>) returns (errors: int, outputLen: nat)
    requires tables.Valid() && output != tables.decoder && 4 * output.Length >= 3 * |input|
    modifies tables.inalphabet, tables.decoder, output
    ensures tables.Valid()
    ensures outputLen <= output.Length && output[..outputLen] == Decode(input)
    ensures output[outputLen..] == old(output[outputLen..])
    ensures errors == Errors(input)
  {
    hide InAlphabet, Value, Octets, Triple, Values, Closing, Progress, Pending, Decode;
    tables.Fill();
    errors := 0;
    var c: int := *;
    var bits: nat, charCount: nat := 0, 0;
    var inputIdx: nat, outputIdx: nat := 0, 0;
    ProgressStart();
    while inputIdx < |input|
      invariant 0 <= inputIdx <= |input| && outputIdx <= output.Length
      invariant Progress(input[..inputIdx], bits, charCount, output[..outputIdx])
      invariant inputIdx > 0 ==> c != PAD
      invariant output[outputIdx..] == old(output[outputIdx..])
      invariant tables.Filled()
    {
      c := input[inputIdx];
      if c == PAD {
        break;
      }
      assert input[..inputIdx + 1] == input[..inputIdx] + [c];
      if c > 255 || !tables.inalphabet[c] {
        StepNoise(input[..inputIdx], c, bits, charCount, output[..outputIdx]);
      } else {
        bits, charCount, outputIdx :=
          Member(c, tables.decoder[c], bits, charCount, output, outputIdx, input[..inputIdx]);
      }
      inputIdx := inputIdx + 1;
    }
    LoopExit(input, inputIdx, bits, charCount, output[..outputIdx]);
    if c == PAD {
      ghost var v := Values(input);
      outputIdx, errors := Close(output, outputIdx, bits, charCount, Rest(v));
    } else if inputIdx < |input| {
      if charCount != 0 {
        errors := errors + 1;
      }
    }
    outputLen := outputIdx;
  }

  /** What stopping the loop means: at a '=', or at the end of the input. */
  lemma LoopExit(input: seq<byte>, i: nat, bits: nat, charCount: nat, written: seq<byte>)
    requires i <= |input| && (i < |input| ==> input[i] == PAD)
    requires Progress(input[..i], bits, charCount, written)
    ensures PAD in input <==> i < |input|
    ensures var v := Values(input);
      && charCount == |v| % 4
      && bits == Pending(Rest(v))
      && Decode(input) == written + (if i < |input| then Closing(Rest(v)) else [])
      && 4 * |written| + 3 * charCount <= 3 * i
      && (i == |input| == 0 ==> Closing(Rest(v)) == [])
  {
    hide Octets, Pending, Values, Rest, Closing, WithoutNoise;
    WrittenFits(input[..i], bits, charCount, written);
    if i < |input| {
      ValuesAtPad(input, i);
      OctetsClose(Values(input));
    } else {
      assert input[..i] == input;
      if i == 0 {
        EmptyClosing(input);
      }
    }
  }

  lemma EmptyClosing(input: seq<byte>)
    requires input == []
    ensures Closing(Rest(Values(input))) == []
  {
    hide Pending;
    assert |Values(input)| == 0;
  }

  /** The loop body for an alphabet member. */
  method Member(c: byte, value: byte, bits0: nat, charCount0: nat, output: array<byte>, outputIdx: nat,
                ghost seen: seq<byte>)
    returns (bits: nat, charCount: nat, next: nat)
    requires c != PAD && InAlphabet(c) && value == Value(c)
    requires outputIdx <= output.Length && 4 * output.Length >= 3 * (|seen| + 1)
    requires Progress(seen, bits0, charCount0, output[..outputIdx])
    modifies output
    ensures outputIdx <= next <= output.Length
    ensures Progress(seen + [c], bits, charCount, output[..next])
    ensures output[next..] == old(output[next..])
  {
    hide InAlphabet, Value, Octets, Triple, Values;
    StepMember(seen, c, bits0, charCount0, output[..outputIdx]);
    WrittenFits(seen, bits0, charCount0, output[..outputIdx]);
    next := outputIdx;
    bits := bits0 + value;
    charCount := charCount0 + 1;
    if charCount == 4 {
      next := PutTriple(output, next, bits);
      bits, charCount := 0, 0;
    } else {
      bits := bits * 64;
    }
  }

  lemma ProgressStart()
    ensures Progress([], 0, 0, [])
  {
  }

  method PutTriple(output: array<byte>, outputIdx: nat, bits: nat) returns (next: nat)
    requires outputIdx + 3 <= output.Length
    modifies output
    ensures next == outputIdx + 3
    ensures output[..next] == old(output[..outputIdx]) + Triple(bits)
    ensures output[next..] == old(output[next..])
  {
    output[outputIdx] := bits / 0x1_0000 % 0x100;
    output[outputIdx + 1] := bits / 0x100 % 0x100;
    output[outputIdx + 2] := bits % 0x100;
    next := outputIdx + 3;
  }

  /** The switch on char_count after '='. */
  method Close(output: array<byte>, outputIdx: nat, bits: nat, charCount: nat, ghost v: seq<nat>)
    returns (next: nat, errors: int)
    requires charCount == |v| < 4 && bits == Pending(v)
    requires charCount >= 2 ==> outputIdx + charCount - 1 <= output.Length
    requires outputIdx <= output.Length
    modifies output
    ensures outputIdx <= next <= output.Length && output[..next] == old(output[..outputIdx]) + Closing(v)
    ensures output[next..] == old(output[next..])
    ensures errors == if charCount == 1 then 1 else 0
  {
    next, errors := outputIdx, 0;
    if charCount == 1 {
      errors := 1;
    } else if charCount == 2 {
      output[next] := bits / 0x400 % 0x100;
      next := next + 1;
    } else if charCount == 3 {
      output[next] := bits / 0x1_0000 % 0x100;
      output[next + 1] := bits / 0x100 % 0x100;
      next := next + 2;
    }
  }

  /** base64Decode, with the integer bound for the float-sized allocation: the result is null
      exactly when the decoder reports an error. */
  method DecodeNew(tables: Tables, input: seq<byte>) returns (out: array?<byte>, outLength: nat)
    requires tables.Valid()
    modifies tables.inalphabet, tables.decoder
    ensures tables.Valid()
    ensures out == null <==> Errors(input) > 0
    ensures out == null ==> outLength == 0
    ensures out != null ==> fresh(out) && outLength < out.Length && out[..outLength] == Decode(input)
  {
    var len := |input| * 3 / 4 + 1;
    var buffer := new byte[len](_ => 0);
    var errors, n := DecodeInto(tables, input, buffer);
    OutputBound(input);
    if errors > 0 {
      return null, 0;
    }
    return buffer, n;
  }
}
