/** The streaming SHA-1 context of components/websocket/sha1.c. */
module Sha1 {
  import opened Bytes
  import opened Words
  import Sha1Spec

  const LIMIT: nat := 0x2000_0000_0000_0000  // octets: 2^64 bits

  /** What a context has been told, as its callers see it. */
  datatype Phase =
    | Absorbing(message: seq<byte>)  // SHA1Input is still open
    | Computed(message: seq<byte>)   // the digest of message has been taken
    | Corrupted                      // every further SHA1Result fails

  /** One SHA1Input call. */
  function Absorb(p: Phase, data: seq<byte>): Phase {
    if data == [] then p
    else if !p.Absorbing? then Corrupted
    else if |p.message| + |data| < LIMIT then Absorbing(p.message + data)
    else Corrupted
  }

  /** One SHA1Result call. */
  function Finish(p: Phase): Phase {
    if p.Absorbing? && |p.message| < LIMIT then Computed(p.message) else p
  }

  function HashOf(w: seq<bv32>): Sha1Spec.Hash
    requires |w| == 5
  {
    Sha1Spec.Hash(w[0], w[1], w[2], w[3], w[4])
  }

  class Context {
    const digest: array<bv32>
    var lengthLow: uint32
    var lengthHigh: uint32
    const block: array<byte>
    var index: nat
    var computed: bool
    var corrupted: bool
    ghost var message: seq<byte>  // everything absorbed since the last reset
    ghost var whole: seq<byte>    // the part of it already compressed

    ghost predicate Shape()
      reads this
    {
      digest.Length == 5 && block.Length == 64 && digest as object != block
    }

    /** The bit counter, the buffered tail and the chaining value all describe the same message. */
    ghost predicate Tracks()
      reads this, digest, block
      requires Shape()
    {
      && |message| < LIMIT
      && lengthHigh * 0x1_0000_0000 + lengthLow == 8 * |message|
      && index < 64 && |whole| % 64 == 0
      && message == whole + block[..index]
      && HashOf(digest[..]) == Sha1Spec.Fold(whole)
    }

    ghost predicate Valid()
      reads this, digest, block
    {
      && Shape()
      && (!corrupted && !computed ==> Tracks())
      && (!corrupted && computed ==> |message| < LIMIT && HashOf(digest[..]) == Sha1Spec.Digest(message))
    }

    ghost function Phase(): Phase
      reads this
    {
      if corrupted then Corrupted else if computed then Computed(message) else Absorbing(message)
    }

    constructor ()
      ensures Valid() && Phase() == Absorbing([]) && fresh(digest) && fresh(block)
    {
      digest := new bv32[5];
      block := new byte[64];
      lengthLow, lengthHigh, index := 0, 0, 0;
      computed, corrupted := false, false;
      message, whole := [], [];
      new;
      Reset();
    }

    /** SHA1Reset */
    method Reset()
      requires Shape()
      modifies this, digest
      ensures Valid() && Phase() == Absorbing([])
    {
      hide Sha1Spec.Fold, Sha1Spec.Digest;
      lengthLow, lengthHigh, index := 0, 0, 0;
      digest[0] := 0x67452301;
      digest[1] := 0xEFCDAB89;
      digest[2] := 0x98BADCFE;
      digest[3] := 0x10325476;
      digest[4] := 0xC3D2E1F0;
      computed, corrupted := false, false;
      message, whole := [], [];
      EmptyFold(digest[..]);
    }

    /** The words of the block itself, W[0] to W[15]. */
    method BlockWords(w: array<bv32>)
      requires Shape() && w.Length == 80
      modifies w
      ensures forall k :: 0 <= k < 16 ==> w[k] == Sha1Spec.BlockWord(block[..], k)
    {
      hide Octet;
      for t := 0 to 16
        invariant forall k :: 0 <= k < t ==> w[k] == Sha1Spec.BlockWord(block[..], k)
      {
        var word := Octet(block[t * 4], 24);
        word := word | Octet(block[t * 4 + 1], 16);
        word := word | Octet(block[t * 4 + 2], 8);
        word := word | Octet(block[t * 4 + 3], 0);
        w[t] := word;
      }
    }

    /** The word sequence at the head of SHA1ProcessMessageBlock. */
    method Schedule() returns (w: array<bv32>)
      requires Shape()
      ensures fresh(w) && w.Length == 80
      ensures forall k :: 0 <= k < 80 ==> w[k] == Sha1Spec.W(block[..], k)
    {
      hide Rotl, Xor4, Sha1Spec.W, Sha1Spec.BlockWord;
      ghost var b := block[..];
      w := new bv32[80];
      BlockWords(w);
      forall k | 0 <= k < 16 ensures w[k] == Sha1Spec.W(b, k) {
        Sha1Spec.ScheduleStep(b, k);
      }
      for t := 16 to 80
        invariant forall k :: 0 <= k < t ==> w[k] == Sha1Spec.W(b, k)
      {
        Sha1Spec.ScheduleStep(b, t);
        w[t] := Rotl(1, Xor4(w[t - 3], w[t - 8], w[t - 14], w[t - 16]));
      }
    }

    /** The eighty rounds of SHA1ProcessMessageBlock. */
    method EightyRounds(w: array<bv32>) returns (A: bv32, B: bv32, C: bv32, D: bv32, E: bv32)
      requires Shape() && w.Length == 80
      requires forall k :: 0 <= k < 80 ==> w[k] == Sha1Spec.W(block[..], k)
      ensures Sha1Spec.Hash(A, B, C, D, E) == Sha1Spec.Rounds(80, HashOf(digest[..]), block[..])
    {
      hide Add, Rotl, Sha1Spec.W;
      ghost var b, h := block[..], HashOf(digest[..]);
      A, B, C, D, E := digest[0], digest[1], digest[2], digest[3], digest[4];
      for t := 0 to 20
        invariant Sha1Spec.Hash(A, B, C, D, E) == Sha1Spec.Rounds(t, h, b)
      {
        var temp := Add(Add(Add(Add(Rotl(5, A), (B & C) | (!B & D)), E), w[t]), 0x5A827999);
        E, D, C, B, A := D, C, Rotl(30, B), A, temp;
      }
      for t := 20 to 40
        invariant Sha1Spec.Hash(A, B, C, D, E) == Sha1Spec.Rounds(t, h, b)
      {
        var temp := Add(Add(Add(Add(Rotl(5, A), B ^ C ^ D), E), w[t]), 0x6ED9EBA1);
        E, D, C, B, A := D, C, Rotl(30, B), A, temp;
      }
      for t := 40 to 60
        invariant Sha1Spec.Hash(A, B, C, D, E) == Sha1Spec.Rounds(t, h, b)
      {
        var temp := Add(Add(Add(Add(Rotl(5, A), (B & C) | (B & D) | (C & D)), E), w[t]), 0x8F1BBCDC);
        E, D, C, B, A := D, C, Rotl(30, B), A, temp;
      }
      for t := 60 to 80
        invariant Sha1Spec.Hash(A, B, C, D, E) == Sha1Spec.Rounds(t, h, b)
      {
        var temp := Add(Add(Add(Add(Rotl(5, A), B ^ C ^ D), E), w[t]), 0xCA62C1D6);
        E, D, C, B, A := D, C, Rotl(30, B), A, temp;
      }
    }

    /** SHA1ProcessMessageBlock */
    method ProcessMessageBlock()
      requires Shape()
      modifies this`index, digest
      ensures index == 0
      ensures HashOf(digest[..]) == Sha1Spec.Compress(old(HashOf(digest[..])), block[..])
    {
      hide Add, Sha1Spec.W, Sha1Spec.Rounds;
      var w := Schedule();
      var A, B, C, D, E := EightyRounds(w);
      digest[0] := Add(digest[0], A);
      digest[1] := Add(digest[1], B);
      digest[2] := Add(digest[2], C);
      digest[3] := Add(digest[3], D);
      digest[4] := Add(digest[4], E);
      index := 0;
    }

    /** Eight more bits in the two-word counter. */
    method CountOctet(ghost n: nat)
      requires n < LIMIT && !corrupted
      requires lengthHigh * 0x1_0000_0000 + lengthLow == 8 * n
      modifies this`lengthLow, this`lengthHigh, this`corrupted
      ensures corrupted <==> n + 1 == LIMIT
      ensures !corrupted ==> lengthHigh * 0x1_0000_0000 + lengthLow == 8 * (n + 1)
    {
      lengthLow := (lengthLow + 8) % 0x1_0000_0000;
      if lengthLow == 0 {
        lengthHigh := (lengthHigh + 1) % 0x1_0000_0000;
        if lengthHigh == 0 {
          corrupted := true;
        }
      }
    }

    /** One turn of the SHA1Input loop. */
    method InputOctet(c: byte)
      requires Valid() && !computed && !corrupted
      modifies this, digest, block
      ensures Valid() && !computed
      ensures corrupted <==> |old(message)| + 1 == LIMIT
      ensures !corrupted ==> message == old(message) + [c]
    {
      hide Sha1Spec.Fold, Sha1Spec.Compress, Sha1Spec.Digest;
      ghost var filled := block[..index] + [c];
      block[index] := c;
      index := index + 1;
      assert block[..index] == filled;
      CountOctet(|message|);
      message := message + [c];
      if index == 64 {
        FlushBlock();
      }
    }

    /** SHA1ProcessMessageBlock on a full buffer. */
    method FlushBlock()
      requires Shape() && index == 64 && |whole| % 64 == 0
      requires HashOf(digest[..]) == Sha1Spec.Fold(whole)
      modifies this`index, this`whole, digest
      ensures index == 0 && whole == old(whole) + block[..] && |whole| % 64 == 0
      ensures HashOf(digest[..]) == Sha1Spec.Fold(whole)
    {
      hide Sha1Spec.Compress;
      ProcessMessageBlock();
      Sha1Spec.FoldBlock(whole, block[..]);
      whole := whole + block[..];
    }

    /** SHA1Input */
    method Input(data: seq<byte>)
      requires Valid() && |data| < 0x1_0000_0000
      modifies this, digest, block
      ensures Valid() && Phase() == Absorb(old(Phase()), data)
      ensures old(computed) ==> digest[..] == old(digest[..])
    {
      hide Sha1Spec.Fold, Sha1Spec.Digest, HashOf;
      if |data| == 0 {
        return;
      }
      if computed || corrupted {
        corrupted := true;
        return;
      }
      var i := 0;
      while i < |data| && !corrupted
        invariant Valid() && !computed && 0 <= i <= |data|
        invariant !corrupted ==> message == old(message) + data[..i]
        invariant corrupted ==> |old(message)| + |data| >= LIMIT
      {
        InputOctet(data[i]);
        i := i + 1;
      }
    }

    /** SHA1PadMessage */
    method PadMessage()
      requires Valid() && !computed && !corrupted
      modifies this`index, digest, block
      ensures HashOf(digest[..]) == Sha1Spec.Digest(message)
    {
      hide Sha1Spec.Fold, Sha1Spec.Compress, Sha1Spec.Digest, Sha1Spec.BitLength, BE32;
      ghost var tail := block[..index];
      ghost var first := tail + [0x80] + Zeros(63 - |tail|);
      if index > 55 {
        block[index] := 0x80;
        index := index + 1;
        ZeroFill(64);
        assert block[..] == first;
        ProcessMessageBlock();
        ZeroFill(56);
      } else {
        block[index] := 0x80;
        index := index + 1;
        ZeroFill(56);
      }
      StoreLength();
      BitLengthWords(lengthHigh, lengthLow, |message|);
      ProcessMessageBlock();
      if |tail| > 55 {
        Sha1Spec.DigestTwoBlocks(whole, tail, first, block[..]);
      } else {
        Sha1Spec.DigestOneBlock(whole, tail, block[..]);
      }
    }

    /** The zero-filling loops of SHA1PadMessage. */
    method ZeroFill(limit: nat)
      requires Shape() && index <= limit <= 64
      modifies this`index, block
      ensures index == limit
      ensures block[..limit] == old(block[..index]) + Zeros(limit - old(index))
    {
      while index < limit
        invariant old(index) <= index <= limit
        invariant block[..index] == old(block[..index]) + Zeros(index - old(index))
      {
        block[index] := 0;
        index := index + 1;
      }
    }

    /** The last eight octets of the final block. */
    method StoreLength()
      requires Shape()
      modifies block
      ensures block[..] == old(block[..56]) + BE32(lengthHigh) + BE32(lengthLow)
    {
      block[56] := lengthHigh / 0x100_0000 % 0x100;
      block[57] := lengthHigh / 0x1_0000 % 0x100;
      block[58] := lengthHigh / 0x100 % 0x100;
      block[59] := lengthHigh % 0x100;
      block[60] := lengthLow / 0x100_0000 % 0x100;
      block[61] := lengthLow / 0x1_0000 % 0x100;
      block[62] := lengthLow / 0x100 % 0x100;
      block[63] := lengthLow % 0x100;
    }

    /** SHA1Result */
    method Result() returns (ok: bool)
      requires Valid()
      modifies this, digest, block
      ensures Valid() && Phase() == Finish(old(Phase()))
      ensures ok <==> Phase().Computed?
      ensures ok ==> HashOf(digest[..]) == Sha1Spec.Digest(Phase().message)
      ensures old(computed || corrupted) ==> digest[..] == old(digest[..])
    {
      if corrupted {
        return false;
      }
      if !computed {
        PadMessage();
        computed := true;
      }
      return true;
    }
  }

  lemma EmptyFold(w: seq<bv32>)
    requires |w| == 5 && w == [0x67452301, 0xEFCDAB89, 0x98BADCFE, 0x10325476, 0xC3D2E1F0]
    ensures HashOf(w) == Sha1Spec.Fold([])
  {
    hide Sha1Spec.Compress;
  }

  /** The two counter words are the standard's 64-bit length. */
  lemma BitLengthWords(high: uint32, low: uint32, n: nat)
    requires n < LIMIT && high * 0x1_0000_0000 + low == 8 * n
    ensures Sha1Spec.BitLength(n) == BE32(high) + BE32(low)
  {
    assert n / 0x2000_0000 == high;
    assert 8 * n % 0x1_0000_0000 == low;
  }
}
