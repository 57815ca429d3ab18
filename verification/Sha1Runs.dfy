/** Whole runs of a SHA-1 context: any interleaving of SHA1Input and SHA1Result calls. */
module Sha1Runs {
  import opened Bytes
  import opened Sha1
  import Sha1Spec

  datatype Call = Input(data: seq<byte>) | Result

  function Apply(p: Phase, call: Call): Phase {
    match call
    case Input(data) => Absorb(p, data)
    case Result => Finish(p)
  }

  function Run(p: Phase, calls: seq<Call>): Phase
    decreases |calls|
  {
    if calls == [] then p else Run(Apply(p, calls[0]), calls[1..])
  }

  function Inputs(pieces: seq<seq<byte>>): (r: seq<Call>)
    decreases |pieces|
    ensures |r| == |pieces|
  {
    if pieces == [] then [] else [Input(pieces[0])] + Inputs(pieces[1..])
  }

  /** However a message is cut into SHA1Input calls, the context ends up with the whole of it,
      unless it reaches 2^61 octets. */
  lemma {:induction false} SplitIndependence(m: seq<byte>, pieces: seq<seq<byte>>)
    requires |m| < LIMIT
    ensures Run(Absorbing(m), Inputs(pieces))
         == if |m + Concat(pieces)| < LIMIT then Absorbing(m + Concat(pieces)) else Corrupted
    decreases |pieces|
  {
    if pieces == [] {
      assert m + Concat(pieces) == m;
    } else {
      var m' := m + pieces[0];
      assert m' + Concat(pieces[1..]) == m + Concat(pieces);
      assert Run(Absorbing(m), Inputs(pieces)) == Run(Absorb(Absorbing(m), pieces[0]), Inputs(pieces[1..]));
      if |m'| < LIMIT {
        assert Absorb(Absorbing(m), pieces[0]) == Absorbing(m') by {
          if pieces[0] == [] { assert m' == m; }
        }
        SplitIndependence(m', pieces[1..]);
      } else {
        CorruptedForever(Inputs(pieces[1..]));
      }
    }
  }

  /** A corrupted context never recovers without a reset. */
  lemma {:induction false} CorruptedForever(calls: seq<Call>)
    ensures Run(Corrupted, calls) == Corrupted
    decreases |calls|
  {
    if calls != [] {
      CorruptedForever(calls[1..]);
    }
  }

  /** After the digest is taken it stays exactly as long as no nonempty input arrives. */
  lemma {:induction false} ComputedStays(m: seq<byte>, calls: seq<Call>)
    ensures Run(Computed(m), calls)
         == if forall i :: 0 <= i < |calls| && calls[i].Input? ==> calls[i].data == [] then Computed(m) else Corrupted
    decreases |calls|
  {
    if calls != [] {
      var rest := calls[1..];
      assert forall i :: 0 <= i < |rest| ==> rest[i] == calls[i + 1];
      if calls[0].Input? && calls[0].data != [] {
        CorruptedForever(rest);
      } else {
        assert forall i :: 1 <= i < |calls| ==> calls[i] == rest[i - 1];
        ComputedStays(m, rest);
      }
    }
  }

  /** A fresh context fed a message in arbitrary pieces: the standard's digest of the whole. */
  method DigestOfPieces(pieces: seq<seq<byte>>) returns (ok: bool, h: Sha1Spec.Hash)
    requires forall i :: 0 <= i < |pieces| ==> |pieces[i]| < 0x1_0000_0000
    ensures ok <==> |Concat(pieces)| < LIMIT
    ensures ok ==> h == Sha1Spec.Digest(Concat(pieces))
  {
    hide Sha1Spec.Digest, Absorb;
    var c := new Context();
    for i := 0 to |pieces|
      invariant c.Valid() && fresh(c) && fresh(c.digest) && fresh(c.block)
      invariant Run(c.Phase(), Inputs(pieces[i..])) == Run(Absorbing([]), Inputs(pieces))
    {
      assert pieces[i..][1..] == pieces[i + 1..];
      assert Inputs(pieces[i..]) == [Input(pieces[i])] + Inputs(pieces[i + 1..]);
      c.Input(pieces[i]);
    }
    SplitIndependence([], pieces);
    assert [] + Concat(pieces) == Concat(pieces);
    ok := c.Result();
    h := HashOf(c.digest[..]);
  }
}
