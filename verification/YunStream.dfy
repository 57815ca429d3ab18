/** Whole runs of the receiver over a stream of created frames, however the transport cuts it. */
module YunStream {
  import opened Bytes
  import opened MiniData
  import opened YunReceiver

  const CHUNK: nat := 1140  // the largest piece the theorem allows
  const MAX_TAIL: nat := 259

  /** A stream is frames, with noise that holds no head octet allowed between them. */
  datatype Item = Gap(noise: seq<byte>) | Packet(payload: seq<byte>) {
    ghost predicate Valid() {
      match this
      case Gap(noise) => HEAD !in noise
      case Packet(payload) => 1 <= |payload| <= 255
    }
  }

  ghost predicate Wf(items: seq<Item>) {
    forall i :: 0 <= i < |items| ==> items[i].Valid()
  }

  ghost function Octets(item: Item): seq<byte>
    requires item.Valid()
  {
    match item
    case Gap(noise) => noise
    case Packet(payload) => Frame(payload)
  }

  ghost function Wire(items: seq<Item>): seq<byte>
    requires Wf(items)
    decreases |items|
  {
    if items == [] then [] else Octets(items[0]) + Wire(items[1..])
  }

  function Payloads(items: seq<Item>): seq<seq<byte>>
    decreases |items|
  {
    if items == [] then []
    else (if items[0].Packet? then [items[0].payload] else []) + Payloads(items[1..])
  }

  /** A place in a stream: g octets of noise left over from item k - 1, then item k. */
  ghost predicate At(items: seq<Item>, k: nat, g: seq<byte>) {
    k <= |items| && HEAD !in g && (g != [] ==> k > 0 && items[k - 1].Gap?)
  }

  lemma WireFrom(items: seq<Item>, k: nat)
    requires Wf(items) && k < |items|
    ensures Wire(items[k..]) == Octets(items[k]) + Wire(items[k + 1..])
  {
    assert items[k..][1..] == items[k + 1..];
  }

  lemma {:induction false} PayloadsSnoc(items: seq<Item>, item: Item)
    ensures Payloads(items + [item]) == Payloads(items) + if item.Packet? then [item.payload] else []
    decreases |items|
  {
    var all := items + [item];
    if items == [] {
      assert all[1..] == [];
    } else {
      PayloadsSnoc(items[1..], item);
      assert all[1..] == items[1..] + [item];
    }
  }

  lemma PayloadsUpTo(items: seq<Item>, k: nat)
    requires k < |items|
    ensures Payloads(items[..k + 1]) == Payloads(items[..k]) + if items[k].Packet? then [items[k].payload] else []
  {
    assert items[..k + 1] == items[..k] + [items[k]];
    PayloadsSnoc(items[..k], items[k]);
  }

  /** Octets beyond the leftover noise that hold no head come from a gap. */
  lemma GapAhead(s: seq<byte>, n: nat, items: seq<Item>, k: nat, g: seq<byte>)
    requires Wf(items) && At(items, k, g)
    requires s == g + Wire(items[k..]) && |g| < n <= |s| && HEAD !in s[..n]
    ensures k < |items| && items[k].Gap?
  {
    hide Frame, Wire;
    if k == |items| {
      EmptyWireAt(items);
    } else {
      WireFrom(items, k);
      assert s[|g|] in s[..n];
      assert s[|g|..] == Octets(items[k]) + Wire(items[k + 1..]);
      assert s[|g|] == s[|g|..][0];
    }
  }

  /** Dropping the first n octets drops all of g and the rest from what follows it. */
  lemma DropPast(s: seq<byte>, n: nat, g: seq<byte>, w: seq<byte>)
    requires s == g + w && |g| <= n <= |s| && HEAD !in s[..n]
    ensures w[n - |g|..] == s[n..] && HEAD !in w[..n - |g|]
  {
    assert w[..n - |g|] == s[..n][|g|..];
  }

  /** Dropping octets that hold no head stays inside the noise. */
  lemma {:induction false} SkipNoise(s: seq<byte>, n: nat, items: seq<Item>, k: nat, g: seq<byte>)
    returns (k': nat, g': seq<byte>)
    requires Wf(items) && At(items, k, g)
    requires s == g + Wire(items[k..]) && n <= |s| && HEAD !in s[..n]
    ensures At(items, k', g') && s[n..] == g' + Wire(items[k'..])
    ensures Payloads(items[..k']) == Payloads(items[..k])
    decreases |items| - k
  {
    hide Frame, Wire, Payloads;
    if n <= |g| {
      k', g' := k, g[n..];
      assert s[n..] == g' + Wire(items[k'..]);
    } else {
      GapAhead(s, n, items, k, g);
      WireFrom(items, k);
      var t := Wire(items[k..]);
      DropPast(s, n, g, t);
      k', g' := SkipNoise(t, n - |g|, items, k + 1, items[k].noise);
      PayloadsUpTo(items, k);
      assert Payloads(items[..k]) + [] == Payloads(items[..k]);
    }
  }

  lemma StepInNoise(b: Buffer, rest: seq<byte>, items: seq<Item>, k: nat, g: seq<byte>)
    returns (k': nat, g': seq<byte>)
    requires b.Valid() && Wf(items) && At(items, k, g) && g != []
    requires b.Live() + rest == g + Wire(items[k..])
    requires !Get(b.cache, b.len).Nothing?
    ensures Get(b.cache, b.len).Drop? && Commands(Get(b.cache, b.len), b.cache) == []
    ensures At(items, k', g') && (b.Live() + rest)[Get(b.cache, b.len).n..] == g' + Wire(items[k'..])
    ensures Payloads(items[..k']) == Payloads(items[..k])
  {
    hide Wire, Payloads, Announced;
    var s := b.Live() + rest;
    assert b.cache[0] == s[0] == g[0];
    var n := Get(b.cache, b.len).n;
    assert s[..n] == b.Live()[..n];
    k', g' := SkipNoise(s, n, items, k, g);
  }

  lemma StepPacket(b: Buffer, rest: seq<byte>, p: seq<byte>, more: seq<byte>)
    requires b.Valid() && 1 <= |p| <= 255
    requires b.Live() + rest == Frame(p) + more
    requires !Get(b.cache, b.len).Nothing?
    ensures Commands(Get(b.cache, b.len), b.cache) == [p]
    ensures (b.Live() + rest)[Get(b.cache, b.len).Count()..] == more
  {
    hide Announced, Frame;
    assert b.len >= 3;
    GetFrame(b.cache, b.len, rest, p, more);
  }

  /** One turn of the receiver's loop moves to a later place, dispatching a payload exactly when it
      passes a packet. */
  lemma {:induction false} StepAt(b: Buffer, rest: seq<byte>, items: seq<Item>, k: nat, g: seq<byte>)
    returns (k': nat, g': seq<byte>)
    requires b.Valid() && Wf(items) && At(items, k, g)
    requires b.Live() + rest == g + Wire(items[k..])
    requires !Get(b.cache, b.len).Nothing?
    ensures At(items, k', g')
    ensures (b.Live() + rest)[Get(b.cache, b.len).Count()..] == g' + Wire(items[k'..])
    ensures Payloads(items[..k']) == Payloads(items[..k]) + Commands(Get(b.cache, b.len), b.cache)
    decreases |items| - k
  {
    hide Get, Frame, Wire, Payloads, Commands;
    if g != [] {
      k', g' := StepInNoise(b, rest, items, k, g);
      assert Payloads(items[..k]) + [] == Payloads(items[..k]);
    } else {
      if k == |items| {
        EmptyWire(items, b.Live() + rest);
        GetShort(b);
      }
      WireFrom(items, k);
      PayloadsUpTo(items, k);
      assert b.Live() + rest == Octets(items[k]) + Wire(items[k + 1..]);
      if items[k].Gap? {
        k', g' := StepAt(b, rest, items, k + 1, items[k].noise);
      } else {
        StepPacket(b, rest, items[k].payload, Wire(items[k + 1..]));
        k', g' := k + 1, [];
      }
    }
  }

  lemma EmptyWire(items: seq<Item>, s: seq<byte>)
    requires Wf(items) && s == [] + Wire(items[|items|..])
    ensures s == []
  {
  }

  lemma GetShort(b: Buffer)
    requires b.Valid() && b.len < 3
    ensures Get(b.cache, b.len).Nothing?
  {
  }

  /** The whole loop. It stops where nothing more can be parsed, having dispatched exactly the
      packets it passed. */
  lemma {:induction false} DrainAt(b: Buffer, rest: seq<byte>, items: seq<Item>, k: nat, g: seq<byte>)
    returns (k': nat, g': seq<byte>)
    requires b.Valid() && Wf(items) && At(items, k, g)
    requires b.Live() + rest == g + Wire(items[k..])
    ensures At(items, k', g')
    ensures Drain(b).buf.Live() + rest == g' + Wire(items[k'..])
    ensures Payloads(items[..k']) == Payloads(items[..k]) + Drain(b).commands
    ensures Get(Drain(b).buf.cache, Drain(b).buf.len).Nothing?
    decreases b.len
  {
    hide Get, Wire, Payloads, Compact, Commands;
    DrainStep(b, Payloads(items[..k]));
    if Get(b.cache, b.len).Nothing? {
      k', g' := k, g;
      assert Payloads(items[..k]) + [] == Payloads(items[..k]);
    } else {
      var n := Get(b.cache, b.len).n;
      var k1, g1 := StepAt(b, rest, items, k, g);
      assert (b.Live() + rest)[n..] == Compact(b, n).Live() + rest;
      k', g' := DrainAt(Compact(b, n), rest, items, k1, g1);
    }
  }

  /** Where the loop has stopped, at most an unfinished frame is buffered. */
  lemma {:induction false} SettledLength(b: Buffer, rest: seq<byte>, items: seq<Item>, k: nat, g: seq<byte>)
    requires b.Valid() && Wf(items) && At(items, k, g)
    requires b.Live() + rest == g + Wire(items[k..])
    requires Get(b.cache, b.len).Nothing?
    ensures b.len <= MAX_TAIL
    decreases |items| - k
  {
    hide Wire, Frame, Announced;
    if b.len >= 3 {
      if g != [] {
        NoiseInFront(b, rest, g, Wire(items[k..]));
      }
      if k == |items| {
        EmptyWire(items, b.Live() + rest);
        assert false;
      }
      WireFrom(items, k);
      assert b.Live() + rest == Octets(items[k]) + Wire(items[k + 1..]);
      if items[k].Gap? {
        SettledLength(b, rest, items, k + 1, items[k].noise);
      } else {
        GetFrame(b.cache, b.len, rest, items[k].payload, Wire(items[k + 1..]));
      }
    }
  }

  /** With noise in front of three octets or more the loop does not stop. */
  lemma NoiseInFront(b: Buffer, rest: seq<byte>, g: seq<byte>, more: seq<byte>)
    requires b.Valid() && HEAD !in g && g != [] && b.len >= 3
    requires b.Live() + rest == g + more
    ensures !Get(b.cache, b.len).Nothing?
  {
    hide Announced;
    assert b.cache[0] == (b.Live() + rest)[0] == g[0];
  }

  /** ... and no packet is waiting: what is buffered is noise and the start of a frame. */
  lemma {:induction false} SettledPayloads(b: Buffer, items: seq<Item>, k: nat, g: seq<byte>, tail: seq<byte>)
    requires b.Valid() && Wf(items) && At(items, k, g)
    requires b.Live() == g + Wire(items[k..]) + tail
    requires Get(b.cache, b.len).Nothing?
    ensures Payloads(items[k..]) == []
    ensures |b.Live()| >= |tail| && b.Live()[b.len - |tail|..] == tail
    ensures HEAD !in b.Live()[..b.len - |tail|]
    ensures b.len >= 3 ==> b.Live() == tail
    decreases |items| - k
  {
    hide Wire, Frame, Get, Payloads;
    var w := Wire(items[k..]);
    assert b.Live() + [] == g + (w + tail);
    if b.len >= 3 && g != [] {
      NoiseInFront(b, [], g, w + tail);
    }
    if k == |items| {
      EmptyWireAt(items);
    } else {
      WireFrom(items, k);
      PayloadsFrom(items, k);
      var next := Wire(items[k + 1..]);
      if items[k].Gap? {
        assert b.Live() == (g + items[k].noise) + next + tail;
        SettledPayloads(b, items, k + 1, g + items[k].noise, tail);
      } else {
        assert |w| >= 4;
        assert b.Live() + [] == Frame(items[k].payload) + (next + tail);
        GetFrame(b.cache, b.len, [], items[k].payload, next + tail);
      }
    }
  }

  lemma PayloadsFrom(items: seq<Item>, k: nat)
    requires k < |items|
    ensures Payloads(items[k..]) == (if items[k].Packet? then [items[k].payload] else []) + Payloads(items[k + 1..])
  {
    assert items[k..][1..] == items[k + 1..];
  }

  lemma EmptyWireAt(items: seq<Item>)
    requires Wf(items)
    ensures Wire(items[|items|..]) == [] && Payloads(items[|items|..]) == []
  {
  }

  /** A whole run: one dtrs_recv_data_callback call per piece the transport hands over. */
  datatype RunResult = RunResult(buf: Buffer, commands: seq<seq<byte>>, resets: nat)

  function Run(b: Buffer, chunks: seq<seq<byte>>): (r: RunResult)
    requires b.Valid() && forall i :: 0 <= i < |chunks| ==> |chunks[i]| <= CHUNK
    ensures r.buf.Valid()
    decreases |chunks|
  {
    if chunks == [] then RunResult(b, [], 0)
    else
      var o := Receive(b, chunks[0]);
      var r := Run(o.buf, chunks[1..]);
      RunResult(r.buf, o.commands + r.commands, r.resets + if b.len + |chunks[0]| > LIMIT then 1 else 0)
  }

  lemma {:induction false} RunAt(b: Buffer, chunks: seq<seq<byte>>, rest: seq<byte>, items: seq<Item>,
                                 k: nat, g: seq<byte>)
    returns (k': nat, g': seq<byte>)
    requires b.Valid() && b.len <= MAX_TAIL && Get(b.cache, b.len).Nothing?
    requires forall i :: 0 <= i < |chunks| ==> |chunks[i]| <= CHUNK
    requires Wf(items) && At(items, k, g)
    requires b.Live() + Concat(chunks) + rest == g + Wire(items[k..])
    ensures At(items, k', g')
    ensures Run(b, chunks).buf.Live() + rest == g' + Wire(items[k'..])
    ensures Payloads(items[..k']) == Payloads(items[..k]) + Run(b, chunks).commands
    ensures Run(b, chunks).buf.len <= MAX_TAIL && Run(b, chunks).resets == 0
    ensures Get(Run(b, chunks).buf.cache, Run(b, chunks).buf.len).Nothing?
    decreases |chunks|
  {
    hide Get, Wire, Payloads, Drain;
    if chunks == [] {
      k', g' := k, g;
      assert b.Live() + Concat(chunks) + rest == b.Live() + rest;
      assert Payloads(items[..k]) + [] == Payloads(items[..k]);
    } else {
      var later := Concat(chunks[1..]) + rest;
      var a := Append(b, chunks[0]);
      assert a.Live() + later == b.Live() + Concat(chunks) + rest;
      var k1, g1 := DrainAt(a, later, items, k, g);
      var o := Drain(a);
      SettledLength(o.buf, later, items, k1, g1);
      assert o.buf.Live() + Concat(chunks[1..]) + rest == o.buf.Live() + later;
      k', g' := RunAt(o.buf, chunks[1..], rest, items, k1, g1);
      var r := Run(o.buf, chunks[1..]);
      assert Payloads(items[..k]) + o.commands + r.commands == Payloads(items[..k]) + (o.commands + r.commands);
    }
  }

  /** What is left when a stream ends: noise without a head, at most two octets of it, and the unfinished
      frame. */
  ghost predicate Leaves(b: Buffer, tail: seq<byte>)
    requires b.Valid()
  {
    && |tail| <= b.len <= MAX_TAIL
    && b.Live()[b.len - |tail|..] == tail && HEAD !in b.Live()[..b.len - |tail|]
    && (b.len >= 3 ==> b.Live() == tail)
    && Get(b.cache, b.len).Nothing?
  }

  /** The receiver recovers every stream of created frames, with head-free noise between them and an
      unfinished frame at the end, from every chunking, also where it is resumed in the middle: with g
      still buffered from before and t from the front of this stream. */
  lemma Resumed(b: Buffer, t: seq<byte>, chunks: seq<seq<byte>>, items: seq<Item>, q: seq<byte>, tail: seq<byte>)
    requires b.Valid() && Leaves(b, t) && Wf(items)
    requires forall i :: 0 <= i < |chunks| ==> |chunks[i]| <= CHUNK
    requires 1 <= |q| <= 255 && |tail| < |Frame(q)| && tail <= Frame(q)
    requires t + Concat(chunks) == Wire(items) + tail
    ensures var r := Run(b, chunks);
      r.commands == Payloads(items) && r.resets == 0 && Leaves(r.buf, tail)
  {
    hide Get, Wire, Payloads, Frame, Run, Leaves;
    LeavesFront(b, t);
    var g := b.Live()[..b.len - |t|];
    var before := [Gap(g)] + items;
    var all, rest := before + [Packet(q)], Frame(q)[|tail|..];
    WireSnoc(items, Packet(q));
    assert all[1..] == items + [Packet(q)] && all[..1] == [Gap(g)];
    assert Frame(q) == tail + rest;
    Regroup(b.Live(), g, t, Concat(chunks), Wire(items), tail, rest, Frame(q));
    var k, g' := RunAt(b, chunks, rest, all, 1, g);
    GapPayloads(g, items);
    ResumedEnd(Run(b, chunks), before, q, tail, k, g');
  }

  lemma LeavesFront(b: Buffer, t: seq<byte>)
    requires b.Valid() && Leaves(b, t)
    ensures |t| <= b.len <= MAX_TAIL && Get(b.cache, b.len).Nothing?
    ensures var g := b.Live()[..b.len - |t|]; b.Live() == g + t && HEAD !in g
  {
    hide Get;
  }

  lemma Regroup(live: seq<byte>, g: seq<byte>, t: seq<byte>, c: seq<byte>, w: seq<byte>, tail: seq<byte>,
                rest: seq<byte>, f: seq<byte>)
    requires live == g + t && t + c == w + tail && tail + rest == f
    ensures live + c + rest == g + (w + f)
  {
    assert live + c + rest == g + (t + c) + rest;
    assert g + (w + tail) + rest == g + (w + (tail + rest));
  }

  /** Where a run has stopped inside the last frame of a stream. */
  lemma ResumedEnd(r: RunResult, items: seq<Item>, q: seq<byte>, tail: seq<byte>, k: nat, g: seq<byte>)
    requires r.buf.Valid() && r.buf.len <= MAX_TAIL && Get(r.buf.cache, r.buf.len).Nothing?
    requires Wf(items) && 1 <= |q| <= 255 && |tail| < |Frame(q)| && tail <= Frame(q)
    requires Wf(items + [Packet(q)]) && At(items + [Packet(q)], k, g)
    requires r.buf.Live() + Frame(q)[|tail|..] == g + Wire((items + [Packet(q)])[k..])
    requires Payloads((items + [Packet(q)])[..k]) == r.commands
    ensures r.commands == Payloads(items) && Leaves(r.buf, tail)
  {
    hide Get, Wire, Payloads, Frame;
    UnfinishedEnd(r.buf.Live(), items, q, tail, k, g);
    SettledPayloads(r.buf, items, k, g, tail);
    PayloadsSplit(items, k);
    assert Payloads(items[..k]) + [] == Payloads(items[..k]);
  }

  lemma GapPayloads(g: seq<byte>, items: seq<Item>)
    ensures Payloads([Gap(g)]) == [] && Payloads([Gap(g)] + items) == Payloads(items)
  {
    assert ([Gap(g)] + items)[1..] == items;
    assert [Gap(g)][1..] == [];
  }

  /** From an empty buffer, whatever its array holds: exactly the payloads, in order, no overflow reset,
      at most 259 octets left over. */
  lemma Reassembly(cache: seq<byte>, chunks: seq<seq<byte>>, items: seq<Item>, q: seq<byte>, tail: seq<byte>)
    requires |cache| == SIZE && Wf(items)
    requires forall i :: 0 <= i < |chunks| ==> |chunks[i]| <= CHUNK
    requires 1 <= |q| <= 255 && |tail| < |Frame(q)| && tail <= Frame(q)
    requires Concat(chunks) == Wire(items) + tail
    ensures var r := Run(Buffer(cache, 0), chunks);
      && r.commands == Payloads(items)
      && r.resets == 0
      && r.buf.len <= MAX_TAIL
      && |tail| <= r.buf.len && r.buf.Live()[r.buf.len - |tail|..] == tail
      && (r.buf.len >= 3 ==> r.buf.Live() == tail)
      && Leaves(r.buf, tail)
  {
    hide Get, Wire, Payloads, Frame, Run;
    var b := Buffer(cache, 0);
    GetShort(b);
    assert [] + Concat(chunks) == Concat(chunks);
    Resumed(b, [], chunks, items, q, tail);
  }

  // ----- A new connection: the buffer is not cleared -----

  /** The next connection's stream is received as sent. */
  ghost predicate Lossless(b: Buffer, items: seq<Item>, chunks: seq<seq<byte>>)
    requires b.Valid()
  {
    Wf(items) && (forall i :: 0 <= i < |chunks| ==> |chunks[i]| <= CHUNK) && Concat(chunks) == Wire(items) ==>
      Run(b, chunks).commands == Payloads(items)
  }

  /** A frame that starts with t, and what is missing of it without a head octet. */
  lemma Completion(t: seq<byte>, p: seq<byte>) returns (q: seq<byte>)
    requires 1 <= |p| <= 255 && 0 < |t| < |Frame(p)| && t <= Frame(p)
    ensures 1 <= |q| <= 255 && |t| < |Frame(q)| && t <= Frame(q) && HEAD !in Frame(q)[|t|..]
  {
    if |t| == 1 {
      q := [0];
      assert Frame(q) == [HEAD, 1, 0, TAIL];
    } else {
      var h := |Prefix(|p|)|;
      var m := if |t| <= h then 0 else |t| - h;
      if m > |p| {
        m := |p|;
      }
      q := p[..m] + Zeros(|p| - m);
      CompletionParts(t, p, q, m);
    }
  }

  lemma CompletionParts(t: seq<byte>, p: seq<byte>, q: seq<byte>, m: nat)
    requires 1 <= |p| == |q| <= 255 && 1 < |t| < |Frame(p)| && t <= Frame(p)
    requires m <= |p| && q == p[..m] + Zeros(|p| - m)
    requires m == if |t| <= |Prefix(|p|)| then 0 else |t| - |Prefix(|p|)|
    ensures t <= Frame(q) && HEAD !in Frame(q)[|t|..]
  {
    var h := |Prefix(|p|)|;
    assert forall i :: 0 <= i < |t| ==> t[i] == Frame(p)[i];
    assert forall i :: 0 <= i < |t| ==> Frame(q)[i] == Frame(p)[i];
    assert forall i :: |t| <= i < |Frame(q)| ==> Frame(q)[i] != HEAD;
  }

  /** What the last connection left is harmless to every stream of the next exactly when it holds no
      unfinished frame; otherwise noise alone can complete it. */
  lemma LeftoverHarmlessIff(b: Buffer, t: seq<byte>, p: seq<byte>)
    requires b.Valid() && Leaves(b, t)
    requires 1 <= |p| <= 255 && |t| < |Frame(p)| && t <= Frame(p)
    ensures (forall items: seq<Item>, chunks: seq<seq<byte>> :: Lossless(b, items, chunks)) <==> t == []
  {
    hide Get, Wire, Payloads, Frame, Run, Leaves;
    if t == [] {
      forall items: seq<Item>, chunks: seq<seq<byte>> ensures Lossless(b, items, chunks) {
        if Wf(items) && (forall i :: 0 <= i < |chunks| ==> |chunks[i]| <= CHUNK) && Concat(chunks) == Wire(items) {
          assert [] + Concat(chunks) == Wire(items) + [];
          Resumed(b, [], chunks, items, [0], []);
        }
      }
    } else {
      var q := Completion(t, p);
      var noise := Frame(q)[|t|..];
      NotLossless(b, t, q, noise);
    }
  }

  lemma NotLossless(b: Buffer, t: seq<byte>, q: seq<byte>, noise: seq<byte>)
    requires b.Valid() && Leaves(b, t) && 1 <= |q| <= 255 && t + noise == Frame(q) && HEAD !in noise
    ensures !Lossless(b, [Gap(noise)], [noise])
  {
    hide Get, Leaves, Run, Frame;
    assert Concat([noise]) == noise + [] == noise;
    assert Wire([Gap(noise)]) == noise + [] == noise;
    assert Wire([Packet(q)]) == Frame(q) + [] == Frame(q);
    assert t + Concat([noise]) == Wire([Packet(q)]) + [];
    Resumed(b, t, [noise], [Packet(q)], q, []);
    assert Payloads([Packet(q)]) == [q] + [];
    assert Payloads([Gap(noise)]) == [] + [];
  }

  /** Such a loss: after a connection that broke off behind AF 04, the frame AF 02 01 41 FA of the next one
      completes it, and AF 02 01 41 is dispatched instead of 01 41. */
  lemma LeftoverLoss(b: Buffer)
    requires b.Valid() && b.Live() == [HEAD, 4]
    ensures Frame([1, 0x41]) == [HEAD, 2, 1, 0x41, TAIL]
    ensures Run(b, [Frame([1, 0x41])]).commands == [[HEAD, 2, 1, 0x41]]
  {
    hide Get, Run;
    var q: seq<byte> := [HEAD, 2, 1, 0x41];
    var f := Frame([1, 0x41]);
    assert f == [HEAD, 2, 1, 0x41, TAIL];
    assert Frame(q) == [HEAD, 4] + f;
    GetShort(b);
    assert b.Live()[b.len - 2..] == [HEAD, 4];
    assert Concat([f]) == f + [] == f;
    assert Wire([Packet(q)]) == Frame(q) + [] == Frame(q);
    assert [HEAD, 4] + Concat([f]) == Wire([Packet(q)]) + [];
    Resumed(b, [HEAD, 4], [f], [Packet(q)], q, []);
    assert Payloads([Packet(q)]) == [q] + [];
  }

  /** A place in a stream whose last frame has not fully arrived lies before that frame's end. */
  lemma UnfinishedEnd(live: seq<byte>, items: seq<Item>, q: seq<byte>, tail: seq<byte>, k: nat, g: seq<byte>)
    requires Wf(items) && 1 <= |q| <= 255 && |tail| < |Frame(q)| && tail <= Frame(q)
    requires Wf(items + [Packet(q)]) && At(items + [Packet(q)], k, g)
    requires live + Frame(q)[|tail|..] == g + Wire((items + [Packet(q)])[k..])
    ensures k <= |items| && At(items, k, g) && live == g + Wire(items[k..]) + tail
    ensures (items + [Packet(q)])[..k] == items[..k]
  {
    hide Wire, Frame;
    var all, rest := items + [Packet(q)], Frame(q)[|tail|..];
    if k == |all| {
      EmptyWire(all, live + rest);
      assert false;
    }
    assert all[..k] == items[..k];
    assert all[k..] == items[k..] + [Packet(q)];
    WireSnoc(items[k..], Packet(q));
    assert tail + rest == Frame(q);
    assert (g + Wire(items[k..]) + tail) + rest == g + (Wire(items[k..]) + Frame(q));
    Cancel(live, g + Wire(items[k..]) + tail, rest);
  }

  lemma Cancel(a: seq<byte>, b: seq<byte>, c: seq<byte>)
    requires a + c == b + c
    ensures a == b
  {
    assert a == (a + c)[..|a + c| - |c|] == b;
  }

  lemma PayloadsEmpty()
    ensures Payloads([]) == []
  {
  }

  lemma {:induction false} PayloadsSplit(items: seq<Item>, k: nat)
    requires k <= |items|
    ensures Payloads(items) == Payloads(items[..k]) + Payloads(items[k..])
    decreases |items| - k
  {
    if k == |items| {
      assert items[..k] == items && items[k..] == [];
    } else {
      PayloadsSplit(items, k + 1);
      PayloadsFrom(items, k);
      PayloadsUpTo(items, k);
    }
  }

  lemma {:induction false} WireSnoc(items: seq<Item>, item: Item)
    requires Wf(items) && item.Valid()
    ensures Wf(items + [item]) && Wire(items + [item]) == Wire(items) + Octets(item)
    decreases |items|
  {
    hide Octets;
    var all := items + [item];
    if items == [] {
      assert all[1..] == [];
      assert Octets(item) + [] == [] + Octets(item);
    } else {
      WireSnoc(items[1..], item);
      assert all[1..] == items[1..] + [item];
      var o, w, last := Octets(items[0]), Wire(items[1..]), Octets(item);
      assert o + (w + last) == (o + w) + last;
    }
  }

  /** The receive loop of hxtcp_conn, once logged in: one callback for each piece the socket returns,
      over whatever an earlier connection left in the buffer. */
  method ReceiveAll(r: Receiver, chunks: seq<seq<byte>>)
    requires r.Valid()
    requires forall i :: 0 <= i < |chunks| ==> |chunks[i]| <= CHUNK
    modifies r, r.cache
    ensures r.Valid()
    ensures r.commands == old(r.commands) + Run(old(r.Buf()), chunks).commands
    ensures r.Buf() == Run(old(r.Buf()), chunks).buf
  {
    hide Receive;
    assert chunks[0..] == chunks;
    for i := 0 to |chunks|
      invariant r.Valid()
      invariant r.commands + Run(r.Buf(), chunks[i..]).commands == old(r.commands) + Run(old(r.Buf()), chunks).commands
      invariant Run(r.Buf(), chunks[i..]).buf == Run(old(r.Buf()), chunks).buf
    {
      assert chunks[i..][1..] == chunks[i + 1..];
      ghost var b, done := r.Buf(), r.commands;
      r.RecvData(chunks[i]);
      ghost var o := Receive(b, chunks[i]);
      ghost var later := Run(o.buf, chunks[i + 1..]).commands;
      assert done + (o.commands + later) == (done + o.commands) + later;
    }
  }

  /** So a receiver that holds no unfinished frame but t, the front of this stream, dispatches exactly the
      payloads of the stream it is fed, and then holds no unfinished frame but the stream's tail. */
  method ReceiveStream(r: Receiver, ghost t: seq<byte>, chunks: seq<seq<byte>>, ghost items: seq<Item>,
                       ghost q: seq<byte>, ghost tail: seq<byte>)
    requires r.Valid() && Leaves(r.Buf(), t) && Wf(items)
    requires forall i :: 0 <= i < |chunks| ==> |chunks[i]| <= CHUNK
    requires 1 <= |q| <= 255 && |tail| < |Frame(q)| && tail <= Frame(q)
    requires t + Concat(chunks) == Wire(items) + tail
    modifies r, r.cache
    ensures r.Valid() && Leaves(r.Buf(), tail)
    ensures r.commands == old(r.commands) + Payloads(items)
  {
    hide Run, Wire, Frame, Payloads, Leaves;
    Resumed(r.Buf(), t, chunks, items, q, tail);
    ReceiveAll(r, chunks);
  }

  /** A new receiver holds none. */
  lemma EmptyLeaves(b: Buffer)
    requires b.Valid() && b.len == 0
    ensures Leaves(b, [])
  {
  }

  /** iotYunSend frames a leading command octet and the caller's octets, but miniDataCreate takes the
      length as a single octet. */
  function SentPayload(buf: seq<byte>): seq<byte> {
    ([DATA] + buf)[..U8(|buf| + 1)]
  }

  method IotYunSend(buf: seq<byte>) returns (sent: seq<byte>)
    requires |buf| < 0x1_0000
    ensures sent == if SentPayload(buf) == [] then [] else Frame(SentPayload(buf))
  {
    var yesSendBuf := new byte[|buf| + 10];
    SmallerOctet(|buf| + 1);
    var n := Create(U8(|buf| + 1), [DATA] + buf, yesSendBuf);
    sent := yesSendBuf[..n];
  }

  /** On the wire: head, length, command octet 0, the caller's octets, tail. */
  lemma SentFrame(buf: seq<byte>)
    requires |buf| <= 253
    ensures SentPayload(buf) != [] && Frame(SentPayload(buf)) == [0xAF, |buf| + 1, 0] + buf + [0xFA]
  {
    assert SentPayload(buf) == [0] + buf;
  }

  /** The octets AF 02 01 41 FA bring the user's callback the one octet 41, in whatever pieces they come. */
  lemma UserReceives(cache: seq<byte>, chunks: seq<seq<byte>>)
    requires |cache| == SIZE && forall i :: 0 <= i < |chunks| ==> |chunks[i]| <= CHUNK
    requires Concat(chunks) == [0xAF, 2, 1, 0x41, 0xFA]
    ensures Run(Buffer(cache, 0), chunks).commands == [[1, 0x41]] && Delivered([[1, 0x41]]) == [[0x41]]
  {
    hide Run;
    var p: seq<byte> := [1, 0x41];
    assert Frame(p) == [0xAF, 2, 1, 0x41, 0xFA];
    assert Wire([Packet(p)]) == Frame(p) + [] == Frame(p);
    assert Concat(chunks) == Wire([Packet(p)]) + [];
    Reassembly(cache, chunks, [Packet(p)], p, []);
    assert Payloads([Packet(p)]) == [p] + [];
    assert p[1..] == [0x41];
    assert Delivered([p]) == [[0x41]] + Delivered([]);
  }

  lemma SmallerOctet(n: nat)
    ensures U8(n) <= n
  {
  }

  /** So the whole buffer is sent exactly when it has at most 254 octets. */
  lemma SendWhole(buf: seq<byte>)
    ensures SentPayload(buf) == [DATA] + buf <==> |buf| <= 254
  {
    SmallerOctet(|buf| + 1);
  }
}
