/** Whole runs of the loop in esp_mqtt_task, components/espmqtt/mqtt_client.c. */
module ClientRuns {
  import opened Bytes
  import opened MqttWire
  import opened MqttMsg
  import opened Answers
  import opened MqttClient
  import A = AckSpec
  import L = LinkSpec

  /** What a run of the loop depends on: the connection and the input buffer. */
  datatype World = World(link: L.Link, buffer: seq<byte>)

  ghost predicate Fed(inputs: seq<PassInput>, size: nat) {
    size >= 4 && forall k :: 0 <= k < |inputs| ==> inputs[k].Valid(size)
  }

  /** One pass. */
  ghost function StepWorld(w: World, auto: bool, i: PassInput): (r: World)
    requires |w.buffer| >= 4 && i.Valid(|w.buffer|)
    ensures |r.buffer| == |w.buffer|
  {
    World(L.StepLink(w.link, auto, i.Seen(w.buffer)).link, NextBuffer(w.link.state, w.buffer, i))
  }

  /** The passes as the state machine sees them, each over the buffer the one before it left. */
  ghost function SeenBy(w: World, auto: bool, inputs: seq<PassInput>): (ps: seq<L.Pass>)
    requires Fed(inputs, |w.buffer|)
    ensures |ps| == |inputs|
    decreases |inputs|
  {
    if inputs == [] then [] else [inputs[0].Seen(w.buffer)] + SeenBy(StepWorld(w, auto, inputs[0]), auto, inputs[1..])
  }

  /** Before pass k. */
  ghost function WorldAt(w: World, auto: bool, inputs: seq<PassInput>, k: nat): (r: World)
    requires Fed(inputs, |w.buffer|) && k <= |inputs|
    ensures |r.buffer| == |w.buffer|
    decreases k
  {
    if k == 0 then w else WorldAt(StepWorld(w, auto, inputs[0]), auto, inputs[1..], k - 1)
  }

  lemma {:induction false} SeenAt(w: World, auto: bool, inputs: seq<PassInput>, k: nat)
    requires Fed(inputs, |w.buffer|) && k < |inputs|
    ensures SeenBy(w, auto, inputs)[k] == inputs[k].Seen(WorldAt(w, auto, inputs, k).buffer)
    decreases k
  {
    hide StepWorld;
    if k > 0 {
      SeenAt(StepWorld(w, auto, inputs[0]), auto, inputs[1..], k - 1);
    }
  }

  lemma {:induction false} SeenMonotone(w: World, auto: bool, inputs: seq<PassInput>, now: int)
    requires Fed(inputs, |w.buffer|) && Monotone(inputs, now)
    ensures L.Monotone(SeenBy(w, auto, inputs), now)
    decreases |inputs|
  {
    hide StepWorld;
    if inputs != [] {
      SeenMonotone(StepWorld(w, auto, inputs[0]), auto, inputs[1..], inputs[0].end);
      var ps := SeenBy(w, auto, inputs);
      assert ps[1..] == SeenBy(StepWorld(w, auto, inputs[0]), auto, inputs[1..]);
    }
  }

  /** Pass k puts a CONNECTED event at place j: its own CONNECT went out, and what it read, over what the
      passes before it left in the buffer, is an accepting CONNACK. The marker in front says whether the
      read alone decided that. */
  ghost predicate Backs(w: World, auto: bool, inputs: seq<PassInput>, log: seq<L.LogEvent>, k: nat, j: nat)
    requires Fed(inputs, |w.buffer|)
  {
    k < |inputs| && 0 < j < |log|
    && L.Connects(w.link, auto, SeenBy(w, auto, inputs), k, j)
    && inputs[k].transportUp && inputs[k].connectWrite >= 0 && inputs[k].connectRead.len >= 0
    && ConnackAccepted(Overlaid(WorldAt(w, auto, inputs, k).buffer, inputs[k].connectRead.data))
    && log[j - 1] == L.Accepted(|inputs[k].connectRead.data| >= 4)
  }

  /** In every run each CONNECTED event is so backed. */
  lemma ConnectedBacked(w: World, auto: bool, inputs: seq<PassInput>, j: nat) returns (k: nat)
    requires Fed(inputs, |w.buffer|)
    requires var log := L.RunLoop(w.link, auto, SeenBy(w, auto, inputs)).log; j < |log| && log[j].ConnectedEvent?
    ensures Backs(w, auto, inputs, L.RunLoop(w.link, auto, SeenBy(w, auto, inputs)).log, k, j)
  {
    hide SeenBy, WorldAt, Overlaid, ConnackAccepted, L.RunLoop;
    var ps := SeenBy(w, auto, inputs);
    k := L.ConnectedFrom(w.link, auto, ps, j);
    L.ConnectsGives(w.link, auto, ps, k, j);
    SeenAt(w, auto, inputs, k);
  }

  /** What a run does to the in-flight bookkeeping, and keepalive_tick after it. */
  datatype Trace = Trace(events: seq<A.Event>, tick: int)

  ghost function TraceBy(w: World, tick: int, auto: bool, keepalive: nat, inputs: seq<PassInput>): Trace
    requires Fed(inputs, |w.buffer|)
    decreases |inputs|
  {
    if inputs == [] || !w.link.run then Trace([], tick)
    else
      var next := NextTick(w.link.state, keepalive, tick, inputs[0]);
      var t := TraceBy(StepWorld(w, auto, inputs[0]), next, auto, keepalive, inputs[1..]);
      Trace(PassEvents(w.link.state, w.buffer, keepalive, tick, inputs[0]) + t.events, t.tick)
  }

  lemma TraceStep(w: World, tick: int, auto: bool, keepalive: nat, inputs: seq<PassInput>, k: nat, done: seq<A.Event>)
    requires Fed(inputs, |w.buffer|) && k < |inputs| && w.link.run
    ensures var i := inputs[k];
      var here := TraceBy(w, tick, auto, keepalive, inputs[k..]);
      var there := TraceBy(StepWorld(w, auto, i), NextTick(w.link.state, keepalive, tick, i), auto, keepalive,
                           inputs[k + 1..]);
      && here.tick == there.tick
      && done + here.events == (done + PassEvents(w.link.state, w.buffer, keepalive, tick, i)) + there.events
  {
    hide StepWorld, NextTick, PassEvents;
    assert inputs[k..][1..] == inputs[k + 1..];
    var i := inputs[k];
    var e := PassEvents(w.link.state, w.buffer, keepalive, tick, i);
    var rest := TraceBy(StepWorld(w, auto, i), NextTick(w.link.state, keepalive, tick, i), auto, keepalive,
                        inputs[k + 1..]);
    assert done + (e + rest.events) == (done + e) + rest.events;
  }

  lemma TraceEnd(w: World, tick: int, auto: bool, keepalive: nat, inputs: seq<PassInput>)
    requires Fed(inputs, |w.buffer|) && (inputs == [] || !w.link.run)
    ensures TraceBy(w, tick, auto, keepalive, inputs) == Trace([], tick)
  {
  }

  // ----- What the return code decides -----

  /** A pass that attempts to connect and reads a CONNACK whose return code is not 0 dispatches DISCONNECTED and
      waits; with code 0 it dispatches CONNECTED. */
  lemma CodeDecides(w: World, auto: bool, i: PassInput, flags: byte, rc: byte, rest: seq<byte>)
    requires |w.buffer| >= 4 && i.Valid(|w.buffer|) && w.link.state == L.Init
    requires i.transportUp && i.connectWrite >= 0 && i.connectRead.data == [0x20, 2, flags, rc] + rest
    ensures var o := L.StepLink(w.link, auto, i.Seen(w.buffer));
      && (rc == 0 ==>
            && o.link.state == L.Connected
            && o.log == [L.Attempt(i.start), L.Accepted(true), L.ConnectedEvent])
      && (rc != 0 ==> o.link.state == L.WaitTimeout && o.log == [L.Attempt(i.start), L.DisconnectedEvent(i.end)])
  {
    hide ConnackAccepted, L.Tick;
    OverlaidConnack(w.buffer, flags, rc, rest);
  }

  lemma OverlaidConnack(buffer: seq<byte>, flags: byte, rc: byte, rest: seq<byte>)
    requires 4 + |rest| <= |buffer|
    ensures ConnackAccepted(Overlaid(buffer, [0x20, 2, flags, rc] + rest)) <==> rc == 0
  {
    var b := Overlaid(buffer, [0x20, 2, flags, rc] + rest);
    assert b == [0x20, 2, flags, rc] + b[4..];
    ConnackCodes(flags, rc, b[4..]);
  }

  /** So in no run does such a pass put a CONNECTED event anywhere. */
  lemma RefusedNever(w: World, auto: bool, inputs: seq<PassInput>, k: nat, j: nat,
                     flags: byte, rc: byte, rest: seq<byte>)
    requires Fed(inputs, |w.buffer|) && k < |inputs| && rc != 0
    requires inputs[k].connectRead.data == [0x20, 2, flags, rc] + rest
    ensures !L.Connects(w.link, auto, SeenBy(w, auto, inputs), k, j)
  {
    hide ConnackAccepted, L.RunLoop, SeenBy, WorldAt;
    SeenAt(w, auto, inputs, k);
    OverlaidConnack(WorldAt(w, auto, inputs, k).buffer, flags, rc, rest);
  }

  // ----- Exchanges on the object -----

  /** The type of request an acknowledgement answers, by its first octet: SUBACK, UNSUBACK, PUBACK and PUBCOMP. */
  predicate AckFor(first: byte, ty: int) {
    (first, ty) in {(0x90, 8), (0xB0, 10), (0x40, 3), (0x70, 6)}
  }

  /** Octets received close a lone request on the object, exactly when no reconnect came between and the type
      last written is the one they answer: the request's own, or PUBREL's in the second half of a QoS 2
      publish. Otherwise they change nothing. */
  method Acknowledged(c: Client, read: Read, draw: uint16, writeLen: int,
                      ghost before: seq<A.Event>, ghost key: A.Key, ghost drawn: int,
                      ghost between: seq<A.Event>, ghost ty: int)
    requires c.Valid() && draw != 0 && read.Valid() && 4 <= |read.data| <= c.inBuffer.Length
    requires c.history == before + ([A.Request(key, drawn)] + between)
    requires A.Run(A.START, before).count == 0 && A.Run(A.START, before).queue == []
    requires key.id != 0 && A.Unrelated(between, key.id)
    requires AckFor(read.data[0], ty) && read.data[1] < 128
    requires key.id == read.data[2] as int * 0x100 + read.data[3]
    modifies c`pendingMsgType, c`pendingMsgCount, c`history, c`messageLength, c`messageLengthRead,
             c`delivered, c.conn, c.conn.buffer, c.outbox, c.outbox.Repr(), c.inBuffer
    ensures c.Valid()
    ensures var closed := !A.Reconnected(between) && A.LastWritten(key.ty, between) == ty;
      && (closed ==>
            && old(c.pendingMsgCount) == 1 && c.pendingMsgCount == 0
            && A.Accepted(A.START, c.history) == A.Accepted(A.START, before) + [A.Key(key.id, ty)])
      && (!closed ==> c.pendingMsgCount == old(c.pendingMsgCount))
  {
    hide A.Run, A.AllowedRun, A.Accepted, A.Accepts, A.LastWritten, A.Reconnected, A.Unrelated, Keys, Overlaid,
         Reaction, Processed, ReplyType, ReplyPacket, TypeOf;
    ghost var b := Overlaid(c.inBuffer[..], read.data);
    OverlaidStart(c.inBuffer[..], read.data);
    ReactionOctets(b, 0);
    ghost var es := c.history;
    var ok := c.ProcessReceive(read, [], draw, writeLen);
    ReactionOctets(b, c.pendingMsgType);
    Closes(before, key, drawn, between, ty);
  }

  lemma OverlaidStart(buffer: seq<byte>, data: seq<byte>)
    requires 4 <= |data| <= |buffer|
    ensures var b := Overlaid(buffer, data); b[0] == data[0] && b[1] == data[1] && b[2] == data[2] && b[3] == data[3]
  {
  }

  /** The law of a lone request, behind whatever came before it. */
  lemma Closes(before: seq<A.Event>, key: A.Key, drawn: int, between: seq<A.Event>, ty: int)
    requires A.Run(A.START, before).count == 0 && A.Run(A.START, before).queue == []
    requires key.id != 0 && A.Unrelated(between, key.id)
    ensures var ack := A.Key(key.id, ty);
      var es := before + ([A.Request(key, drawn)] + between);
      var closed := !A.Reconnected(between) && A.LastWritten(key.ty, between) == ty;
      && (closed ==>
            && A.Run(A.START, es).count == 1 && A.Run(A.START, es + [A.Acked(ack)]).count == 0
            && A.Accepted(A.START, es + [A.Acked(ack)]) == A.Accepted(A.START, before) + [ack])
      && (!closed ==> A.Run(A.START, es + [A.Acked(ack)]).count == A.Run(A.START, es).count)
  {
    hide A.Run, A.Accepted, A.LastWritten, A.Reconnected, A.Unrelated, A.Accepts;
    var a, rest, ack := A.Run(A.START, before), [A.Request(key, drawn)] + between, A.Key(key.id, ty);
    var es := before + rest;
    A.LoneAck(a, key, drawn, between, ty, []);
    A.RunAppend(A.START, before, rest);
    A.RunAppend(A.START, before, rest + [A.Acked(ack)]);
    assert es + [A.Acked(ack)] == before + (rest + [A.Acked(ack)]);
    A.RunSnoc(a, rest, A.Acked(ack));
    assert rest + [A.Acked(ack)] + [] == rest + [A.Acked(ack)];
    CountStep(A.Run(a, rest), ack);
  }

  lemma CountStep(a: A.Ack, k: A.Key)
    ensures A.Step(a, A.Acked(k)).count == if A.Accepts(a, k) then a.count - 1 else a.count
  {
  }

  // ----- Where an accepted CONNACK comes from -----

  /** A read that lands in pass m brings octet x, with the value v. */
  ghost predicate Brings(w: World, auto: bool, inputs: seq<PassInput>, m: nat, x: nat, v: byte)
    requires Fed(inputs, |w.buffer|)
  {
    m < |inputs|
    && var at := WorldAt(w, auto, inputs, m);
    && var landed := Landing(at.link.state, at.buffer, inputs[m]);
    exists i :: 0 <= i < |landed| && |landed[i].data| > x && landed[i].data[x] == v
  }

  lemma BringsLater(w: World, auto: bool, inputs: seq<PassInput>, m: nat, x: nat, v: byte)
    requires Fed(inputs, |w.buffer|) && inputs != []
    requires Brings(StepWorld(w, auto, inputs[0]), auto, inputs[1..], m, x, v)
    ensures Brings(w, auto, inputs, m + 1, x, v)
  {
    hide StepWorld, Landing;
    assert inputs[m + 1] == inputs[1..][m];
  }

  /** An octet of the buffer that differs from what was there at first came with an earlier pass. */
  lemma {:induction false} OctetFrom(w: World, auto: bool, inputs: seq<PassInput>, k: nat, x: nat) returns (m: nat)
    requires Fed(inputs, |w.buffer|) && k <= |inputs| && x < |w.buffer|
    requires WorldAt(w, auto, inputs, k).buffer[x] != w.buffer[x]
    ensures m < k && Brings(w, auto, inputs, m, x, WorldAt(w, auto, inputs, k).buffer[x])
    decreases k
  {
    hide Landing, NextBuffer, Brings, L.StepLink, Laid;
    var next := StepWorld(w, auto, inputs[0]);
    var v := WorldAt(w, auto, inputs, k).buffer[x];
    if next.buffer[x] == v {
      m := 0;
      FirstBrings(w, auto, inputs, x);
    } else {
      var later := OctetFrom(next, auto, inputs[1..], k - 1, x);
      m := later + 1;
      BringsLater(w, auto, inputs, later, x, v);
    }
  }

  lemma FirstBrings(w: World, auto: bool, inputs: seq<PassInput>, x: nat)
    requires Fed(inputs, |w.buffer|) && inputs != [] && x < |w.buffer|
    requires StepWorld(w, auto, inputs[0]).buffer[x] != w.buffer[x]
    ensures Brings(w, auto, inputs, 0, x, StepWorld(w, auto, inputs[0]).buffer[x])
  {
    hide Landing, NextBuffer, L.StepLink, Laid;
    NextLaid(w.link.state, w.buffer, inputs[0]);
    LaidOctet(w.buffer, Landing(w.link.state, w.buffer, inputs[0]), x);
  }

  /** As long as the loop runs, the state machine and the world agree on the connection. */
  lemma {:induction false} LinkAt(w: World, auto: bool, inputs: seq<PassInput>, k: nat)
    requires Fed(inputs, |w.buffer|) && k <= |inputs|
    requires L.RunLoop(w.link, auto, SeenBy(w, auto, inputs)[..k]).link.run
    ensures WorldAt(w, auto, inputs, k).link == L.RunLoop(w.link, auto, SeenBy(w, auto, inputs)[..k]).link
    decreases k
  {
    hide L.StepLink, NextBuffer;
    var ps := SeenBy(w, auto, inputs);
    if k > 0 {
      L.Running(w.link, auto, ps[..k]);
      L.RunFirst(w.link, auto, ps, k);
      var next := StepWorld(w, auto, inputs[0]);
      assert ps[1..] == SeenBy(next, auto, inputs[1..]);
      LinkAt(next, auto, inputs[1..], k - 1);
    } else {
      assert ps[..0] == [];
    }
  }

  /** An octet of an accepted CONNACK was in the buffer from the start, or came with a read of the run, at
      the latest the attempt's own. */
  lemma AcceptedOctet(w: World, auto: bool, inputs: seq<PassInput>, log: seq<L.LogEvent>, k: nat, j: nat, x: nat)
    returns (m: nat)
    requires Fed(inputs, |w.buffer|) && x < 4 && Backs(w, auto, inputs, log, k, j)
    ensures var v := Overlaid(WorldAt(w, auto, inputs, k).buffer, inputs[k].connectRead.data)[x];
      v == w.buffer[x] || (m <= k && Brings(w, auto, inputs, m, x, v))
  {
    hide L.RunLoop, SeenBy, WorldAt, ConnackAccepted;
    var at, read := WorldAt(w, auto, inputs, k), inputs[k].connectRead;
    m := k;
    if |read.data| > x {
      LinkAt(w, auto, inputs, k);
      assert Landing(at.link.state, at.buffer, inputs[k]) == [read];
      assert [read][0].data[x] == Overlaid(at.buffer, read.data)[x];
    } else if at.buffer[x] != w.buffer[x] {
      m := OctetFrom(w, auto, inputs, k, x);
    }
  }

  /** In pass m a read brought the first octet of a CONNACK. */
  ghost predicate BringsConnack(w: World, auto: bool, inputs: seq<PassInput>, m: nat)
    requires Fed(inputs, |w.buffer|)
  {
    exists v: byte :: TypeOf(v) == CONNACK && Brings(w, auto, inputs, m, 0, v)
  }

  /** The CONNECTED event at place j is backed, and by octets received in this pass or an earlier one. */
  ghost predicate Received(w: World, auto: bool, inputs: seq<PassInput>, log: seq<L.LogEvent>, j: nat)
    requires Fed(inputs, |w.buffer|)
  {
    exists k: nat, m: nat :: m <= k && Backs(w, auto, inputs, log, k, j) && BringsConnack(w, auto, inputs, m)
  }

  /** Unless the buffer starts out with the first octet of a CONNACK, every CONNECTED event is. */
  lemma ConnectedReceived(w: World, auto: bool, inputs: seq<PassInput>, log: seq<L.LogEvent>, k: nat, j: nat)
    requires Fed(inputs, |w.buffer|) && |w.buffer| > 0 && Backs(w, auto, inputs, log, k, j)
    requires TypeOf(w.buffer[0]) != CONNACK
    ensures Received(w, auto, inputs, log, j)
  {
    hide L.RunLoop, L.Connects, SeenBy, WorldAt, Overlaid, Brings, TypeOf;
    var m := AcceptedOctet(w, auto, inputs, log, k, j, 0);
    var v := Overlaid(WorldAt(w, auto, inputs, k).buffer, inputs[k].connectRead.data)[0];
    assert TypeOf(v) == CONNACK;
    assert BringsConnack(w, auto, inputs, m);
  }

  /** A run in which no attempt and no pass receives anything. */
  ghost predicate Silent(inputs: seq<PassInput>) {
    forall k :: 0 <= k < |inputs| ==> inputs[k].connectRead.data == [] && inputs[k].receive.data == []
  }

  lemma {:induction false} SilentBuffer(w: World, auto: bool, inputs: seq<PassInput>, k: nat)
    requires Fed(inputs, |w.buffer|) && Silent(inputs) && k <= |inputs|
    ensures WorldAt(w, auto, inputs, k).buffer == w.buffer
    decreases k
  {
    hide L.StepLink, Refilled, TotalLength;
    if k > 0 {
      OverlaidNone(w.buffer);
      SilentBuffer(StepWorld(w, auto, inputs[0]), auto, inputs[1..], k - 1);
    }
  }

  ghost predicate ConnectsSilently(w: World, auto: bool, inputs: seq<PassInput>) {
    Fed(inputs, |w.buffer|) && Silent(inputs)
    && var log := L.RunLoop(w.link, auto, SeenBy(w, auto, inputs)).log;
    exists j: nat :: j < |log| && log[j].ConnectedEvent?
  }

  /** A connection is announced in some run that receives nothing at all exactly when the buffer, which
      the source leaves as it was allocated, happens to start out as an accepting CONNACK. */
  lemma SilentConnectIff(buffer: seq<byte>, auto: bool)
    requires |buffer| >= 4
    ensures (exists inputs :: ConnectsSilently(World(L.Link(L.Init, true, 0), buffer), auto, inputs))
       <==> ConnackAccepted(buffer)
  {
    hide ConnackAccepted, L.RunLoop, SeenBy;
    var w := World(L.Link(L.Init, true, 0), buffer);
    if ConnackAccepted(buffer) {
      SilentWitness(w, auto);
    }
    if inputs :| ConnectsSilently(w, auto, inputs) {
      var log := L.RunLoop(w.link, auto, SeenBy(w, auto, inputs)).log;
      var j: nat :| j < |log| && log[j].ConnectedEvent?;
      var k := ConnectedBacked(w, auto, inputs, j);
      SilentBuffer(w, auto, inputs, k);
      OverlaidNone(buffer);
    }
  }

  lemma SilentWitness(w: World, auto: bool)
    requires w.link == L.Link(L.Init, true, 0) && |w.buffer| >= 4 && ConnackAccepted(w.buffer)
    ensures ConnectsSilently(w, auto, [PassOf(0, Read(0, []), Read(0, []))])
  {
    hide L.RunLoop, NextBuffer, ConnackAccepted, Overlaid, Remaining;
    var i := PassOf(0, Read(0, []), Read(0, []));
    OverlaidNone(w.buffer);
    RemainingCons(w, auto, i, []);
    RemainingNone(StepWorld(w, auto, i), auto, []);
    assert [i] + [] == [i];
    var log := Remaining(w, auto, [i]);
    assert log == [L.Attempt(0), L.Accepted(false), L.ConnectedEvent] + [];
    assert log[2].ConnectedEvent?;
    RemainingIs(w, auto, [i]);
  }

  lemma RemainingIs(w: World, auto: bool, inputs: seq<PassInput>)
    requires Fed(inputs, |w.buffer|)
    ensures Remaining(w, auto, inputs) == L.RunLoop(w.link, auto, SeenBy(w, auto, inputs)).log
  {
  }

  // ----- One CONNACK, two connections -----

  function PassOf(time: int, connectRead: Read, receive: Read): PassInput {
    PassInput(time, time, true, 1, connectRead, receive, [], 1, 1, 1)
  }

  /** A run in which one CONNACK is accepted twice: the connection it opened fails, and after the timeout
      an attempt whose read brings nothing finds it still in the buffer. */
  function StaleRun(): seq<PassInput> {
    [PassOf(0, Read(4, [32, 2, 0, 0]), Read(0, [])),
     PassOf(1, Read(0, []), Read(-1, [])),
     PassOf(10002, Read(0, []), Read(0, [])),
     PassOf(10003, Read(0, []), Read(0, []))]
  }

  lemma StaleSteps(buffer: seq<byte>, b: seq<byte>)
    requires |buffer| >= 4 && b == Overlaid(buffer, [32, 2, 0, 0])
    ensures StepWorld(World(L.Link(L.Init, true, 0), buffer), true, StaleRun()[0])
         == World(L.Link(L.Connected, true, 0), b)
    ensures ConnackAccepted(b)
  {
  }

  lemma StaleLaterSteps(b: seq<byte>)
    requires |b| >= 4
    ensures StepWorld(World(L.Link(L.Connected, true, 0), b), true, StaleRun()[1])
         == World(L.Link(L.WaitTimeout, true, 1), b)
    ensures StepWorld(World(L.Link(L.WaitTimeout, true, 1), b), true, StaleRun()[2])
         == World(L.Link(L.Init, true, 10002), b)
  {
    OverlaidNone(b);
  }

  /** One more pass of a run. */
  lemma RemainingCons(w: World, auto: bool, i: PassInput, rest: seq<PassInput>)
    requires i.Valid(|w.buffer|) && Fed(rest, |w.buffer|) && w.link.run
    ensures Fed([i] + rest, |w.buffer|)
    ensures Remaining(w, auto, [i] + rest)
         == L.StepLink(w.link, auto, i.Seen(w.buffer)).log + Remaining(StepWorld(w, auto, i), auto, rest)
  {
    hide L.StepLink, NextBuffer, Remaining;
    var all := [i] + rest;
    assert forall k :: 0 <= k < |rest| ==> rest[k] == all[k + 1];
    RemainingStep(w, auto, all, 0, []);
    assert all[0..] == all && all[1..] == rest;
    var o, r := L.StepLink(w.link, auto, i.Seen(w.buffer)).log, Remaining(StepWorld(w, auto, i), auto, rest);
    assert [] + Remaining(w, auto, all) == Remaining(w, auto, all) && [] + o == o;
  }

  lemma OneConnackTwice(buffer: seq<byte>)
    requires 4 <= |buffer| < 0x1_0000
    ensures Fed(StaleRun(), |buffer|) && Monotone(StaleRun(), 0)
    ensures Remaining(World(L.Link(L.Init, true, 0), buffer), true, StaleRun())
         == [L.Attempt(0), L.Accepted(true), L.ConnectedEvent, L.DisconnectedEvent(1),
             L.Attempt(10003), L.Accepted(false), L.ConnectedEvent]
  {
    hide Remaining, StepWorld, Overlaid;
    var r, b := StaleRun(), Overlaid(buffer, [32, 2, 0, 0]);
    StaleSteps(buffer, b);
    var tail := [r[1]] + ([r[2]] + ([r[3]] + []));
    assert r == [r[0]] + tail;
    StaleTail(b);
    RemainingCons(World(L.Link(L.Init, true, 0), buffer), true, r[0], tail);
  }

  /** After the accepted CONNACK. */
  lemma StaleTail(b: seq<byte>)
    requires |b| >= 4 && ConnackAccepted(b)
    ensures var r := StaleRun(); var tail := [r[1]] + ([r[2]] + ([r[3]] + []));
      Fed(tail, |b|)
      && Remaining(World(L.Link(L.Connected, true, 0), b), true, tail)
         == [L.DisconnectedEvent(1), L.Attempt(10003), L.Accepted(false), L.ConnectedEvent]
  {
    hide Remaining, StepWorld, Overlaid, ConnackAccepted;
    var r := StaleRun();
    StaleLaterSteps(b);
    OverlaidNone(b);
    var w3 := World(L.Link(L.Init, true, 10002), b);
    RemainingCons(w3, true, r[3], []);
    RemainingNone(StepWorld(w3, true, r[3]), true, []);
    RemainingCons(World(L.Link(L.WaitTimeout, true, 1), b), true, r[2], [r[3]] + []);
    RemainingCons(World(L.Link(L.Connected, true, 0), b), true, r[1], [r[2]] + ([r[3]] + []));
  }

  /** The loop of esp_mqtt_task over whatever the outside supplies, for a fresh client under a clock
      that never goes back: the run is the state machine's, so its laws hold of it; every CONNECTED event
      is backed by an accepting CONNACK in the buffer, and, unless the buffer was allocated with the first
      octet of one, by one received in the run; and the bookkeeping sees what each pass does to it, pings
      included. */
  method RunTask(c: Client, inputs: seq<PassInput>, ghost now: int)
    requires c.Valid() && c.log == [] && c.Link() == L.Link(L.Init, true, 0)
    requires Fed(inputs, c.inBuffer.Length) && Monotone(inputs, now)
    modifies c, c.conn, c.conn.buffer, c.outbox, c.outbox.Repr(), c.inBuffer
    ensures c.Valid()
    ensures var w := World(L.Link(L.Init, true, 0), old(c.inBuffer[..]));
      && c.log == L.RunLoop(w.link, c.autoReconnect, SeenBy(w, c.autoReconnect, inputs)).log
      && (forall j: nat :: j < |c.log| && c.log[j].ConnectedEvent? ==>
            exists k: nat :: Backs(w, c.autoReconnect, inputs, c.log, k, j))
      && (TypeOf(w.buffer[0]) != CONNACK ==>
            forall j: nat :: j < |c.log| && c.log[j].ConnectedEvent? ==>
              Received(w, c.autoReconnect, inputs, c.log, j))
      && L.ConnectedExactly(w.link, c.autoReconnect, SeenBy(w, c.autoReconnect, inputs), c.log)
    ensures L.Separated(c.log) && L.Spaced(c.log)
    ensures var w := World(L.Link(L.Init, true, 0), old(c.inBuffer[..]));
      var t := TraceBy(w, old(c.keepaliveTick), c.autoReconnect, c.info.keepalive, inputs);
      c.keepaliveTick == t.tick && (c.Sendable() ==> c.history == old(c.history) + t.events)
  {
    hide A.Run, A.AllowedRun, Keys, L.StepLink, L.RunLoop, L.Separated, L.Spaced, L.ConnectedExactly,
         ConnackAccepted, Overlaid, SeenBy, Backs, Received, NextBuffer,
         TraceBy, PassEvents, NextTick;
    var k := 0;
    ghost var w := World(c.Link(), c.inBuffer[..]);
    ghost var all := L.RunLoop(w.link, c.autoReconnect, SeenBy(w, c.autoReconnect, inputs)).log;
    assert inputs[0..] == inputs && [] + all == all;
    ghost var h := c.history;
    ghost var trace := TraceBy(w, c.keepaliveTick, c.autoReconnect, c.info.keepalive, inputs);
    while k < |inputs| && c.run
      invariant 0 <= k <= |inputs| && c.Valid()
      invariant c.outbox.Repr() <= old(c.outbox.Repr())
      invariant c.log + Remaining(World(c.Link(), c.inBuffer[..]), c.autoReconnect, inputs[k..]) == all
      invariant var t := TraceBy(World(c.Link(), c.inBuffer[..]), c.keepaliveTick, c.autoReconnect, c.info.keepalive,
                                 inputs[k..]);
        t.tick == trace.tick && (c.Sendable() ==> c.history + t.events == h + trace.events)
    {
      TraceStep(World(c.Link(), c.inBuffer[..]), c.keepaliveTick, c.autoReconnect, c.info.keepalive, inputs, k,
                c.history);
      RemainingStep(World(c.Link(), c.inBuffer[..]), c.autoReconnect, inputs, k, c.log);
      c.TaskPass(inputs[k]);
      k := k + 1;
    }
    RemainingNone(World(c.Link(), c.inBuffer[..]), c.autoReconnect, inputs[k..]);
    TraceEnd(World(c.Link(), c.inBuffer[..]), c.keepaliveTick, c.autoReconnect, c.info.keepalive, inputs[k..]);
    assert c.log + [] == c.log && c.history + [] == c.history;
    SeenMonotone(w, c.autoReconnect, inputs, now);
    L.ClientLoop(c.autoReconnect, SeenBy(w, c.autoReconnect, inputs), now);
    forall j: nat | j < |c.log| && c.log[j].ConnectedEvent?
      ensures exists k: nat :: Backs(w, c.autoReconnect, inputs, c.log, k, j)
      ensures TypeOf(w.buffer[0]) != CONNACK ==> Received(w, c.autoReconnect, inputs, c.log, j)
    {
      var k := ConnectedBacked(w, c.autoReconnect, inputs, j);
      if TypeOf(w.buffer[0]) != CONNACK {
        ConnectedReceived(w, c.autoReconnect, inputs, c.log, k, j);
      }
    }
  }

  /** What the rest of a run logs. */
  ghost function Remaining(w: World, auto: bool, inputs: seq<PassInput>): seq<L.LogEvent>
    requires Fed(inputs, |w.buffer|)
  {
    L.RunLoop(w.link, auto, SeenBy(w, auto, inputs)).log
  }

  lemma RemainingStep(w: World, auto: bool, inputs: seq<PassInput>, k: nat, done: seq<L.LogEvent>)
    requires Fed(inputs, |w.buffer|) && k < |inputs| && w.link.run
    ensures done + Remaining(w, auto, inputs[k..])
         == (done + L.StepLink(w.link, auto, inputs[k].Seen(w.buffer)).log)
            + Remaining(World(L.StepLink(w.link, auto, inputs[k].Seen(w.buffer)).link,
                              NextBuffer(w.link.state, w.buffer, inputs[k])),
                        auto, inputs[k + 1..])
  {
    hide L.StepLink, NextBuffer;
    assert inputs[k..][1..] == inputs[k + 1..];
    var ps := SeenBy(w, auto, inputs[k..]);
    var next := StepWorld(w, auto, inputs[k]);
    assert ps[0] == inputs[k].Seen(w.buffer) && ps[1..] == SeenBy(next, auto, inputs[k + 1..]);
    var o := L.StepLink(w.link, auto, ps[0]);
    var rest := Remaining(next, auto, inputs[k + 1..]);
    assert done + (o.log + rest) == (done + o.log) + rest;
  }

  lemma RemainingNone(w: World, auto: bool, inputs: seq<PassInput>)
    requires Fed(inputs, |w.buffer|) && (inputs == [] || !w.link.run)
    ensures Remaining(w, auto, inputs) == []
  {
  }

  ghost predicate Monotone(inputs: seq<PassInput>, now: int)
    decreases |inputs|
  {
    inputs == [] || (now <= inputs[0].start <= inputs[0].end && Monotone(inputs[1..], inputs[0].end))
  }
}
