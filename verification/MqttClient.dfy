/** The client of components/espmqtt/mqtt_client.c: API calls and passes of its loop, each one atomic
    step; transport results, clock readings and random draws are inputs. */
module MqttClient {
  import opened Bytes
  import opened MqttWire
  import opened MqttMsg
  import opened MqttParse
  import opened MqttRoundTrip
  import opened OutboxSpec
  import Outbox
  import opened Fragments
  import opened Answers
  import A = AckSpec
  import L = LinkSpec

  /** A transport_read: its return value, and the octets it put in the buffer. */
  datatype Read = Read(len: int, data: seq<byte>) {
    predicate Valid() { |data| == if len > 0 then len else 0 }
  }

  function Keys(es: seq<Entry>): (r: seq<A.Key>)
    ensures |r| == |es|
  {
    seq(|es|, i requires 0 <= i < |es| => A.Key(es[i].msgId, es[i].msgType))
  }

  lemma {:induction false} KeysFind(es: seq<Entry>, id: int, ty: int)
    ensures Find(es, Is(id, ty)) == A.FindKey(Keys(es), A.Key(id, ty))
  {
    if es != [] {
      assert Keys(es)[1..] == Keys(es[1..]);
      KeysFind(es[1..], id, ty);
    }
  }

  /** outbox_delete, as the keys see it. */
  lemma KeysRemoved(es: seq<Entry>, id: int, ty: int)
    ensures var k := A.FindKey(Keys(es), A.Key(id, ty));
      Keys(RemoveFirst(es, Is(id, ty))) == if k < |es| then Keys(es)[..k] + Keys(es)[k + 1..] else Keys(es)
  {
    KeysFind(es, id, ty);
  }

  predicate Acceptable(recvs: seq<Read>, size: nat) {
    forall i :: 0 <= i < |recvs| ==> recvs[i].Valid() && |recvs[i].data| <= size
  }

  function Lens(recvs: seq<Read>): (r: seq<int>)
    ensures |r| == |recvs|
  {
    seq(|recvs|, i requires 0 <= i < |recvs| => recvs[i].len)
  }

  lemma LensFrom(recvs: seq<Read>, i: nat)
    requires i < |recvs|
    ensures Lens(recvs[i..]) != [] && Lens(recvs[i..])[0] == recvs[i].len
    ensures Lens(recvs[i..])[1..] == Lens(recvs[i + 1..])
  {
  }

  /** How much payload mqtt_get_publish_data sees in the buffer in each turn of deliver_publish. */
  function Views(buffer: seq<byte>, length: nat, recvs: seq<Read>): (r: seq<uint16>)
    requires length <= |buffer| < 0x1_0000 && Acceptable(recvs, |buffer|)
    ensures |r| == |recvs| + 1
    decreases |recvs|
  {
    [ViewLength(buffer, length)]
    + if recvs == [] then [] else Views(Overlaid(buffer, recvs[0].data), length, recvs[1..])
  }

  function ViewLength(buffer: seq<byte>, length: nat): uint16
    requires length <= |buffer| < 0x1_0000
  {
    var v := DataView(buffer[..length]);
    if v.At? then v.len else 0
  }

  lemma ViewsFrom(buffer: seq<byte>, length: nat, recvs: seq<Read>, i: nat)
    requires length <= |buffer| < 0x1_0000 && Acceptable(recvs, |buffer|) && i <= |recvs|
    ensures var vs := Views(buffer, length, recvs[i..]);
      && vs != [] && vs[0] == ViewLength(buffer, length)
      && (i < |recvs| ==> vs[1..] == Views(Overlaid(buffer, recvs[i].data), length, recvs[i + 1..]))
  {
    hide ViewLength, Overlaid;
    if i < |recvs| {
      assert recvs[i..][1..] == recvs[i + 1..];
    }
  }

  /** One turn of deliver_publish, with the events before it. */
  lemma DeliverTurn(ml: uint16, mlr: uint16, total: uint16, offset: uint16, lenRead: uint16,
                    buffer: seq<byte>, length: nat, recvs: seq<Read>, i: nat, done: seq<Fragment>)
    requires length <= |buffer| < 0x1_0000 && Acceptable(recvs, |buffer|) && i <= |recvs|
    ensures var v := ViewLength(buffer, length);
      var total' := if total == 0 then U16(ml as int - mlr + v) else total;
      var len := if total == 0 then v else lenRead;
      var now := done + [Fragment(len, total', offset)];
      done + Deliver(ml, mlr, total, offset, lenRead, Views(buffer, length, recvs[i..]), Lens(recvs[i..]))
      == if mlr >= ml || i == |recvs| || recvs[i].len <= 0 then now
         else now + Deliver(ml, U16(mlr as int + recvs[i].len), total', U16(offset as int + len), U16(recvs[i].len),
                            Views(Overlaid(buffer, recvs[i].data), length, recvs[i + 1..]), Lens(recvs[i + 1..]))
  {
    hide ViewLength, Lens, U16, Overlaid, Views, Deliver;
    var vs, ns := Views(buffer, length, recvs[i..]), Lens(recvs[i..]);
    ViewsFrom(buffer, length, recvs, i);
    DeliverUnfold(ml, mlr, total, offset, lenRead, vs, ns);
    var total' := if total == 0 then U16(ml as int - mlr + vs[0]) else total;
    var len := if total == 0 then vs[0] else lenRead;
    var f := [Fragment(len, total', offset)];
    if mlr >= ml || i == |recvs| || recvs[i].len <= 0 {
      if i < |recvs| {
        LensFrom(recvs, i);
      }
      assert f + [] == f;
    } else {
      LensFrom(recvs, i);
      var rest := Deliver(ml, U16(mlr as int + recvs[i].len), total', U16(offset as int + len), U16(recvs[i].len),
                          vs[1..], ns[1..]);
      assert done + (f + rest) == (done + f) + rest;
    }
  }

  lemma LensBounded(recvs: seq<Read>, size: nat)
    requires Acceptable(recvs, size)
    ensures forall i :: 0 <= i < |recvs| ==> Lens(recvs)[i] <= size
  {
    assert forall i :: 0 <= i < |recvs| ==>
      Lens(recvs)[i] == recvs[i].len && (recvs[i].len > 0 ==> |recvs[i].data| == recvs[i].len);
  }

  /** Where message and buffer together stay within 65536 octets, the octets still to come bound the
      events, however many reads the transport could still supply. */
  lemma EventsBounded(ml: uint16, mlr: uint16, buffer: seq<byte>, length: nat, recvs: seq<Read>)
    requires length <= |buffer| < 0x1_0000 && Acceptable(recvs, |buffer|) && ml + |buffer| <= 0x1_0000
    ensures |Deliver(ml, mlr, 0, 0, 0, Views(buffer, length, recvs), Lens(recvs))| <= Left(ml, mlr) + 1
  {
    hide Deliver, Views, Taken, Lens;
    LensBounded(recvs, |buffer|);
    UnwrappedWithin(ml, mlr, Lens(recvs), |buffer|);
    ReadsBounded(ml, mlr, Lens(recvs));
    EventsPerRead(ml, mlr, 0, 0, 0, Views(buffer, length, recvs), Lens(recvs));
  }

  /** The buffer after deliver_publish: each read the loop makes use of lands in it. */
  function Refilled(buffer: seq<byte>, ml: uint16, mlr: uint16, recvs: seq<Read>): (r: seq<byte>)
    requires Acceptable(recvs, |buffer|)
    ensures |r| == |buffer|
    decreases |recvs|
  {
    if mlr >= ml || recvs == [] || recvs[0].len <= 0 then buffer
    else Refilled(Overlaid(buffer, recvs[0].data), ml, U16(mlr + recvs[0].len), recvs[1..])
  }

  lemma RefilledStep(buffer: seq<byte>, ml: uint16, mlr: uint16, recvs: seq<Read>, i: nat)
    requires Acceptable(recvs, |buffer|) && i <= |recvs|
    ensures Refilled(buffer, ml, mlr, recvs[i..])
         == if mlr >= ml || i == |recvs| || recvs[i].len <= 0 then buffer
            else Refilled(Overlaid(buffer, recvs[i].data), ml, U16(mlr + recvs[i].len), recvs[i + 1..])
  {
    hide U16, Overlaid;
    if i < |recvs| {
      assert recvs[i..][1..] == recvs[i + 1..];
    }
  }

  /** The first n reads of a transport that never runs dry. */
  function Prefix(supply: nat -> Read, n: nat): (r: seq<Read>)
    ensures |r| == n && forall i :: 0 <= i < n ==> r[i] == supply(i)
  {
    seq(n, (i: nat) => supply(i))
  }

  /** What process_receive delivers of an incoming PUBLISH: if the first read covers header, topic and
      id, and the counter does not wrap, which it cannot where message and buffer together stay within
      65536 octets, the events tile its payload; all of it exactly when the reads used end where the
      message ends. */
  lemma DeliveredTiles(topic: seq<byte>, data: seq<byte>, qos: nat, retain: int, id: uint16, n: nat,
                       b: seq<byte>, recvs: seq<Read>)
    requires topic != [] && qos < 4 && |Incoming(topic, data, qos, retain, id)| < 0x1_0000
    requires PayloadStart(topic, data, qos, id) <= n <= |Incoming(topic, data, qos, retain, id)|
    requires n <= |b| < 0x1_0000 && b[..n] == Incoming(topic, data, qos, retain, id)[..n]
    requires Acceptable(recvs, |b|)
    requires var ml := |Incoming(topic, data, qos, retain, id)|; ml + |b| <= 0x1_0000 || Unwrapped(ml, n, Lens(recvs))
    ensures var p := Incoming(topic, data, qos, retain, id);
      var fs := Deliver(U16(TotalLength(b[..n])), U16(n), 0, 0, 0, Views(b, n, recvs), Lens(recvs));
      var taken := Taken(|p|, n, Lens(recvs));
      && Tiles(fs, |data|, 0) && |fs| == |taken| + 1
      && (Lengths(fs) == |data| <==> n + Sum(taken) == |p|)
      && (NoOverrun(|p| - n, Lens(recvs)) ==> taken == Lens(recvs))
  {
    hide Deliver, Tiles, Lengths, NoOverrun, DataView, TotalLength, Incoming, PayloadStart, Lens, Taken, Unwrapped, Sum;
    U16Small(n);
    LensBounded(recvs, |b|);
    var ml := |Incoming(topic, data, qos, retain, id)|;
    if ml + |b| <= 0x1_0000 {
      UnwrappedWithin(ml, n, Lens(recvs), |b|);
    }
    IncomingTiles(topic, data, qos, retain, id, n, Views(b, n, recvs), Lens(recvs));
  }

  /** The request type each acknowledgement answers. */
  function RequestType(ty: nat): nat {
    if ty == SUBACK then SUBSCRIBE else if ty == UNSUBACK then UNSUBSCRIBE else if ty == PUBACK then PUBLISH else PUBREL
  }

  /** What a received packet does to the in-flight bookkeeping, written being the type that went out. */
  function Reaction(b: seq<byte>, written: int): A.Event
    requires b != []
  {
    if TypeOf(b[0]) in {SUBACK, UNSUBACK, PUBACK, PUBCOMP} then A.Acked(A.Key(IdOf(b), RequestType(TypeOf(b[0]))))
    else if ReplyType(b).Some? then A.Write(written)
    else A.Ignored
  }

  /** What every received packet does, in octets: SUBACK, UNSUBACK, PUBACK and PUBCOMP acknowledge a
      SUBSCRIBE, an UNSUBSCRIBE, a PUBLISH and a PUBREL of the id in octets 2 and 3; PUBLISH at QoS 1 and 2,
      PUBREC, PUBREL and PINGREQ are answered; anything else leaves the bookkeeping alone. */
  lemma ReactionOctets(b: seq<byte>, written: int)
    requires |b| >= 4
    ensures var id := if b[1] < 128 then b[2] as int * 0x100 + b[3] else 0;
      && (b[0] / 16 == 9 ==> Reaction(b, written) == A.Acked(A.Key(id, 8)))
      && (b[0] / 16 == 11 ==> Reaction(b, written) == A.Acked(A.Key(id, 10)))
      && (b[0] / 16 == 4 ==> Reaction(b, written) == A.Acked(A.Key(id, 3)))
      && (b[0] / 16 == 7 ==> Reaction(b, written) == A.Acked(A.Key(id, 6)))
    ensures b[0] / 16 == 3 ==> Reaction(b, written) == if b[0] / 2 % 4 in {1, 2} then A.Write(written) else A.Ignored
    ensures b[0] / 16 in {5, 6, 12} ==> Reaction(b, written) == A.Write(written)
    ensures b[0] / 16 in {0, 1, 2, 8, 10, 13, 14, 15} ==> Reaction(b, written) == A.Ignored
  {
    hide IdOf, ReplyType;
    IdExactly(b);
    AnswerOctets(b, 1);
  }

  /** The type of the answer, if there is one. */
  function ReplyWritten(b: seq<byte>): int
    requires b != []
  {
    if ReplyType(b).Some? then ReplyType(b).value else 0
  }

  lemma ReactionWritten(b: seq<byte>, written: int)
    requires b != [] && (ReplyType(b).Some? ==> written == ReplyType(b).value)
    ensures Reaction(b, written) == Reaction(b, ReplyWritten(b))
  {
    hide ReplyType, IdOf;
  }

  /** is_valid_mqtt_msg in terms of the outbox's own contents. */
  lemma AckedStep(count: int, slot: A.Key, es: seq<Entry>, id: int, ty: int)
    ensures var a, k := A.Ack(count, slot, Keys(es)), A.Key(id, ty);
      var left := RemoveFirst(es, Is(id, ty));
      && (A.Accepts(a, k) <==> count != 0 && (|left| < |es| || slot == k))
      && A.Step(a, A.Acked(k)) == if A.Accepts(a, k) then A.Ack(count - 1, slot, Keys(left)) else a
  {
    KeysFind(es, id, ty);
    KeysRemoved(es, id, ty);
  }

  lemma RemoveFirstNone(es: seq<Entry>, id: int, ty: int)
    requires |RemoveFirst(es, Is(id, ty))| == |es|
    ensures RemoveFirst(es, Is(id, ty)) == es
  {
  }

  /** Everything one pass of the client loop may take from outside; start and end are its first and
      second reading of the clock. */
  datatype PassInput = PassInput(start: int, end: int, transportUp: bool, connectWrite: int, connectRead: Read,
                                 receive: Read, later: seq<Read>, draw: uint16, replyWrite: int, pingWrite: int) {
    predicate Valid(size: nat) {
      && draw != 0 && connectRead.Valid() && |connectRead.data| <= size
      && receive.Valid() && |receive.data| <= size && Acceptable(later, size)
    }

    /** The pass as the connection state machine sees it. */
    ghost function Seen(buffer: seq<byte>): L.Pass
      requires |buffer| >= 4 && |connectRead.data| <= |buffer|
    {
      L.Pass(start, end, transportUp,
             connectWrite >= 0 && connectRead.len >= 0 && ConnackAccepted(Overlaid(buffer, connectRead.data)),
             |connectRead.data| >= 4, receive.len < 0)
    }
  }

  /** The input buffer after mqtt_process_receive. */
  function Processed(buffer: seq<byte>, read: Read, later: seq<Read>): (r: seq<byte>)
    requires read.Valid() && |read.data| <= |buffer| && Acceptable(later, |buffer|)
    ensures |r| == |buffer|
  {
    if read.len <= 0 then buffer
    else
      var b := Overlaid(buffer, read.data);
      if TypeOf(b[0]) == PUBLISH then Refilled(b, U16(TotalLength(b[..read.len])), U16(read.len), later) else b
  }

  /** The input buffer after a pass. */
  function NextBuffer(state: L.State, buffer: seq<byte>, i: PassInput): (r: seq<byte>)
    requires i.Valid(|buffer|)
    ensures |r| == |buffer|
  {
    match state
    case Init => if i.transportUp && i.connectWrite >= 0 then Overlaid(buffer, i.connectRead.data) else buffer
    case Connected => Processed(buffer, i.receive, i.later)
    case WaitTimeout => buffer
  }

  /** The test for a ping. */
  predicate Due(keepalive: nat, tick: int, start: int) {
    L.Tick(L.Tick(start) - tick) > keepalive * 1000 / 2
  }

  /** It holds exactly when the time since the last ping, modulo the counter's period, is above half the
      keepalive interval of so many seconds and below half the period. */
  lemma DueExactly(keepalive: nat, last: int, now: int)
    ensures Due(keepalive, L.Tick(last), now) <==>
      500 * keepalive < (now - last) % 0x1_0000_0000 < 0x8000_0000
  {
    hide L.Tick;
    L.TickDifference(now, last);
    L.TickCut(now - last);
  }

  /** keepalive_tick after a pass. */
  function NextTick(state: L.State, keepalive: nat, tick: int, i: PassInput): int {
    if state == L.Connected && i.receive.len >= 0 && Due(keepalive, tick, i.start) then L.Tick(i.end) else tick
  }

  /** What a pass does to the in-flight bookkeeping: CONNECT for an attempt; the reaction to what a connected
      client receives, then PINGREQ when one is due. */
  function PassEvents(state: L.State, buffer: seq<byte>, keepalive: nat, tick: int, i: PassInput): seq<A.Event>
    requires i.Valid(|buffer|)
  {
    match state
    case Init => if i.transportUp then [A.Reconnect(CONNECT)] else []
    case Connected =>
      if i.receive.len < 0 then []
      else
        Reactions(buffer, i.receive) + if Due(keepalive, tick, i.start) then [A.Write(PINGREQ)] else []
    case WaitTimeout => []
  }

  function Reactions(buffer: seq<byte>, read: Read): seq<A.Event>
    requires read.Valid() && |read.data| <= |buffer|
  {
    if read.len <= 0 then []
    else
      var b := Overlaid(buffer, read.data);
      [Reaction(b, ReplyWritten(b))]
  }

  lemma NoReactions(buffer: seq<byte>, read: Read)
    requires read.Valid() && |read.data| <= |buffer| && read.len <= 0
    ensures Reactions(buffer, read) == []
  {
  }

  // ----- Where the octets in the buffer come from -----

  /** The buffer after reads that all land at its start. */
  function Laid(buffer: seq<byte>, landed: seq<Read>): (r: seq<byte>)
    requires Acceptable(landed, |buffer|)
    ensures |r| == |buffer|
    decreases |landed|
  {
    if landed == [] then buffer else Laid(Overlaid(buffer, landed[0].data), landed[1..])
  }

  /** The reads of deliver_publish that land. */
  function Used(ml: uint16, mlr: uint16, recvs: seq<Read>): (r: seq<Read>)
    ensures |r| <= |recvs| && r == recvs[..|r|]
    decreases |recvs|
  {
    if mlr >= ml || recvs == [] || recvs[0].len <= 0 then []
    else [recvs[0]] + Used(ml, U16(mlr + recvs[0].len), recvs[1..])
  }

  /** The reads that land in a pass. */
  function Landing(state: L.State, buffer: seq<byte>, i: PassInput): (r: seq<Read>)
    requires i.Valid(|buffer|)
    ensures Acceptable(r, |buffer|)
  {
    match state
    case Init => if i.transportUp && i.connectWrite >= 0 then [i.connectRead] else []
    case Connected =>
      if i.receive.len <= 0 then []
      else
        var b := Overlaid(buffer, i.receive.data);
        [i.receive] + if TypeOf(b[0]) == PUBLISH
                      then Used(U16(TotalLength(b[..i.receive.len])), U16(i.receive.len), i.later) else []
    case WaitTimeout => []
  }

  lemma {:induction false} RefilledLaid(buffer: seq<byte>, ml: uint16, mlr: uint16, recvs: seq<Read>)
    requires Acceptable(recvs, |buffer|)
    ensures Refilled(buffer, ml, mlr, recvs) == Laid(buffer, Used(ml, mlr, recvs))
    decreases |recvs|
  {
    hide U16, Overlaid;
    if mlr < ml && recvs != [] && recvs[0].len > 0 {
      RefilledLaid(Overlaid(buffer, recvs[0].data), ml, U16(mlr + recvs[0].len), recvs[1..]);
      assert Used(ml, mlr, recvs)[1..] == Used(ml, U16(mlr + recvs[0].len), recvs[1..]);
    }
  }

  /** A pass changes the buffer by these alone. */
  lemma NextLaid(state: L.State, buffer: seq<byte>, i: PassInput)
    requires i.Valid(|buffer|)
    ensures NextBuffer(state, buffer, i) == Laid(buffer, Landing(state, buffer, i))
  {
    hide Overlaid, Refilled, Used, U16, TotalLength;
    if state == L.Connected && i.receive.len > 0 {
      var b := Overlaid(buffer, i.receive.data);
      if TypeOf(b[0]) == PUBLISH {
        RefilledLaid(b, U16(TotalLength(b[..i.receive.len])), U16(i.receive.len), i.later);
      }
      assert Landing(state, buffer, i)[1..] ==
        if TypeOf(b[0]) == PUBLISH then Used(U16(TotalLength(b[..i.receive.len])), U16(i.receive.len), i.later) else [];
    } else if state == L.Init && i.transportUp && i.connectWrite >= 0 {
      assert [i.connectRead][1..] == [];
    }
  }

  /** An octet that reads have changed is one of theirs. */
  lemma {:induction false} LaidOctet(buffer: seq<byte>, landed: seq<Read>, x: nat)
    requires Acceptable(landed, |buffer|) && x < |buffer|
    ensures Laid(buffer, landed)[x] == buffer[x]
         || exists i :: 0 <= i < |landed| && |landed[i].data| > x && landed[i].data[x] == Laid(buffer, landed)[x]
    decreases |landed|
  {
    if landed != [] {
      var b := Overlaid(buffer, landed[0].data);
      LaidOctet(b, landed[1..], x);
      if i :| 0 <= i < |landed| - 1 && |landed[1..][i].data| > x && landed[1..][i].data[x] == Laid(b, landed[1..])[x] {
        assert landed[i + 1] == landed[1..][i];
      }
    }
  }

  class Client {
    const conn: Connection
    const outbox: Outbox.Queue
    const inBuffer: array<byte>
    const info: ConnectInfo
    const v311: bool
    const autoReconnect: bool
    var messageLength: uint16
    var messageLengthRead: uint16
    var pendingMsgId: uint16
    var pendingMsgType: nat
    var pendingMsgCount: int
    var state: L.State
    var run: bool
    var keepaliveTick: int
    var reconnectTick: int
    var delivered: seq<Fragment>       // the MQTT_EVENT_DATA events of the latest PUBLISH
    ghost var history: seq<A.Event>    // what has happened to the in-flight bookkeeping
    ghost var log: seq<L.LogEvent>     // what has happened to the connection

    ghost predicate Shape()
      reads this, conn, outbox, outbox.Repr()
    {
      conn.Valid() && outbox.Valid() && conn.buffer != inBuffer && 4 <= inBuffer.Length < 0x1_0000
    }

    /** The bookkeeping in its three places. */
    ghost function Ack(): A.Ack
      reads this, outbox
    {
      A.Ack(pendingMsgCount, A.Key(pendingMsgId, pendingMsgType), Keys(outbox.contents))
    }

    /** It is what the recorded history leads to, so everything proved of every run holds of it. */
    ghost predicate Valid()
      reads this, conn, outbox, outbox.Repr()
    {
      Shape() && Ack() == A.Run(A.START, history) && A.AllowedRun(A.START, history)
    }

    ghost function Link(): L.Link
      reads this
    {
      L.Link(state, run, reconnectTick)
    }

    /** Whether the client's CONNECT can be built at all, in which case every answer can, too. */
    ghost predicate Sendable()
      reads conn
    {
      info.clientId != [] && conn.Fits(|ConnectBody(v311, info)|)
    }

    lemma SendableFits()
      requires Sendable()
      ensures conn.Fits(2)
    {
      hide OptionalFields, Flags;
    }

    /** esp_mqtt_client_init, and the start of its loop. */
    constructor (bufferSize: int, info: ConnectInfo, v311: bool, autoReconnect: bool)
      requires bufferSize <= 0 || 4 <= bufferSize < 0x1_0000
      ensures Valid() && history == [] && log == [] && Link() == L.Link(L.Init, true, 0)
      ensures inBuffer.Length == conn.bufferLength == if bufferSize <= 0 then 1024 else bufferSize
    {
      var size := if bufferSize <= 0 then 1024 else bufferSize;
      var outBuffer := new byte[size];
      inBuffer := new byte[size];
      conn := new Connection(outBuffer, size);
      outbox := new Outbox.Queue();
      this.info, this.v311, this.autoReconnect := info, v311, autoReconnect;
      messageLength, messageLengthRead := 0, 0;
      pendingMsgId, pendingMsgType, pendingMsgCount := 0, 0, 0;
      state, run := L.Init, true;
      keepaliveTick, reconnectTick := 0, 0;
      delivered, history, log := [], [], [];
      new;
      assert Keys(outbox.contents) == [];
    }

    /** After any interleaving of calls and passes: the counter is the requests made minus the
        acknowledgements accepted, it stays between 0 and one more than the outbox holds, and every id
        accepted is 0 or had been drawn for a request before. */
    lemma Accounted()
      requires Valid()
      ensures pendingMsgCount == A.Requests(history) - |A.Accepted(A.START, history)|
      ensures 0 <= pendingMsgCount <= |outbox.contents| + 1
      ensures forall n: nat :: A.AcceptedAt(A.START, history, n) ==> history[n].key.id in {0} + A.Draws(history[..n])
    {
      hide A.AcceptedAt;
      A.Accounting(A.START, history);
      forall n: nat | A.AcceptedAt(A.START, history, n)
        ensures n < |history| && history[n].Acked? && history[n].key.id in {0} + A.Draws(history[..n])
      {
        AcceptedBefore(history, n);
      }
    }

    /** mqtt_get_type of outbound_message->data, which after a failed build is whatever the buffer starts with. */
    function OutType(): nat
      reads conn, conn.buffer
      requires conn.Valid()
    {
      TypeOf(conn.buffer[conn.start])
    }

    /** mqtt_write_data */
    method WriteData(writeLen: int) returns (ok: bool)
      requires Shape()
      modifies this`pendingMsgType
      ensures pendingMsgType == OutType() && (ok <==> writeLen > 0)
    {
      pendingMsgType := OutType();
      ok := writeLen > 0;
    }

    /** mqtt_enqueue */
    method Enqueue(tick: int)
      requires Shape()
      modifies outbox, outbox.Repr()
      ensures Shape()
      ensures Keys(outbox.contents) == old(Keys(outbox.contents))
        + if pendingMsgCount > 0 then [A.Key(pendingMsgId, pendingMsgType)] else []
      ensures outbox.contents == old(outbox.contents)
        + if pendingMsgCount > 0 then [Entry(conn.Message(), pendingMsgId, pendingMsgType, tick, false)] else []
      ensures fresh(outbox.Repr() - old(outbox.Repr()))
    {
      if pendingMsgCount > 0 {
        var data := conn.buffer[conn.start..conn.start + conn.length];
        var item := outbox.Enqueue(data, pendingMsgId, pendingMsgType, tick);
      }
    }

    /** Recording one event keeps the history in step with the state. */
    lemma Recorded(before: seq<A.Event>, e: A.Event)
      requires A.AllowedRun(A.START, before) && A.Allowed(A.Run(A.START, before), e)
      ensures A.Run(A.START, before + [e]) == A.Step(A.Run(A.START, before), e)
      ensures A.AllowedRun(A.START, before + [e])
    {
      A.RunSnoc(A.START, before, e);
      A.AllowedSnoc(A.START, before, e);
    }

    /** is_valid_mqtt_msg */
    method IsValidMsg(msgType: nat, msgId: uint16) returns (ok: bool)
      requires Valid()
      modifies this`pendingMsgCount, this`history, outbox, outbox.Repr()
      ensures Valid() && history == old(history) + [A.Acked(A.Key(msgId, msgType))]
      ensures ok <==> A.Accepts(old(Ack()), A.Key(msgId, msgType))
      ensures outbox.Repr() <= old(outbox.Repr())
    {
      hide A.Run, A.AllowedRun, A.Accepts, A.Step, Keys, RemoveFirst;
      ghost var key, before := A.Key(msgId, msgType), outbox.contents;
      AckedStep(pendingMsgCount, A.Key(pendingMsgId, pendingMsgType), before, msgId, msgType);
      Recorded(history, A.Acked(key));
      history := history + [A.Acked(key)];
      if pendingMsgCount == 0 {
        return false;
      }
      ok := outbox.Delete(msgId, msgType);
      if ok {
        pendingMsgCount := pendingMsgCount - 1;
        return true;
      }
      RemoveFirstNone(before, msgId, msgType);
      if pendingMsgType == msgType && pendingMsgId == msgId {
        pendingMsgCount := pendingMsgCount - 1;
        return true;
      }
      return false;
    }

    /** The tail of subscribe, unsubscribe and publish above QoS 0: take the slot, count, write. */
    method Book(id: uint16, draw: uint16, writeLen: int, ghost a: A.Ack) returns (ok: bool)
      requires Shape() && a == A.Run(A.START, history) && A.AllowedRun(A.START, history)
      requires pendingMsgCount == a.count && id as int in {0, draw as int, a.slot.id}
      requires Keys(outbox.contents) == if a.count > 0 then a.queue + [a.slot] else a.queue
      modifies this`pendingMsgId, this`pendingMsgType, this`pendingMsgCount, this`history
      ensures Valid() && (ok <==> writeLen > 0)
      ensures pendingMsgId == id && pendingMsgType == OutType()
      ensures history == old(history) + [A.Request(A.Key(id, OutType()), draw)]
    {
      hide A.Run, A.AllowedRun, Keys;
      ghost var e := A.Request(A.Key(id, OutType()), draw);
      Recorded(history, e);
      history := history + [e];
      pendingMsgId := id;
      pendingMsgType := OutType();
      pendingMsgCount := pendingMsgCount + 1;
      ok := WriteData(writeLen);
    }

    /** esp_mqtt_client_subscribe */
    method Subscribe(topic: seq<byte>, qos: int, draw: uint16, tick: int, writeLen: int) returns (ret: int)
      requires Valid() && draw != 0
      modifies this, conn, conn.buffer, outbox, outbox.Repr()
      ensures Valid() && Link() == old(Link()) && log == old(log)
      ensures state != L.Connected ==> ret == -1 && history == old(history) && Ack() == old(Ack())
      ensures state == L.Connected ==>
        && history == old(history) + [A.Request(A.Key(pendingMsgId, pendingMsgType), draw)]
        && ret == (if writeLen > 0 then pendingMsgId as int else -1)
        && (topic != [] && conn.Fits(|SubscribeBody(topic, qos, draw)|) ==>
              && pendingMsgId == draw && pendingMsgType == SUBSCRIBE
              && conn.Message() == Packet(First(SUBSCRIBE, 0, 1, 0), SubscribeBody(topic, qos, draw)))
    {
      hide A.Run, A.AllowedRun, Keys;
      if state != L.Connected {
        return -1;
      }
      ghost var a := Ack();
      Enqueue(tick);
      var built, id := conn.MsgSubscribe(topic, qos, pendingMsgId, draw);
      BuiltType(built, SUBSCRIBE, 1, 0, SubscribeBody(topic, qos, draw));
      var ok := Book(id, draw, writeLen, a);
      ret := if ok then pendingMsgId as int else -1;
    }

    /** esp_mqtt_client_unsubscribe */
    method Unsubscribe(topic: seq<byte>, draw: uint16, tick: int, writeLen: int) returns (ret: int)
      requires Valid() && draw != 0
      modifies this, conn, conn.buffer, outbox, outbox.Repr()
      ensures Valid() && Link() == old(Link()) && log == old(log)
      ensures state != L.Connected ==> ret == -1 && history == old(history) && Ack() == old(Ack())
      ensures state == L.Connected ==>
        && history == old(history) + [A.Request(A.Key(pendingMsgId, pendingMsgType), draw)]
        && ret == (if writeLen > 0 then pendingMsgId as int else -1)
        && (topic != [] && conn.Fits(|UnsubscribeBody(topic, draw)|) ==>
              && pendingMsgId == draw && pendingMsgType == UNSUBSCRIBE
              && conn.Message() == Packet(First(UNSUBSCRIBE, 0, 1, 0), UnsubscribeBody(topic, draw)))
    {
      hide A.Run, A.AllowedRun, Keys;
      if state != L.Connected {
        return -1;
      }
      ghost var a := Ack();
      Enqueue(tick);
      var built, id := conn.MsgUnsubscribe(topic, pendingMsgId, draw);
      BuiltType(built, UNSUBSCRIBE, 1, 0, UnsubscribeBody(topic, draw));
      var ok := Book(id, draw, writeLen, a);
      ret := if ok then pendingMsgId as int else -1;
    }

    /** esp_mqtt_client_publish, the data already cut to its length. */
    method Publish(topic: seq<byte>, data: seq<byte>, qos: int, retain: int, draw: uint16, tick: int, writeLen: int)
      returns (ret: int)
      requires Valid() && draw != 0
      modifies this, conn, conn.buffer, outbox, outbox.Repr()
      ensures Valid() && Link() == old(Link()) && log == old(log)
      ensures state != L.Connected ==> ret == -1 && history == old(history) && Ack() == old(Ack())
      ensures state == L.Connected && qos > 0 ==>
        && history == old(history) + [A.Request(A.Key(pendingMsgId, pendingMsgType), draw)]
        && ret == (if writeLen > 0 then pendingMsgId as int else -1)
        && (topic != [] && conn.Fits(|PublishBody(topic, qos, draw, data)|) ==> pendingMsgId == draw)
      ensures state == L.Connected && qos <= 0 ==>
        && history == old(history) + [A.Write(pendingMsgType)]
        && ret == (if writeLen > 0 then 0 else -1)
      ensures state == L.Connected && topic != [] && conn.Fits(|PublishBody(topic, qos, draw, data)|) ==>
        && pendingMsgType == PUBLISH
        && conn.Message() == PublishPacket(topic, data, qos, retain, draw)
    {
      hide A.Run, A.AllowedRun, Keys;
      if state != L.Connected {
        return -1;
      }
      ghost var a := Ack();
      if qos > 0 {
        Enqueue(tick);
      }
      var built, id := conn.MsgPublish(topic, data, qos, retain, draw);
      BuiltType(built, PUBLISH, qos, retain, PublishBody(topic, qos, draw, data));
      var ok;
      if qos > 0 {
        ok := Book(id, draw, writeLen, a);
        ret := if ok then pendingMsgId as int else -1;
      } else {
        ok := Send(writeLen);
        ret := if ok then 0 else -1;
      }
    }

    /** A packet written outside any request: its type lands in the slot. */
    method Send(writeLen: int) returns (ok: bool)
      requires Valid()
      modifies this`pendingMsgType, this`history
      ensures Valid() && (ok <==> writeLen > 0)
      ensures pendingMsgType == OutType() && history == old(history) + [A.Write(OutType())]
    {
      hide A.Run, A.AllowedRun, Keys;
      Recorded(history, A.Write(OutType()));
      history := history + [A.Write(OutType())];
      ok := WriteData(writeLen);
    }

    /** A built packet starts with its type. */
    lemma BuiltType(built: bool, ty: nat, qos: int, retain: int, body: seq<byte>)
      requires ty < 16 && conn.Built(built, First(ty, 0, qos, retain), body)
      ensures built ==> OutType() == ty
    {
      hide First;
      if built {
        FirstFields(ty, 0, qos, retain);
        assert conn.Message()[0] == Packet(First(ty, 0, qos, retain), body)[0] == First(ty, 0, qos, retain);
        assert conn.buffer[conn.start] == conn.Message()[0];
      }
    }

    /** esp_mqtt_client_ping */
    method Ping(writeLen: int) returns (ret: int)
      requires Valid()
      modifies this`pendingMsgType, this`history, conn, conn.buffer
      ensures Valid()
      ensures state != L.Connected ==> ret == -1 && history == old(history)
      ensures state == L.Connected ==>
        && history == old(history) + [A.Write(PINGREQ)]
        && ret == (if writeLen > 0 then 0 else -1)
        && conn.Message() == Packet(First(PINGREQ, 0, 0, 0), [])
    {
      hide A.Run, A.AllowedRun, Keys;
      if state != L.Connected {
        return -1;
      }
      conn.MsgEmpty(PINGREQ);
      BuiltType(true, PINGREQ, 0, 0, []);
      var ok := Send(writeLen);
      ret := if ok then 0 else -1;
    }

    /** transport_read into in_buffer. */
    method Fill(data: seq<byte>)
      requires |data| <= inBuffer.Length
      modifies inBuffer
      ensures inBuffer[..] == Overlaid(old(inBuffer[..]), data)
    {
      for i := 0 to |data|
        invariant forall k :: 0 <= k < i ==> inBuffer[k] == data[k]
        invariant forall k :: i <= k < inBuffer.Length ==> inBuffer[k] == old(inBuffer[k])
      {
        inBuffer[i] := data[i];
      }
      assert inBuffer[..|data|] == data;
      assert inBuffer[|data|..] == old(inBuffer[..])[|data|..];
    }

    /** One MQTT_EVENT_DATA of deliver_publish. */
    method DispatchData(length: nat, total0: uint16, offset0: uint16, lenRead: uint16)
      returns (total: uint16, offset: uint16)
      requires length <= inBuffer.Length < 0x1_0000
      modifies this`delivered
      ensures var v := ViewLength(inBuffer[..], length);
        var len := if total0 == 0 then v else lenRead;
        && total == (if total0 == 0 then U16(messageLength as int - messageLengthRead + v) else total0)
        && delivered == old(delivered) + [Fragment(len, total, offset0)]
        && offset == U16(offset0 as int + len)
    {
      hide DataView, TopicView;
      var topic := GetPublishTopic(inBuffer[..], length);
      var data := GetPublishData(inBuffer[..], length);
      var dataLength: uint16 := if data.At? then data.len else 0;
      var len: uint16;
      if total0 == 0 {
        total := U16(messageLength as int - messageLengthRead + dataLength);
        len := dataLength;
      } else {
        total := total0;
        len := lenRead;
      }
      delivered := delivered + [Fragment(len, total, offset0)];
      offset := U16(offset0 as int + len);
    }

    /** A later transport_read of deliver_publish. */
    method Receive(read: Read) returns (lenRead: uint16)
      requires read.len > 0 && read.Valid() && |read.data| <= inBuffer.Length
      modifies this`messageLengthRead, inBuffer
      ensures lenRead == U16(read.len) && messageLengthRead == U16(old(messageLengthRead) + read.len)
      ensures inBuffer[..] == Overlaid(old(inBuffer[..]), read.data)
    {
      Fill(read.data);
      lenRead := U16(read.len);
      messageLengthRead := U16(messageLengthRead + read.len);
    }

    /** One turn of the loop in deliver_publish: dispatch, then read on, unless the message is complete or
        the read brings nothing. read is what the transport answers if it is asked. */
    method Turn(length: nat, total0: uint16, offset0: uint16, lenRead0: uint16, read: Read,
                ghost recvs: seq<Read>, ghost i: nat)
      returns (more: bool, total: uint16, offset: uint16, lenRead: uint16)
      requires length <= inBuffer.Length < 0x1_0000
      requires Acceptable(recvs, inBuffer.Length) && i <= |recvs|
      requires messageLengthRead < messageLength ==> read == if i < |recvs| then recvs[i] else Read(0, [])
      modifies this`delivered, this`messageLengthRead, inBuffer
      ensures more <==> old(messageLengthRead) < messageLength && i < |recvs| && recvs[i].len > 0
      ensures messageLengthRead == if more then U16(old(messageLengthRead) + recvs[i].len) else old(messageLengthRead)
      ensures var all := old(delivered + Deliver(messageLength, messageLengthRead, total0, offset0, lenRead0,
                                                 Views(inBuffer[..], length, recvs[i..]), Lens(recvs[i..])));
        if more then
          all == delivered + Deliver(messageLength, messageLengthRead, total, offset, lenRead,
                                     Views(inBuffer[..], length, recvs[i + 1..]), Lens(recvs[i + 1..]))
        else all == delivered
      ensures var last := old(Refilled(inBuffer[..], messageLength, messageLengthRead, recvs[i..]));
        last == if more then Refilled(inBuffer[..], messageLength, messageLengthRead, recvs[i + 1..]) else inBuffer[..]
    {
      hide Deliver, Views, Lens, ViewLength, Refilled, Overlaid;
      DeliverTurn(messageLength, messageLengthRead, total0, offset0, lenRead0,
                  inBuffer[..], length, recvs, i, delivered);
      RefilledStep(inBuffer[..], messageLength, messageLengthRead, recvs, i);
      lenRead := lenRead0;
      total, offset := DispatchData(length, total0, offset0, lenRead0);
      if messageLengthRead >= messageLength {
        return false, total, offset, lenRead;
      }
      if read.len <= 0 {
        return false, total, offset, lenRead;
      }
      lenRead := Receive(read);
      more := true;
    }

    /** deliver_publish: message is in_buffer itself, so every turn re-reads what the last one left. The
        transport supplies recvs and then nothing more; no counter bounds the loop, since the 16 bits of
        message_length_read may wrap. */
    method DeliverPublish(length: nat, recvs: seq<Read>)
      requires length <= inBuffer.Length < 0x1_0000
      requires Acceptable(recvs, inBuffer.Length)
      modifies this`delivered, this`messageLengthRead, inBuffer
      ensures delivered == Deliver(messageLength, old(messageLengthRead), 0, 0, 0,
                                   Views(old(inBuffer[..]), length, recvs), Lens(recvs))
      ensures inBuffer[..] == Refilled(old(inBuffer[..]), messageLength, old(messageLengthRead), recvs)
    {
      hide Deliver, Views, Lens, Refilled, Overlaid;
      delivered := [];
      var total: uint16, offset: uint16, lenRead: uint16 := 0, 0, 0;
      assert recvs[0..] == recvs;
      ghost var all := Deliver(messageLength, messageLengthRead, 0, 0, 0,
                               Views(inBuffer[..], length, recvs), Lens(recvs));
      ghost var last := Refilled(inBuffer[..], messageLength, messageLengthRead, recvs);
      var i, more := 0, true;
      while more
        invariant 0 <= i <= |recvs| + if more then 0 else 1
        invariant more ==> delivered + Deliver(messageLength, messageLengthRead, total, offset, lenRead,
                                               Views(inBuffer[..], length, recvs[i..]), Lens(recvs[i..])) == all
        invariant more ==> Refilled(inBuffer[..], messageLength, messageLengthRead, recvs[i..]) == last
        invariant !more ==> delivered == all && inBuffer[..] == last
        decreases |recvs| - i, more
      {
        more, total, offset, lenRead :=
          Turn(length, total, offset, lenRead, if i < |recvs| then recvs[i] else Read(0, []), recvs, i);
        i := i + 1;
      }
    }

    /** The same loop over a transport that never runs dry, where message and buffer together stay within
        65536 octets: message_length - message_length_read makes it stop, and only the reads it bounds
        are ever asked for. */
    method DeliverLive(length: nat, supply: nat -> Read)
      requires length <= inBuffer.Length < 0x1_0000 && messageLength + inBuffer.Length <= 0x1_0000
      requires forall i: nat :: supply(i).Valid() && |supply(i).data| <= inBuffer.Length
      modifies this`delivered, this`messageLengthRead, inBuffer
      ensures var recvs := Prefix(supply, Left(messageLength, old(messageLengthRead)));
        && delivered == Deliver(messageLength, old(messageLengthRead), 0, 0, 0,
                                Views(old(inBuffer[..]), length, recvs), Lens(recvs))
        && inBuffer[..] == Refilled(old(inBuffer[..]), messageLength, old(messageLengthRead), recvs)
      ensures |delivered| <= Left(messageLength, old(messageLengthRead)) + 1
    {
      hide Deliver, Views, Lens, Refilled, Overlaid, Prefix;
      delivered := [];
      var total: uint16, offset: uint16, lenRead: uint16 := 0, 0, 0;
      ghost var recvs := Prefix(supply, Left(messageLength, messageLengthRead));
      assert recvs[0..] == recvs;
      EventsBounded(messageLength, messageLengthRead, inBuffer[..], length, recvs);
      ghost var all := Deliver(messageLength, messageLengthRead, 0, 0, 0,
                               Views(inBuffer[..], length, recvs), Lens(recvs));
      ghost var last := Refilled(inBuffer[..], messageLength, messageLengthRead, recvs);
      var i, more := 0, true;
      while more
        invariant 0 <= i && (more ==> i + Left(messageLength, messageLengthRead) <= |recvs|)
        invariant more ==> delivered + Deliver(messageLength, messageLengthRead, total, offset, lenRead,
                                               Views(inBuffer[..], length, recvs[i..]), Lens(recvs[i..])) == all
        invariant more ==> Refilled(inBuffer[..], messageLength, messageLengthRead, recvs[i..]) == last
        invariant !more ==> delivered == all && inBuffer[..] == last
        decreases Left(messageLength, messageLengthRead), more
      {
        more, total, offset, lenRead := Turn(length, total, offset, lenRead, supply(i), recvs, i);
        i := i + 1;
      }
    }

    /** The reply to a PUBLISH above QoS 0, a PUBREC, a PUBREL or a PINGREQ. */
    method Reply(ty: nat, qos: int, id: uint16, draw: uint16, writeLen: int)
      requires Valid() && draw != 0 && ty < 16 && qos == if ty == PUBREL then 1 else 0
      modifies this`pendingMsgType, this`history, conn, conn.buffer
      ensures Valid() && history == old(history) + [A.Write(pendingMsgType)]
      ensures conn.Fits(2) ==> pendingMsgType == ty && conn.Message() == AnswerPacket(ty, id, draw)
    {
      hide A.Run, A.AllowedRun, Keys;
      if ty == PINGRESP {
        conn.MsgEmpty(ty);
        BuiltType(true, ty, 0, 0, []);
      } else {
        var built, sent := conn.MsgAck(ty, qos, id, draw);
        BuiltType(built, ty, qos, 0, BE16(sent));
      }
      var ok := Send(writeLen);
    }

    /** The acknowledgement branches of mqtt_process_receive. */
    method ReceiveAck(ty: nat, id: uint16)
      requires Valid() && ty in {SUBACK, UNSUBACK, PUBACK, PUBCOMP}
      modifies this`pendingMsgCount, this`history, outbox, outbox.Repr()
      ensures Valid() && history == old(history) + [A.Acked(A.Key(id, RequestType(ty)))]
      ensures outbox.Repr() <= old(outbox.Repr())
    {
      hide A.Run, A.AllowedRun, Keys;
      var valid;
      if ty == SUBACK {
        valid := IsValidMsg(SUBSCRIBE, id);
      } else if ty == UNSUBACK {
        valid := IsValidMsg(UNSUBSCRIBE, id);
      } else if ty == PUBACK {
        valid := IsValidMsg(PUBLISH, id);
      } else {
        valid := IsValidMsg(PUBREL, id);
      }
    }

    /** The answer to a PUBLISH above QoS 0. */
    method AnswerPublish(id: uint16, draw: uint16, writeLen: int)
      requires Valid() && draw != 0 && TypeOf(inBuffer[0]) == PUBLISH && id == IdOf(inBuffer[..])
      modifies this`pendingMsgType, this`history, conn, conn.buffer
      ensures Valid()
      ensures var b := inBuffer[..];
        && history == old(history) + [if ReplyType(b).Some? then A.Write(pendingMsgType) else A.Ignored]
        && (conn.Fits(2) && ReplyType(b).Some? ==>
              pendingMsgType == ReplyType(b).value && conn.Message() == ReplyPacket(b, draw))
    {
      hide A.Run, A.AllowedRun, Keys, IdOf, AnswerPacket;
      var qos := QosOf(inBuffer[0]);
      if qos == 1 {
        Reply(PUBACK, 0, id, draw, writeLen);
      } else if qos == 2 {
        Reply(PUBREC, 0, id, draw, writeLen);
      } else {
        Ignore();
      }
    }

    /** The PUBLISH branch. */
    method ReceivePublish(readLen: nat, id: uint16, recvs: seq<Read>, draw: uint16, writeLen: int)
      requires Valid() && draw != 0 && readLen <= inBuffer.Length
      requires Acceptable(recvs, inBuffer.Length) && TypeOf(inBuffer[0]) == PUBLISH && id == IdOf(inBuffer[..])
      modifies this`pendingMsgType, this`history, this`messageLength, this`messageLengthRead, this`delivered,
               conn, conn.buffer, inBuffer
      ensures Valid()
      ensures var b := old(inBuffer[..]);
        && history == old(history) + [if ReplyType(b).Some? then A.Write(pendingMsgType) else A.Ignored]
        && (conn.Fits(2) && ReplyType(b).Some? ==>
              pendingMsgType == ReplyType(b).value && conn.Message() == ReplyPacket(b, draw))
        && delivered == Deliver(U16(TotalLength(b[..readLen])), U16(readLen), 0, 0, 0,
                                Views(b, readLen, recvs), Lens(recvs))
        && inBuffer[..] == Refilled(b, U16(TotalLength(b[..readLen])), U16(readLen), recvs)
    {
      hide A.Run, A.AllowedRun, Keys, TotalLength, Deliver, Views, IdOf, ReplyPacket, ReplyType, Refilled;
      AnswerPublish(id, draw, writeLen);
      messageLengthRead := U16(readLen);
      U16Small(readLen);
      var total := GetTotalLength(inBuffer[..], messageLengthRead);
      messageLength := U16(total);
      DeliverPublish(messageLengthRead, recvs);
    }

    /** mqtt_process_receive */
    method ProcessReceive(read: Read, recvs: seq<Read>, draw: uint16, writeLen: int) returns (ok: bool)
      requires Valid() && draw != 0 && read.Valid() && |read.data| <= inBuffer.Length
      requires Acceptable(recvs, inBuffer.Length)
      modifies this`pendingMsgType, this`pendingMsgCount, this`history, this`messageLength, this`messageLengthRead,
               this`delivered, conn, conn.buffer, outbox, outbox.Repr(), inBuffer
      ensures Valid() && (ok <==> read.len >= 0) && outbox.Repr() <= old(outbox.Repr())
      ensures inBuffer[..] == Processed(old(inBuffer[..]), read, recvs)
      ensures read.len <= 0 ==> history == old(history) && delivered == old(delivered)
      ensures read.len > 0 ==>
        var b := Overlaid(old(inBuffer[..]), read.data);
        && history == old(history) + [Reaction(b, pendingMsgType)]
        && (conn.Fits(2) && ReplyType(b).Some? ==>
              pendingMsgType == ReplyType(b).value && conn.Message() == ReplyPacket(b, draw))
        && (TypeOf(b[0]) == PUBLISH ==>
              delivered == Deliver(U16(TotalLength(b[..read.len])), U16(read.len), 0, 0, 0,
                                   Views(b, read.len, recvs), Lens(recvs)))
    {
      hide A.Run, A.AllowedRun, Keys, IdOf, TotalLength, Deliver, Views, Overlaid, AnswerPacket, Refilled;
      if read.len < 0 {
        return false;
      }
      ok := true;
      if read.len == 0 {
        return;
      }
      Fill(read.data);
      ghost var b := inBuffer[..];
      var ty := TypeOf(inBuffer[0]);
      var id := GetId(inBuffer[..], inBuffer.Length);
      assert b[..inBuffer.Length] == b;
      if ty in {SUBACK, UNSUBACK, PUBACK, PUBCOMP} {
        ReceiveAck(ty, id);
      } else if ty == PUBLISH {
        ReceivePublish(read.len, id, recvs, draw, writeLen);
      } else if ty == PUBREC {
        Reply(PUBREL, 1, id, draw, writeLen);
      } else if ty == PUBREL {
        Reply(PUBCOMP, 0, id, draw, writeLen);
      } else if ty == PINGREQ {
        Reply(PINGRESP, 0, id, draw, writeLen);
      } else {
        Ignore();
      }
    }

    /** A received packet that leaves the bookkeeping alone. */
    ghost method Ignore()
      requires Valid()
      modifies this`history
      ensures Valid() && history == old(history) + [A.Ignored]
    {
      hide A.Run, A.AllowedRun, Keys;
      Recorded(history, A.Ignored);
      history := history + [A.Ignored];
    }

    /** mqtt_msg_connect, and what mqtt_get_id makes of the outcome. */
    method BuildConnect() returns (id: uint16)
      requires Shape()
      modifies conn, conn.buffer
      ensures Shape() && id == 0
      ensures info.clientId != [] && conn.Fits(|ConnectBody(v311, info)|) ==>
        OutType() == CONNECT && conn.Message() == Packet(First(CONNECT, 0, 0, 0), ConnectBody(v311, info))
    {
      hide ConnectBody, IdOf, TypeOf, First, Packet;
      var built := conn.MsgConnect(v311, info);
      BuiltType(built, CONNECT, 0, 0, ConnectBody(v311, info));
      id := GetId(conn.buffer[conn.start..conn.start + conn.length], conn.length);
      ConnectHasNoId(built);
    }

    /** The first half of esp_mqtt_connect: build the packet and take the pending slot for it. */
    method PrepareConnect()
      requires Valid()
      modifies this`pendingMsgId, this`pendingMsgType, this`history, conn, conn.buffer
      ensures Valid() && pendingMsgId == 0 && history == old(history) + [A.Reconnect(pendingMsgType)]
      ensures info.clientId != [] && conn.Fits(|ConnectBody(v311, info)|) ==>
        pendingMsgType == CONNECT && conn.Message() == Packet(First(CONNECT, 0, 0, 0), ConnectBody(v311, info))
    {
      hide A.Run, A.AllowedRun, Keys, ConnectBody, TypeOf, First, Packet;
      var id := BuildConnect();
      pendingMsgType := OutType();
      pendingMsgId := id;
      Recorded(history, A.Reconnect(OutType()));
      history := history + [A.Reconnect(OutType())];
    }

    /** esp_mqtt_connect */
    method Connect(writeLen: int, read: Read) returns (ok: bool)
      requires Valid() && read.Valid() && |read.data| <= inBuffer.Length
      modifies this`pendingMsgId, this`pendingMsgType, this`history, conn, conn.buffer, inBuffer
      ensures Valid() && pendingMsgId == 0 && history == old(history) + [A.Reconnect(pendingMsgType)]
      ensures info.clientId != [] && conn.Fits(|ConnectBody(v311, info)|) ==>
        pendingMsgType == CONNECT && conn.Message() == Packet(First(CONNECT, 0, 0, 0), ConnectBody(v311, info))
      ensures ok <==> writeLen >= 0 && read.len >= 0 && ConnackAccepted(Overlaid(old(inBuffer[..]), read.data))
      ensures inBuffer[..] == if writeLen >= 0 then Overlaid(old(inBuffer[..]), read.data) else old(inBuffer[..])
    {
      hide A.Run, A.AllowedRun, Keys, ConnectBody, Overlaid;
      PrepareConnect();
      if writeLen < 0 {
        return false;
      }
      if read.len < 0 {
        OverlaidNone(inBuffer[..]);
        return false;
      }
      Fill(read.data);
      return TypeOf(inBuffer[0]) == CONNACK && inBuffer[3] == 0;
    }

    /** A CONNECT packet, or none at all, carries no id. */
    lemma ConnectHasNoId(built: bool)
      requires conn.Valid()
      requires built ==> conn.length > 0 && OutType() == CONNECT
      requires !built ==> conn.length == 0
      ensures IdOf(conn.buffer[conn.start..conn.start + conn.length][..conn.length]) == 0
    {
      hide HeaderEnd, Word;
    }

    /** esp_mqtt_abort_connection */
    method AbortConnection(time: int)
      modifies this`state, this`reconnectTick, this`log
      ensures Link() == L.Abort(old(Link()), time).link && log == old(log) + L.Abort(old(Link()), time).log
    {
      hide L.Tick;
      reconnectTick := L.Tick(time);
      state := L.WaitTimeout;
      log := log + [L.DisconnectedEvent(time)];
    }

    /** A pass in MQTT_STATE_INIT. */
    method InitPass(i: PassInput)
      requires Valid() && state == L.Init && i.Valid(inBuffer.Length)
      modifies this, conn, conn.buffer, inBuffer
      ensures Valid() && unchanged(outbox)
      ensures keepaliveTick == old(keepaliveTick)
      ensures history == old(history) + if i.transportUp then [A.Reconnect(pendingMsgType)] else []
      ensures Sendable() && i.transportUp ==> pendingMsgType == CONNECT
      ensures inBuffer[..] == NextBuffer(L.Init, old(inBuffer[..]), i)
      ensures var o := L.StepLink(old(Link()), autoReconnect, i.Seen(old(inBuffer[..])));
        Link() == o.link && log == old(log) + o.log
    {
      hide A.Run, A.AllowedRun, Keys, L.Tick, ConnackAccepted, Overlaid, ConnectBody;
      ghost var p, before := i.Seen(inBuffer[..]), log;
      log := log + [L.Attempt(i.start)];
      var ok := false;
      if i.transportUp {
        ok := Connect(i.connectWrite, i.connectRead);
      }
      if !ok {
        AbortConnection(i.end);
        assert log == before + [L.Attempt(i.start), L.DisconnectedEvent(i.end)];
      } else {
        state := L.Connected;
        log := log + [L.Accepted(p.fresh?), L.ConnectedEvent];
        assert log == before + [L.Attempt(i.start), L.Accepted(p.fresh?), L.ConnectedEvent];
      }
    }

    /** The end of a pass in MQTT_STATE_CONNECTED: a ping when half the keepalive interval has passed. */
    method Keepalive(i: PassInput)
      requires Valid() && state == L.Connected
      modifies this`pendingMsgType, this`history, this`keepaliveTick, conn, conn.buffer
      ensures Valid()
      ensures var due := L.Tick(L.Tick(i.start) - old(keepaliveTick)) > info.keepalive * 1000 / 2;
        && keepaliveTick == (if due then L.Tick(i.end) else old(keepaliveTick))
        && history == old(history) + (if due then [A.Write(PINGREQ)] else [])
        && (due ==> conn.Message() == Packet(First(PINGREQ, 0, 0, 0), []))
        && (!due ==> pendingMsgType == old(pendingMsgType))
    {
      hide A.Run, A.AllowedRun, Keys, L.Tick, First, Packet;
      if L.Tick(L.Tick(i.start) - keepaliveTick) > info.keepalive * 1000 / 2 {
        var r := Ping(i.pingWrite);
        keepaliveTick := L.Tick(i.end);
      } else {
        assert history + [] == history;
      }
    }

    /** The receiving half of that pass. */
    method ReceiveInPass(i: PassInput) returns (ok: bool)
      requires Valid() && i.Valid(inBuffer.Length)
      modifies this`pendingMsgType, this`pendingMsgCount, this`history, this`messageLength, this`messageLengthRead,
               this`delivered, conn, conn.buffer, outbox, outbox.Repr(), inBuffer
      ensures Valid() && (ok <==> i.receive.len >= 0) && outbox.Repr() <= old(outbox.Repr())
      ensures inBuffer[..] == Processed(old(inBuffer[..]), i.receive, i.later)
      ensures i.receive.len <= 0 ==> history == old(history)
      ensures i.receive.len > 0 ==>
        history == old(history) + [Reaction(Overlaid(old(inBuffer[..]), i.receive.data), pendingMsgType)]
      ensures conn.Fits(2) ==> history == old(history) + Reactions(old(inBuffer[..]), i.receive)
    {
      hide A.Run, A.AllowedRun, Keys, Overlaid, Reaction, ReplyType, Views, Deliver, Processed, ReplyWritten,
           ReplyPacket, TypeOf;
      ghost var h, buffer := history, inBuffer[..];
      ok := ProcessReceive(i.receive, i.later, i.draw, i.replyWrite);
      if i.receive.len > 0 && conn.Fits(2) {
        ReactionWritten(Overlaid(buffer, i.receive.data), pendingMsgType);
      }
      assert h + [] == h;
    }

    /** A pass in MQTT_STATE_CONNECTED: receive, then ping when the keepalive is half over. */
    method ConnectedPass(i: PassInput)
      requires Valid() && state == L.Connected && i.Valid(inBuffer.Length)
      modifies this, conn, conn.buffer, outbox, outbox.Repr(), inBuffer
      ensures Valid() && outbox.Repr() <= old(outbox.Repr())
      ensures inBuffer[..] == NextBuffer(L.Connected, old(inBuffer[..]), i)
      ensures i.receive.len < 0 ==> keepaliveTick == old(keepaliveTick) && history == old(history)
      ensures var due := L.Tick(L.Tick(i.start) - old(keepaliveTick)) > info.keepalive * 1000 / 2;
        i.receive.len >= 0 ==>
          && keepaliveTick == (if due then L.Tick(i.end) else old(keepaliveTick))
          && (due ==> history != [] && history[|history| - 1] == A.Write(PINGREQ)
                      && conn.Message() == Packet(First(PINGREQ, 0, 0, 0), []))
          && (!due && i.receive.len == 0 ==> history == old(history))
          && (!due && i.receive.len > 0 ==>
                history == old(history) + [Reaction(Overlaid(old(inBuffer[..]), i.receive.data), pendingMsgType)])
      ensures conn.Fits(2) ==>
        history == old(history) + PassEvents(L.Connected, old(inBuffer[..]), info.keepalive, old(keepaliveTick), i)
      ensures var o := L.StepLink(old(Link()), autoReconnect, i.Seen(old(inBuffer[..])));
        Link() == o.link && log == old(log) + o.log
    {
      hide A.Run, A.AllowedRun, Keys, L.Tick, ConnackAccepted, Overlaid, Reaction, Reactions, Processed, First, Packet;
      ghost var h, received := history, Reactions(inBuffer[..], i.receive);
      var ok := ReceiveInPass(i);
      if !ok {
        NoReactions(old(inBuffer[..]), i.receive);
        AbortConnection(i.end);
      } else {
        ghost var ping: seq<A.Event> := if Due(info.keepalive, keepaliveTick, i.start) then [A.Write(PINGREQ)] else [];
        assert h + (received + ping) == (h + received) + ping;
        Keepalive(i);
        assert log == old(log) + [];
      }
    }

    /** One pass of the loop in esp_mqtt_task. */
    method TaskPass(i: PassInput)
      requires Valid() && i.Valid(inBuffer.Length)
      modifies this, conn, conn.buffer, outbox, outbox.Repr(), inBuffer
      ensures Valid() && outbox.Repr() <= old(outbox.Repr())
      ensures inBuffer[..] == NextBuffer(old(state), old(inBuffer[..]), i)
      ensures keepaliveTick == NextTick(old(state), info.keepalive, old(keepaliveTick), i)
      ensures Sendable() ==>
        history == old(history) + PassEvents(old(state), old(inBuffer[..]), info.keepalive, old(keepaliveTick), i)
      ensures var o := L.StepLink(old(Link()), autoReconnect, i.Seen(old(inBuffer[..])));
        Link() == o.link && log == old(log) + o.log
    {
      hide A.Run, A.AllowedRun, Keys, L.Tick, ConnackAccepted, Overlaid, Processed, Reactions, ConnectBody;
      if Sendable() {
        SendableFits();
      }
      match state {
        case Init => InitPass(i);
        case Connected => ConnectedPass(i);
        case WaitTimeout =>
          if !autoReconnect {
            run := false;
          } else if L.Tick(L.Tick(i.start) - reconnectTick) > L.RECONNECT_TIMEOUT {
            state := L.Init;
            reconnectTick := L.Tick(i.end);
          }
          assert log == old(log) + [];
          assert history + [] == history;
      }
    }
  }

  lemma AcceptedBefore(history: seq<A.Event>, n: nat)
    requires A.AllowedRun(A.START, history) && A.AcceptedAt(A.START, history, n)
    ensures n < |history| && history[n].Acked? && history[n].key.id in {0} + A.Draws(history[..n])
  {
    A.AcceptedIds(A.START, history, {0}, n);
  }
}
