/** The in-flight bookkeeping of components/espmqtt/mqtt_client.c as a state machine: one pending
    slot, a counter, and the ids and types waiting in the outbox. */
module AckSpec {
  import opened MqttWire

  datatype Key = Key(id: int, ty: int)

  datatype Ack = Ack(count: int, slot: Key, queue: seq<Key>)

  const START := Ack(0, Key(0, 0), [])

  /** What can happen to it. */
  datatype Event =
    | Request(key: Key, draw: int)  // subscribe, unsubscribe, publish above QoS 0; draw is the random id
    | Write(ty: int)                // any other packet written: its type lands in the slot
    | Reconnect(ty: int)            // CONNECT: its type, and id 0
    | Acked(key: Key)               // an acknowledgement received for that request type and id
    | Ignored                       // every other packet received

  function FindKey(q: seq<Key>, k: Key): (i: nat)
    ensures i <= |q| && (i < |q| ==> q[i] == k)
    ensures forall j :: 0 <= j < i ==> q[j] != k
  {
    if q == [] || q[0] == k then 0 else 1 + FindKey(q[1..], k)
  }

  /** is_valid_mqtt_msg: the outbox first, then the slot, and nothing when the counter is zero. */
  predicate Accepts(a: Ack, k: Key) {
    a.count != 0 && (FindKey(a.queue, k) < |a.queue| || a.slot == k)
  }

  function Step(a: Ack, e: Event): Ack {
    match e
    case Request(key, _) => Ack(a.count + 1, key, if a.count > 0 then a.queue + [a.slot] else a.queue)
    case Write(ty) => a.(slot := a.slot.(ty := ty))
    case Reconnect(ty) => a.(slot := Key(0, ty))
    case Acked(key) =>
      if !Accepts(a, key) then a
      else
        var i := FindKey(a.queue, key);
        a.(count := a.count - 1, queue := if i < |a.queue| then a.queue[..i] + a.queue[i + 1..] else a.queue)
    case Ignored => a
  }

  function Run(a: Ack, es: seq<Event>): Ack
    decreases |es|
  {
    if es == [] then a else Run(Step(a, es[0]), es[1..])
  }

  /** A request stores 0, the fresh draw, or the id already in the slot. */
  predicate Allowed(a: Ack, e: Event) {
    e.Request? ==> e.key.id in {0, e.draw, a.slot.id}
  }

  predicate AllowedRun(a: Ack, es: seq<Event>)
    decreases |es|
  {
    es == [] || (Allowed(a, es[0]) && AllowedRun(Step(a, es[0]), es[1..]))
  }

  function Requests(es: seq<Event>): nat
    decreases |es|
  {
    if es == [] then 0 else (if es[0].Request? then 1 else 0) + Requests(es[1..])
  }

  /** The acknowledgements accepted during a run, in order. */
  function Accepted(a: Ack, es: seq<Event>): seq<Key>
    decreases |es|
  {
    if es == [] then []
    else (if es[0].Acked? && Accepts(a, es[0].key) then [es[0].key] else []) + Accepted(Step(a, es[0]), es[1..])
  }

  /** The ids drawn during a run. */
  function Draws(es: seq<Event>): set<int>
    decreases |es|
  {
    if es == [] then {} else (if es[0].Request? then {es[0].draw} else {}) + Draws(es[1..])
  }

  /** The counter stays between 0 and one more than the outbox holds. */
  predicate Bounded(a: Ack) {
    0 <= a.count <= |a.queue| + 1
  }

  lemma StepBounded(a: Ack, e: Event)
    requires Bounded(a)
    ensures Bounded(Step(a, e))
  {
  }

  /** Over every interleaving: the counter is requests made minus acknowledgements accepted, and it
      never leaves its bounds. */
  lemma {:induction false} Accounting(a: Ack, es: seq<Event>)
    requires Bounded(a)
    ensures Bounded(Run(a, es))
    ensures Run(a, es).count == a.count + Requests(es) - |Accepted(a, es)|
    decreases |es|
  {
    if es != [] {
      StepBounded(a, es[0]);
      Accounting(Step(a, es[0]), es[1..]);
    }
  }

  /** The ids a state can be acknowledged for. */
  function Ids(a: Ack): set<int> {
    {a.slot.id} + set i | 0 <= i < |a.queue| :: a.queue[i].id
  }

  lemma StepIds(a: Ack, e: Event)
    requires Allowed(a, e)
    ensures Ids(Step(a, e)) <= Ids(a) + {0} + if e.Request? then {e.draw} else {}
  {
    if e.Request? && a.count > 0 {
      assert forall i :: 0 <= i < |a.queue| + 1 ==>
        (a.queue + [a.slot])[i].id == if i < |a.queue| then a.queue[i].id else a.slot.id;
    }
  }

  /** Event n of a run is an acknowledgement, and it is accepted. */
  predicate AcceptedAt(a: Ack, es: seq<Event>, n: nat) {
    n < |es| && es[n].Acked? && Accepts(Run(a, es[..n]), es[n].key)
  }

  /** Over every interleaving, every id accepted is 0, or was current at the start, or was drawn by a
      request before its acknowledgement. */
  lemma {:induction false} AcceptedIds(a: Ack, es: seq<Event>, known: set<int>, n: nat)
    requires AllowedRun(a, es) && Ids(a) <= known && AcceptedAt(a, es, n)
    ensures es[n].key.id in known + {0} + Draws(es[..n])
    decreases |es|
  {
    if n == 0 {
      var i := FindKey(a.queue, es[0].key);
      assert es[0].key.id in Ids(a);
    } else {
      StepIds(a, es[0]);
      var now := if es[0].Request? then {es[0].draw} else {};
      assert es[..n][1..] == es[1..][..n - 1];
      AcceptedIds(Step(a, es[0]), es[1..], known + {0} + now, n - 1);
    }
  }

  lemma AcceptedLater(a: Ack, es: seq<Event>, n: nat)
    requires es != [] && n > 0
    ensures AcceptedAt(a, es, n) <==> AcceptedAt(Step(a, es[0]), es[1..], n - 1)
  {
    if n < |es| {
      assert es[..n][1..] == es[1..][..n - 1];
    }
  }

  /** The acknowledgements listed as accepted are exactly those. */
  lemma {:induction false} ListedPlace(a: Ack, es: seq<Event>, k: Key) returns (n: nat)
    requires k in Accepted(a, es)
    ensures AcceptedAt(a, es, n) && es[n].key == k
    decreases |es|
  {
    AcceptedFirst(a, es);
    if es[0].Acked? && Accepts(a, es[0].key) && es[0].key == k {
      n := 0;
    } else {
      var m := ListedPlace(Step(a, es[0]), es[1..], k);
      n := m + 1;
      AcceptedLater(a, es, n);
    }
  }

  lemma {:induction false} PlaceListed(a: Ack, es: seq<Event>, n: nat)
    requires AcceptedAt(a, es, n)
    ensures es[n].key in Accepted(a, es)
    decreases |es|
  {
    if n == 0 {
      AcceptedFirst(a, es);
    } else {
      AcceptedLater(a, es, n);
      PlaceListed(Step(a, es[0]), es[1..], n - 1);
    }
  }

  lemma AcceptedFirst(a: Ack, es: seq<Event>)
    requires es != []
    ensures AcceptedAt(a, es, 0) <==> es[0].Acked? && Accepts(a, es[0].key)
  {
    assert es[..0] == [];
  }

  // ----- One exchange at a time -----

  /** The type in the slot after a run that makes no request: that of the last packet written. */
  function LastWritten(ty: int, es: seq<Event>): int
    decreases |es|
  {
    if es == [] then ty
    else LastWritten(if es[0].Write? || es[0].Reconnect? then es[0].ty else ty, es[1..])
  }

  predicate Reconnected(es: seq<Event>)
    decreases |es|
  {
    es != [] && (es[0].Reconnect? || Reconnected(es[1..]))
  }

  /** Anything but a request or an acknowledgement of this id. */
  predicate Unrelated(es: seq<Event>, id: int) {
    forall i :: 0 <= i < |es| ==> !es[i].Request? && (es[i].Acked? ==> es[i].key.id != id)
  }

  /** A lone request's slot through unrelated events: packets written change its type, a reconnect its
      id, and as long as the id stands nothing is accepted. */
  lemma {:induction false} LoneSlot(a: Ack, es: seq<Event>, id: int)
    requires 0 <= a.count <= 1 && a.queue == [] && Unrelated(es, id)
    ensures var b := Run(a, es);
      && b.queue == [] && 0 <= b.count <= 1
      && b.slot == Key(if Reconnected(es) then 0 else a.slot.id, LastWritten(a.slot.ty, es))
      && (a.slot.id == id && (id == 0 || !Reconnected(es)) ==> b.count == a.count && Accepted(a, es) == [])
    decreases |es|
  {
    if es != [] {
      assert Unrelated(es[1..], id) by {
        assert forall i :: 0 <= i < |es| - 1 ==> es[1..][i] == es[i + 1];
      }
      LoneSlot(Step(a, es[0]), es[1..], id);
    }
  }

  /** What is accepted was received. */
  lemma {:induction false} NoneOf(a: Ack, es: seq<Event>, id: int)
    requires Unrelated(es, id)
    ensures forall k :: k in Accepted(a, es) ==> k.id != id
    decreases |es|
  {
    if es != [] {
      assert Unrelated(es[1..], id) by {
        assert forall i :: 0 <= i < |es| - 1 ==> es[1..][i] == es[i + 1];
      }
      NoneOf(Step(a, es[0]), es[1..], id);
    }
  }

  /** Once the counter is back at 0 nothing is accepted until the next request. */
  lemma {:induction false} QuietAfter(a: Ack, es: seq<Event>)
    requires a.count == 0 && forall i :: 0 <= i < |es| ==> !es[i].Request?
    ensures Accepted(a, es) == [] && Run(a, es).count == 0
    decreases |es|
  {
    if es != [] {
      assert forall i :: 0 <= i < |es| - 1 ==> es[1..][i] == es[i + 1];
      QuietAfter(Step(a, es[0]), es[1..]);
    }
  }

  lemma {:induction false} RunAppend(a: Ack, es: seq<Event>, fs: seq<Event>)
    ensures Run(a, es + fs) == Run(Run(a, es), fs)
    ensures Accepted(a, es + fs) == Accepted(a, es) + Accepted(Run(a, es), fs)
    decreases |es|
  {
    if es == [] {
      assert es + fs == fs;
    } else {
      assert (es + fs)[1..] == es[1..] + fs;
      RunAppend(Step(a, es[0]), es[1..], fs);
    }
  }

  /** Whether an acknowledgement of type ty finds a lone request, after unrelated events. */
  predicate Found(key: Key, ty: int, between: seq<Event>) {
    (key.id == 0 || !Reconnected(between)) && LastWritten(key.ty, between) == ty
  }

  /** With nothing else in flight, an acknowledgement of a request's id is accepted exactly when it finds
      the request; then it is the only one accepted, for any continuation that makes no new request. */
  lemma LoneAck(a: Ack, key: Key, draw: int, between: seq<Event>, ty: int, after: seq<Event>)
    requires a.count == 0 && a.queue == [] && Unrelated(between, key.id)
    requires forall i :: 0 <= i < |after| ==> !after[i].Request?
    ensures var ack := Key(key.id, ty);
      var es := [Request(key, draw)] + between;
      && (Accepts(Run(a, es), ack) <==> Found(key, ty, between))
      && (Found(key, ty, between) ==>
            Accepted(a, es + [Acked(ack)] + after) == [ack] && Run(a, es + [Acked(ack)] + after).count == 0)
      && (!Found(key, ty, between) ==> ack !in Accepted(a, es + [Acked(ack)]))
  {
    hide Run, Accepted, Unrelated, LastWritten, Reconnected;
    var ack, first := Key(key.id, ty), [Request(key, draw)];
    var b := Step(a, first[0]);
    LoneSlot(b, between, key.id);
    NoneOf(b, between, key.id);
    var c := Run(b, between);
    RunSingle(a, first[0]);
    RunAppend(a, first, between);
    RunAppend(a, first + between, [Acked(ack)]);
    RunSingle(c, Acked(ack));
    if Found(key, ty, between) {
      QuietAfter(Step(c, Acked(ack)), after);
      RunAppend(a, first + between + [Acked(ack)], after);
    }
  }

  /** Section 4.3.2 of MQTT 3.1.1, and the same for subscribe and unsubscribe: a lone request is closed by
      its acknowledgement exactly once, exactly when no reconnect came between and the last packet
      written since was of the request's own type. A ping in between is enough to lose it. */
  lemma LoneExchange(a: Ack, key: Key, draw: int, between: seq<Event>, after: seq<Event>)
    requires a.count == 0 && a.queue == [] && key.id != 0 && Unrelated(between, key.id)
    requires forall i :: 0 <= i < |after| ==> !after[i].Request?
    ensures var es := [Request(key, draw)] + between;
      var closed := !Reconnected(between) && LastWritten(key.ty, between) == key.ty;
      && (Accepts(Run(a, es), key) <==> closed)
      && (closed ==> Accepted(a, es + [Acked(key)] + after) == [key] && Run(a, es + [Acked(key)] + after).count == 0)
      && (!closed ==> key !in Accepted(a, es + [Acked(key)]))
  {
    hide Run, Accepted, Unrelated, LastWritten, Reconnected, Accepts;
    LoneAck(a, key, draw, between, key.ty, after);
  }

  lemma RunSingle(a: Ack, e: Event)
    ensures Run(a, [e]) == Step(a, e)
    ensures Accepted(a, [e]) == if e.Acked? && Accepts(a, e.key) then [e.key] else []
  {
    assert [e][1..] == [];
  }

  lemma {:induction false} WrittenAppend(ty: int, es: seq<Event>, fs: seq<Event>)
    ensures LastWritten(ty, es + fs) == LastWritten(LastWritten(ty, es), fs)
    ensures Reconnected(es + fs) <==> Reconnected(es) || Reconnected(fs)
    decreases |es|
  {
    if es == [] {
      assert es + fs == fs;
    } else {
      assert (es + fs)[1..] == es[1..] + fs;
      WrittenAppend(if es[0].Write? || es[0].Reconnect? then es[0].ty else ty, es[1..], fs);
    }
  }

  /** Section 4.3.3: a lone QoS 2 publish is closed by PUBREC, whose answer PUBREL overwrites the slot's
      type, and then PUBCOMP: exactly once, exactly when no reconnect came between and the last packet
      written since is of PUBREL's type. */
  lemma QoS2Exchange(a: Ack, id: int, draw: int, before: seq<Event>, between: seq<Event>, after: seq<Event>)
    requires a.count == 0 && a.queue == [] && id != 0
    requires Unrelated(before, id) && Unrelated(between, id)
    requires forall i :: 0 <= i < |after| ==> !after[i].Request?
    ensures var ack := Key(id, PUBREL);
      var es := [Request(Key(id, PUBLISH), draw)] + (before + [Write(PUBREL)] + between);
      var closed := !Reconnected(before) && !Reconnected(between) && LastWritten(PUBREL, between) == PUBREL;
      && (Accepts(Run(a, es), ack) <==> closed)
      && (closed ==> Accepted(a, es + [Acked(ack)] + after) == [ack] && Run(a, es + [Acked(ack)] + after).count == 0)
      && (!closed ==> ack !in Accepted(a, es + [Acked(ack)]))
  {
    hide Run, Accepted, Accepts;
    WrittenAppend(PUBLISH, before, [Write(PUBREL)]);
    WrittenAppend(PUBLISH, before + [Write(PUBREL)], between);
    assert [Write(PUBREL)][1..] == [];
    LoneAck(a, Key(id, PUBLISH), draw, before + [Write(PUBREL)] + between, PUBREL, after);
  }

  // ----- More than one exchange -----

  /** With others in flight an acknowledgement accepted once is accepted again exactly when its key stands
      in the slot, or in the outbox a second time. */
  lemma AcceptedAgain(a: Ack, k: Key)
    requires Bounded(a) && Accepts(a, k)
    ensures var i := FindKey(a.queue, k);
      Accepts(Step(a, Acked(k)), k) <==> a.count > 1 && (a.slot == k || (i < |a.queue| && k in a.queue[i + 1..]))
  {
    var i := FindKey(a.queue, k);
    var q := Step(a, Acked(k)).queue;
    if i < |a.queue| {
      FindIn(q, k);
      assert k !in a.queue[..i];
      assert q == a.queue[..i] + a.queue[i + 1..];
    }
  }

  lemma FindIn(q: seq<Key>, k: Key)
    ensures FindKey(q, k) < |q| <==> k in q
  {
  }

  /** So a duplicate of the newest request's acknowledgement closes the other request, whose own is then
      refused. */
  lemma DuplicateCloses(k1: Key, k2: Key, draw: int)
    requires k1 != k2
    ensures Accepted(START, [Request(k1, draw), Request(k2, draw), Acked(k2), Acked(k2), Acked(k1)]) == [k2, k2]
  {
    hide Accepted;
    var s1, s2, s3, s4 := Ack(1, k1, []), Ack(2, k2, [k1]), Ack(1, k2, [k1]), Ack(0, k2, [k1]);
    assert FindKey([k1], k2) == 1;
    assert Step(START, Request(k1, draw)) == s1 && Step(s1, Request(k2, draw)) == s2;
    assert Step(s2, Acked(k2)) == s3 && Step(s3, Acked(k2)) == s4;
    var e4 := [Acked(k1)];
    var e3 := [Acked(k2)] + e4;
    var e2 := [Acked(k2)] + e3;
    RunSingle(s4, Acked(k1));
    AcceptedCons(s3, Acked(k2), e4);
    AcceptedCons(s2, Acked(k2), e3);
    AcceptedCons(s1, Request(k2, draw), e2);
    AcceptedCons(START, Request(k1, draw), [Request(k2, draw)] + e2);
    assert [Request(k1, draw), Request(k2, draw), Acked(k2), Acked(k2), Acked(k1)]
        == [Request(k1, draw)] + ([Request(k2, draw)] + e2);
  }

  lemma AcceptedCons(a: Ack, e: Event, rest: seq<Event>)
    ensures Accepted(a, [e] + rest)
         == (if e.Acked? && Accepts(a, e.key) then [e.key] else []) + Accepted(Step(a, e), rest)
  {
    assert ([e] + rest)[1..] == rest;
  }

  lemma RunSnoc(a: Ack, es: seq<Event>, e: Event)
    ensures Run(a, es + [e]) == Step(Run(a, es), e)
  {
    RunAppend(a, es, [e]);
    RunSingle(Run(a, es), e);
  }

  lemma {:induction false} AllowedSnoc(a: Ack, es: seq<Event>, e: Event)
    requires AllowedRun(a, es) && Allowed(Run(a, es), e)
    ensures AllowedRun(a, es + [e])
    decreases |es|
  {
    var all := es + [e];
    if es == [] {
      assert all[1..] == [];
    } else {
      assert all[1..] == es[1..] + [e];
      AllowedSnoc(Step(a, es[0]), es[1..], e);
    }
  }
}
