/** Fragmented delivery of an incoming PUBLISH, deliver_publish in components/espmqtt/mqtt_client.c. */
module Fragments {
  import opened Bytes
  import opened MqttWire
  import opened MqttMsg
  import opened MqttParse
  import opened MqttRoundTrip

  /** The fields of one MQTT_EVENT_DATA that place it in the message. */
  datatype Fragment = Fragment(len: uint16, total: uint16, offset: uint16)

  /** The loop of deliver_publish. views holds what mqtt_get_publish_data makes of the buffer in each
      turn, recvs what transport_read returns; mlr and ml are message_length_read and message_length. */
  function Deliver(ml: uint16, mlr: uint16, total: uint16, offset: uint16, lenRead: uint16,
                   views: seq<uint16>, recvs: seq<int>): seq<Fragment>
    decreases |recvs|
  {
    if views == [] then []
    else
      var first := total == 0;
      var total' := if first then U16(ml as int - mlr + views[0]) else total;
      var len := if first then views[0] else lenRead;
      [Fragment(len, total', offset)]
      + if mlr >= ml || recvs == [] || recvs[0] <= 0 then []
        else Deliver(ml, U16(mlr + recvs[0]), total', U16(offset as int + len), U16(recvs[0]), views[1..], recvs[1..])
  }

  function Sum(recvs: seq<int>): int {
    if recvs == [] then 0 else recvs[0] + Sum(recvs[1..])
  }

  function Lengths(fs: seq<Fragment>): nat {
    if fs == [] then 0 else fs[0].len + Lengths(fs[1..])
  }

  /** The reads the loop makes use of before it stops: it asks for none once the counter has reached the
      message length, and gives up on the first that fails. */
  function Taken(ml: uint16, mlr: uint16, recvs: seq<int>): (r: seq<int>)
    ensures |r| <= |recvs| && r == recvs[..|r|]
    decreases |recvs|
  {
    if mlr >= ml || recvs == [] || recvs[0] <= 0 then [] else [recvs[0]] + Taken(ml, U16(mlr + recvs[0]), recvs[1..])
  }

  /** The octets still to come. */
  function Left(ml: uint16, mlr: uint16): nat {
    if mlr < ml then ml - mlr else 0
  }

  /** message_length_read never passes its 16 bits while the loop goes on. */
  predicate Unwrapped(ml: uint16, mlr: uint16, recvs: seq<int>)
    decreases |recvs|
  {
    mlr < ml && recvs != [] && recvs[0] > 0 ==>
      mlr + recvs[0] < 0x1_0000 && Unwrapped(ml, mlr + recvs[0], recvs[1..])
  }

  predicate Within(recvs: seq<int>, size: int) {
    forall i :: 0 <= i < |recvs| ==> 0 < recvs[i] <= size
  }

  /** No read fails, and none passes the end of a message of which left octets are still to come. */
  predicate NoOverrun(left: int, recvs: seq<int>) {
    if recvs == [] then left >= 0
    else recvs[0] > 0 && recvs[0] <= left && NoOverrun(left - recvs[0], recvs[1..])
  }

  /** Each fragment starts where the lengths before it end, and all carry the same total. */
  predicate Tiles(fs: seq<Fragment>, total: nat, offset: nat) {
    if fs == [] then true
    else fs[0].total == total && fs[0].offset == offset && Tiles(fs[1..], total, offset + fs[0].len)
  }

  lemma U16Small(n: int)
    requires 0 <= n < 0x1_0000
    ensures U16(n) == n
  {
  }

  // ----- How long the loop goes on -----

  /** One event for the packet's first part, and one for each read made use of. */
  lemma {:induction false} EventsPerRead(ml: uint16, mlr: uint16, total: uint16, offset: uint16, lenRead: uint16,
                                         views: seq<uint16>, recvs: seq<int>)
    requires |views| > |recvs|
    ensures |Deliver(ml, mlr, total, offset, lenRead, views, recvs)| == |Taken(ml, mlr, recvs)| + 1
    decreases |recvs|
  {
    hide U16;
    if mlr < ml && recvs != [] && recvs[0] > 0 {
      var total' := if total == 0 then U16(ml as int - mlr + views[0]) else total;
      var len := if total == 0 then views[0] else lenRead;
      EventsPerRead(ml, U16(mlr + recvs[0]), total', U16(offset as int + len), U16(recvs[0]), views[1..], recvs[1..]);
    }
  }

  /** message_length minus message_length_read bounds the reads, however long the supply, as long as
      the counter does not wrap. */
  lemma {:induction false} ReadsBounded(ml: uint16, mlr: uint16, recvs: seq<int>)
    requires Unwrapped(ml, mlr, recvs)
    ensures |Taken(ml, mlr, recvs)| <= Left(ml, mlr)
    decreases |recvs|
  {
    if mlr < ml && recvs != [] && recvs[0] > 0 {
      U16Small(mlr + recvs[0]);
      ReadsBounded(ml, mlr + recvs[0], recvs[1..]);
    }
  }

  /** It cannot wrap when message and buffer together stay within 65536 octets. */
  lemma {:induction false} UnwrappedWithin(ml: uint16, mlr: uint16, recvs: seq<int>, size: nat)
    requires ml + size <= 0x1_0000 && forall i :: 0 <= i < |recvs| ==> recvs[i] <= size
    ensures Unwrapped(ml, mlr, recvs)
    decreases |recvs|
  {
    if mlr < ml && recvs != [] && recvs[0] > 0 {
      assert forall i :: 0 <= i < |recvs| - 1 ==> recvs[1..][i] == recvs[i + 1];
      UnwrappedWithin(ml, mlr + recvs[0], recvs[1..], size);
    }
  }

  /** Some supply of n reads, each filling at most size octets, is used up without the loop stopping. */
  ghost predicate RunsOn(ml: uint16, mlr: uint16, size: nat, n: nat) {
    exists recvs: seq<int> :: |recvs| == n && Within(recvs, size) && Taken(ml, mlr, recvs) == recvs
  }

  /** Single octets up to one short of the message length, then a read that takes the counter to 0. */
  function Circling(ml: uint16, mlr: uint16, n: nat): (r: seq<int>)
    requires mlr < ml
    ensures |r| == n
    decreases n
  {
    if n == 0 then []
    else if mlr + 1 < ml then [1] + Circling(ml, mlr + 1, n - 1)
    else [0x1_0000 - mlr] + Circling(ml, 0, n - 1)
  }

  lemma {:induction false} CirclingTaken(ml: uint16, mlr: uint16, size: nat, n: nat)
    requires mlr < ml && ml + size > 0x1_0000
    ensures var r := Circling(ml, mlr, n); Within(r, size) && Taken(ml, mlr, r) == r
    decreases n
  {
    if n > 0 {
      var read := if mlr + 1 < ml then 1 else 0x1_0000 - mlr;
      var next: uint16 := if mlr + 1 < ml then mlr + 1 else 0;
      CirclingTaken(ml, next, size, n - 1);
      TakenCons(ml, mlr, next, read, size, Circling(ml, next, n - 1));
    }
  }

  lemma TakenCons(ml: uint16, mlr: uint16, next: uint16, read: int, size: nat, rest: seq<int>)
    requires mlr < ml && 0 < read <= size && (mlr + read == next || mlr + read == next + 0x1_0000)
    requires Within(rest, size) && Taken(ml, next, rest) == rest
    ensures Within([read] + rest, size) && Taken(ml, mlr, [read] + rest) == [read] + rest
  {
    var r := [read] + rest;
    assert r[1..] == rest;
    assert U16(mlr + read) == next;
  }

  /** The loop stops on every supply exactly when the message is already complete, or message length and
      buffer size together stay within 65536; otherwise the 16-bit counter can pass the message length
      unseen, again and again, for any number of reads. */
  lemma EndlessIff(ml: uint16, mlr: uint16, size: nat)
    requires size > 0
    ensures (forall n: nat :: RunsOn(ml, mlr, size, n)) <==> mlr < ml && ml + size > 0x1_0000
  {
    hide Taken, Within;
    if mlr < ml && ml + size > 0x1_0000 {
      forall n: nat ensures RunsOn(ml, mlr, size, n) {
        CirclingTaken(ml, mlr, size, n);
      }
    } else {
      var n := Left(ml, mlr) + 1;
      if RunsOn(ml, mlr, size, n) {
        var recvs: seq<int> :| |recvs| == n && Within(recvs, size) && Taken(ml, mlr, recvs) == recvs;
        StopsEarly(ml, mlr, size, recvs);
        assert false;
      }
    }
  }

  lemma StopsEarly(ml: uint16, mlr: uint16, size: nat, recvs: seq<int>)
    requires Within(recvs, size) && (mlr < ml ==> ml + size <= 0x1_0000)
    ensures |Taken(ml, mlr, recvs)| <= Left(ml, mlr)
  {
    if mlr < ml {
      UnwrappedWithin(ml, mlr, recvs, size);
      ReadsBounded(ml, mlr, recvs);
    }
  }

  function FullReads(n: nat): (r: seq<int>)
    ensures |r| == n
  {
    if n == 0 then [] else [1024] + FullReads(n - 1)
  }

  /** It happens at the default buffer size of 1024: a message of 65535 octets of which 1000 came first,
      every later read full. */
  lemma {:induction false} FullReadsWrap(mlr: uint16, n: nat)
    requires mlr % 1024 == 1000
    ensures Taken(65535, mlr, FullReads(n)) == FullReads(n)
    decreases n
  {
    if n > 0 {
      var next := U16(mlr + 1024);
      assert next % 1024 == 1000;
      FullReadsWrap(next, n - 1);
      assert FullReads(n)[1..] == FullReads(n - 1);
    }
  }

  lemma DeliverUnfold(ml: uint16, mlr: uint16, total: uint16, offset: uint16, lenRead: uint16,
                      views: seq<uint16>, recvs: seq<int>)
    requires views != []
    ensures var total' := if total == 0 then U16(ml as int - mlr + views[0]) else total;
      var len := if total == 0 then views[0] else lenRead;
      Deliver(ml, mlr, total, offset, lenRead, views, recvs)
      == [Fragment(len, total', offset)]
         + (if mlr >= ml || recvs == [] || recvs[0] <= 0 then []
            else Deliver(ml, U16(mlr + recvs[0]), total', U16(offset as int + len), U16(recvs[0]),
                         views[1..], recvs[1..]))
  {
    hide U16;
  }

  /** The events depend on the reads made use of alone. */
  lemma {:induction false} DeliverDepends(ml: uint16, mlr: uint16, total: uint16, offset: uint16, lenRead: uint16,
                                          views: seq<uint16>, recvs: seq<int>, n: nat)
    requires |views| > |recvs| && n == |Taken(ml, mlr, recvs)|
    ensures Deliver(ml, mlr, total, offset, lenRead, views, recvs)
         == Deliver(ml, mlr, total, offset, lenRead, views[..n + 1], recvs[..n])
    decreases |recvs|
  {
    hide U16, Deliver;
    DeliverUnfold(ml, mlr, total, offset, lenRead, views, recvs);
    DeliverUnfold(ml, mlr, total, offset, lenRead, views[..n + 1], recvs[..n]);
    if n > 0 {
      var total' := if total == 0 then U16(ml as int - mlr + views[0]) else total;
      var len := if total == 0 then views[0] else lenRead;
      assert views[..n + 1][1..] == views[1..][..n] && recvs[..n][1..] == recvs[1..][..n - 1];
      DeliverDepends(ml, U16(mlr + recvs[0]), total', U16(offset as int + len), U16(recvs[0]),
                     views[1..], recvs[1..], n - 1);
    }
  }

  lemma {:induction false} TakenSurplus(ml: uint16, mlr: uint16, a: seq<int>, b: seq<int>)
    requires Taken(ml, mlr, a) == a && Counter(mlr, a) >= ml
    ensures Taken(ml, mlr, a + b) == a
    decreases |a|
  {
    hide U16;
    if a != [] {
      assert (a + b)[1..] == a[1..] + b;
      assert a == [a[0]] + Taken(ml, U16(mlr + a[0]), a[1..]);
      TakenSurplus(ml, U16(mlr + a[0]), a[1..], b);
    }
  }

  /** Once the counter has reached the message length nothing more is read, and what the transport still
      holds changes no event. */
  lemma Surplus(ml: uint16, mlr: uint16, total: uint16, offset: uint16, lenRead: uint16,
                views: seq<uint16>, a: seq<int>, b: seq<int>)
    requires |views| > |a + b| && Taken(ml, mlr, a) == a && Counter(mlr, a) >= ml
    ensures Taken(ml, mlr, a + b) == a
    ensures Deliver(ml, mlr, total, offset, lenRead, views, a + b)
         == Deliver(ml, mlr, total, offset, lenRead, views[..|a| + 1], a)
  {
    hide Deliver, Taken, Counter;
    TakenSurplus(ml, mlr, a, b);
    DeliverDepends(ml, mlr, total, offset, lenRead, views, a + b, |a|);
    assert (a + b)[..|a|] == a;
  }

  /** message_length_read after the reads a. */
  function Counter(mlr: uint16, a: seq<int>): uint16
    decreases |a|
  {
    if a == [] then mlr else Counter(U16(mlr + a[0]), a[1..])
  }

  /** Reads that stay inside the message are all used, and complete it exactly when they add up to it. */
  lemma {:induction false} NoOverrunTaken(ml: uint16, mlr: uint16, recvs: seq<int>)
    requires mlr <= ml && NoOverrun(ml as int - mlr, recvs)
    ensures Taken(ml, mlr, recvs) == recvs && Unwrapped(ml, mlr, recvs)
    ensures Counter(mlr, recvs) == mlr + Sum(recvs) <= ml
    decreases |recvs|
  {
    if recvs != [] {
      U16Small(mlr + recvs[0]);
      NoOverrunTaken(ml, mlr + recvs[0], recvs[1..]);
    }
  }

  // ----- What the events say -----

  /** One turn that goes on to another. */
  lemma DeliverStep(ml: uint16, mlr: uint16, total: uint16, offset: uint16, lenRead: uint16,
                    views: seq<uint16>, recvs: seq<int>, total': uint16, len: uint16)
    requires |views| > |recvs| > 0 && mlr < ml && 0 < recvs[0] && mlr + recvs[0] < 0x1_0000
    requires offset as int + len < 0x1_0000
    requires total' == if total == 0 then U16(ml as int - mlr + views[0]) else total
    requires len == if total == 0 then views[0] else lenRead
    ensures Deliver(ml, mlr, total, offset, lenRead, views, recvs)
         == [Fragment(len, total', offset)]
            + Deliver(ml, mlr + recvs[0], total', offset as int + len, recvs[0], views[1..], recvs[1..])
    ensures Taken(ml, mlr, recvs) == [recvs[0]] + Taken(ml, mlr + recvs[0], recvs[1..])
  {
    U16Small(mlr + recvs[0]);
    U16Small(offset as int + len);
    U16Small(recvs[0]);
  }

  lemma DeliverLast(ml: uint16, mlr: uint16, total: uint16, offset: uint16, lenRead: uint16,
                    views: seq<uint16>, recvs: seq<int>)
    requires |views| > |recvs| && (mlr >= ml || recvs == [] || recvs[0] <= 0)
    ensures var total' := if total == 0 then U16(ml as int - mlr + views[0]) else total;
      var len := if total == 0 then views[0] else lenRead;
      Deliver(ml, mlr, total, offset, lenRead, views, recvs) == [Fragment(len, total', offset)]
    ensures Taken(ml, mlr, recvs) == []
  {
  }

  /** A fragment in front of a tiling. */
  lemma TilesCons(f: Fragment, fs: seq<Fragment>, total: nat, offset: nat)
    requires f.total == total && f.offset == offset && Tiles(fs, total, offset + f.len)
    ensures Tiles([f] + fs, total, offset) && Lengths([f] + fs) == f.len + Lengths(fs)
  {
    assert ([f] + fs)[1..] == fs;
  }

  lemma TilesOne(f: Fragment)
    ensures Tiles([f], f.total, f.offset) && Lengths([f]) == f.len
  {
  }

  lemma SumCons(n: int, recvs: seq<int>)
    ensures Sum([n] + recvs) == n + Sum(recvs)
  {
    assert ([n] + recvs)[1..] == recvs;
  }

  /** From the second turn on. The current read ends at mlr, so the payload delivered so far does too. */
  lemma {:induction false} LaterTiles(ml: uint16, mlr: uint16, total: uint16, offset: uint16, lenRead: uint16,
                                      views: seq<uint16>, recvs: seq<int>)
    requires total > 0 && |views| > |recvs| && Unwrapped(ml, mlr, recvs)
    requires offset as int + lenRead <= mlr
    ensures var fs := Deliver(ml, mlr, total, offset, lenRead, views, recvs);
      && Tiles(fs, total, offset)
      && Lengths(fs) == lenRead + Sum(Taken(ml, mlr, recvs))
    decreases |recvs|
  {
    hide Tiles, Lengths, Deliver, Taken, Sum;
    var f := Fragment(lenRead, total, offset);
    if mlr >= ml || recvs == [] || recvs[0] <= 0 {
      DeliverLast(ml, mlr, total, offset, lenRead, views, recvs);
      TilesOne(f);
      SumEmpty();
    } else {
      DeliverStep(ml, mlr, total, offset, lenRead, views, recvs, total, lenRead);
      LaterTiles(ml, mlr + recvs[0], total, offset as int + lenRead, recvs[0], views[1..], recvs[1..]);
      TilesCons(f, Deliver(ml, mlr + recvs[0], total, offset as int + lenRead, recvs[0], views[1..], recvs[1..]),
                total, offset);
      SumCons(recvs[0], Taken(ml, mlr + recvs[0], recvs[1..]));
    }
  }

  lemma SumEmpty()
    ensures Sum([]) == 0
  {
  }

  /** The events of one message, however it is read: with the first view covering views[0] octets of a
      payload of size octets, and the counter not wrapping, every event carries the payload's size, each
      offset is the sum of the earlier lengths, there is one event per read, what is announced is what
      was received, and that is the payload's size exactly when the reads end where the message ends. */
  lemma Tiling(ml: uint16, mlr: uint16, size: uint16, views: seq<uint16>, recvs: seq<int>)
    requires mlr <= ml && |views| > |recvs| && Unwrapped(ml, mlr, recvs)
    requires views[0] <= mlr && ml as int - mlr + views[0] == size
    ensures var fs := Deliver(ml, mlr, 0, 0, 0, views, recvs);
      var taken := Taken(ml, mlr, recvs);
      && Tiles(fs, size, 0)
      && |fs| == |taken| + 1 <= ml - mlr + 1
      && Lengths(fs) == views[0] + Sum(taken)
      && (Lengths(fs) == size <==> mlr + Sum(taken) == ml)
  {
    hide Tiles, Lengths, Deliver, Taken, Sum;
    var f := Fragment(views[0], size, 0);
    U16Small(size);
    EventsPerRead(ml, mlr, 0, 0, 0, views, recvs);
    ReadsBounded(ml, mlr, recvs);
    if mlr >= ml || recvs == [] || recvs[0] <= 0 {
      DeliverLast(ml, mlr, 0, 0, 0, views, recvs);
      TilesOne(f);
      SumEmpty();
    } else {
      DeliverStep(ml, mlr, 0, 0, 0, views, recvs, size, views[0]);
      LaterTiles(ml, mlr + recvs[0], size, views[0], recvs[0], views[1..], recvs[1..]);
      TilesCons(f, Deliver(ml, mlr + recvs[0], size, views[0], recvs[0], views[1..], recvs[1..]), size, 0);
      SumCons(recvs[0], Taken(ml, mlr + recvs[0], recvs[1..]));
    }
  }

  /** A PUBLISH as any conforming sender encodes it. */
  function Incoming(topic: seq<byte>, data: seq<byte>, qos: nat, retain: int, id: uint16): seq<byte> {
    var body := PublishBody(topic, qos, id, data);
    [First(PUBLISH, 0, qos, retain)] + EncodeLength(|body|) + body
  }

  /** Where its payload starts. */
  function PayloadStart(topic: seq<byte>, data: seq<byte>, qos: nat, id: uint16): nat {
    1 + |EncodeLength(|PublishBody(topic, qos, id, data)|)| + 2 + |topic| + if qos > 0 then 2 else 0
  }

  /** Whatever follows it in the buffer, once header, topic and id are there the readers see the total
      length, the QoS, the topic length and the id. */
  lemma HeadLayout(topic: seq<byte>, data: seq<byte>, qos: nat, retain: int, id: uint16, b: seq<byte>) returns (h: nat)
    requires topic != [] && qos < 4 && |Incoming(topic, data, qos, retain, id)| < 0x1_0000
    requires Begun(topic, data, qos, retain, id, b)
    ensures h >= 2 && h + 2 + |topic| + (if qos > 0 then 2 else 0) == PayloadStart(topic, data, qos, id) <= |b|
    ensures TotalLength(b) == |Incoming(topic, data, qos, retain, id)| && HeaderEnd(b, 1) == h
    ensures Word(b[h..]) == |topic| && (qos > 0 ==> Word(b[h + 2 + |topic|..]) == id)
    ensures TypeOf(b[0]) == PUBLISH && QosOf(b[0]) == qos
  {
    hide First, TotalLength, HeaderEnd, TypeOf, QosOf, BE16, EncodeLength, Word, DecodeLength;
    var body := PublishBody(topic, qos, id, data);
    var e := EncodeLength(|body|);
    var i := if qos > 0 then BE16(id) else [];
    h := 1 + |e|;
    HeadPieces([First(PUBLISH, 0, qos, retain)], e, BE16(|topic|), topic, i, data, b);
    LengthRoundTrip(|body|, b[h..]);
    TotalLengthStandard(b);
    BE16Word(|topic|, b[h + 2..]);
    BE16Word(id, b[h + 2 + |topic| + |i|..]);
    FirstFields(PUBLISH, 0, qos, retain);
  }

  /** b starts with the packet up to its payload. */
  predicate Begun(topic: seq<byte>, data: seq<byte>, qos: nat, retain: int, id: uint16, b: seq<byte>) {
    var n := PayloadStart(topic, data, qos, id);
    IncomingSize(topic, data, qos, retain, id);
    n <= |b| && b[..n] == Incoming(topic, data, qos, retain, id)[..n]
  }

  lemma HeadPieces(f: seq<byte>, e: seq<byte>, l: seq<byte>, t: seq<byte>, i: seq<byte>, d: seq<byte>, b: seq<byte>)
    requires |f| == 1
    requires var n := 1 + |e| + |l| + |t| + |i|; n <= |b| && b[..n] == (f + e + (l + t + i + d))[..n]
    ensures b[0] == f[0] && b[1..] == e + b[1 + |e|..]
    ensures b[1 + |e|..] == l + b[1 + |e| + |l|..]
    ensures b[1 + |e| + |l| + |t|..] == i + b[1 + |e| + |l| + |t| + |i|..]
  {
    var n := 1 + |e| + |l| + |t| + |i|;
    assert b == (f + e + (l + t + i)) + b[n..];
  }

  /** Where the length octets of an incoming PUBLISH end. */
  function LengthEnd(topic: seq<byte>, data: seq<byte>, qos: nat, id: uint16): nat {
    1 + |EncodeLength(|PublishBody(topic, qos, id, data)|)|
  }

  /** Once they are there the readers see the total length and the QoS. */
  lemma LengthLayout(topic: seq<byte>, data: seq<byte>, qos: nat, retain: int, id: uint16, n: nat)
    requires qos < 4 && |Incoming(topic, data, qos, retain, id)| < 0x1_0000
    requires LengthEnd(topic, data, qos, id) <= n <= |Incoming(topic, data, qos, retain, id)|
    ensures var p := Incoming(topic, data, qos, retain, id);
      && TotalLength(p[..n]) == |p| && HeaderEnd(p[..n], 1) == LengthEnd(topic, data, qos, id)
      && QosOf(p[..n][0]) == qos
  {
    hide First, TotalLength, HeaderEnd, TypeOf, QosOf, EncodeLength, DecodeLength, PublishBody;
    var body := PublishBody(topic, qos, id, data);
    var e := EncodeLength(|body|);
    var b := Incoming(topic, data, qos, retain, id)[..n];
    assert b[1..] == e + b[1 + |e|..];
    LengthRoundTrip(|body|, b[1 + |e|..]);
    TotalLengthStandard(b);
    FirstFields(PUBLISH, 0, qos, retain);
  }

  /** Cut before its payload starts, an incoming PUBLISH shows no payload; cut there or before, no id. */
  lemma CutHead(topic: seq<byte>, data: seq<byte>, qos: nat, retain: int, id: uint16, m: nat)
    requires topic != [] && qos < 4 && |Incoming(topic, data, qos, retain, id)| < 0x1_0000
    requires 1 <= m <= PayloadStart(topic, data, qos, id) <= |Incoming(topic, data, qos, retain, id)|
    ensures var b := Incoming(topic, data, qos, retain, id)[..m];
      && IdOf(b) == 0
      && (m < PayloadStart(topic, data, qos, id) ==> DataView(b).Absent?)
  {
    hide Incoming, TotalLength, HeaderEnd, QosOf, TypeOf, PayloadStart, Word;
    var p := Incoming(topic, data, qos, retain, id);
    var h := HeadLayout(topic, data, qos, retain, id, p);
    HeaderEndCut(p, 1, m);
    var b := p[..m];
    assert b[0] == p[0];
    if m >= h + 2 {
      WordCut(p, h, m);
    }
  }

  lemma WordCut(p: seq<byte>, i: nat, m: nat)
    requires i + 2 <= m <= |p|
    ensures Word(p[..m][i..]) == Word(p[i..])
  {
  }

  /** A first read that covers header, topic and id sees the true total length and as much payload as
      it holds. */
  lemma FirstView(topic: seq<byte>, data: seq<byte>, qos: nat, retain: int, id: uint16, n: nat)
    requires topic != [] && qos < 4 && |Incoming(topic, data, qos, retain, id)| < 0x1_0000
    requires PayloadStart(topic, data, qos, id) <= n <= |Incoming(topic, data, qos, retain, id)|
    ensures var p := Incoming(topic, data, qos, retain, id);
      && TotalLength(p[..n]) == |p|
      && |DataView(p[..n]).Of(p[..n])| == n - PayloadStart(topic, data, qos, id)
  {
    hide Incoming, TotalLength, HeaderEnd, QosOf, PayloadStart, Word;
    var p := Incoming(topic, data, qos, retain, id);
    assert p[..n][..PayloadStart(topic, data, qos, id)] == p[..PayloadStart(topic, data, qos, id)];
    var h := HeadLayout(topic, data, qos, retain, id, p[..n]);
  }

  /** So the fragments of an incoming message tile its payload, however the transport cuts it. Reads that
      stay inside the message are all used. */
  lemma IncomingTiles(topic: seq<byte>, data: seq<byte>, qos: nat, retain: int, id: uint16, n: nat,
                      views: seq<uint16>, recvs: seq<int>)
    requires topic != [] && qos < 4 && |Incoming(topic, data, qos, retain, id)| < 0x1_0000
    requires PayloadStart(topic, data, qos, id) <= n <= |Incoming(topic, data, qos, retain, id)|
    requires |views| > |recvs| && Unwrapped(|Incoming(topic, data, qos, retain, id)|, n, recvs)
    requires var b := Incoming(topic, data, qos, retain, id)[..n]; views[0] == |DataView(b).Of(b)|
    ensures var p := Incoming(topic, data, qos, retain, id);
      var fs := Deliver(U16(TotalLength(p[..n])), n, 0, 0, 0, views, recvs);
      var taken := Taken(|p|, n, recvs);
      && Tiles(fs, |data|, 0) && |fs| == |taken| + 1
      && (Lengths(fs) == |data| <==> n + Sum(taken) == |p|)
      && (NoOverrun(|p| - n, recvs) ==> taken == recvs)
  {
    hide Deliver, Tiles, Lengths, NoOverrun, DataView, TotalLength, Taken, Unwrapped, Sum, Incoming, PayloadStart;
    FirstView(topic, data, qos, retain, id, n);
    var p := Incoming(topic, data, qos, retain, id);
    IncomingSize(topic, data, qos, retain, id);
    Tiling(|p|, n, |data|, views, recvs);
    if NoOverrun(|p| - n, recvs) {
      NoOverrunTaken(|p|, n, recvs);
    }
  }

  lemma IncomingSize(topic: seq<byte>, data: seq<byte>, qos: nat, retain: int, id: uint16)
    ensures |Incoming(topic, data, qos, retain, id)| == PayloadStart(topic, data, qos, id) + |data|
  {
  }

  /** With the length octets read, the total announced is the payload's size exactly when header, topic
      and id have been read too; otherwise it counts what is missing of them as payload. */
  lemma TotalAnnouncedIff(topic: seq<byte>, data: seq<byte>, qos: nat, retain: int, id: uint16, n: nat)
    requires topic != [] && qos < 4 && |Incoming(topic, data, qos, retain, id)| < 0x1_0000
    requires LengthEnd(topic, data, qos, id) <= n <= |Incoming(topic, data, qos, retain, id)|
    ensures var b := Incoming(topic, data, qos, retain, id)[..n];
      Deliver(U16(TotalLength(b)), n, 0, 0, 0, [|DataView(b).Of(b)|], [])[0].total == |data|
      <==> n >= PayloadStart(topic, data, qos, id)
  {
    hide Incoming, TotalLength, DataView, PayloadStart, LengthEnd;
    IncomingSize(topic, data, qos, retain, id);
    LengthLayout(topic, data, qos, retain, id, n);
    if n >= PayloadStart(topic, data, qos, id) {
      FirstView(topic, data, qos, retain, id, n);
    } else {
      HeadNonempty(topic, data, qos, id);
      CutHead(topic, data, qos, retain, id, n);
    }
  }

  lemma HeadNonempty(topic: seq<byte>, data: seq<byte>, qos: nat, id: uint16)
    ensures 2 <= LengthEnd(topic, data, qos, id) <= PayloadStart(topic, data, qos, id)
  {
    hide EncodeLength;
  }

  /** A first read that runs on into what follows the message sees all of the payload. */
  lemma OverrunView(topic: seq<byte>, data: seq<byte>, qos: nat, retain: int, id: uint16, more: seq<byte>)
    requires topic != [] && qos < 4 && |Incoming(topic, data, qos, retain, id)| < 0x1_0000
    ensures var p := Incoming(topic, data, qos, retain, id); var b := p + more;
      TotalLength(b) == |p| && |DataView(b).Of(b)| == |data|
  {
    hide Incoming, TotalLength, HeaderEnd, QosOf, PayloadStart, Word;
    var p, n := Incoming(topic, data, qos, retain, id), PayloadStart(topic, data, qos, id);
    IncomingSize(topic, data, qos, retain, id);
    assert (p + more)[..n] == p[..n];
    var h := HeadLayout(topic, data, qos, retain, id, p + more);
  }

  /** But then the total announced is wrong: it is the payload's size exactly when nothing follows the
      message in the buffer. */
  lemma TotalRightIff(topic: seq<byte>, data: seq<byte>, qos: nat, retain: int, id: uint16, more: seq<byte>)
    requires topic != [] && qos < 4 && |Incoming(topic, data, qos, retain, id) + more| < 0x1_0000
    ensures var b := Incoming(topic, data, qos, retain, id) + more;
      Deliver(U16(TotalLength(b)), |b|, 0, 0, 0, [|DataView(b).Of(b)|], [])[0].total == |data| <==> more == []
  {
    hide Incoming, TotalLength, DataView;
    OverrunView(topic, data, qos, retain, id, more);
  }


  /** mqtt_get_id, which looks at the whole input buffer, finds the id of an incoming PUBLISH above QoS 0
      exactly when something follows it there: a header, topic and id that fill the buffer read as id 0. */
  lemma IncomingId(topic: seq<byte>, data: seq<byte>, qos: nat, retain: int, id: uint16, b: seq<byte>)
    requires topic != [] && 0 < qos < 4 && |Incoming(topic, data, qos, retain, id)| < 0x1_0000
    requires Begun(topic, data, qos, retain, id, b)
    ensures IdOf(b) == if |b| > PayloadStart(topic, data, qos, id) then id else 0
  {
    hide Incoming, TotalLength, HeaderEnd, QosOf, TypeOf, PayloadStart, Word, Begun;
    var h := HeadLayout(topic, data, qos, retain, id, b);
  }
}
