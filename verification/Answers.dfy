/** What components/espmqtt/mqtt_client.c makes of the packet at the front of its input buffer: the answer
    it sends, the id it reads, the CONNACK it accepts, and when octets of an earlier read decide these. */
module Answers {
  import opened Bytes
  import opened MqttWire
  import opened MqttMsg
  import opened MqttParse
  import opened MqttRoundTrip
  import opened Fragments

  lemma OverlaidNone(buffer: seq<byte>)
    ensures Overlaid(buffer, []) == buffer
  {
  }

  /** A buffer after a read: what came in, then what was there before. */
  function Overlaid(buffer: seq<byte>, data: seq<byte>): (r: seq<byte>)
    requires |data| <= |buffer|
    ensures |r| == |buffer|
  {
    data + buffer[|data|..]
  }

  /** The packet type the client answers a received packet with. */
  function ReplyType(b: seq<byte>): Option<nat>
    requires b != []
  {
    var ty, qos := TypeOf(b[0]), QosOf(b[0]);
    if ty == PUBLISH && qos == 1 then Some(PUBACK)
    else if ty == PUBLISH && qos == 2 then Some(PUBREC)
    else if ty == PUBREC then Some(PUBREL)
    else if ty == PUBREL then Some(PUBCOMP)
    else if ty == PINGREQ then Some(PINGRESP)
    else None
  }

  /** The answer itself: it repeats the packet's id. */
  function ReplyPacket(b: seq<byte>, draw: uint16): seq<byte>
    requires b != [] && ReplyType(b).Some?
  {
    AnswerPacket(ReplyType(b).value, IdOf(b), draw)
  }

  function AnswerPacket(ty: nat, id: uint16, draw: uint16): seq<byte> {
    Packet(First(ty, 0, if ty == PUBREL then 1 else 0, 0),
           if ty == PINGRESP then [] else BE16(if id == 0 then draw else id))
  }

  /** Which packets are answered, and by which octets: PUBLISH at QoS 1 by PUBACK, at QoS 2 by PUBREC, PUBREC by
      PUBREL, PUBREL by PUBCOMP, PINGREQ by PINGRESP, and nothing else. */
  lemma AnswerOctets(b: seq<byte>, draw: uint16)
    requires b != []
    ensures var id := if IdOf(b) == 0 then draw else IdOf(b);
      var tail := [2, id / 0x100, id % 0x100];
      && (ReplyType(b).Some? <==>
            (b[0] / 16 == 3 && b[0] / 2 % 4 in {1, 2}) || b[0] / 16 in {5, 6, 12})
      && (b[0] / 16 == 3 && b[0] / 2 % 4 == 1 ==> ReplyPacket(b, draw) == [0x40] + tail)
      && (b[0] / 16 == 3 && b[0] / 2 % 4 == 2 ==> ReplyPacket(b, draw) == [0x50] + tail)
      && (b[0] / 16 == 5 ==> ReplyPacket(b, draw) == [0x62] + tail)
      && (b[0] / 16 == 6 ==> ReplyPacket(b, draw) == [0x70] + tail)
      && (b[0] / 16 == 12 ==> ReplyPacket(b, draw) == [0xD0, 0])
  {
    hide IdOf, First, FixedHeader, BE16;
    var id: nat := if IdOf(b) == 0 then draw else IdOf(b);
    if ReplyType(b).Some? {
      AnswerFirsts(ReplyType(b).value);
      WordOrder(id, 0, 0, []);
      HeaderPlain(First(ReplyType(b).value, 0, if ReplyType(b).value == PUBREL then 1 else 0, 0));
    }
  }

  lemma AnswerFirsts(ty: nat)
    requires ty < 16
    ensures First(ty, 0, if ty == PUBREL then 1 else 0, 0) == ty * 16 + if ty == 6 then 2 else 0
  {
  }

  /** The peer reads back what mqtt_get_id made of its packet, or the random id that stands in for 0. */
  lemma ReplyCarriesId(b: seq<byte>, draw: uint16, more: seq<byte>)
    requires b != [] && ReplyType(b).Some? && ReplyType(b).value != PINGRESP
    ensures var p := ReplyPacket(b, draw) + more;
      TypeOf(p[0]) == ReplyType(b).value && IdOf(p) == if IdOf(b) == 0 then draw else IdOf(b)
  {
    hide IdOf, First;
    var ty := ReplyType(b).value;
    AckRoundTrip(ty, if ty == PUBREL then 1 else 0, if IdOf(b) == 0 then draw else IdOf(b), more);
  }

  /** An incoming PUBLISH whose header, topic and id are in the buffer: QoS 1 is answered by PUBACK and
      QoS 2 by PUBREC, under the packet's own id exactly when something follows the id in the buffer,
      unless the random draw happens to hit it. */
  lemma AnsweredOnceBegun(topic: seq<byte>, data: seq<byte>, qos: nat, retain: int, id: uint16, b: seq<byte>,
                          draw: uint16, more: seq<byte>)
    requires topic != [] && 1 <= qos <= 2 && id != 0 && |Incoming(topic, data, qos, retain, id)| < 0x1_0000
    requires Begun(topic, data, qos, retain, id, b)
    ensures ReplyType(b) == Some(if qos == 1 then PUBACK else PUBREC)
    ensures var a := ReplyPacket(b, draw) + more;
      && TypeOf(a[0]) == (if qos == 1 then PUBACK else PUBREC)
      && (IdOf(a) == id <==> |b| > PayloadStart(topic, data, qos, id) || draw == id)
  {
    hide IdOf, Incoming, PayloadStart, HeaderEnd, TotalLength, Word, TypeOf, QosOf, Begun, ReplyPacket;
    var h := HeadLayout(topic, data, qos, retain, id, b);
    IncomingId(topic, data, qos, retain, id, b);
    ReplyCarriesId(b, draw, more);
  }

  /** Another id with the same high octet. */
  function Neighbour(id: uint16): (r: uint16)
    ensures r != id && r / 0x100 == id / 0x100
  {
    var high: nat, low: nat := id / 0x100, id % 0x100;
    if low == 0xFF then high * 0x100 else high * 0x100 + 0xFF
  }

  /** Two packets that differ only in the low octet of the id agree before it. */
  lemma SameBeforeId(topic: seq<byte>, data: seq<byte>, qos: nat, retain: int, id: uint16, other: uint16, n: nat)
    requires 0 < qos && id / 0x100 == other / 0x100 && n < PayloadStart(topic, data, qos, id)
    ensures n < PayloadStart(topic, data, qos, other) == PayloadStart(topic, data, qos, id)
    ensures |Incoming(topic, data, qos, retain, other)| == |Incoming(topic, data, qos, retain, id)| > n
    ensures Incoming(topic, data, qos, retain, other)[..n] == Incoming(topic, data, qos, retain, id)[..n]
  {
    hide First, EncodeLength, Str;
    var e := EncodeLength(|PublishBody(topic, qos, id, data)|);
    var head := [First(PUBLISH, 0, qos, retain)] + e + (Str(topic) + [U8(id / 0x100)]);
    assert Incoming(topic, data, qos, retain, id) == head + ([U8(id)] + data);
    assert Incoming(topic, data, qos, retain, other) == head + ([U8(other)] + data);
    assert n <= |head|;
  }

  /** A buffer after n octets of the packet that reads as another id than the packet's. */
  lemma WrongIdBuffer(topic: seq<byte>, data: seq<byte>, qos: nat, retain: int, id: uint16, n: nat, size: nat)
    returns (before: seq<byte>)
    requires topic != [] && 0 < qos < 4 && id != 0 && |Incoming(topic, data, qos, retain, id)| < 0x1_0000
    requires 1 <= n <= |Incoming(topic, data, qos, retain, id)| && n <= size
    requires n < PayloadStart(topic, data, qos, id) || size <= PayloadStart(topic, data, qos, id)
    ensures |before| == size && IdOf(Overlaid(before, Incoming(topic, data, qos, retain, id)[..n])) != id
  {
    hide IdOf, Incoming, PayloadStart, Begun;
    var p := Incoming(topic, data, qos, retain, id);
    var h := PayloadStart(topic, data, qos, id);
    IncomingSize(topic, data, qos, retain, id);
    if size <= h {
      before := p[..size];
      assert Overlaid(before, p[..n]) == p[..size];
      CutHead(topic, data, qos, retain, id, size);
    } else {
      var other := Neighbour(id);
      var q := Incoming(topic, data, qos, retain, other);
      SameBeforeId(topic, data, qos, retain, id, other, n);
      before := q[..h] + Zeros(size - h);
      assert Overlaid(before, p[..n]) == before;
      BegunBy(topic, data, qos, retain, other, before);
      IncomingId(topic, data, qos, retain, other, before);
    }
  }

  lemma BegunBy(topic: seq<byte>, data: seq<byte>, qos: nat, retain: int, id: uint16, b: seq<byte>)
    requires var n := PayloadStart(topic, data, qos, id); var p := Incoming(topic, data, qos, retain, id);
      n <= |p| && n <= |b| && forall i :: 0 <= i < n ==> b[i] == p[i]
    ensures Begun(topic, data, qos, retain, id, b)
  {
    hide Incoming, PayloadStart;
  }

  /** When the id mqtt_get_id reads after the first read of a PUBLISH above QoS 0 is the packet's, whatever
      earlier reads left in the buffer: exactly when this read brought the whole head, and the buffer
      holds more than that. */
  lemma PublishIdRead(topic: seq<byte>, data: seq<byte>, qos: nat, retain: int, id: uint16, n: nat, size: nat)
    requires topic != [] && 0 < qos < 4 && id != 0 && |Incoming(topic, data, qos, retain, id)| < 0x1_0000
    requires 1 <= n <= |Incoming(topic, data, qos, retain, id)| && n <= size
    ensures (forall before: seq<byte> :: |before| == size ==>
               IdOf(Overlaid(before, Incoming(topic, data, qos, retain, id)[..n])) == id)
       <==> n >= PayloadStart(topic, data, qos, id) && size > PayloadStart(topic, data, qos, id)
  {
    hide IdOf, Incoming, PayloadStart, Begun;
    var p := Incoming(topic, data, qos, retain, id);
    var h := PayloadStart(topic, data, qos, id);
    if n >= h && size > h {
      forall before: seq<byte> | |before| == size
        ensures IdOf(Overlaid(before, p[..n])) == id
      {
        BegunBy(topic, data, qos, retain, id, Overlaid(before, p[..n]));
        IncomingId(topic, data, qos, retain, id, Overlaid(before, p[..n]));
      }
    } else {
      var before := WrongIdBuffer(topic, data, qos, retain, id, n, size);
    }
  }

  /** The answer to the packet at the front of b carries id. */
  predicate AnswersAs(b: seq<byte>, draw: uint16, id: uint16, more: seq<byte>) {
    b != [] && ReplyType(b).Some? && IdOf(ReplyPacket(b, draw) + more) == id
  }

  /** Sections 4.3.2 and 4.3.3 of MQTT 3.1.1: a PUBLISH of QoS 1 is always answered by PUBACK and one of
      QoS 2 by PUBREC, under the packet's own id, whatever the buffer held and whatever is drawn, exactly
      when the first read brings header, topic and id and the buffer holds more than these. */
  lemma PublishAnswered(topic: seq<byte>, data: seq<byte>, qos: nat, retain: int, id: uint16, n: nat, size: nat,
                        more: seq<byte>)
    requires topic != [] && 1 <= qos <= 2 && id != 0 && |Incoming(topic, data, qos, retain, id)| < 0x1_0000
    requires 1 <= n <= |Incoming(topic, data, qos, retain, id)| && n <= size
    ensures forall before: seq<byte> :: |before| == size ==>
      ReplyType(Overlaid(before, Incoming(topic, data, qos, retain, id)[..n]))
      == Some(if qos == 1 then PUBACK else PUBREC)
    ensures (forall before: seq<byte>, draw: uint16 :: |before| == size && draw != 0 ==>
               AnswersAs(Overlaid(before, Incoming(topic, data, qos, retain, id)[..n]), draw, id, more))
       <==> n >= PayloadStart(topic, data, qos, id) && size > PayloadStart(topic, data, qos, id)
  {
    hide IdOf, Incoming, PayloadStart, ReplyPacket, ReplyType, Overlaid;
    var p := Incoming(topic, data, qos, retain, id);
    var h := PayloadStart(topic, data, qos, id);
    forall before: seq<byte> | |before| == size
      ensures ReplyType(Overlaid(before, p[..n])) == Some(if qos == 1 then PUBACK else PUBREC)
    {
      PublishReplyType(topic, data, qos, retain, id, before, n);
    }
    PublishIdRead(topic, data, qos, retain, id, n, size);
    if n >= h && size > h {
      forall before: seq<byte>, draw: uint16 | |before| == size && draw != 0
        ensures AnswersAs(Overlaid(before, p[..n]), draw, id, more)
      {
        PublishReplyType(topic, data, qos, retain, id, before, n);
        ReplyCarriesId(Overlaid(before, p[..n]), draw, more);
      }
    } else {
      var before := WrongIdBuffer(topic, data, qos, retain, id, n, size);
      PublishReplyType(topic, data, qos, retain, id, before, n);
      var draw: uint16 := if id == 1 then 2 else 1;
      ReplyCarriesId(Overlaid(before, p[..n]), draw, more);
      assert !AnswersAs(Overlaid(before, p[..n]), draw, id, more);
    }
  }

  lemma PublishReplyType(topic: seq<byte>, data: seq<byte>, qos: nat, retain: int, id: uint16, before: seq<byte>,
                         n: nat)
    requires 1 <= qos <= 2 && 1 <= n <= |Incoming(topic, data, qos, retain, id)| && n <= |before|
    ensures var b := Overlaid(before, Incoming(topic, data, qos, retain, id)[..n]);
      b != [] && ReplyType(b) == Some(if qos == 1 then PUBACK else PUBREC)
  {
    hide First, EncodeLength, PublishBody, TypeOf, QosOf;
    FirstFields(PUBLISH, 0, qos, retain);
  }

  /** A first read that stops in front of the id: the topic has come, the id is read from a buffer of
      zeros, and the answer goes out under the drawn id 9 instead of 7. */
  lemma AnsweredFromStaleId(topic: seq<byte>, data: seq<byte>, b: seq<byte>)
    requires topic == [97] && data == [1] && b == Overlaid(Zeros(1024), [0x32, 6, 0, 1, 97])
    ensures Incoming(topic, data, 1, 0, 7)[..5] == [0x32, 6, 0, 1, 97]
    ensures |b| > PayloadStart(topic, data, 1, 7)
    ensures ReplyType(b) == Some(PUBACK) && ReplyPacket(b, 9) == [0x40, 2, 0, 9]
  {
    hide IdOf, ReplyType;
    assert PublishBody(topic, 1, 7, data) == [0, 1, 97, 0, 7, 1];
    assert Incoming(topic, data, 1, 0, 7) == [0x32, 6, 0, 1, 97] + [0, 7, 1];
    ZeroId(b);
    ShortAnswer(b);
  }

  lemma ZeroId(b: seq<byte>)
    requires |b| == 1024 && b[..7] == [0x32, 6, 0, 1, 97, 0, 0]
    ensures IdOf(b) == 0
  {
    assert b[0] == b[..7][0] && b[1] == b[..7][1] && b[2] == b[..7][2] && b[3] == b[..7][3];
    assert b[5] == b[..7][5] && b[6] == b[..7][6];
  }

  /** The shortest such loss: a QoS 1 PUBLISH with id 7 whose header, topic and id fill a buffer of seven
      octets is acknowledged under the drawn id 9. */
  lemma AnsweredUnderWrongId(topic: seq<byte>, data: seq<byte>, b: seq<byte>)
    requires topic == [97] && data == [1] && b == [0x32, 6, 0, 1, 97, 0, 7]
    ensures Begun(topic, data, 1, 0, 7, b) && |b| == PayloadStart(topic, data, 1, 7)
    ensures ReplyType(b) == Some(PUBACK) && ReplyPacket(b, 9) == [0x40, 2, 0, 9]
  {
    hide IdOf, ReplyType;
    var body := PublishBody(topic, 1, 7, data);
    assert body == [0, 1, 97, 0, 7, 1];
    assert Incoming(topic, data, 1, 0, 7) == b + [1];
    assert b[..7] == (b + [1])[..7];
    IncomingId(topic, data, 1, 0, 7, b);
    ShortAnswer(b);
  }

  lemma ShortAnswer(b: seq<byte>)
    requires b != [] && b[0] == 0x32 && IdOf(b) == 0
    ensures ReplyType(b) == Some(PUBACK) && ReplyPacket(b, 9) == [0x40, 2, 0, 9]
  {
    hide IdOf, AnswerPacket;
    assert TypeOf(b[0]) == PUBLISH && QosOf(b[0]) == 1;
    PlainPuback(PUBACK, 9);
  }

  lemma PlainPuback(ty: nat, draw: uint16)
    requires ty == PUBACK && 0 < draw < 0x100
    ensures AnswerPacket(ty, 0, draw) == [0x40, 2, 0, draw]
  {
    hide First, FixedHeader;
    assert First(ty, 0, 0, 0) == 0x40 by {
      FirstPlain(ty);
    }
    HeaderPlain(0x40);
  }

  lemma FirstPlain(ty: nat)
    requires ty < 16
    ensures First(ty, 0, 0, 0) == ty * 16
  {
  }

  lemma HeaderPlain(first: byte)
    ensures FixedHeader(first, 2) == [first, 2] && FixedHeader(first, 0) == [first, 0]
  {
  }

  /** A PUBREC is answered by PUBREL and a PUBREL by PUBCOMP, under its own id, whatever else the buffer
      holds. */
  lemma AckAnswered(ty: nat, qos: int, id: uint16, rest: seq<byte>, draw: uint16, more: seq<byte>)
    requires ty in {PUBREC, PUBREL} && id != 0
    ensures var b := Packet(First(ty, 0, qos, 0), BE16(id)) + rest;
      && ReplyType(b) == Some(if ty == PUBREC then PUBREL else PUBCOMP)
      && var a := ReplyPacket(b, draw) + more;
      && TypeOf(a[0]) == (if ty == PUBREC then PUBREL else PUBCOMP) && IdOf(a) == id
  {
    hide IdOf, First, TypeOf, ReplyPacket;
    AckRoundTrip(ty, qos, id, rest);
    ReplyCarriesId(Packet(First(ty, 0, qos, 0), BE16(id)) + rest, draw, more);
  }

  /** mqtt_get_id looks at the buffer, not at what was read: for an acknowledgement, octets left from an
      earlier read decide the id exactly when fewer than four came and the second of them, if it came,
      does not rule an id out. */
  lemma StaleAck(data: seq<byte>, size: nat)
    requires 0 < |data| <= size && size >= 4 && CarriesId(TypeOf(data[0]))
    ensures (exists b1: seq<byte>, b2: seq<byte> :: |b1| == |b2| == size
               && IdOf(Overlaid(b1, data)) != IdOf(Overlaid(b2, data)))
       <==> |data| < 4 && (|data| == 1 || data[1] < 128)
  {
    if |data| < 4 && (|data| == 1 || data[1] < 128) {
      var b1 := [0, 0, 0, 0] + Zeros(size - 4);
      var b2 := [0, 0, 0, 1] + Zeros(size - 4);
      AckId(Overlaid(b1, data));
      AckId(Overlaid(b2, data));
      assert IdOf(Overlaid(b1, data)) != IdOf(Overlaid(b2, data));
    } else {
      forall b1: seq<byte>, b2: seq<byte> | |b1| == |b2| == size
        ensures IdOf(Overlaid(b1, data)) == IdOf(Overlaid(b2, data))
      {
        AckId(Overlaid(b1, data));
        AckId(Overlaid(b2, data));
      }
    }
  }

  lemma AckId(b: seq<byte>)
    requires |b| >= 4 && CarriesId(TypeOf(b[0]))
    ensures IdOf(b) == if b[1] < 128 then b[2] as int * 0x100 + b[3] else 0
  {
  }

  /** The reader's test of a CONNACK, over the whole buffer. */
  predicate ConnackAccepted(b: seq<byte>)
    requires |b| >= 4
  {
    TypeOf(b[0]) == CONNACK && b[3] == 0
  }

  /** Of the CONNACKs only the one with return code 0 is accepted; codes 1 to 5, and any other, refuse. */
  lemma ConnackCodes(flags: byte, rc: byte, rest: seq<byte>)
    ensures ConnackAccepted([0x20, 2, flags, rc] + rest) <==> rc == 0
  {
    var b := [0x20, 2, flags, rc] + rest;
    assert b[0] == 0x20 && b[3] == rc;
  }

  /** Nothing that is no CONNACK is accepted. */
  lemma OnlyConnack(b: seq<byte>)
    requires |b| >= 4
    ensures ConnackAccepted(b) <==> 0x20 <= b[0] < 0x30 && b[3] == 0
  {
  }

  /** The test is decided by what this attempt received exactly when that is four octets or more, or at
      least one that is not a CONNACK; otherwise octets left from an earlier read decide it, so a read
      that times out can accept an old CONNACK again. */
  lemma StaleConnack(data: seq<byte>, size: nat)
    requires |data| <= size && size >= 4
    ensures (exists b1: seq<byte>, b2: seq<byte> :: |b1| == |b2| == size
               && ConnackAccepted(Overlaid(b1, data)) && !ConnackAccepted(Overlaid(b2, data)))
       <==> |data| < 4 && (data == [] || TypeOf(data[0]) == CONNACK)
  {
    if |data| < 4 && (data == [] || TypeOf(data[0]) == CONNACK) {
      var b1 := [32, 0, 0, 0] + Zeros(size - 4);
      var b2 := [32, 0, 0, 1] + Zeros(size - 4);
      assert ConnackAccepted(Overlaid(b1, data)) && !ConnackAccepted(Overlaid(b2, data));
    }
  }

  /** What the marker means: an acceptance is that of the octets read, whatever the buffer held before,
      exactly when four or more were read. */
  lemma FreshExactly(buffer: seq<byte>, data: seq<byte>)
    requires |data| <= |buffer| && |buffer| >= 4 && ConnackAccepted(Overlaid(buffer, data))
    ensures (forall b: seq<byte> :: |b| == |buffer| ==> ConnackAccepted(Overlaid(b, data))) <==> |data| >= 4
  {
    if |data| < 4 {
      var b := [0, 0, 0, 1] + Zeros(|buffer| - 4);
      assert !ConnackAccepted(Overlaid(b, data));
    }
  }
}
