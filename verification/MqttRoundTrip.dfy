/** What the readers recover of the packets the builders make. */
module MqttRoundTrip {
  import opened Bytes
  import opened MqttWire
  import opened MqttMsg
  import opened MqttParse

  const MAX_REMAINING: nat := 16383  // two length octets

  /** The QoS argument is an int: the builder tests its sign, the header keeps two bits of it. */
  predicate Honest(qos: int) {
    qos > 0 <==> qos % 4 > 0
  }

  function PublishPacket(topic: seq<byte>, data: seq<byte>, qos: int, retain: int, id: uint16): seq<byte> {
    Packet(First(PUBLISH, 0, qos, retain), PublishBody(topic, qos, id, data))
  }

  function HeaderOf(rem: nat): nat { if rem > 127 then 3 else 2 }

  /** Five pieces in a row, seen from the start of each. */
  lemma Pieces(f: seq<byte>, l: seq<byte>, t: seq<byte>, i: seq<byte>, d: seq<byte>, more: seq<byte>)
    ensures var p := f + (l + t + i + d); var b := p + more;
      && b == f + ((l + t + i + d) + more)
      && b[|f|..] == l + b[|f| + |l|..]
      && b[|f| + |l|..|f| + |l| + |t|] == t
      && b[|f| + |l| + |t|..] == i + (d + more)
      && p[|p| - |d|..] == d
  {
  }

  /** A PUBLISH packet, seen from its start, from its topic length and from its id. */
  lemma PublishParts(topic: seq<byte>, data: seq<byte>, qos: int, retain: int, id: uint16, more: seq<byte>)
    returns (h: nat)
    ensures var body := PublishBody(topic, qos, id, data);
      var p := PublishPacket(topic, data, qos, retain, id);
      var b := p + more;
      && h == HeaderOf(|body|) && |p| == h + |body|
      && |body| == 2 + |topic| + (if qos > 0 then 2 else 0) + |data|
      && b == FixedHeader(First(PUBLISH, 0, qos, retain), |body|) + (body + more)
      && b[h..] == BE16(|topic|) + b[h + 2..]
      && b[h + 2..h + 2 + |topic|] == topic
      && (qos > 0 ==> b[h + 2 + |topic|..] == BE16(id) + (data + more))
      && p[|p| - |data|..] == data
  {
    hide First, BE16, FixedHeader;
    var body := PublishBody(topic, qos, id, data);
    var header := FixedHeader(First(PUBLISH, 0, qos, retain), |body|);
    h := HeaderOf(|body|);
    Pieces(header, BE16(|topic|), topic, if qos > 0 then BE16(id) else [], data, more);
  }

  /** Where the topic starts and ends, what its length octets say, and the total length, in any buffer
      that starts with the packet. */
  lemma PublishLayout(topic: seq<byte>, data: seq<byte>, qos: int, retain: int, id: uint16, more: seq<byte>)
    returns (h: nat)
    requires topic != [] && |PublishBody(topic, qos, id, data)| <= MAX_REMAINING
    ensures var p := PublishPacket(topic, data, qos, retain, id);
      var b := p + more;
      && |p| == h + 2 + |topic| + (if qos > 0 then 2 else 0) + |data|
      && HeaderEnd(b, 1) == h && TotalLength(b) == |p|
      && Word(b[h..]) == |topic| && b[h + 2..h + 2 + |topic|] == topic
      && (qos > 0 ==> Word(b[h + 2 + |topic|..]) == id)
      && p[|p| - |data|..] == data
      && TypeOf(b[0]) == PUBLISH && QosOf(b[0]) == qos % 4
  {
    hide First, HeaderEnd, TotalLength, TypeOf, QosOf, PublishBody, Packet, BE16, Word;
    var body := PublishBody(topic, qos, id, data);
    h := PublishParts(topic, data, qos, retain, id, more);
    var b := PublishPacket(topic, data, qos, retain, id) + more;
    TotalLengthOfHeader(First(PUBLISH, 0, qos, retain), |body|, body + more);
    BE16Word(|topic|, b[h + 2..]);
    BE16Word(id, data + more);
    FirstFields(PUBLISH, 0, qos, retain);
  }

  /** Section 3.3 of MQTT 3.1.1: from any buffer that starts with a published packet the readers
      recover the total length, the topic, the payload and the id. An empty payload at the very end
      reads as the null pointer; so does the id, which the reader only looks for when something
      follows it. */
  lemma PublishRoundTrip(topic: seq<byte>, data: seq<byte>, qos: int, retain: int, id: uint16, more: seq<byte>)
    requires topic != [] && |PublishBody(topic, qos, id, data)| <= MAX_REMAINING && Honest(qos)
    ensures var p := PublishPacket(topic, data, qos, retain, id);
      var b := p + more;
      && TotalLength(b) == |p|
      && TopicView(b).At? && TopicView(b).Of(b) == topic
      && DataView(b).Of(b) == data && (DataView(b).Absent? <==> data == [] && more == [])
      && IdOf(b) == (if qos > 0 && (data != [] || more != []) then id else 0)
      && b[0] / 8 % 2 == 0 && b[0] % 2 == retain % 2
  {
    hide First, HeaderEnd, TotalLength, TypeOf, QosOf, Packet, PublishBody;
    var h := PublishLayout(topic, data, qos, retain, id, more);
    FirstFields(PUBLISH, 0, qos, retain);
    PacketStart(First(PUBLISH, 0, qos, retain), PublishBody(topic, qos, id, data), more);
    var p := PublishPacket(topic, data, qos, retain, id);
    var b := p + more;
    assert b[|p| - |data|..|p|] == p[|p| - |data|..];
  }

  /** With a payload, the payload comes back exactly when the sign of the QoS argument agrees with
      the two bits kept of it; QoS 4 and QoS -1 are the first to fail on either side. */
  lemma PublishDataIff(topic: seq<byte>, data: seq<byte>, qos: int, retain: int, id: uint16)
    requires topic != [] && data != [] && |PublishBody(topic, qos, id, data)| <= MAX_REMAINING
    ensures var p := PublishPacket(topic, data, qos, retain, id);
      DataView(p).Of(p) == data <==> Honest(qos)
  {
    hide First, HeaderEnd, TotalLength, TypeOf, QosOf, Packet, PublishBody;
    var p := PublishPacket(topic, data, qos, retain, id);
    assert p + [] == p;
    var h := PublishLayout(topic, data, qos, retain, id, []);
    if Honest(qos) {
      PublishRoundTrip(topic, data, qos, retain, id, []);
    }
  }

  /** The acknowledgements a client sends carry their id where mqtt_get_id looks, whatever follows. */
  lemma AckRoundTrip(ty: nat, qos: int, id: uint16, more: seq<byte>)
    requires CarriesId(ty)
    ensures var b := Packet(First(ty, 0, qos, 0), BE16(id)) + more;
      TypeOf(b[0]) == ty && IdOf(b) == id && TotalLength(b) == 4
  {
    var first := First(ty, 0, qos, 0);
    FirstFields(ty, 0, qos, 0);
    var b := Packet(first, BE16(id)) + more;
    assert b == FixedHeader(first, 2) + (BE16(id) + more);
    TotalLengthOfHeader(first, 2, BE16(id) + more);
    assert b[2..] == BE16(id) + more;
    BE16Word(id, more);
  }

  lemma PacketStart(first: byte, body: seq<byte>, more: seq<byte>)
    ensures (Packet(first, body) + more)[0] == first
  {
  }

  // ----- CONNECT, section 3.1 -----

  datatype Will = Will(topic: seq<byte>, message: seq<byte>, qos: nat, retain: bool)

  datatype Connect = Connect(protocol: seq<byte>, level: byte, cleanSession: bool, keepalive: uint16,
                             clientId: seq<byte>, will: Option<Will>,
                             username: Option<seq<byte>>, password: Option<seq<byte>>)

  /** A length-prefixed string and what follows it. */
  function ReadStr(b: seq<byte>): Option<(seq<byte>, seq<byte>)> {
    if |b| < 2 || |b| < 2 + Word(b) then None
    else Some((b[2..2 + Word(b)], b[2 + Word(b)..]))
  }

  function ReadOptional(present: bool, b: seq<byte>): Option<(Option<seq<byte>>, seq<byte>)> {
    if !present then Some((None, b))
    else
      var (s, rest) :- ReadStr(b);
      Some((Some(s), rest))
  }

  function ReadWill(flags: byte, b: seq<byte>): Option<(Option<Will>, seq<byte>)> {
    if flags / 4 % 2 == 0 then Some((None, b))
    else
      var (topic, b1) :- ReadStr(b);
      var (message, b2) :- ReadStr(b1);
      Some((Some(Will(topic, message, flags / 8 % 4, flags / 32 % 2 == 1)), b2))
  }

  /** The payload in the order of section 3.1.3, each field present as its flag says, and nothing left. */
  function ReadPayload(protocol: seq<byte>, level: byte, flags: byte, keepalive: uint16, b: seq<byte>)
    : Option<Connect>
  {
    var (clientId, b1) :- ReadStr(b);
    var (will, b2) :- ReadWill(flags, b1);
    var (username, b3) :- ReadOptional(flags / 128 == 1, b2);
    var (password, b4) :- ReadOptional(flags / 64 % 2 == 1, b3);
    if b4 == [] then Some(Connect(protocol, level, flags / 2 % 2 == 1, keepalive, clientId, will, username, password))
    else None
  }

  function ReadVariableHeader(b: seq<byte>): Option<Connect> {
    var (protocol, b1) :- ReadStr(b);
    if |b1| < 4 then None
    else ReadPayload(protocol, b1[0], b1[1], Word(b1[2..]), b1[4..])
  }

  /** A reader of CONNECT packets by the standard alone. */
  function ReadConnect(p: seq<byte>): Option<Connect> {
    if p == [] || TypeOf(p[0]) != CONNECT then None
    else
      var (n, used) :- DecodeLength(p[1..], 4);
      if |p| != 1 + used + n then None else ReadVariableHeader(p[1 + used..])
  }

  function Wanted(v311: bool, info: ConnectInfo): Connect {
    Connect(if v311 then [77, 81, 84, 84] else [77, 81, 73, 115, 100, 112], if v311 then 4 else 3,
            info.cleanSession, U16(info.keepalive), info.clientId,
            if info.willTopic == [] then None
            else Some(Will(info.willTopic, info.willMessage, info.willQos % 4, info.willRetain)),
            if info.username == [] then None else Some(info.username),
            if info.password == [] then None else Some(info.password))
  }

  /** Six fields of an octet and their places. */
  lemma FieldPlaces(c: nat, w: nat, q: nat, r: nat, p: nat, u: nat)
    requires c < 2 && w < 2 && q < 4 && r < 2 && p < 2 && u < 2
    ensures var f := 2 * c + 4 * w + 8 * q + 32 * r + 64 * p + 128 * u;
      f / 2 % 2 == c && f / 4 % 2 == w && f / 8 % 4 == q && f / 32 % 2 == r && f / 64 % 2 == p && f / 128 == u
  {
    var f := 2 * c + 4 * w + 8 * q + 32 * r + 64 * p + 128 * u;
    assert f / 2 == c + 2 * (w + 2 * q + 8 * r + 16 * p + 32 * u);
    assert f / 4 == w + 2 * (q + 4 * r + 8 * p + 16 * u);
    assert f / 8 == q + 4 * (r + 2 * p + 4 * u);
    assert f / 32 == r + 2 * (p + 2 * u);
    assert f / 64 == p + 2 * u;
  }

  lemma FlagBits(info: ConnectInfo)
    ensures var f := Flags(info);
      && (f / 2 % 2 == 1 <==> info.cleanSession)
      && (f / 4 % 2 == 1 <==> info.willTopic != [])
      && (info.willTopic != [] ==> f / 8 % 4 == info.willQos % 4 && (f / 32 % 2 == 1 <==> info.willRetain))
      && (f / 64 % 2 == 1 <==> info.password != [])
      && (f / 128 == 1 <==> info.username != [])
  {
    var will := info.willTopic != [];
    FieldPlaces(if info.cleanSession then 1 else 0, if will then 1 else 0, if will then info.willQos % 4 else 0,
                if will && info.willRetain then 1 else 0, if info.password != [] then 1 else 0,
                if info.username != [] then 1 else 0);
  }

  lemma ReadStrBack(s: seq<byte>, rest: seq<byte>)
    requires |s| < 0x1_0000
    ensures ReadStr(Str(s) + rest) == Some((s, rest))
  {
    assert Str(s) + rest == BE16(|s|) + (s + rest);
    BE16Word(|s|, s + rest);
  }

  lemma PayloadBack(protocol: seq<byte>, level: byte, keepalive: uint16, info: ConnectInfo)
    requires |Str(info.clientId) + OptionalFields(info)| <= MAX_REMAINING
    ensures var c := ReadPayload(protocol, level, Flags(info), keepalive, Str(info.clientId) + OptionalFields(info));
      c == Some(Wanted(true, info).(protocol := protocol, level := level, keepalive := keepalive))
  {
    hide Flags, Str, ReadStr;
    FlagBits(info);
    var u, p := OptionalStr(info.username), OptionalStr(info.password);
    ReadStrBack(info.clientId, OptionalFields(info));
    assert OptionalFields(info) == WillFields(info) + (u + p);
    if info.willTopic != [] {
      assert OptionalFields(info) == Str(info.willTopic) + (Str(info.willMessage) + (u + p));
      ReadStrBack(info.willTopic, Str(info.willMessage) + (u + p));
      ReadStrBack(info.willMessage, u + p);
    } else {
      assert OptionalFields(info) == u + p;
    }
    if info.username != [] {
      ReadStrBack(info.username, p);
    } else {
      assert u + p == p;
    }
    if info.password != [] {
      assert p + [] == p;
      ReadStrBack(info.password, []);
    }
  }

  lemma VariableHeaderBack(v311: bool, info: ConnectInfo)
    requires |ConnectBody(v311, info)| <= MAX_REMAINING
    ensures ReadVariableHeader(ConnectBody(v311, info)) == Some(Wanted(v311, info))
  {
    hide Flags, ReadPayload, ReadStr, OptionalFields, Str;
    var f, k := Flags(info), BE16(info.keepalive);
    var payload := Str(info.clientId) + OptionalFields(info);
    var name := Wanted(v311, info).protocol;
    var rest := [Wanted(v311, info).level, f] + k + payload;
    NameStr(v311);
    assert ConnectBody(v311, info) == Str(name) + rest;
    ReadStrBack(name, rest);
    assert rest[2..] == k + payload && rest[4..] == payload;
    BE16Word(info.keepalive, payload);
    PayloadBack(name, Wanted(v311, info).level, U16(info.keepalive), info);
  }

  lemma NameStr(v311: bool)
    ensures Str(if v311 then [77, 81, 84, 84] else [77, 81, 73, 115, 100, 112])
         == if v311 then [0, 4, 77, 81, 84, 84] else [0, 6, 77, 81, 73, 115, 100, 112]
  {
  }

  /** CONNECT describes itself: a reader that knows only the standard recovers every field from the
      packet, exactly when the remaining length fits the two octets fini_message can write. */
  lemma ConnectRoundTrip(v311: bool, info: ConnectInfo)
    requires |ConnectBody(v311, info)| < 0x1_0000
    ensures ReadConnect(Packet(First(CONNECT, 0, 0, 0), ConnectBody(v311, info))) == Some(Wanted(v311, info))
       <==> |ConnectBody(v311, info)| <= MAX_REMAINING
  {
    hide ReadConnect, ConnectBody, First, Wanted;
    if |ConnectBody(v311, info)| <= MAX_REMAINING {
      ConnectFits(v311, info);
    } else {
      ConnectTooLong(ConnectBody(v311, info));
    }
  }

  lemma ConnectFits(v311: bool, info: ConnectInfo)
    requires |ConnectBody(v311, info)| <= MAX_REMAINING
    ensures ReadConnect(Packet(First(CONNECT, 0, 0, 0), ConnectBody(v311, info))) == Some(Wanted(v311, info))
  {
    hide First, TypeOf, DecodeLength, ReadVariableHeader, EncodeLength, ConnectBody, Wanted;
    var body := ConnectBody(v311, info);
    var first := First(CONNECT, 0, 0, 0);
    var p := Packet(first, body);
    FirstFields(CONNECT, 0, 0, 0);
    FixedHeaderStandard(first, |body|);
    LengthRoundTrip(|body|, body);
    assert p[1..] == EncodeLength(|body|) + body;
    VariableHeaderBack(v311, info);
    assert p[1 + |EncodeLength(|body|)|..] == body;
  }

  lemma ConnectTooLong(body: seq<byte>)
    requires MAX_REMAINING < |body| < 0x1_0000
    ensures ReadConnect(Packet(First(CONNECT, 0, 0, 0), body)) == None
  {
    hide First, TypeOf, DecodeLength, ReadVariableHeader;
    FixedHeaderTooLong(First(CONNECT, 0, 0, 0), |body|, body);
  }

  /** Section 3.1.2.9 forbids a password without a user name; the builder leaves that to its caller. */
  lemma PasswordNeedsUsername(info: ConnectInfo)
    ensures (Flags(info) / 64 % 2 == 1 ==> Flags(info) / 128 == 1)
       <==> (info.password != [] ==> info.username != [])
  {
    hide Flags;
    FlagBits(info);
  }

  // ----- SUBSCRIBE and UNSUBSCRIBE, sections 3.8 and 3.10 -----

  datatype Subscription = Subscription(id: uint16, topic: seq<byte>, qos: byte)

  /** The variable header and payload of a packet whose first octet is first, by the standard alone. */
  function ReadBody(first: byte, p: seq<byte>): Option<seq<byte>> {
    if p == [] || p[0] != first then None
    else
      var (n, used) :- DecodeLength(p[1..], 4);
      if |p| != 1 + used + n then None else Some(p[1 + used..])
  }

  /** A reader of SUBSCRIBE packets with one topic filter. */
  function ReadSubscribe(p: seq<byte>): Option<Subscription> {
    var b :- ReadBody(0x82, p);
    if |b| < 2 then None
    else
      var (topic, rest) :- ReadStr(b[2..]);
      if |rest| == 1 && rest[0] <= 2 then Some(Subscription(Word(b), topic, rest[0])) else None
  }

  /** A reader of UNSUBSCRIBE packets with one topic filter. */
  function ReadUnsubscribe(p: seq<byte>): Option<(uint16, seq<byte>)> {
    var b :- ReadBody(0xA2, p);
    if |b| < 2 then None
    else
      var (topic, rest) :- ReadStr(b[2..]);
      if rest == [] then Some((Word(b), topic)) else None
  }

  /** Any packet's body comes back exactly when its length fits the two octets. */
  lemma BodyBack(first: byte, body: seq<byte>)
    requires |body| < 0x1_0000
    ensures ReadBody(first, Packet(first, body)) == if |body| <= MAX_REMAINING then Some(body) else None
  {
    hide DecodeLength, EncodeLength;
    var p := Packet(first, body);
    if |body| <= MAX_REMAINING {
      FixedHeaderStandard(first, |body|);
      LengthRoundTrip(|body|, body);
      assert p[1..] == EncodeLength(|body|) + body;
      assert p[1 + |EncodeLength(|body|)|..] == body;
    } else {
      FixedHeaderTooLong(first, |body|, body);
    }
  }

  /** What the two bodies hold. */
  lemma SubscriptionBodies(topic: seq<byte>, qos: nat, id: uint16)
    requires |topic| < 0x1_0000 && qos <= 2
    ensures var b := SubscribeBody(topic, qos, id); Word(b) == id && ReadStr(b[2..]) == Some((topic, [qos]))
    ensures var b := UnsubscribeBody(topic, id); Word(b) == id && ReadStr(b[2..]) == Some((topic, []))
  {
    hide Str, ReadStr, Word, BE16;
    var s, u := SubscribeBody(topic, qos, id), UnsubscribeBody(topic, id);
    assert s == BE16(id) + (Str(topic) + [U8(qos)]) && s[2..] == Str(topic) + [U8(qos)];
    assert u[2..] == Str(topic) + [];
    BE16Word(id, Str(topic) + [U8(qos)]);
    BE16Word(id, Str(topic));
    ReadStrBack(topic, [qos]);
    ReadStrBack(topic, []);
  }

  /** SUBSCRIBE carries its id, its topic filter and its requested QoS, as a reader that knows only section 3.8
      sees them, exactly when the remaining length fits two octets. */
  lemma SubscribeRoundTrip(topic: seq<byte>, qos: nat, id: uint16)
    requires qos <= 2 && |SubscribeBody(topic, qos, id)| < 0x1_0000
    ensures ReadSubscribe(Packet(First(SUBSCRIBE, 0, 1, 0), SubscribeBody(topic, qos, id)))
         == Some(Subscription(id, topic, qos))
       <==> |SubscribeBody(topic, qos, id)| <= MAX_REMAINING
  {
    hide ReadBody, Packet, ReadStr, Word;
    BodyBack(0x82, SubscribeBody(topic, qos, id));
    SubscriptionBodies(topic, qos, id);
    SubscriptionFirsts();
  }

  /** So does UNSUBSCRIBE its id and topic filter, by section 3.10. */
  lemma UnsubscribeRoundTrip(topic: seq<byte>, id: uint16)
    requires |UnsubscribeBody(topic, id)| < 0x1_0000
    ensures ReadUnsubscribe(Packet(First(UNSUBSCRIBE, 0, 1, 0), UnsubscribeBody(topic, id))) == Some((id, topic))
       <==> |UnsubscribeBody(topic, id)| <= MAX_REMAINING
  {
    hide ReadBody, Packet, ReadStr, Word;
    BodyBack(0xA2, UnsubscribeBody(topic, id));
    SubscriptionBodies(topic, 0, id);
    SubscriptionFirsts();
  }

  /** The reserved bits of both are those the standard fixes. */
  lemma SubscriptionFirsts()
    ensures First(SUBSCRIBE, 0, 1, 0) == 0x82 && First(UNSUBSCRIBE, 0, 1, 0) == 0xA2
  {
  }

  // ----- Packets in full -----

  /** A subscription to MSD/A at QoS 0 under id 7, and its end. */
  lemma SubscriptionOctets(topic: seq<byte>)
    requires topic == [77, 83, 68, 47, 65]
    ensures Packet(First(SUBSCRIBE, 0, 1, 0), SubscribeBody(topic, 0, 7))
         == [0x82, 10, 0, 7, 0, 5, 77, 83, 68, 47, 65, 0]
    ensures Packet(First(UNSUBSCRIBE, 0, 1, 0), UnsubscribeBody(topic, 7))
         == [0xA2, 9, 0, 7, 0, 5, 77, 83, 68, 47, 65]
  {
    SubscriptionFirsts();
    assert Str(topic) == [0, 5, 77, 83, 68, 47, 65];
    assert SubscribeBody(topic, 0, 7) == [0, 7, 0, 5, 77, 83, 68, 47, 65, 0];
    assert UnsubscribeBody(topic, 7) == [0, 7, 0, 5, 77, 83, 68, 47, 65];
  }

  /** A retained publication of the octet 1 on topic a at QoS 1 under id 7, and one at QoS 0. */
  lemma PublishOctets(topic: seq<byte>, data: seq<byte>)
    requires topic == [97] && data == [1]
    ensures PublishPacket(topic, data, 1, 1, 7) == [0x33, 6, 0, 1, 97, 0, 7, 1]
    ensures PublishPacket(topic, data, 0, 0, 7) == [0x30, 4, 0, 1, 97, 1]
  {
    assert First(PUBLISH, 0, 1, 1) == 0x33 && First(PUBLISH, 0, 0, 0) == 0x30;
    assert PublishBody(topic, 1, 7, data) == [0, 1, 97, 0, 7, 1];
    assert PublishBody(topic, 0, 7, data) == [0, 1, 97, 1];
  }

  /** A CONNECT with every field, of one octet each, keepalive 60 and a retained will at QoS 1. */
  lemma ConnectOctets(info: ConnectInfo)
    requires info == ConnectInfo([99], [117], [112], [116], [109], 60, 1, true, true)
    ensures Packet(First(CONNECT, 0, 0, 0), ConnectBody(true, info))
         == [0x10, 25, 0, 4, 77, 81, 84, 84, 4, 0xEE, 0, 60] + OneOctetFields()
    ensures Packet(First(CONNECT, 0, 0, 0), ConnectBody(false, info))
         == [0x10, 27, 0, 6, 77, 81, 73, 115, 100, 112, 3, 0xEE, 0, 60] + OneOctetFields()
  {
    hide First;
    assert First(CONNECT, 0, 0, 0) == 0x10 by {
      PlainFirst(CONNECT);
    }
    assert Flags(info) == 0xEE;
    OneOctetPayload(info);
  }

  /** Client id c, will topic t, will message m, user name u, password p. */
  function OneOctetFields(): seq<byte> {
    [0, 1, 99, 0, 1, 116, 0, 1, 109, 0, 1, 117, 0, 1, 112]
  }

  lemma OneOctetPayload(info: ConnectInfo)
    requires info == ConnectInfo([99], [117], [112], [116], [109], 60, 1, true, true)
    ensures Str(info.clientId) + OptionalFields(info) == OneOctetFields()
  {
    assert Str([99]) == [0, 1, 99] && Str([116]) == [0, 1, 116] && Str([109]) == [0, 1, 109];
    assert Str([117]) == [0, 1, 117] && Str([112]) == [0, 1, 112];
  }

  lemma PlainFirst(ty: nat)
    requires ty < 16
    ensures First(ty, 0, 0, 0) == ty * 16
  {
  }

  /** The packets without a body. */
  lemma EmptyOctets()
    ensures Packet(First(PINGREQ, 0, 0, 0), []) == [0xC0, 0]
    ensures Packet(First(PINGRESP, 0, 0, 0), []) == [0xD0, 0]
    ensures Packet(First(DISCONNECT, 0, 0, 0), []) == [0xE0, 0]
  {
    PlainFirst(PINGREQ);
    PlainFirst(PINGRESP);
    PlainFirst(DISCONNECT);
  }
}
