/** The packet builders of components/espmqtt/lib/mqtt_msg.c, over one shared buffer. */
module MqttMsg {
  import opened Bytes
  import opened MqttWire

  const HEADER: nat := 3  // MQTT_MAX_FIXED_HEADER_SIZE

  /** A finished packet. */
  function Packet(first: byte, body: seq<byte>): seq<byte> {
    FixedHeader(first, |body|) + body
  }

  function PublishBody(topic: seq<byte>, qos: int, id: nat, data: seq<byte>): seq<byte> {
    Str(topic) + (if qos > 0 then BE16(id) else []) + data
  }

  function SubscribeBody(topic: seq<byte>, qos: int, id: nat): seq<byte> {
    BE16(id) + Str(topic) + [U8(qos)]
  }

  function UnsubscribeBody(topic: seq<byte>, id: nat): seq<byte> {
    BE16(id) + Str(topic)
  }

  /** mqtt_connect_info_t. A null string and an empty one are the same to the code. */
  datatype ConnectInfo = ConnectInfo(clientId: seq<byte>, username: seq<byte>, password: seq<byte>,
                                     willTopic: seq<byte>, willMessage: seq<byte>, keepalive: nat,
                                     willQos: int, willRetain: bool, cleanSession: bool)

  const FLAG_USERNAME: byte := 0x80
  const FLAG_PASSWORD: byte := 0x40
  const FLAG_WILL_RETAIN: byte := 0x20
  const FLAG_WILL: byte := 0x04
  const FLAG_CLEAN_SESSION: byte := 0x02

  function WillFlags(info: ConnectInfo): (f: byte)
    ensures f < 0x40 && f % 4 == 0
  {
    if info.willTopic == [] then 0
    else FLAG_WILL + info.willQos % 4 * 8 + if info.willRetain then FLAG_WILL_RETAIN as int else 0
  }

  /** The flags octet as the fields present demand it. */
  function Flags(info: ConnectInfo): byte {
    (if info.cleanSession then FLAG_CLEAN_SESSION as int else 0)
    + WillFlags(info)
    + (if info.username != [] then FLAG_USERNAME as int else 0)
    + (if info.password != [] then FLAG_PASSWORD as int else 0)
  }

  /** The variable header of the two protocol variants the source can be compiled for. */
  function ConnectHeader(v311: bool, flags: byte, keepalive: nat): (r: seq<byte>)
    ensures |r| == if v311 then 10 else 12
  {
    (if v311 then [0, 4, 77, 81, 84, 84, 4] else [0, 6, 77, 81, 73, 115, 100, 112, 3]) + [flags] + BE16(keepalive)
  }

  /** The payload fields after the client id, in the order of section 3.1.3. */
  function WillFields(info: ConnectInfo): seq<byte> {
    if info.willTopic != [] then Str(info.willTopic) + Str(info.willMessage) else []
  }

  function OptionalStr(s: seq<byte>): seq<byte> {
    if s != [] then Str(s) else []
  }

  function OptionalFields(info: ConnectInfo): seq<byte> {
    WillFields(info) + OptionalStr(info.username) + OptionalStr(info.password)
  }

  function ConnectBody(v311: bool, info: ConnectInfo): seq<byte> {
    ConnectHeader(v311, Flags(info), info.keepalive) + (Str(info.clientId) + OptionalFields(info))
  }

  class Connection {
    const buffer: array<byte>
    const bufferLength: uint16
    var start: nat      // message.data, as an offset into buffer
    var length: uint16  // message.length

    ghost predicate Valid()
      reads this
    {
      3 <= bufferLength <= buffer.Length && start <= 1 && start + length <= buffer.Length
    }

    /** A packet under construction: three octets kept free for the fixed header, then the body. */
    ghost predicate Open()
      reads this
    {
      Valid() && HEADER <= length <= bufferLength && start == 0
    }

    ghost function Body(): seq<byte>
      reads this, buffer
      requires Open()
    {
      buffer[HEADER..length]
    }

    /** The finished packet; empty after fail_message. */
    ghost function Message(): seq<byte>
      reads this, buffer
      requires Valid()
    {
      buffer[start..start + length]
    }

    /** Everything past bufferLength belongs to someone else. */
    ghost function Beyond(): seq<byte>
      reads this, buffer
      requires Valid()
    {
      buffer[bufferLength..]
    }

    /** mqtt_msg_init. The length parameter is a uint16_t. */
    constructor (buffer: array<byte>, bufferLength: nat)
      requires 3 <= U16(bufferLength) <= buffer.Length
      ensures Valid() && this.buffer == buffer && this.bufferLength == U16(bufferLength) && length == 0
    {
      this.buffer, this.bufferLength := buffer, U16(bufferLength);
      start, length := 0, 0;
    }

    method InitMessage()
      requires Valid()
      modifies this
      ensures Open() && Body() == []
    {
      start, length := 0, HEADER;
    }

    method FailMessage()
      requires Valid()
      modifies this
      ensures Valid() && start == 0 && length == 0
    {
      start, length := 0, 0;
    }

    /** append_string: -1 and nothing written when the string does not fit. */
    method AppendString(s: seq<byte>) returns (r: int)
      requires Open()
      modifies this`length, buffer
      ensures Open() && Beyond() == old(Beyond()) && buffer[..HEADER] == old(buffer[..HEADER])
      ensures r == if old(length) + |s| + 2 > bufferLength then -1 else |s| + 2
      ensures r < 0 ==> length == old(length) && Body() == old(Body())
      ensures r >= 0 ==> length == old(length) + |s| + 2 && Body() == old(Body()) + Str(s)
    {
      if length + |s| + 2 > bufferLength {
        return -1;
      }
      PutOctet(U8(|s| / 0x100));
      PutOctet(U8(|s|));
      PutOctets(s);
      return |s| + 2;
    }

    /** buffer[message.length++] = c */
    method PutOctet(c: byte)
      requires Open() && length < bufferLength
      modifies this`length, buffer
      ensures Open() && length == old(length) + 1 && Beyond() == old(Beyond())
      ensures buffer[..HEADER] == old(buffer[..HEADER]) && Body() == old(Body()) + [c]
    {
      buffer[length] := c;
      length := length + 1;
    }

    /** memcpy to the end of the message. */
    method PutOctets(s: seq<byte>)
      requires Open() && length + |s| <= bufferLength
      modifies this`length, buffer
      ensures Open() && length == old(length) + |s| && Beyond() == old(Beyond())
      ensures buffer[..HEADER] == old(buffer[..HEADER]) && Body() == old(Body()) + s
    {
      ghost var b := Body();
      for i := 0 to |s|
        invariant Open() && length == old(length) + i && Beyond() == old(Beyond())
        invariant buffer[..HEADER] == old(buffer[..HEADER]) && Body() == b + s[..i]
      {
        PutOctet(s[i]);
        assert s[..i + 1] == s[..i] + [s[i]];
      }
      assert s[..|s|] == s;
    }

    /** append_message_id: a zero id is replaced by the first nonzero random draw; 0 when it does not fit. */
    method AppendMessageId(id: uint16, draw: uint16) returns (r: uint16)
      requires Open() && draw != 0
      modifies this`length, buffer
      ensures Open() && Beyond() == old(Beyond()) && buffer[..HEADER] == old(buffer[..HEADER])
      ensures r == if old(length) + 2 > bufferLength then 0 else if id == 0 then draw else id
      ensures r == 0 ==> length == old(length) && Body() == old(Body())
      ensures r != 0 ==> length == old(length) + 2 && Body() == old(Body()) + BE16(r)
    {
      var messageId := if id == 0 then draw else id;
      if length + 2 > bufferLength {
        return 0;
      }
      PutOctet(messageId / 0x100);
      PutOctet(messageId % 0x100);
      return messageId;
    }

    /** fini_message: the fixed header goes right in front of the body. */
    method Fini(ty: nat, dup: int, qos: int, retain: int)
      requires Open() && ty < 16
      modifies this, buffer
      ensures Valid() && Beyond() == old(Beyond()) && length > 0
      ensures Message() == Packet(First(ty, dup, qos, retain), old(Body()))
    {
      ghost var body := Body();
      var remaining := length - HEADER;
      if remaining > 127 {
        buffer[0] := First(ty, dup, qos, retain);
        buffer[1] := 0x80 + remaining % 128;
        buffer[2] := U8(remaining / 128);
        length := remaining + 3;
        start := 0;
      } else {
        buffer[1] := First(ty, dup, qos, retain);
        buffer[2] := remaining;
        length := remaining + 2;
        start := 1;
      }
      assert buffer[HEADER..HEADER + remaining] == body;
    }

    /** Whether a body of n octets fits behind the fixed header. */
    predicate Fits(n: nat)
      reads this
    {
      HEADER + n <= bufferLength
    }

    /** What a builder leaves: the packet, or the empty message of fail_message; the octets past
        bufferLength are never touched. */
    ghost predicate Built(ok: bool, first: byte, body: seq<byte>)
      reads this, buffer
    {
      && Valid()
      && (ok ==> length > 0 && Message() == Packet(first, body))
      && (!ok ==> length == 0 && start == 0)
    }

    /** mqtt_msg_publish */
    method MsgPublish(topic: seq<byte>, data: seq<byte>, qos: int, retain: int, draw: uint16)
      returns (ok: bool, messageId: uint16)
      requires Valid() && draw != 0
      modifies this, buffer
      ensures ok <==> topic != [] && Fits(|PublishBody(topic, qos, draw, data)|)
      ensures Built(ok, First(PUBLISH, 0, qos, retain), PublishBody(topic, qos, draw, data))
      ensures ok ==> messageId == if qos > 0 then draw else 0
      ensures messageId == 0 || messageId == draw
      ensures Beyond() == old(Beyond())
    {
      InitMessage();
      messageId := 0;
      ok := false;
      if topic == [] {
        FailMessage();
        return;
      }
      var r := AppendString(topic);
      if r < 0 {
        FailMessage();
        return;
      }
      if qos > 0 {
        messageId := AppendMessageId(0, draw);
        if messageId == 0 {
          FailMessage();
          return;
        }
      }
      if length + |data| > bufferLength {
        FailMessage();
        return;
      }
      PutOctets(data);
      assert Body() == PublishBody(topic, qos, draw, data);
      Fini(PUBLISH, 0, qos, retain);
      ok := true;
    }

    /** mqtt_msg_puback, mqtt_msg_pubrec and mqtt_msg_pubcomp with qos 0, mqtt_msg_pubrel with qos 1. */
    method MsgAck(ty: nat, qos: int, id: uint16, draw: uint16) returns (ok: bool, sent: uint16)
      requires Valid() && draw != 0 && ty < 16
      modifies this, buffer
      ensures ok <==> Fits(2)
      ensures sent == if id == 0 then draw else id
      ensures Built(ok, First(ty, 0, qos, 0), BE16(sent))
      ensures Beyond() == old(Beyond())
    {
      InitMessage();
      sent := if id == 0 then draw else id;
      var r := AppendMessageId(id, draw);
      if r == 0 {
        FailMessage();
        return false, sent;
      }
      assert Body() == BE16(sent);
      Fini(ty, 0, qos, 0);
      return true, sent;
    }

    /** mqtt_msg_subscribe. The id goes out through a pointer that is left alone for an empty topic. */
    method MsgSubscribe(topic: seq<byte>, qos: int, idBefore: uint16, draw: uint16)
      returns (ok: bool, messageId: uint16)
      requires Valid() && draw != 0
      modifies this, buffer
      ensures ok <==> topic != [] && Fits(|SubscribeBody(topic, qos, draw)|)
      ensures Built(ok, First(SUBSCRIBE, 0, 1, 0), SubscribeBody(topic, qos, draw))
      ensures ok ==> messageId == draw
      ensures messageId == if topic == [] then idBefore else if Fits(2) then draw else 0
      ensures Beyond() == old(Beyond())
    {
      InitMessage();
      messageId := idBefore;
      ok := false;
      if topic == [] {
        FailMessage();
        return;
      }
      messageId := AppendMessageId(0, draw);
      if messageId == 0 {
        FailMessage();
        return;
      }
      var r := AppendString(topic);
      if r < 0 {
        FailMessage();
        return;
      }
      if length + 1 > bufferLength {
        FailMessage();
        return;
      }
      PutOctet(U8(qos));
      assert Body() == SubscribeBody(topic, qos, draw);
      Fini(SUBSCRIBE, 0, 1, 0);
      ok := true;
    }

    /** mqtt_msg_unsubscribe */
    method MsgUnsubscribe(topic: seq<byte>, idBefore: uint16, draw: uint16)
      returns (ok: bool, messageId: uint16)
      requires Valid() && draw != 0
      modifies this, buffer
      ensures ok <==> topic != [] && Fits(|UnsubscribeBody(topic, draw)|)
      ensures Built(ok, First(UNSUBSCRIBE, 0, 1, 0), UnsubscribeBody(topic, draw))
      ensures ok ==> messageId == draw
      ensures messageId == if topic == [] then idBefore else if Fits(2) then draw else 0
      ensures Beyond() == old(Beyond())
    {
      InitMessage();
      messageId := idBefore;
      ok := false;
      if topic == [] {
        FailMessage();
        return;
      }
      messageId := AppendMessageId(0, draw);
      if messageId == 0 {
        FailMessage();
        return;
      }
      var r := AppendString(topic);
      if r < 0 {
        FailMessage();
        return;
      }
      assert Body() == UnsubscribeBody(topic, draw);
      Fini(UNSUBSCRIBE, 0, 1, 0);
      ok := true;
    }

    /** mqtt_msg_pingreq, mqtt_msg_pingresp and mqtt_msg_disconnect */
    method MsgEmpty(ty: nat)
      requires Valid() && ty < 16
      modifies this, buffer
      ensures Built(true, First(ty, 0, 0, 0), [])
      ensures Beyond() == old(Beyond())
    {
      InitMessage();
      Fini(ty, 0, 0, 0);
    }

    /** variable_header->flags |= bits, where those bits are still clear, in an open CONNECT whose
        header is followed by rest. */
    method AddFlags(v311: bool, bits: byte, ghost flags: byte, ghost keepalive: nat, ghost rest: seq<byte>)
      requires Open() && Body() == ConnectHeader(v311, flags, keepalive) + rest
      requires flags + bits < 0x100
      modifies buffer
      ensures Open() && length == old(length) && Beyond() == old(Beyond())
      ensures Body() == ConnectHeader(v311, flags + bits, keepalive) + rest
    {
      var at := HEADER + if v311 then 7 else 9;
      assert buffer[at] == Body()[at - HEADER] == flags;
      buffer[at] := buffer[at] + bits;
    }

    /** The client id, without which there is no packet. */
    method ConnectClientId(v311: bool, info: ConnectInfo, ghost flags: byte) returns (ok: bool)
      requires Open() && Body() == ConnectHeader(v311, flags, info.keepalive)
      modifies this`length, buffer
      ensures Open() && Beyond() == old(Beyond())
      ensures ok <==> info.clientId != [] && old(length) + |Str(info.clientId)| <= bufferLength
      ensures ok ==> length == old(length) + |Str(info.clientId)|
      ensures ok ==> Body() == ConnectHeader(v311, flags, info.keepalive) + Str(info.clientId)
    {
      if info.clientId == [] {
        return false;
      }
      var r := AppendString(info.clientId);
      return r >= 0;
    }

    /** The will fields and their flags. */
    method ConnectWill(v311: bool, info: ConnectInfo, ghost flags: byte, ghost rest: seq<byte>) returns (ok: bool)
      requires Open() && Body() == ConnectHeader(v311, flags, info.keepalive) + rest
      requires flags < 4
      modifies this`length, buffer
      ensures Open() && Beyond() == old(Beyond())
      ensures ok <==> old(length) + |WillFields(info)| <= bufferLength
      ensures ok ==> length == old(length) + |WillFields(info)|
      ensures ok ==> Body() == ConnectHeader(v311, flags + WillFlags(info), info.keepalive) + (rest + WillFields(info))
    {
      if info.willTopic == [] {
        assert rest + WillFields(info) == rest;
        return true;
      }
      var r := AppendString(info.willTopic);
      if r < 0 {
        return false;
      }
      r := AppendString(info.willMessage);
      if r < 0 {
        return false;
      }
      ghost var all := rest + WillFields(info);
      assert Body() == ConnectHeader(v311, flags, info.keepalive) + all;
      AddFlags(v311, FLAG_WILL, flags, info.keepalive, all);
      if info.willRetain {
        AddFlags(v311, FLAG_WILL_RETAIN, flags + FLAG_WILL, info.keepalive, all);
      }
      AddFlags(v311, info.willQos % 4 * 8, flags + FLAG_WILL + if info.willRetain then FLAG_WILL_RETAIN as int else 0,
               info.keepalive, all);
      return true;
    }

    /** The user name, or the password, and its flag. */
    method ConnectCredential(v311: bool, s: seq<byte>, flag: byte,
                             ghost flags: byte, ghost keepalive: nat, ghost rest: seq<byte>)
      returns (ok: bool)
      requires Open() && Body() == ConnectHeader(v311, flags, keepalive) + rest
      requires flags + flag < 0x100
      modifies this`length, buffer
      ensures Open() && Beyond() == old(Beyond())
      ensures ok <==> old(length) + |OptionalStr(s)| <= bufferLength
      ensures ok ==> length == old(length) + |OptionalStr(s)|
      ensures ok ==>
        Body() == ConnectHeader(v311, if s != [] then flags + flag else flags, keepalive) + (rest + OptionalStr(s))
    {
      hide ConnectHeader;
      if s == [] {
        assert rest + OptionalStr(s) == rest;
        return true;
      }
      var r := AppendString(s);
      if r < 0 {
        return false;
      }
      assert Body() == ConnectHeader(v311, flags, keepalive) + (rest + OptionalStr(s));
      AddFlags(v311, flag, flags, keepalive, rest + OptionalStr(s));
      return true;
    }

    /** Everything after the client id. */
    method ConnectOptional(v311: bool, info: ConnectInfo, ghost flags0: byte, ghost rest0: seq<byte>) returns (ok: bool)
      requires Open() && Body() == ConnectHeader(v311, flags0, info.keepalive) + rest0
      requires flags0 == if info.cleanSession then FLAG_CLEAN_SESSION else 0
      modifies this`length, buffer
      ensures Open() && Beyond() == old(Beyond())
      ensures ok <==> old(length) + |OptionalFields(info)| <= bufferLength
      ensures ok ==> Body() == ConnectHeader(v311, Flags(info), info.keepalive) + (rest0 + OptionalFields(info))
    {
      hide ConnectHeader, WillFields, OptionalStr, WillFlags;
      ghost var rest, flags := rest0, flags0;
      ok := ConnectWill(v311, info, flags, rest);
      if !ok {
        return;
      }
      rest, flags := rest + WillFields(info), flags + WillFlags(info);
      ok := ConnectCredential(v311, info.username, FLAG_USERNAME, flags, info.keepalive, rest);
      if !ok {
        return;
      }
      rest := rest + OptionalStr(info.username);
      flags := if info.username != [] then flags + FLAG_USERNAME else flags;
      ok := ConnectCredential(v311, info.password, FLAG_PASSWORD, flags, info.keepalive, rest);
      if ok {
        assert rest + OptionalStr(info.password) == rest0 + OptionalFields(info);
      }
    }

    /** The header with its flags octet at 0, then the clean-session flag. */
    method ConnectStart(v311: bool, info: ConnectInfo) returns (ok: bool, ghost flags: byte)
      requires Valid()
      modifies this, buffer
      ensures Open() && Beyond() == old(Beyond())
      ensures flags == if info.cleanSession then FLAG_CLEAN_SESSION else 0
      ensures ok <==> Fits(|ConnectHeader(v311, 0, 0)|)
      ensures ok ==> length == HEADER + |ConnectHeader(v311, 0, 0)|
      ensures ok ==> Body() == ConnectHeader(v311, flags, info.keepalive)
    {
      hide ConnectHeader;
      InitMessage();
      flags := if info.cleanSession then FLAG_CLEAN_SESSION else 0;
      if length + |ConnectHeader(v311, 0, info.keepalive)| > bufferLength {
        return false, flags;
      }
      PutOctets(ConnectHeader(v311, 0, info.keepalive));
      assert Body() == ConnectHeader(v311, 0, info.keepalive) + [];
      if info.cleanSession {
        AddFlags(v311, FLAG_CLEAN_SESSION, 0, info.keepalive, []);
        assert Body() == ConnectHeader(v311, flags, info.keepalive);
      }
      return true, flags;
    }

    /** mqtt_msg_connect: the flags octet goes in as 0 and is patched as the fields are appended. */
    method MsgConnect(v311: bool, info: ConnectInfo) returns (ok: bool)
      requires Valid()
      modifies this, buffer
      ensures ok <==> info.clientId != [] && Fits(|ConnectBody(v311, info)|)
      ensures Built(ok, First(CONNECT, 0, 0, 0), ConnectBody(v311, info))
      ensures Beyond() == old(Beyond())
    {
      hide ConnectHeader, OptionalFields, Str, Flags;
      ghost var flags;
      ok, flags := ConnectStart(v311, info);
      if ok {
        ok := ConnectClientId(v311, info, flags);
      }
      if ok {
        ok := ConnectOptional(v311, info, flags, Str(info.clientId));
      }
      if !ok {
        FailMessage();
        return;
      }
      Fini(CONNECT, 0, 0, 0);
    }
  }
}
