/** The packet readers of components/espmqtt/lib/mqtt_msg.c, and what they recover of a built packet. */
module MqttParse {
  import opened Bytes
  import opened MqttWire
  import opened MqttMsg

  /** A stretch of the buffer, or the null pointer. */
  datatype View = Absent | At(start: nat, len: nat) {
    predicate Within(b: seq<byte>) { At? ==> start + len <= |b| }
    function Of(b: seq<byte>): seq<byte>
      requires Within(b)
    {
      if At? then b[start..start + len] else []
    }
  }

  /** mqtt_get_publish_topic over the live octets. */
  function TopicView(b: seq<byte>): (v: View)
    ensures v.Within(b)
  {
    var i := HeaderEnd(b, 1);
    if i + 2 >= |b| then Absent
    else
      var n := Word(b[i..]);
      if i + 2 + n > |b| then Absent else At(i + 2, n)
  }

  /** mqtt_get_publish_data over the live octets. */
  function DataView(b: seq<byte>): (v: View)
    ensures v.Within(b)
  {
    var i := HeaderEnd(b, 1);
    if i + 2 >= |b| then Absent
    else
      var j := i + 2 + Word(b[i..]);
      if j >= |b| then Absent
      else if QosOf(b[0]) > 0 && j + 2 >= |b| then Absent
      else
        var k := if QosOf(b[0]) > 0 then j + 2 else j;
        var total := TotalLength(b);
        if total < k then Absent
        else if total <= |b| then At(k, total - k)
        else At(k, |b| - k)
  }

  predicate CarriesId(ty: nat) {
    ty in {PUBACK, PUBREC, PUBREL, PUBCOMP, SUBACK, UNSUBACK, SUBSCRIBE}
  }

  /** mqtt_get_id over the live octets. */
  function IdOf(b: seq<byte>): uint16 {
    if b == [] then 0
    else if TypeOf(b[0]) == PUBLISH then
      var i := HeaderEnd(b, 1);
      if i + 2 >= |b| then 0
      else
        var j := i + 2 + Word(b[i..]);
        if j < |b| && QosOf(b[0]) > 0 && j + 2 < |b| then Word(b[j..]) else 0
    else if CarriesId(TypeOf(b[0])) && |b| >= 4 && b[1] < 128 then Word(b[2..])
    else 0
  }

  /** On every input, well-formed or not: when the topic and the payload are found, and where. Both need an
      octet behind the topic length, the payload one behind the topic, and one behind the id above QoS 0;
      it ends where the packet ends, or the live octets. */
  lemma ViewsExactly(b: seq<byte>)
    ensures var h := HeaderEnd(b, 1);
      if |b| <= h + 2 then TopicView(b).Absent? && DataView(b).Absent?
      else
        var topicEnd := h + 2 + b[h] as int * 0x100 + b[h + 1];
        var start := topicEnd + if b[0] / 2 % 4 > 0 then 2 else 0;
        && TopicView(b) == (if topicEnd <= |b| then At(h + 2, topicEnd - (h + 2)) else Absent)
        && (DataView(b).At? <==> start < |b| && start <= TotalLength(b))
        && (DataView(b).At? ==>
              && DataView(b).start == start
              && start + DataView(b).len == (if TotalLength(b) <= |b| then TotalLength(b) else |b|))
  {
    hide HeaderEnd, TotalLength;
  }

  /** And the id: of a PUBLISH above QoS 0 the two octets behind the topic, if another octet follows them; of
      the acknowledgements and SUBSCRIBE octets 2 and 3, if the length takes one octet; of nothing else. */
  lemma IdExactly(b: seq<byte>)
    requires b != []
    ensures b[0] / 16 == 3 ==>
      var h := HeaderEnd(b, 1);
      IdOf(b) ==
        if |b| <= h + 2 then 0
        else
          var topicEnd := h + 2 + b[h] as int * 0x100 + b[h + 1];
          if b[0] / 2 % 4 > 0 && topicEnd + 2 < |b| then b[topicEnd] as int * 0x100 + b[topicEnd + 1] else 0
    ensures b[0] / 16 in {4, 5, 6, 7, 8, 9, 11} ==>
      IdOf(b) == if |b| >= 4 && b[1] < 128 then b[2] as int * 0x100 + b[3] else 0
    ensures b[0] / 16 in {0, 1, 2, 10, 12, 13, 14, 15} ==> IdOf(b) == 0
  {
    hide HeaderEnd;
  }

  /** mqtt_get_total_length: shifts replaced by the powers of 128 they stand for. */
  method GetTotalLength(buffer: seq<byte>, length: nat) returns (totlen: nat)
    requires length <= |buffer|
    ensures totlen == TotalLength(buffer[..length])
  {
    hide LengthSum, HeaderEnd;
    ghost var b := buffer[..length];
    var i, weight := 1, 1;
    totlen := 0;
    while i < length
      invariant 1 <= i && weight >= 1
      invariant totlen + weight * LengthSum(b, i) == LengthSum(b, 1)
      invariant HeaderEnd(b, i) == HeaderEnd(b, 1)
    {
      var digit := buffer[i] as int % 128;
      ScanStep(b, i);
      Weigh(weight, digit, LengthSum(b, i + 1));
      totlen := totlen + digit * weight;
      if buffer[i] < 128 {
        i := i + 1;
        totlen := totlen + i;
        return;
      }
      i, weight := i + 1, weight * 128;
    }
    ScanEnd(b, i);
    assert weight * 0 == 0;
    totlen := totlen + i;
  }

  lemma ScanStep(b: seq<byte>, i: nat)
    requires i < |b|
    ensures b[i] < 128 ==> LengthSum(b, i) == b[i] as int % 128 && HeaderEnd(b, i) == i + 1
    ensures b[i] >= 128 ==>
      LengthSum(b, i) == b[i] as int % 128 + 128 * LengthSum(b, i + 1) && HeaderEnd(b, i) == HeaderEnd(b, i + 1)
  {
  }

  lemma ScanEnd(b: seq<byte>, i: nat)
    requires i >= |b|
    ensures LengthSum(b, i) == 0 && HeaderEnd(b, i) == i
  {
  }

  lemma Weigh(weight: nat, digit: nat, rest: nat)
    ensures weight * (digit + 128 * rest) == digit * weight + (weight * 128) * rest
    ensures weight * digit == digit * weight
  {
  }

  /** The same scan where only its end matters. */
  method SkipHeader(buffer: seq<byte>, length: nat) returns (i: nat)
    requires length <= |buffer|
    ensures i == HeaderEnd(buffer[..length], 1)
  {
    i := 1;
    while i < length
      invariant 1 <= i && HeaderEnd(buffer[..length], i) == HeaderEnd(buffer[..length], 1)
    {
      if buffer[i] < 128 {
        i := i + 1;
        return;
      }
      i := i + 1;
    }
  }

  /** mqtt_get_publish_topic */
  method GetPublishTopic(buffer: seq<byte>, length: nat) returns (v: View)
    requires length <= |buffer|
    ensures v == TopicView(buffer[..length])
  {
    hide HeaderEnd;
    var i := SkipHeader(buffer, length);
    if i + 2 >= length {
      return Absent;
    }
    var topiclen: nat := buffer[i] as int * 0x100 + buffer[i + 1];
    i := i + 2;
    if i + topiclen > length {
      return Absent;
    }
    return At(i, topiclen);
  }

  /** mqtt_get_publish_data */
  method GetPublishData(buffer: seq<byte>, length: nat) returns (v: View)
    requires length <= |buffer|
    ensures v == DataView(buffer[..length])
  {
    hide HeaderEnd, TotalLength;
    var i := SkipHeader(buffer, length);
    var totlen := GetTotalLength(buffer, length);
    if i + 2 >= length {
      return Absent;
    }
    var topiclen: nat := buffer[i] as int * 0x100 + buffer[i + 1];
    i := i + 2;
    if i + topiclen >= length {
      return Absent;
    }
    i := i + topiclen;
    if QosOf(buffer[0]) > 0 {
      if i + 2 >= length {
        return Absent;
      }
      i := i + 2;
    }
    if totlen < i {
      return Absent;
    }
    if totlen <= length {
      return At(i, totlen - i);
    }
    return At(i, length - i);
  }

  /** mqtt_get_id */
  method GetId(buffer: seq<byte>, length: nat) returns (id: uint16)
    requires length <= |buffer|
    ensures id == IdOf(buffer[..length])
  {
    hide HeaderEnd;
    if length < 1 {
      return 0;
    }
    var ty := TypeOf(buffer[0]);
    if ty == PUBLISH {
      var i := SkipHeader(buffer, length);
      if i + 2 >= length {
        return 0;
      }
      var topiclen: nat := buffer[i] as int * 0x100 + buffer[i + 1];
      i := i + 2;
      if i + topiclen >= length {
        return 0;
      }
      i := i + topiclen;
      if QosOf(buffer[0]) > 0 {
        if i + 2 >= length {
          return 0;
        }
      } else {
        return 0;
      }
      return buffer[i] as int * 0x100 + buffer[i + 1];
    }
    if CarriesId(ty) {
      if length >= 4 && buffer[1] < 128 {
        return buffer[2] as int * 0x100 + buffer[3];
      }
    }
    return 0;
  }
}
