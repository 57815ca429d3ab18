/** The parts of MQTT 3.1.1 the builders and parsers of components/espmqtt/lib/mqtt_msg.c rely on:
    the fixed header of section 2.2, length-prefixed strings, and the readers of each. */
module MqttWire {
  import opened Bytes

  const CONNECT: nat := 1
  const CONNACK: nat := 2
  const PUBLISH: nat := 3
  const PUBACK: nat := 4
  const PUBREC: nat := 5
  const PUBREL: nat := 6
  const PUBCOMP: nat := 7
  const SUBSCRIBE: nat := 8
  const SUBACK: nat := 9
  const UNSUBSCRIBE: nat := 10
  const UNSUBACK: nat := 11
  const PINGREQ: nat := 12
  const PINGRESP: nat := 13
  const DISCONNECT: nat := 14

  /** The values of table 2.1 of MQTT 3.1.1. */
  lemma TypesStandard()
    ensures CONNECT == 1 && CONNACK == 2 && PUBLISH == 3 && PUBACK == 4 && PUBREC == 5 && PUBREL == 6 && PUBCOMP == 7
    ensures SUBSCRIBE == 8 && SUBACK == 9 && UNSUBSCRIBE == 10 && UNSUBACK == 11
    ensures PINGREQ == 12 && PINGRESP == 13 && DISCONNECT == 14
  {
  }

  datatype Option<+T> = None | Some(value: T) {
    predicate IsFailure() { None? }
    function PropagateFailure<U>(): Option<U> requires None? { None }
    function Extract(): T requires Some? { value }
  }

  /** The first octet of a packet: type, DUP, QoS, RETAIN, each cut to its bits. */
  function First(ty: nat, dup: int, qos: int, retain: int): byte {
    ty % 16 * 16 + dup % 2 * 8 + qos % 4 * 2 + retain % 2
  }

  /** mqtt_get_type and mqtt_get_qos */
  function TypeOf(first: byte): nat { first / 16 }
  function QosOf(first: byte): nat { first / 2 % 4 }

  lemma FirstFields(ty: nat, dup: int, qos: int, retain: int)
    requires ty < 16
    ensures TypeOf(First(ty, dup, qos, retain)) == ty
    ensures QosOf(First(ty, dup, qos, retain)) == qos % 4
    ensures var f := First(ty, dup, qos, retain);
      f / 16 == ty && f / 8 % 2 == dup % 2 && f / 2 % 4 == qos % 4 && f % 2 == retain % 2
  {
    Fields(ty, dup % 2, qos % 4, retain % 2);
  }

  lemma Fields(t: nat, d: nat, q: nat, r: nat)
    requires t < 16 && d < 2 && q < 4 && r < 2
    ensures (t * 16 + d * 8 + q * 2 + r) / 16 == t && (t * 16 + d * 8 + q * 2 + r) / 2 % 4 == q
    ensures (t * 16 + d * 8 + q * 2 + r) / 8 % 2 == d && (t * 16 + d * 8 + q * 2 + r) % 2 == r
  {
    assert (t * 16 + d * 8 + q * 2 + r) / 2 == q + 4 * (2 * t + d);
    assert (t * 16 + d * 8 + q * 2 + r) / 8 == d + 2 * t;
  }

  function BE16(n: nat): (r: seq<byte>)
    ensures |r| == 2
  {
    [U8(n / 0x100), U8(n)]
  }

  function Word(s: seq<byte>): (n: uint16)
    requires |s| >= 2
  {
    s[0] as int * 0x100 + s[1]
  }

  /** The high octet comes first. */
  lemma WordOrder(n: nat, a: byte, b: byte, rest: seq<byte>)
    ensures n < 0x1_0000 ==> BE16(n) == [n / 0x100, n % 0x100]
    ensures Word([a, b] + rest) == a as int * 0x100 + b
  {
  }

  lemma BE16Word(n: nat, rest: seq<byte>)
    ensures Word(BE16(n) + rest) == n % 0x1_0000
  {
  }

  /** A string as MQTT carries it: two octets of length, then the octets. */
  function Str(s: seq<byte>): (r: seq<byte>)
    ensures |r| == |s| + 2
  {
    BE16(|s|) + s
  }

  // ----- Remaining length, section 2.2.3 -----

  /** The standard's encoding: base 128, least significant first, top bit set on all but the last. */
  function EncodeLength(x: nat): (r: seq<byte>)
    ensures |r| >= 1
  {
    if x < 128 then [x] else [x % 128 + 128] + EncodeLength(x / 128)
  }

  /** The ends of the ranges in table 2.4. */
  lemma LengthVectors()
    ensures EncodeLength(0) == [0] && EncodeLength(127) == [0x7F]
    ensures EncodeLength(128) == [0x80, 0x01] && EncodeLength(16383) == [0xFF, 0x7F]
    ensures EncodeLength(16384) == [0x80, 0x80, 0x01] && EncodeLength(2097151) == [0xFF, 0xFF, 0x7F]
    ensures EncodeLength(2097152) == [0x80, 0x80, 0x80, 0x01] && EncodeLength(268435455) == [0xFF, 0xFF, 0xFF, 0x7F]
  {
    assert EncodeLength(16384 / 128) == [0x80, 0x01] && EncodeLength(2097151 / 128) == [0xFF, 0x7F];
    assert EncodeLength(2097152 / 128) == [0x80, 0x80, 0x01] && EncodeLength(268435455 / 128) == [0xFF, 0xFF, 0x7F];
  }

  /** The number of values n octets can carry. */
  function Limit(n: nat): (r: nat)
    ensures r >= 1
  {
    if n == 0 then 1 else 128 * Limit(n - 1)
  }

  /** The standard's decoding of at most n octets: the value and how many octets it took; nothing
      when no terminating octet is among them. */
  function DecodeLength(b: seq<byte>, n: nat): (r: Option<(nat, nat)>)
    ensures r.Some? ==> 1 <= r.value.1 <= n && r.value.1 <= |b|
  {
    if n == 0 || b == [] then None
    else if b[0] < 128 then Some((b[0], 1))
    else
      match DecodeLength(b[1..], n - 1)
      case None => None
      case Some(rest) => Some((b[0] - 128 + 128 * rest.0, 1 + rest.1))
  }

  lemma DecodeStep(c: byte, b: seq<byte>, n: nat)
    requires c >= 128
    ensures DecodeLength([c] + b, n + 1) ==
      match DecodeLength(b, n) case None => None case Some(r) => Some((c - 128 + 128 * r.0, 1 + r.1))
  {
    assert ([c] + b)[1..] == b;
  }

  /** Decoding inverts encoding for every value n octets can carry, whatever follows. */
  lemma {:induction false} LengthRoundTripIn(x: nat, n: nat, rest: seq<byte>)
    requires n >= 1 && x < Limit(n)
    ensures DecodeLength(EncodeLength(x) + rest, n) == Some((x, |EncodeLength(x)|))
    decreases n
  {
    if x >= 128 {
      assert n >= 2;
      assert x / 128 < Limit(n - 1);
      LengthRoundTripIn(x / 128, n - 1, rest);
      var tail := EncodeLength(x / 128) + rest;
      assert EncodeLength(x) + rest == [x % 128 + 128] + tail;
      DecodeStep(x % 128 + 128, tail, n - 1);
      assert x % 128 + 128 * (x / 128) == x;
    }
  }

  /** The standard allows four octets: everything below 268435456. */
  lemma LengthRoundTrip(x: nat, rest: seq<byte>)
    requires x < 0x1000_0000
    ensures DecodeLength(EncodeLength(x) + rest, 4) == Some((x, |EncodeLength(x)|))
  {
    assert Limit(1) == 128 && Limit(2) == 0x4000 && Limit(3) == 0x20_0000 && Limit(4) == 0x1000_0000;
    LengthRoundTripIn(x, 4, rest);
  }

  /** The header fini_message writes: one length octet, or two above 127. */
  function FixedHeader(first: byte, rem: nat): (r: seq<byte>)
    ensures |r| == if rem > 127 then 3 else 2
  {
    if rem > 127 then [first, 0x80 + rem % 128, U8(rem / 128)] else [first, rem]
  }

  /** It is the standard's header exactly up to 16383, the two-octet maximum. */
  lemma FixedHeaderStandard(first: byte, rem: nat)
    requires rem < 0x1_0000
    ensures rem <= 16383 <==> FixedHeader(first, rem) == [first] + EncodeLength(rem)
  {
  }

  /** Above that no body makes the packet readable: a standard reader never finds the length of the
      packet at hand, not even by taking octets of the body for more length. */
  lemma FixedHeaderTooLong(first: byte, rem: nat, body: seq<byte>)
    requires 16383 < rem < 0x1_0000 && |body| == rem
    ensures var p := FixedHeader(first, rem) + body;
      var d := DecodeLength(p[1..], 4);
      d.Some? ==> 1 + d.value.1 + d.value.0 != |p|
  {
    hide DecodeLength;
    var c0, c1 := 0x80 + rem % 128, U8(rem / 128);
    var b := (FixedHeader(first, rem) + body)[1..];
    assert b == [c0] + ([c1] + body);
    DecodeStep(c0, [c1] + body, 3);
    var inner := DecodeLength([c1] + body, 3);
    if inner.Some? {
      var (v, used) := inner.value;
      SecondOctet(c1, body, 3);
      LengthMismatch(rem, v, used);
    }
  }

  /** A length of used + 1 octets that starts like rem cannot account for rem and three octets more. */
  lemma LengthMismatch(rem: nat, v: nat, used: nat)
    requires rem > 16383 && 1 <= used <= 3 && (used == 1 ==> v < 128)
    ensures 2 + used + (rem % 128 + 128 * v) != 3 + rem
  {
    assert rem == 128 * (rem / 128) + rem % 128;
  }

  lemma SecondOctet(c: byte, rest: seq<byte>, n: nat)
    requires n > 0 && DecodeLength([c] + rest, n).Some?
    ensures DecodeLength([c] + rest, n).value.1 == 1 ==> DecodeLength([c] + rest, n).value.0 == c < 128
  {
  }

  // ----- mqtt_get_total_length and the header scan its siblings repeat -----

  /** Where the scan over the length octets stops, starting at i: just past the first octet without
      the top bit, or at the end of the live octets. */
  function HeaderEnd(b: seq<byte>, i: nat): (e: nat)
    ensures e >= i && (i <= |b| ==> e <= |b|)
    decreases |b| - i
  {
    if i >= |b| then i else if b[i] < 128 then i + 1 else HeaderEnd(b, i + 1)
  }

  /** The base-128 value the scan adds up. */
  function LengthSum(b: seq<byte>, i: nat): nat
    decreases |b| - i
  {
    if i >= |b| then 0
    else if b[i] < 128 then b[i]
    else b[i] - 128 + 128 * LengthSum(b, i + 1)
  }

  /** mqtt_get_total_length over the live octets. */
  function TotalLength(b: seq<byte>): nat {
    LengthSum(b, 1) + HeaderEnd(b, 1)
  }

  /** On fewer octets the scan stops where it would have, or where they end. */
  lemma {:induction false} HeaderEndCut(b: seq<byte>, i: nat, m: nat)
    requires i <= m <= |b|
    ensures HeaderEnd(b[..m], i) == if HeaderEnd(b, i) <= m then HeaderEnd(b, i) else m
    decreases m - i
  {
    if i < m {
      assert b[..m][i] == b[i];
      HeaderEndCut(b, i + 1, m);
    }
  }

  lemma {:induction false} SumBelow(b: seq<byte>, i: nat, n: nat)
    requires HeaderEnd(b, i) <= i + n
    ensures LengthSum(b, i) < Limit(n)
    decreases n
  {
    if i < |b| && b[i] >= 128 {
      SumBelow(b, i + 1, n - 1);
    }
  }

  /** Scanning up to four length octets, well-formed or not, stays far inside the source's 32-bit int. */
  lemma TotalLengthFits(b: seq<byte>)
    requires HeaderEnd(b, 1) <= 5
    ensures TotalLength(b) < 0x1000_0000 + 5
  {
    assert Limit(1) == 128 && Limit(2) == 0x4000 && Limit(3) == 0x20_0000 && Limit(4) == 0x1000_0000;
    SumBelow(b, 1, 4);
  }

  /** On every well-formed encoding of up to four octets the scan agrees with the standard. */
  lemma {:induction false} ScanAgrees(b: seq<byte>, i: nat, n: nat)
    requires i <= |b| && DecodeLength(b[i..], n).Some?
    ensures var (v, used) := DecodeLength(b[i..], n).value; LengthSum(b, i) == v && HeaderEnd(b, i) == i + used
    decreases n
  {
    if b[i] >= 128 {
      assert b[i..][1..] == b[i + 1..];
      ScanAgrees(b, i + 1, n - 1);
    }
  }

  lemma TotalLengthStandard(b: seq<byte>)
    requires |b| >= 1 && DecodeLength(b[1..], 4).Some?
    ensures var (v, used) := DecodeLength(b[1..], 4).value;
      TotalLength(b) == v + 1 + used && HeaderEnd(b, 1) == 1 + used
  {
    ScanAgrees(b, 1, 4);
  }

  /** mqtt_get_total_length inverts fini_message for every remaining length up to 16383, and looks
      at nothing beyond the header. */
  lemma TotalLengthOfHeader(first: byte, rem: nat, more: seq<byte>)
    requires rem <= 16383
    ensures TotalLength(FixedHeader(first, rem) + more) == |FixedHeader(first, rem)| + rem
    ensures HeaderEnd(FixedHeader(first, rem) + more, 1) == |FixedHeader(first, rem)|
  {
    FixedHeaderStandard(first, rem);
    LengthRoundTrip(rem, more);
    var b := FixedHeader(first, rem) + more;
    assert b[1..] == EncodeLength(rem) + more;
    TotalLengthStandard(b);
  }
}
