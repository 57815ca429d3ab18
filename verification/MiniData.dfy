/** The length-prefixed frames of components/hxkong_yun/mini-data.c. */
module MiniData {
  import opened Bytes

  const HEAD: byte := 0xAF
  const TAIL: byte := 0xFA

  function Prefix(n: nat): seq<byte>
    requires 1 <= n <= 255
  {
    if n < 0xFF then [HEAD, n] else [HEAD, 0xFF, 0xFF, 0]
  }

  /** The frame of a payload: head, length in one octet or three, payload, tail. */
  function Frame(p: seq<byte>): (f: seq<byte>)
    requires 1 <= |p| <= 255
    ensures 4 <= |f| <= 260 && f[0] == HEAD
  {
    Prefix(|p|) + p + [TAIL]
  }

  /** The octets of a created frame. */
  lemma FrameOctets(p: seq<byte>)
    requires 1 <= |p| <= 255
    ensures |p| < 255 ==> Frame(p) == [0xAF, |p|] + p + [0xFA]
    ensures |p| == 255 ==> Frame(p) == [0xAF, 0xFF, 0xFF, 0] + p + [0xFA]
  {
  }

  /** miniDataCreate. The length is an octet; nothing is written for length 0. */
  method Create(parmLen: byte, parm: seq<byte>, dst: array<byte>) returns (n: nat)
    requires parmLen <= |parm|
    requires dst.Length >= if parmLen == 0 then 0 else |Frame(parm[..parmLen])|
    modifies dst
    ensures parmLen == 0 ==> n == 0
    ensures parmLen > 0 ==> n == |Frame(parm[..parmLen])| && dst[..n] == Frame(parm[..parmLen])
    ensures dst[n..] == old(dst[n..])
  {
    n := 0;
    if parmLen == 0 {
      return;
    }
    dst[n] := HEAD;
    n := n + 1;
    if parmLen < 0xFF {
      dst[n] := parmLen;
      n := n + 1;
    } else {
      dst[n] := 0xFF;
      n := n + 1;
      dst[n] := parmLen % 0x100;
      n := n + 1;
      dst[n] := parmLen / 0x100 % 0x100;
      n := n + 1;
    }
    ghost var base := n;
    assert dst[..base] == Prefix(parmLen);
    for i := 0 to parmLen
      invariant n == base + i
      invariant dst[..n] == Prefix(parmLen) + parm[..i]
      invariant dst[base + parmLen + 1..] == old(dst[base + parmLen + 1..])
    {
      assert parm[..i + 1] == parm[..i] + [parm[i]];
      dst[n] := parm[i];
      n := n + 1;
    }
    dst[n] := TAIL;
    n := n + 1;
  }

  /** What miniDataGet reports: octets to drop, and, on success, where the payload lies. */
  datatype Got = Nothing | Drop(n: nat) | Found(n: nat, start: nat, len: nat) {
    /** The return value. */
    function Count(): nat {
      if Nothing? then 0 else n
    }
  }

  /** The position of the first head octet, or the length if there is none. */
  function FirstHead(s: seq<byte>): (k: nat)
    ensures k <= |s| && HEAD !in s[..k]
    ensures k < |s| ==> s[k] == HEAD
  {
    if s == [] || s[0] == HEAD then 0
    else
      assert s[1..][..FirstHead(s[1..])] == s[1..][..FirstHead(s[1..])];
      assert s[..1 + FirstHead(s[1..])] == [s[0]] + s[1..][..FirstHead(s[1..])];
      1 + FirstHead(s[1..])
  }

  /** The payload length a header announces, and the octets a frame of that kind has besides. */
  function Announced(cache: seq<byte>): (nat, nat)
    requires |cache| >= 4
  {
    if cache[1] == 0xFF then (cache[2] + 0x100 * cache[3] as int, 5) else (cache[1], 3)
  }

  /** miniDataGet on a buffer whose first len octets are live; the rest is whatever was there before. */
  function Get(cache: seq<byte>, len: nat): (g: Got)
    requires len <= |cache| && |cache| >= 4
    ensures g.Count() <= len
    ensures g.Found? ==> g.start + g.len < g.n && g.len > 0
    ensures g.Drop? ==> g.n > 0
  {
    if len < 3 then Nothing
    else if cache[0] != HEAD then Drop(FirstHead(cache[..len]))
    else
      var (plen, base) := Announced(cache);
      if plen == 0 then Drop(1)
      else if len < plen + base then Nothing
      else if cache[base - 1 + plen] != TAIL then Drop(1)
      else Found(plen + base, base - 1, plen)
  }

  /** miniDataGet */
  method MiniDataGet(cache: array<byte>, cacheLen: nat)
    returns (n: nat, success: bool, parameter: nat, parameterLen: nat)
    requires cacheLen <= cache.Length && cache.Length >= 4
    ensures n == Get(cache[..], cacheLen).Count()
    ensures success <==> Get(cache[..], cacheLen).Found?
    ensures success ==> Get(cache[..], cacheLen) == Found(n, parameter, parameterLen)
  {
    n, success, parameter, parameterLen := 0, false, 0, 0;
    ghost var live := cache[..cacheLen];
    if cacheLen < 3 {
      return;
    }
    while n < cacheLen
      invariant 0 <= n <= cacheLen
      invariant FirstHead(live) == n + FirstHead(live[n..])
    {
      if cache[n] == HEAD {
        break;
      }
      assert live[n..][1..] == live[n + 1..];
      n := n + 1;
    }
    assert FirstHead(live) == n;
    if n > 0 {
      return;
    }
    n := n + 1;
    var base;
    if cache[n] == 0xFF {
      parameterLen := cache[n + 1] + 0x100 * cache[n + 2] as int;
      n := n + 3;
      base := 5;
    } else {
      parameterLen := cache[n];
      n := n + 1;
      base := 3;
    }
    if parameterLen == 0 {
      return 1, false, 0, 0;
    }
    if cacheLen < parameterLen + base {
      return 0, false, 0, 0;
    }
    parameter := n;
    n := n + parameterLen;
    if cache[n] != TAIL {
      return 1, false, 0, 0;
    }
    n := n + 1;
    success := true;
  }

  /** A created frame at the front of the stream is found as soon as it is complete, its payload
      intact, and waited for until then, whatever lies beyond the live octets. */
  lemma GetFrame(cache: seq<byte>, len: nat, rest: seq<byte>, p: seq<byte>, more: seq<byte>)
    requires 3 <= len <= |cache| && |cache| >= 4 && 1 <= |p| <= 255
    requires cache[..len] + rest == Frame(p) + more
    ensures len < |Frame(p)| ==> Get(cache, len) == Nothing
    ensures len >= |Frame(p)| ==>
      && Get(cache, len) == Found(|Frame(p)|, |Frame(p)| - 1 - |p|, |p|)
      && cache[|Frame(p)| - 1 - |p|..|Frame(p)| - 1] == p
  {
    var s := Frame(p) + more;
    assert forall i :: 0 <= i < len ==> cache[i] == (cache[..len] + rest)[i] == s[i];
    var f := |Frame(p)|;
    assert forall i :: 0 <= i < f ==> s[i] == Frame(p)[i];
    assert Frame(p)[1] == if |p| < 0xFF then |p| else 0xFF;
    if |p| == 255 {
      assert Frame(p)[2] == 0xFF && Frame(p)[3] == 0;
    }
    if len >= f {
      assert cache[f - 1 - |p|..f - 1] == Frame(p)[f - 1 - |p|..f - 1] == p;
    }
  }

  /** The long form, which carries its 16-bit length low octet first, is found for every length. */
  lemma GetLong(cache: seq<byte>, len: nat, p: seq<byte>)
    requires 4 <= len <= |cache| && 1 <= |p| < 0x1_0000
    requires var f := [0xAF, 0xFF, |p| % 0x100, |p| / 0x100] + p + [0xFA];
      if len < |f| then cache[..len] == f[..len] else cache[..|f|] == f
    ensures len < |p| + 5 ==> Get(cache, len) == Nothing
    ensures len >= |p| + 5 ==> Get(cache, len) == Found(|p| + 5, 4, |p|) && cache[4..4 + |p|] == p
  {
    var f := [0xAF, 0xFF, |p| % 0x100, |p| / 0x100] + p + [0xFA];
    assert forall i :: 0 <= i < len && i < |f| ==> cache[i] == f[i];
    if len >= |p| + 5 {
      assert cache[4..4 + |p|] == f[4..4 + |p|] == p;
    }
  }

  /** Resynchronising never passes over a head: what is dropped holds none after its first octet, and
      noise in front of a head goes at once. A length of 0 and a wrong tail each cost the head alone. */
  lemma DropsNoHead(cache: seq<byte>, len: nat)
    requires len <= |cache| && |cache| >= 4 && Get(cache, len).Drop?
    ensures var n := Get(cache, len).n;
      && 1 <= n <= len && 0xAF !in cache[1..n]
      && (cache[0] != 0xAF ==> n == len || cache[n] == 0xAF)
  {
    var n := Get(cache, len).n;
    if cache[0] != 0xAF {
      assert cache[1..n] == cache[..len][..n][1..];
    }
  }

  /** Such heads are dropped: of a frame without a payload, and of one whose announced end is no tail. */
  lemma BadHeads(cache: seq<byte>, len: nat)
    requires 4 <= len <= |cache| && cache[0] == 0xAF
    ensures cache[1] == 0 ==> Get(cache, len) == Drop(1)
    ensures 1 <= cache[1] < 0xFF && len >= cache[1] as int + 3 && cache[2 + cache[1] as int] != 0xFA ==>
      Get(cache, len) == Drop(1)
  {
  }

  /** Stale octets beyond the live ones can be read, but only with exactly the three live octets
      AF FF 00: then, and only then, what lies beyond decides the outcome. */
  lemma StaleOctetMatters(cache: seq<byte>, len: nat)
    requires len <= |cache| && |cache| >= 4
    ensures (exists other: seq<byte> :: |other| == |cache| && other[..len] == cache[..len]
               && Get(other, len) != Get(cache, len))
       <==> len == 3 && cache[..3] == [HEAD, 0xFF, 0]
  {
    if len == 3 && cache[..3] == [HEAD, 0xFF, 0] {
      var other := cache[3 := if cache[3] == 0 then 1 else 0];
      assert other[..len] == cache[..len];
      assert Get(other, len) != Get(cache, len);
    } else {
      forall other: seq<byte> | |other| == |cache| && other[..len] == cache[..len]
        ensures Get(other, len) == Get(cache, len)
      {
        assert forall i :: 0 <= i < len ==> other[i] == other[..len][i] == cache[..len][i] == cache[i];
      }
    }
  }
}
