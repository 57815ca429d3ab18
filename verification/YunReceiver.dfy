/** The stream receiver of components/hxkong_yun/hxkong_yun.c: a compacting buffer in front of the
    frame parser. */
module YunReceiver {
  import opened Bytes
  import opened MiniData

  const SIZE: nat := 1400
  const LIMIT: nat := 1399

  const DATA: byte := 0      // ezhDNProl_Data
  const DATA_RET: byte := 1  // ezhDNProl_Data_Ret

  /** The receive buffer: its whole array, stale octets included, and how much of it is live. */
  datatype Buffer = Buffer(cache: seq<byte>, len: nat) {
    ghost predicate Valid() { |cache| == SIZE && len <= SIZE }

    function Live(): (s: seq<byte>)
      requires len <= |cache|
    {
      cache[..len]
    }
  }

  /** What a call leaves behind: the buffer, the payloads dispatched, the octets consumed. */
  datatype Outcome = Outcome(buf: Buffer, commands: seq<seq<byte>>, consumed: seq<byte>)

  function Commands(g: Got, cache: seq<byte>): seq<seq<byte>>
    requires g.Found? ==> g.start + g.len <= |cache|
  {
    if g.Found? then [cache[g.start..g.start + g.len]] else []
  }

  /** The compaction loop: the live octets move down, the ones above keep their old values. */
  function Compact(b: Buffer, n: nat): (r: Buffer)
    requires b.Valid() && n <= b.len
    ensures r.Valid() && r.len == b.len - n && r.Live() == b.cache[n..b.len]
  {
    Buffer(b.cache[n..b.len] + b.cache[b.len - n..], b.len - n)
  }

  /** The goto loop: parse, dispatch and compact until miniDataGet returns 0. */
  function Drain(b: Buffer): (o: Outcome)
    requires b.Valid()
    ensures o.buf.Valid() && o.buf.len <= b.len
    decreases b.len
  {
    var g := Get(b.cache, b.len);
    if g.Nothing? then Outcome(b, [], [])
    else
      var o := Drain(Compact(b, g.n));
      Outcome(o.buf, Commands(g, b.cache) + o.commands, b.cache[..g.n] + o.consumed)
  }

  /** The reset and memcpy at the head of dtrs_recv_data_callback. */
  function Append(b: Buffer, data: seq<byte>): (r: Buffer)
    requires b.Valid() && |data| <= SIZE
    ensures r.Valid()
    ensures b.len + |data| <= LIMIT ==> r.Live() == b.Live() + data
    ensures b.len + |data| > LIMIT ==> r.Live() == data
  {
    var at := if b.len + |data| > LIMIT then 0 else b.len;
    Buffer(b.cache[..at] + data + b.cache[at + |data|..], at + |data|)
  }

  /** The copy stays inside the array exactly for pieces of at most its 1400 octets, whatever is live:
      the reset makes room, but not beyond the whole. */
  lemma CopyFits(b: Buffer, n: nat)
    requires b.Valid()
    ensures (if b.len + n > LIMIT then 0 else b.len) + n <= SIZE <==> n <= SIZE
  {
  }

  /** The buffer has 1400 octets, and it is reset exactly when live octets and piece exceed 1399. */
  lemma ResetExactly(b: Buffer, data: seq<byte>)
    requires b.Valid() && |data| <= 1400
    ensures |b.cache| == 1400
    ensures Append(b, data).Live() == if b.len + |data| > 1399 then data else b.Live() + data
  {
  }

  /** Of what is dispatched, a payload reaches the user's callback exactly when its first octet is 1, and
      then without it. */
  lemma {:induction false} DeliveredExactly(commands: seq<seq<byte>>, d: seq<byte>)
    requires forall i :: 0 <= i < |commands| ==> commands[i] != []
    ensures d in Delivered(commands) <==> [1] + d in commands
  {
    if commands != [] {
      DeliveredExactly(commands[1..], d);
      assert commands[0] == [commands[0][0]] + commands[0][1..];
    }
  }

  function Receive(b: Buffer, data: seq<byte>): (o: Outcome)
    requires b.Valid() && |data| <= SIZE
    ensures o.buf.Valid()
  {
    Drain(Append(b, data))
  }

  /** The payloads, less their command octet, that reach the user's callback. */
  function Delivered(commands: seq<seq<byte>>): seq<seq<byte>>
    requires forall i :: 0 <= i < |commands| ==> commands[i] != []
  {
    if commands == [] then []
    else (if commands[0][0] == DATA_RET then [commands[0][1..]] else []) + Delivered(commands[1..])
  }

  /** For arbitrary octets nothing is lost or reordered: what was buffered is what was consumed
      followed by what is still buffered. */
  lemma {:induction false} DrainConserves(b: Buffer)
    requires b.Valid()
    ensures Drain(b).consumed + Drain(b).buf.Live() == b.Live()
    ensures Get(Drain(b).buf.cache, Drain(b).buf.len).Nothing?
    decreases b.len
  {
    hide Get, Commands, Compact, Drain;
    var g := Get(b.cache, b.len);
    DrainConsumed(b);
    if !g.Nothing? {
      var c := Compact(b, g.n);
      DrainConserves(c);
      Rejoin(b.cache[..g.n], Drain(c).consumed, Drain(c).buf.Live(), c.Live());
      assert b.cache[..g.n] + c.Live() == b.Live();
    } else {
      assert [] + b.Live() == b.Live();
    }
  }

  lemma DrainConsumed(b: Buffer)
    requires b.Valid()
    ensures var g := Get(b.cache, b.len);
      if g.Nothing? then Drain(b).buf == b && Drain(b).consumed == []
      else
        var o := Drain(Compact(b, g.n));
        Drain(b).buf == o.buf && Drain(b).consumed == b.cache[..g.n] + o.consumed
  {
    hide Get, Commands, Compact;
  }

  lemma Rejoin(a: seq<byte>, b: seq<byte>, c: seq<byte>, bc: seq<byte>)
    requires b + c == bc
    ensures (a + b) + c == a + bc
  {
  }

  lemma ReceiveConserves(b: Buffer, data: seq<byte>)
    requires b.Valid() && |data| <= SIZE
    ensures var o := Receive(b, data);
      && o.consumed + o.buf.Live() == (if b.len + |data| <= LIMIT then b.Live() else []) + data
      && (|data| <= LIMIT ==> o.buf.len <= LIMIT)
  {
    DrainConserves(Append(b, data));
    assert [] + data == data;
  }

  class Receiver {
    const cache: array<byte>
    var len: nat
    var commands: seq<seq<byte>>   // what actionTransServDataFunc was called with
    var delivered: seq<seq<byte>>  // what it passed on to g_dtrs_yun_recv

    ghost predicate Valid()
      reads this
    {
      && cache.Length == SIZE && len <= SIZE
      && (forall i :: 0 <= i < |commands| ==> commands[i] != [])
      && delivered == Delivered(commands)
    }

    ghost function Buf(): (b: Buffer)
      reads this, cache
      requires Valid()
      ensures b.Valid()
    {
      Buffer(cache[..], len)
    }

    constructor ()
      ensures Valid() && fresh(cache) && len == 0 && commands == []
    {
      cache := new byte[SIZE](_ => 0);
      len := 0;
      commands, delivered := [], [];
    }

    /** actionTransServDataFunc: only ezhDNProl_Data_Ret has an effect. */
    method ActionTransServDataFunc(cmd: byte, param: seq<byte>)
      requires Valid()
      modifies this`commands, this`delivered
      ensures Valid() && commands == old(commands) + [[cmd] + param]
    {
      DeliveredSnoc(commands, [cmd] + param);
      assert ([cmd] + param)[1..] == param;
      commands := commands + [[cmd] + param];
      if cmd == DATA_RET {
        delivered := delivered + [param];
      }
    }

    /** dtrs_recv_data_callback */
    method RecvData(data: seq<byte>)
      requires Valid() && |data| <= SIZE
      modifies this, cache
      ensures Valid()
      ensures Buf() == Receive(old(Buf()), data).buf
      ensures commands == old(commands) + Receive(old(Buf()), data).commands
    {
      hide Get, Commands, Compact, Drain;
      Store(data);
      ghost var all := Drain(Buf());
      var tmp, ok, start, n := MiniDataGet(cache, len);
      while tmp > 0
        invariant Valid()
        invariant all.buf == Drain(Buf()).buf
        invariant commands + Drain(Buf()).commands == old(commands) + all.commands
        invariant tmp == Get(cache[..], len).Count() && (ok <==> Get(cache[..], len).Found?)
        invariant ok ==> Get(cache[..], len) == Found(tmp, start, n)
        decreases len
      {
        DrainStep(Buf(), commands);
        Turn(tmp, ok, start, n);
        tmp, ok, start, n := MiniDataGet(cache, len);
      }
      DrainStep(Buf(), commands);
    }

    /** One turn of the goto loop: dispatch, then compact. */
    method Turn(tmp: nat, ok: bool, start: nat, n: nat)
      requires Valid() && 0 < tmp <= len
      requires tmp == Get(cache[..], len).Count() && (ok <==> Get(cache[..], len).Found?)
      requires ok ==> Get(cache[..], len) == Found(tmp, start, n)
      modifies this, cache
      ensures Valid() && Buf() == Compact(old(Buf()), tmp)
      ensures commands == old(commands) + Commands(old(Get(cache[..], len)), old(cache[..]))
    {
      hide Compact, Delivered;
      if ok {
        assert [cache[start]] + cache[start + 1..start + n] == cache[..][start..start + n];
        ActionTransServDataFunc(cache[start], cache[start + 1..start + n]);
      }
      Shift(tmp);
    }

    /** The overflow reset and the memcpy. */
    method Store(data: seq<byte>)
      requires Valid() && |data| <= SIZE
      modifies this`len, cache
      ensures Valid() && Buf() == Append(old(Buf()), data)
    {
      if len + |data| > LIMIT {
        len := 0;
      }
      CopyIn(data);
      len := len + |data|;
    }

    /** memcpy behind the live octets. */
    method CopyIn(data: seq<byte>)
      requires cache.Length == SIZE && len + |data| <= SIZE
      modifies cache
      ensures cache[..] == old(cache[..len]) + data + old(cache[len + |data|..])
    {
      for i := 0 to |data|
        invariant forall k :: 0 <= k < i ==> cache[len + k] == data[k]
        invariant forall k :: 0 <= k < len || len + i <= k < SIZE ==> cache[k] == old(cache[k])
      {
        cache[len + i] := data[i];
      }
      assert cache[len..len + |data|] == data;
      assert cache[..len] == old(cache[..len]) && cache[len + |data|..] == old(cache[len + |data|..]);
    }

    /** g_YunLen -= tmp and the overlapping in-place shift. */
    method Shift(tmp: nat)
      requires Valid() && tmp <= len
      modifies this`len, cache
      ensures Valid() && Buf() == Compact(old(Buf()), tmp)
    {
      len := len - tmp;
      for n := 0 to len
        invariant len == old(len) - tmp
        invariant forall k :: 0 <= k < n ==> cache[k] == old(cache[tmp + k])
        invariant forall k :: n <= k < SIZE ==> cache[k] == old(cache[k])
      {
        cache[n] := cache[tmp + n];
      }
      assert cache[..len] == old(cache[..])[tmp..tmp + len];
      assert cache[len..] == old(cache[..])[len..];
    }
  }

  /** One turn of the loop, with what had been dispatched before it. */
  lemma DrainStep(b: Buffer, done: seq<seq<byte>>)
    requires b.Valid()
    ensures var g := Get(b.cache, b.len);
      if g.Nothing? then Drain(b).buf == b && Drain(b).commands == []
      else
        && Drain(b).buf == Drain(Compact(b, g.n)).buf
        && done + Drain(b).commands == (done + Commands(g, b.cache)) + Drain(Compact(b, g.n)).commands
  {
    hide Get, Commands, Compact;
  }

  lemma {:induction false} DeliveredSnoc(commands: seq<seq<byte>>, c: seq<byte>)
    requires c != [] && forall i :: 0 <= i < |commands| ==> commands[i] != []
    ensures Delivered(commands + [c]) == Delivered(commands) + if c[0] == DATA_RET then [c[1..]] else []
  {
    var all := commands + [c];
    if commands != [] {
      DeliveredSnoc(commands[1..], c);
      assert all[1..] == commands[1..] + [c];
    } else {
      assert all[1..] == [];
    }
  }
}
