/** The outbox as a sequence of stored messages, oldest first. */
module OutboxSpec {
  import opened Bytes
  import opened Sequences

  datatype Entry = Entry(data: seq<byte>, msgId: int, msgType: int, tick: int, pending: bool)

  function Size(es: seq<Entry>): nat {
    if es == [] then 0 else |es[0].data| + Size(es[1..])
  }

  /** The entries that satisfy keep, in their order. */
  function Filter(es: seq<Entry>, keep: Entry -> bool): seq<Entry> {
    if es == [] then []
    else (if keep(es[0]) then [es[0]] else []) + Filter(es[1..], keep)
  }

  /** The position of the first entry that satisfies p, or the length. */
  function Find(es: seq<Entry>, p: Entry -> bool): (k: nat)
    ensures k <= |es| && (k < |es| ==> p(es[k]))
    ensures forall i :: 0 <= i < k ==> !p(es[i])
  {
    if es == [] || p(es[0]) then 0 else 1 + Find(es[1..], p)
  }

  /** outbox_delete: the first match goes, if there is one. */
  function RemoveFirst(es: seq<Entry>, p: Entry -> bool): (r: seq<Entry>)
    ensures |r| == if Find(es, p) < |es| then |es| - 1 else |es|
  {
    var k := Find(es, p);
    if k < |es| then RemovedAt(es, k) else es
  }

  function Is(id: int, ty: int): Entry -> bool { (e: Entry) => e.msgId == id && e.msgType == ty }
  function HasId(id: int): Entry -> bool { (e: Entry) => e.msgId == id }
  function HasType(ty: int): Entry -> bool { (e: Entry) => e.msgType == ty }
  function Expired(now: int, timeout: int): Entry -> bool { (e: Entry) => S32(now - e.tick) > timeout }
  function Free(): Entry -> bool { (e: Entry) => !e.pending }
  function Pending(): Entry -> bool { (e: Entry) => e.pending }
  function Not(p: Entry -> bool): Entry -> bool { (e: Entry) => !p(e) }

  /** outbox_set_pending: the first entry with the id is marked. */
  function Marked(es: seq<Entry>, id: int): seq<Entry> {
    var k := Find(es, HasId(id));
    if k < |es| then es[k := es[k].(pending := true)] else es
  }

  datatype Cleaned = Cleaned(es: seq<Entry>, ok: bool)

  /** outbox_cleanup: drop the oldest free entry until the total fits or none is left. */
  function Cleanup(es: seq<Entry>, maxSize: int): Cleaned
    decreases |es|
  {
    if Size(es) <= maxSize then Cleaned(es, true)
    else if Find(es, Free()) == |es| then Cleaned(es, false)
    else Cleanup(RemoveFirst(es, Free()), maxSize)
  }

  /** es without its n oldest free entries. */
  function DropFree(es: seq<Entry>, n: nat): seq<Entry>
    decreases |es|
  {
    if n == 0 || es == [] then es
    else if es[0].pending then [es[0]] + DropFree(es[1..], n)
    else DropFree(es[1..], n - 1)
  }

  lemma {:induction false} FilterAppend(a: seq<Entry>, b: seq<Entry>, keep: Entry -> bool)
    ensures Filter(a + b, keep) == Filter(a, keep) + Filter(b, keep)
    decreases |a|
  {
    if a == [] {
      assert a + b == b;
    } else {
      var ab, h := a + b, if keep(a[0]) then [a[0]] else [];
      assert ab[0] == a[0] && ab[1..] == a[1..] + b;
      FilterAppend(a[1..], b, keep);
      assert h + (Filter(a[1..], keep) + Filter(b, keep)) == (h + Filter(a[1..], keep)) + Filter(b, keep);
    }
  }

  lemma {:induction false} SizeAppend(a: seq<Entry>, b: seq<Entry>)
    ensures Size(a + b) == Size(a) + Size(b)
    decreases |a|
  {
    if a == [] {
      assert a + b == b;
    } else {
      assert (a + b)[1..] == a[1..] + b;
      SizeAppend(a[1..], b);
    }
  }

  lemma {:induction false} FilterMembers(es: seq<Entry>, keep: Entry -> bool, e: Entry)
    ensures e in Filter(es, keep) <==> e in es && keep(e)
    decreases |es|
  {
    if es != [] {
      FilterMembers(es[1..], keep, e);
    }
  }

  /** What the three deletions leave: entries of other ids, of other types, and entries whose age, as a
      32-bit difference, does not exceed the timeout. */
  lemma DeletionsLeave(es: seq<Entry>, e: Entry, id: int, ty: int, now: int, timeout: int)
    ensures e in Filter(es, Not(HasId(id))) <==> e in es && e.msgId != id
    ensures e in Filter(es, Not(HasType(ty))) <==> e in es && e.msgType != ty
    ensures -0x8000_0000 <= now - e.tick < 0x8000_0000 ==>
      (e in Filter(es, Not(Expired(now, timeout))) <==> e in es && now - e.tick <= timeout)
  {
    FilterMembers(es, Not(HasId(id)), e);
    FilterMembers(es, Not(HasType(ty)), e);
    FilterMembers(es, Not(Expired(now, timeout)), e);
  }

  /** What the searches find: the oldest entry of that id, of that id and type, and the oldest that is not
      pending. */
  lemma SearchesFind(es: seq<Entry>, k: nat, id: int, ty: int)
    requires k < |es|
    ensures Find(es, HasId(id)) == k <==> es[k].msgId == id && forall i :: 0 <= i < k ==> es[i].msgId != id
    ensures Find(es, Is(id, ty)) == k <==>
      es[k].msgId == id && es[k].msgType == ty && forall i :: 0 <= i < k ==> es[i].msgId != id || es[i].msgType != ty
    ensures Find(es, Free()) == k <==> !es[k].pending && forall i :: 0 <= i < k ==> es[i].pending
  {
    FindAt(es, HasId(id), k);
    FindAt(es, Is(id, ty), k);
    FindAt(es, Free(), k);
  }

  lemma FindAt(es: seq<Entry>, p: Entry -> bool, k: nat)
    requires k < |es|
    ensures Find(es, p) == k <==> p(es[k]) && forall i :: 0 <= i < k ==> !p(es[i])
  {
  }

  /** Marking changes one entry, the oldest of that id, and nothing of it but the mark. */
  lemma MarkedExactly(es: seq<Entry>, id: int, i: nat)
    requires i < |es|
    ensures |Marked(es, id)| == |es|
    ensures Marked(es, id)[i] ==
      if Find(es, HasId(id)) == i then Entry(es[i].data, es[i].msgId, es[i].msgType, es[i].tick, true) else es[i]
  {
  }

  /** Removing the oldest free entry is dropping one; the pending ones all stay. */
  lemma {:induction false} RemoveFirstFree(es: seq<Entry>, n: nat)
    requires Find(es, Free()) < |es|
    ensures DropFree(RemoveFirst(es, Free()), n) == DropFree(es, n + 1)
    ensures Filter(RemoveFirst(es, Free()), Pending()) == Filter(es, Pending())
    decreases |es|
  {
    var r := RemoveFirst(es, Free());
    if es[0].pending {
      assert r == [es[0]] + RemoveFirst(es[1..], Free());
      assert r[1..] == RemoveFirst(es[1..], Free());
      RemoveFirstFree(es[1..], n);
    } else {
      assert r == es[1..];
    }
  }

  lemma {:induction false} NoFreeLeft(es: seq<Entry>)
    requires Find(es, Free()) == |es|
    ensures Filter(es, Pending()) == es
    decreases |es|
  {
    if es != [] {
      assert !Free()(es[0]);
      NoFreeLeft(es[1..]);
    }
  }

  lemma DropNone(es: seq<Entry>)
    ensures DropFree(es, 0) == es
  {
  }

  lemma {:induction false} PendingSmallest(es: seq<Entry>)
    ensures Size(Filter(es, Pending())) <= Size(es)
    decreases |es|
  {
    if es != [] {
      PendingSmallest(es[1..]);
      var rest := Filter(es[1..], Pending());
      if es[0].pending {
        assert ([es[0]] + rest)[1..] == rest;
      } else {
        assert [] + rest == rest;
      }
    }
  }

  /** outbox_cleanup removes the shortest run of oldest free entries that makes the total fit, keeps
      everything else in order, and fails exactly when the pending entries alone are too big; then
      those are what is left. */
  lemma {:induction false} CleanupExact(es: seq<Entry>, maxSize: int) returns (n: nat)
    ensures Cleanup(es, maxSize).ok <==> Size(Filter(es, Pending())) <= maxSize
    ensures Cleanup(es, maxSize).es == DropFree(es, n)
    ensures Cleanup(es, maxSize).ok ==> Size(DropFree(es, n)) <= maxSize
    ensures !Cleanup(es, maxSize).ok ==> Cleanup(es, maxSize).es == Filter(es, Pending())
    ensures forall m :: 0 <= m < n ==> Size(DropFree(es, m)) > maxSize
    decreases |es|
  {
    hide Size, Filter, DropFree, RemoveFirst, Find;
    DropNone(es);
    if Size(es) <= maxSize {
      n := 0;
      PendingSmallest(es);
    } else if Find(es, Free()) == |es| {
      n := 0;
      NoFreeLeft(es);
    } else {
      var r := RemoveFirst(es, Free());
      var n' := CleanupExact(r, maxSize);
      n := n' + 1;
      RemoveFirstFree(es, n');
      forall m | 0 <= m < n
        ensures Size(DropFree(es, m)) > maxSize
      {
        if m > 0 {
          RemoveFirstFree(es, m - 1);
          assert Size(DropFree(r, m - 1)) > maxSize;
        }
      }
    }
  }

  lemma {:induction false} SizeZero(es: seq<Entry>)
    requires es != [] && Size(es) == 0
    ensures es[|es| - 1].data == []
    decreases |es|
  {
    if |es| > 1 {
      SizeZero(es[1..]);
    }
  }

  /** Taking the first free entry keeps the last entry last, unless they are the same. */
  lemma LastKept(es: seq<Entry>)
    requires Find(es, Free()) < |es|
    ensures var r := RemoveFirst(es, Free());
      r != [] && Filter(es, Pending()) == [] ==> r[|r| - 1] == es[|es| - 1]
  {
    if |es| > 1 && es[0].pending {
      assert Filter(es, Pending())[0] == es[0];
    }
  }

  /** outbox_destroy cleans up to size 0 and then frees the queue's head: nothing is left behind exactly
      when no entry is pending and the newest one has data. */
  lemma {:induction false} DestroyLeavesNothing(es: seq<Entry>)
    ensures Cleanup(es, 0).es == []
       <==> es == [] || (Filter(es, Pending()) == [] && es[|es| - 1].data != [])
    decreases |es|
  {
    hide Filter, Find, RemoveFirst;
    if es != [] {
      if Size(es) == 0 {
        SizeZero(es);
      } else if Find(es, Free()) == |es| {
        NoFreeLeft(es);
      } else {
        var r := RemoveFirst(es, Free());
        LastKept(es);
        RemoveFirstFree(es, 0);
        DestroyLeavesNothing(r);
        if r == [] {
          OnlyEntry(es);
        }
      }
    }
  }

  lemma OnlyEntry(es: seq<Entry>)
    requires Find(es, Free()) < |es| && RemoveFirst(es, Free()) == [] && Size(es) > 0
    ensures |es| == 1 && Filter(es, Pending()) == [] && es[0].data != []
  {
  }

  /** Deleting by id and type takes the oldest match alone; the other matches and everything else
      keep their order. */
  lemma {:induction false} RemoveFirstOldest(es: seq<Entry>, p: Entry -> bool)
    ensures Filter(RemoveFirst(es, p), Not(p)) == Filter(es, Not(p))
    ensures Find(es, p) < |es| ==>
      (Filter(es, p) != [] && Filter(RemoveFirst(es, p), p) == Filter(es, p)[1..])
    ensures Find(es, p) == |es| ==> RemoveFirst(es, p) == es && Filter(es, p) == []
    decreases |es|
  {
    if es != [] {
      var r := RemoveFirst(es, p);
      if p(es[0]) {
        assert r == es[1..];
        assert Filter(es, p) == [es[0]] + Filter(es[1..], p);
      } else {
        RemoveFirstOldest(es[1..], p);
        assert r == [es[0]] + RemoveFirst(es[1..], p);
        assert r[1..] == RemoveFirst(es[1..], p);
        assert Filter(es, p) == [] + Filter(es[1..], p) == Filter(es[1..], p);
        assert Filter(r, p) == [] + Filter(r[1..], p) == Filter(r[1..], p);
      }
    }
  }
}
