/** The singly linked tail queue of components/espmqtt/lib/mqtt_outbox.c. */
module Outbox {
  import opened Bytes
  import opened OutboxSpec
  import opened Sequences

  class Item {
    const buffer: seq<byte>
    const msgId: int
    const msgType: int
    const tick: int
    var pending: bool
    var next: Item?

    constructor (data: seq<byte>, msgId: int, msgType: int, tick: int)
      ensures Entry() == OutboxSpec.Entry(data, msgId, msgType, tick, false) && next == null
    {
      this.buffer, this.msgId, this.msgType, this.tick := data, msgId, msgType, tick;
      pending, next := false, null;
    }

    function Entry(): Entry
      reads this`pending
    {
      OutboxSpec.Entry(buffer, msgId, msgType, tick, pending)
    }
  }

  ghost function ItemAt(items: seq<Item>, i: int): Item? {
    if 0 <= i < |items| then items[i] else null
  }

  ghost predicate Linked(s: seq<Item>)
    reads s
  {
    forall i {:trigger s[i].next} :: 0 <= i < |s| ==> s[i].next == ItemAt(s, i + 1)
  }

  /** STAILQ_REMOVE sets one link; the shorter queue is linked. */
  lemma LinkedRemoved(s: seq<Item>, k: int)
    requires 0 <= k < |s|
    requires forall i {:trigger s[i].next} :: 0 <= i < |s| && i != k ==>
      s[i].next == ItemAt(s, if i == k - 1 then k + 1 else i + 1)
    ensures Linked(RemovedAt(s, k))
  {
    hide RemovedAt;
    var t := RemovedAt(s, k);
    forall i | 0 <= i < |t|
      ensures t[i].next == ItemAt(t, i + 1)
    {
      assert t[i] == s[if i < k then i else i + 1];
    }
  }

  class Queue {
    var first: Item?
    var last: Item?  // the item whose link the tail pointer designates; null designates the head
    ghost var items: seq<Item>
    ghost var contents: seq<Entry>

    /** The items as a set: what the methods below may change. */
    ghost function Repr(): set<Item>
      reads this`items
    {
      set x | x in items
    }

    ghost predicate Valid()
      reads this, Repr()
    {
      && Distinct(items) && Linked(items)
      && first == ItemAt(items, 0)
      && last == ItemAt(items, |items| - 1)
      && |contents| == |items|
      && (forall i {:trigger items[i].Entry()} :: 0 <= i < |items| ==> items[i].Entry() == contents[i])
    }

    /** outbox_init */
    constructor ()
      ensures Valid() && contents == [] && items == []
    {
      first, last := null, null;
      items, contents := [], [];
    }

    /** outbox_enqueue: STAILQ_INSERT_TAIL of a fresh item holding a copy of the data. */
    method Enqueue(data: seq<byte>, msgId: int, msgType: int, tick: int) returns (item: Item)
      requires Valid()
      modifies this, Repr()
      ensures Valid() && fresh(item) && items == old(items) + [item]
      ensures Repr() == old(Repr()) + {item}
      ensures contents == old(contents) + [OutboxSpec.Entry(data, msgId, msgType, tick, false)]
    {
      item := new Item(data, msgId, msgType, tick);
      if last == null {
        first := item;
      } else {
        assert last == items[|items| - 1];
        last.next := item;
      }
      last := item;
      items := items + [item];
      contents := contents + [item.Entry()];
    }

    /** The walk of STAILQ_FOREACH to the first item that satisfies p. */
    method Search(p: Entry -> bool) returns (item: Item?)
      requires Valid()
      ensures item == ItemAt(items, Find(contents, p))
    {
      ghost var k := 0;
      item := first;
      while item != null
        invariant 0 <= k <= |items| && item == ItemAt(items, k)
        invariant forall i :: 0 <= i < k ==> !p(contents[i])
        decreases |items| - k
      {
        assert item == items[k] && items[k].Entry() == contents[k];
        if p(item.Entry()) {
          FindIs(contents, p, k);
          return;
        }
        item := item.next;
        k := k + 1;
      }
      FindIs(contents, p, k);
    }

    /** STAILQ_REMOVE */
    method Remove(elm: Item, ghost k: nat)
      requires Valid() && k < |items| && items[k] == elm
      modifies this, Repr()
      ensures Valid() && items == RemovedAt(old(items), k) && contents == RemovedAt(old(contents), k)
      ensures elm.next == old(elm.next) && Repr() <= old(Repr())
    {
      hide RemovedAt;
      RemovedMembers(items, k);
      ghost var s := items;
      if first == elm {
        assert k == 0;
        first := elm.next;
        if first == null {
          last := null;
        }
      } else {
        var cur := Predecessor(elm, k);
        cur.next := elm.next;
        if cur.next == null {
          last := cur;
        }
      }
      items, contents := RemovedAt(s, k), RemovedAt(contents, k);
      LinkedRemoved(s, k);
    }

    /** The walk inside STAILQ_REMOVE. */
    method Predecessor(elm: Item, ghost k: nat) returns (cur: Item)
      requires Valid() && 0 < k < |items| && items[k] == elm
      ensures cur == items[k - 1]
    {
      cur := first;
      ghost var i := 0;
      while cur.next != elm
        invariant 0 <= i < k && cur == items[i]
        decreases k - i
      {
        assert items[i].next == items[i + 1];
        cur := cur.next;
        i := i + 1;
      }
      assert items[i].next == items[i + 1];
    }

    /** outbox_get */
    method Get(msgId: int) returns (item: Item?)
      requires Valid()
      ensures item == ItemAt(items, Find(contents, HasId(msgId)))
    {
      item := Search(HasId(msgId));
    }

    /** outbox_dequeue: the oldest item not marked pending. It stays in the queue. */
    method Dequeue() returns (item: Item?)
      requires Valid()
      ensures item == ItemAt(items, Find(contents, Free()))
    {
      item := Search(Free());
    }

    /** outbox_delete */
    method Delete(msgId: int, msgType: int) returns (ok: bool)
      requires Valid()
      modifies this, Repr()
      ensures Valid() && contents == RemoveFirst(old(contents), Is(msgId, msgType))
      ensures ok <==> |contents| < |old(contents)|
      ensures Repr() <= old(Repr())
    {
      var item := Search(Is(msgId, msgType));
      if item == null {
        return false;
      }
      Remove(item, Find(contents, Is(msgId, msgType)));
      return true;
    }

    /** outbox_set_pending */
    method SetPending(msgId: int) returns (ok: bool)
      requires Valid()
      modifies this`contents, Repr()
      ensures Valid() && items == old(items) && contents == Marked(old(contents), msgId)
      ensures ok <==> Find(old(contents), HasId(msgId)) < |contents|
    {
      ghost var k := Find(contents, HasId(msgId));
      var item := Get(msgId);
      if item == null {
        return false;
      }
      assert items[k].Entry() == contents[k];
      item.pending := true;
      contents := Marked(contents, msgId);
      return true;
    }

    /** One turn of the deleting loops: the successor is read before the item goes. The items kept
        so far are kept, the entries kept so far are done; all[j..] and before[j..] are unvisited. */
    method Visit(p: Entry -> bool, item: Item, ghost all: seq<Item>, ghost before: seq<Entry>, ghost j: nat,
                 ghost kept: seq<Item>, ghost done: seq<Entry>)
      returns (tmp: Item?, ghost kept': seq<Item>, ghost done': seq<Entry>)
      requires Valid() && j < |all| == |before| && |kept| == |done| && item == all[j]
      requires items == kept + all[j..] && contents == done + before[j..]
      modifies this, Repr()
      ensures Valid() && tmp == ItemAt(all, j + 1)
      ensures items == kept' + all[j + 1..]
      ensures contents == done' + before[j + 1..] && |kept'| == |done'|
      ensures done' == done + if p(before[j]) then [] else [before[j]]
      ensures Repr() <= old(Repr())
    {
      hide RemovedAt;
      ghost var k := |kept|;
      assert items[k] == item && contents[k] == before[j] == item.Entry();
      RemovedMiddle(kept, all, j);
      RemovedMiddle(done, before, j);
      tmp := item.next;
      assert tmp == ItemAt(items, k + 1) == ItemAt(all, j + 1);
      if p(item.Entry()) {
        Remove(item, k);
        kept', done' := kept, done;
      } else {
        kept', done' := kept + [item], done + [before[j]];
      }
    }

    /** The loop of outbox_delete_msgid, outbox_delete_msgtype and outbox_delete_expired, which differ
        only in their test. */
    method DeleteAll(p: Entry -> bool)
      requires Valid()
      modifies this, Repr()
      ensures Valid() && contents == Filter(old(contents), Not(p))
      ensures Repr() <= old(Repr())
    {
      hide Filter, Repr;
      ghost var before, all, kept, done, j := contents, items, [], [], 0;
      var item := first;
      FilterNone(before, Not(p));
      while item != null
        invariant Valid() && 0 <= j <= |all| == |before|
        invariant items == kept + all[j..] && contents == done + before[j..] && |kept| == |done|
        invariant done == Filter(before[..j], Not(p))
        invariant item == ItemAt(all, j)
        invariant Repr() <= old(Repr())
        decreases |all| - j
      {
        FilterNextNot(before, p, j);
        item, kept, done := Visit(p, item, all, before, j, kept, done);
        j := j + 1;
      }
      FilterWhole(before, Not(p));
    }

    /** outbox_delete_msgid */
    method DeleteMsgId(msgId: int)
      requires Valid()
      modifies this, Repr()
      ensures Valid() && contents == Filter(old(contents), Not(HasId(msgId)))
    {
      DeleteAll(HasId(msgId));
    }

    /** outbox_delete_msgtype */
    method DeleteMsgType(msgType: int)
      requires Valid()
      modifies this, Repr()
      ensures Valid() && contents == Filter(old(contents), Not(HasType(msgType)))
    {
      DeleteAll(HasType(msgType));
    }

    /** outbox_delete_expired */
    method DeleteExpired(currentTick: int, timeout: int)
      requires Valid()
      modifies this, Repr()
      ensures Valid() && contents == Filter(old(contents), Not(Expired(currentTick, timeout)))
    {
      DeleteAll(Expired(currentTick, timeout));
    }

    /** outbox_get_size */
    method GetSize() returns (siz: nat)
      requires Valid()
      ensures siz == Size(contents)
    {
      siz := 0;
      var item := first;
      ghost var k := 0;
      assert contents[..0] == [];
      while item != null
        invariant 0 <= k <= |items| && item == ItemAt(items, k)
        invariant siz == Size(contents[..k])
        decreases |items| - k
      {
        assert items[k].Entry() == contents[k];
        assert contents[..k + 1] == contents[..k] + [contents[k]];
        SizeAppend(contents[..k], [contents[k]]);
        siz := siz + |item.buffer|;
        item := item.next;
        k := k + 1;
      }
      assert contents[..k] == contents;
    }

    /** outbox_cleanup */
    method Cleanup(maxSize: int) returns (ok: bool)
      requires Valid()
      modifies this, Repr()
      ensures Valid()
      ensures OutboxSpec.Cleanup(old(contents), maxSize) == Cleaned(contents, ok)
      ensures Repr() <= old(Repr())
    {
      hide Size, RemovedAt, Find, Repr;
      var size := GetSize();
      while size > maxSize
        invariant Valid() && size == Size(contents)
        invariant OutboxSpec.Cleanup(contents, maxSize) == OutboxSpec.Cleanup(old(contents), maxSize)
        invariant Repr() <= old(Repr())
        decreases |items|
      {
        var item := Dequeue();
        if item == null {
          return false;
        }
        ghost var k := Find(contents, Free());
        assert item == items[k];
        Remove(item, k);
        size := GetSize();
      }
      return true;
    }
  }

  lemma FilterNone(es: seq<Entry>, keep: Entry -> bool)
    ensures Filter(es[..0], keep) == []
  {
  }

  lemma RemovedMembers<T>(s: seq<T>, k: nat)
    requires k < |s|
    ensures forall x :: x in RemovedAt(s, k) ==> x in s
  {
  }

  lemma RemovedMiddle<T>(a: seq<T>, s: seq<T>, j: nat)
    requires j < |s|
    ensures RemovedAt(a + s[j..], |a|) == a + s[j + 1..]
    ensures a + s[j..] == (a + [s[j]]) + s[j + 1..]
  {
  }

  lemma FilterWhole(es: seq<Entry>, keep: Entry -> bool)
    ensures Filter(es[..|es|], keep) + es[|es|..] == Filter(es, keep)
  {
    assert es[..|es|] == es;
  }

  lemma FilterNextNot(es: seq<Entry>, p: Entry -> bool, j: nat)
    requires j < |es|
    ensures Filter(es[..j + 1], Not(p)) == Filter(es[..j], Not(p)) + if p(es[j]) then [] else [es[j]]
  {
    assert es[..j + 1] == es[..j] + [es[j]];
    FilterAppend(es[..j], [es[j]], Not(p));
    assert Filter([es[j]], Not(p)) == (if p(es[j]) then [] else [es[j]]) + Filter([], Not(p));
  }

  lemma FindIs(es: seq<Entry>, p: Entry -> bool, k: nat)
    requires k <= |es| && (k < |es| ==> p(es[k]))
    requires forall i :: 0 <= i < k ==> !p(es[i])
    ensures Find(es, p) == k
  {
  }
}
