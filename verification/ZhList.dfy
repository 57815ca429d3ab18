/** The intrusive doubly linked list of components/zhlist/zhlist.c, as the sequence it represents. */
module ZhList {
  import opened Sequences

  class Node {
    var next: Node?
    var prev: Node?

    constructor ()
    {
      next, prev := null, null;
    }
  }

  ghost function Reverse<T>(s: seq<T>): (r: seq<T>)
    ensures |r| == |s| && forall i :: 0 <= i < |s| ==> r[i] == s[|s| - 1 - i]
  {
    seq(|s|, i requires 0 <= i < |s| => s[|s| - 1 - i])
  }

  /** The node at position i, null outside the sequence. */
  ghost function NodeAt(nodes: seq<Node>, i: int): Node? {
    if 0 <= i < |nodes| then nodes[i] else null
  }

  /** Neighbours in the sequence are neighbours through the pointers, both ways. */
  ghost predicate Linked(s: seq<Node>)
    reads s
  {
    && (forall i {:trigger s[i].next} :: 0 <= i < |s| ==> s[i].next == NodeAt(s, i + 1))
    && (forall i {:trigger s[i].prev} :: 0 <= i < |s| ==> s[i].prev == NodeAt(s, i - 1))
  }

  /** The four pointers an insertion sets are the ones that link the longer sequence. */
  lemma LinkedInserted(s: seq<Node>, k: int, x: Node)
    requires -1 <= k < |s|
    requires forall i {:trigger s[i].next} :: 0 <= i < |s| ==> s[i].next == if i == k then x else NodeAt(s, i + 1)
    requires forall i {:trigger s[i].prev} :: 0 <= i < |s| ==> s[i].prev == if i == k + 1 then x else NodeAt(s, i - 1)
    requires x.next == NodeAt(s, k + 1) && x.prev == NodeAt(s, k)
    ensures Linked(InsertedAfter(s, k, x))
  {
    hide InsertedAfter;
    var t := InsertedAfter(s, k, x);
    forall i | 0 <= i < |t|
      ensures t[i].next == NodeAt(t, i + 1) && t[i].prev == NodeAt(t, i - 1)
    {
      if i <= k {
        assert t[i] == s[i];
      } else if i > k + 1 {
        assert t[i] == s[i - 1];
      }
    }
  }

  /** So are the two a deletion sets. */
  lemma LinkedRemoved(s: seq<Node>, k: int)
    requires 0 <= k < |s|
    requires forall i {:trigger s[i].next} :: 0 <= i < |s| && i != k ==>
      s[i].next == NodeAt(s, if i == k - 1 then k + 1 else i + 1)
    requires forall i {:trigger s[i].prev} :: 0 <= i < |s| && i != k ==>
      s[i].prev == NodeAt(s, if i == k + 1 then k - 1 else i - 1)
    ensures Linked(RemovedAt(s, k))
  {
    hide RemovedAt;
    var t := RemovedAt(s, k);
    forall i | 0 <= i < |t|
      ensures t[i].next == NodeAt(t, i + 1) && t[i].prev == NodeAt(t, i - 1)
    {
      assert t[i] == s[if i < k then i else i + 1];
    }
  }

  class List {
    var head: Node?   // node.next
    var tail: Node?   // node.prev
    var count: int
    ghost var nodes: seq<Node>

    ghost predicate Valid()
      reads this, nodes
    {
      && Distinct(nodes)
      && count == |nodes|
      && head == NodeAt(nodes, 0)
      && tail == NodeAt(nodes, |nodes| - 1)
      && Linked(nodes)
    }

    /** zhListInit */
    constructor ()
      ensures Valid() && nodes == []
    {
      head, tail, count := null, null, 0;
      nodes := [];
    }

    /** zhListInsert: after pPrev, or at the front when pPrev is null. */
    method Insert(pPrev: Node?, pNode: Node)
      requires Valid() && pNode !in nodes
      requires pPrev != null ==> pPrev in nodes
      modifies this, nodes, pNode
      ensures Valid()
      ensures pPrev == null ==> nodes == [pNode] + old(nodes)
      ensures pPrev != null ==>
        exists k :: 0 <= k < |old(nodes)| && old(nodes)[k] == pPrev && nodes == InsertedAfter(old(nodes), k, pNode)
    {
      hide InsertedAfter, IndexOf;
      ghost var k := if pPrev == null then -1 else IndexOf(nodes, pPrev);
      FrontInserted(nodes, pNode);
      DistinctInserted(nodes, k, pNode);
      ghost var s, t := nodes, InsertedAfter(nodes, k, pNode);
      var pNext: Node?;
      if pPrev == null {
        pNext := head;
        head := pNode;
      } else {
        assert pPrev == nodes[k];
        pNext := pPrev.next;
        pPrev.next := pNode;
      }
      assert pNext == NodeAt(nodes, k + 1);
      if pNext == null {
        tail := pNode;
      } else {
        pNext.prev := pNode;
      }
      pNode.next := pNext;
      pNode.prev := pPrev;
      count := count + 1;
      nodes := t;
      LinkedInserted(s, k, pNode);
    }

    /** zhListAdd */
    method Add(pNode: Node)
      requires Valid() && pNode !in nodes
      modifies this, nodes, pNode
      ensures Valid() && nodes == old(nodes) + [pNode]
    {
      Insert(tail, pNode);
      LastInserted(old(nodes), pNode);
    }

    /** zhListDelete */
    method Delete(pNode: Node)
      requires Valid() && pNode in nodes
      modifies this, nodes
      ensures Valid() && nodes == Without(old(nodes), pNode)
      ensures pNode.next == old(pNode.next) && pNode.prev == old(pNode.prev)
    {
      hide RemovedAt, IndexOf;
      ghost var s, k := nodes, IndexOf(nodes, pNode);
      assert nodes[k] == pNode;
      assert pNode.prev == NodeAt(nodes, k - 1);
      assert pNode.next == NodeAt(nodes, k + 1);
      if pNode.prev == null {
        head := pNode.next;
      } else {
        pNode.prev.next := pNode.next;
      }
      if pNode.next == null {
        tail := pNode.prev;
      } else {
        pNode.next.prev := pNode.prev;
      }
      count := count - 1;
      nodes := RemovedAt(s, k);
      LinkedRemoved(s, k);
    }

    /** zhListFind: the position counted from 1, or -1. */
    method Find(pNode: Node) returns (index: int)
      requires Valid()
      ensures pNode in nodes ==> 1 <= index <= |nodes| && nodes[index - 1] == pNode
      ensures pNode !in nodes ==> index == -1
    {
      index := 1;
      var pNextNode := head;
      while pNextNode != null && pNextNode != pNode
        invariant 1 <= index <= |nodes| + 1
        invariant pNextNode == NodeAt(nodes, index - 1)
        invariant pNode !in nodes[..index - 1]
        decreases |nodes| + 1 - index
      {
        assert pNextNode == nodes[index - 1];
        index := index + 1;
        pNextNode := pNextNode.next;
      }
      if pNextNode == null {
        return -1;
      }
    }

    /** zhListFree: every node is released, in order, and the list is empty again. */
    method Free() returns (freed: seq<Node>)
      requires Valid()
      modifies this
      ensures Valid() && nodes == []
      ensures freed == old(nodes)
    {
      freed := [];
      if count <= 0 {
        return;
      }
      var p1 := head;
      while p1 != null
        invariant unchanged(this) && |freed| <= |nodes| && freed == nodes[..|freed|]
        invariant p1 == NodeAt(nodes, |freed|)
        decreases |nodes| - |freed|
      {
        assert p1 == nodes[|freed|];
        var p2 := p1.next;
        freed := freed + [p1];
        p1 := p2;
      }
      count := 0;
      head, tail := null, null;
      nodes := [];
    }

    /** The nodes met walking n steps forward from p. */
    ghost function Forward(p: Node?, n: nat): seq<Node>
      reads *
    {
      if p == null || n == 0 then [] else [p] + Forward(p.next, n - 1)
    }

    /** The nodes met walking n steps backward from p. */
    ghost function Backward(p: Node?, n: nat): seq<Node>
      reads *
    {
      if p == null || n == 0 then [] else [p] + Backward(p.prev, n - 1)
    }

    lemma {:induction false} ForwardFrom(k: nat, n: nat)
      requires Valid() && k <= |nodes| && n >= |nodes| - k
      ensures Forward(NodeAt(nodes, k), n) == nodes[k..]
      decreases |nodes| - k
    {
      if k < |nodes| {
        ForwardFrom(k + 1, n - 1);
      }
    }

    lemma {:induction false} BackwardFrom(k: nat, n: nat)
      requires Valid() && k <= |nodes| && n >= k
      ensures Backward(NodeAt(nodes, k - 1), n) == Reverse(nodes[..k])
    {
      if k > 0 {
        BackwardFrom(k - 1, n - 1);
        assert Reverse(nodes[..k]) == [nodes[k - 1]] + Reverse(nodes[..k - 1]);
      }
    }

    /** In every valid list the forward walk from the head is the backward walk from the tail,
        reversed; both meet exactly count nodes and then null. */
    lemma WalksAgree(n: nat)
      requires Valid() && n >= count
      ensures |Forward(head, n)| == count
      ensures Forward(head, n) == Reverse(Backward(tail, n)) == nodes
    {
      ForwardFrom(0, n);
      BackwardFrom(|nodes|, n);
      assert nodes[..|nodes|] == nodes;
    }
  }

  ghost function IndexOf<T>(s: seq<T>, x: T): (k: int)
    requires x in s
    ensures 0 <= k < |s| && s[k] == x
  {
    var k :| 0 <= k < |s| && s[k] == x;
    k
  }

  /** s with x put after position k; k == -1 is the front. */
  ghost function InsertedAfter<T>(s: seq<T>, k: int, x: T): (r: seq<T>)
    requires -1 <= k < |s|
    ensures |r| == |s| + 1 && r[k + 1] == x
    ensures forall i :: 0 <= i <= k ==> r[i] == s[i]
    ensures forall i :: k + 1 < i <= |s| ==> r[i] == s[i - 1]
  {
    s[..k + 1] + [x] + s[k + 1..]
  }

  ghost function Without<T>(s: seq<T>, x: T): (r: seq<T>)
    requires x in s
  {
    RemovedAt(s, IndexOf(s, x))
  }

  lemma DistinctInserted<T>(s: seq<T>, k: int, x: T)
    requires Distinct(s) && x !in s && -1 <= k < |s|
    ensures Distinct(InsertedAfter(s, k, x))
  {
  }

  lemma FrontInserted<T>(s: seq<T>, x: T)
    ensures InsertedAfter(s, -1, x) == [x] + s
  {
  }

  lemma LastInserted<T>(s: seq<T>, x: T)
    ensures s == [] ==> [x] + s == s + [x]
    ensures s != [] ==> InsertedAfter(s, |s| - 1, x) == s + [x]
  {
  }

  /** On sequences, deleting what was just inserted restores the original. */
  lemma WithoutInserted<T>(s: seq<T>, k: int, x: T)
    requires -1 <= k < |s| && x !in s
    ensures Without(InsertedAfter(s, k, x), x) == s
  {
    var t := InsertedAfter(s, k, x);
    assert t[k + 1] == x;
    assert forall i :: 0 <= i < |t| && t[i] == x ==> i == k + 1;
  }

  /** The same on the heap: zhListDelete undoes zhListInsert. */
  method InsertThenDelete(l: List, pPrev: Node?, pNode: Node)
    requires l.Valid() && pNode !in l.nodes
    requires pPrev != null ==> pPrev in l.nodes
    modifies l, l.nodes, pNode
    ensures l.Valid() && l.nodes == old(l.nodes)
  {
    hide Linked, RemovedAt, Without, IndexOf, InsertedAfter;
    l.Insert(pPrev, pNode);
    ghost var k := if pPrev == null then -1 else IndexOf(old(l.nodes), pPrev);
    assert l.nodes == InsertedAfter(old(l.nodes), k, pNode);
    WithoutInserted(old(l.nodes), k, pNode);
    l.Delete(pNode);
  }
}
