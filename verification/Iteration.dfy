/**
  The iteration macros of include/zsr/list.h, and the loops that free a list while they walk it.

  `Heap.live` is the set of allocated objects. `Free` takes an object out of it and leaves
  arbitrary values in its fields; `Heap.Next` is a dereference, allowed on live nodes only. A
  loop that verifies here never frees a node twice and never follows a freed one.
 */
module Iteration {
  import opened Rings

  class Heap {
    ghost var live: set<object>

    method Malloc<T(0)>() returns (n: Node<T>)
      modifies this
      ensures fresh(n) && live == old(live) + {n}
    {
      n := new Node<T>();
      live := live + {n};
    }

    method Free<T(0)>(n: Node<T>)
      requires n in live
      modifies this, n
      ensures live == old(live) - {n}
    {
      modify n;
      live := live - {n};
    }

    function Next<T(0)>(n: Node<T>): Node?<T>
      requires n in live
      reads this, n
    {
      n.next
    }
  }

  method AppendOne<T(0)>(heap: Heap, head: Node<T>, e: T, ghost s: seq<Node<T>>) returns (ghost n: Node<T>)
    requires Ring(head, s)
    modifies heap, Nodes([head] + s)`next, Nodes([head] + s)`prev
    ensures fresh(n) && Ring(head, s + [n]) && n.entry == e
    ensures heap.live == old(heap.live) + {n}
  {
    var node := heap.Malloc<T>();
    node.entry := e;
    ListAddTail(node, head, s);
    n := node;
  }

  /** The loop of the readers (get_dns, read_io_stat, get_all_proc): one allocated entry per item, added at the tail. */
  method AppendAll<T(0)>(heap: Heap, head: Node<T>, es: seq<T>) returns (ghost s: seq<Node<T>>)
    requires Ring(head, [])
    modifies heap, head`next, head`prev
    ensures fresh(s) && Ring(head, s) && Entries(s) == es
    ensures heap.live == old(heap.live) + Nodes(s)
  {
    s := [];
    for i := 0 to |es|
      invariant fresh(s) && Ring(head, s) && |s| == i
      invariant forall j {:trigger s[j].entry} :: 0 <= j < i ==> s[j].entry == es[j]
      invariant heap.live == old(heap.live) + Nodes(s)
    {
      var n := AppendOne(heap, head, es[i], s);
      s := s + [n];
    }
  }

  /** list_for_each_entry: visits the entries once each, first to last, and is back at the head after the last. */
  method Visit<T(0)>(head: Node<T>, ghost s: seq<Node<T>>) returns (visited: seq<Node<T>>)
    requires Ring(head, s)
    ensures visited == s
  {
    visited := [];
    var pos := head.next;
    while pos != head
      invariant |visited| <= |s| && visited == s[..|visited|]
      invariant pos == if |visited| < |s| then s[|visited|] else head
      decreases |s| - |visited|
    {
      visited := visited + [pos];
      pos := pos.next;
    }
  }

  /** The same walk over the payloads, as the record_to_str functions make it. */
  method ReadEntries<T(0)>(head: Node<T>, ghost s: seq<Node<T>>) returns (es: seq<T>)
    requires Ring(head, s)
    ensures es == Entries(s)
  {
    es := [];
    var pos := head.next;
    while pos != head
      invariant |es| <= |s| && es == Entries(s)[..|es|]
      invariant pos == if |es| < |s| then s[|es|] else head
      decreases |s| - |es|
    {
      es := es + [pos.entry];
      pos := pos.next;
    }
  }

  /** FREE_LIST_HEAD: frees every entry once, first to last, and nothing else; the head is left dangling. */
  method FreeListHead<T(0)>(heap: Heap, head: Node<T>, ghost s: seq<Node<T>>) returns (ghost freed: seq<Node<T>>)
    requires Ring(head, s) && head in heap.live && Nodes(s) <= heap.live
    modifies heap, s
    ensures freed == s
    ensures heap.live == old(heap.live) - Nodes(s)
  {
    freed := [];
    var pos := heap.Next(head);
    var n := heap.Next(pos);
    while pos != head
      invariant |freed| <= |s| && freed == s[..|freed|]
      invariant pos == if |freed| < |s| then s[|freed|] else head
      invariant |freed| < |s| ==> n == if |freed| + 1 < |s| then s[|freed| + 1] else head
      invariant forall i {:trigger s[i].next} :: |freed| <= i < |s| ==> s[i].next == old(s[i].next)
      invariant heap.live == old(heap.live) - Nodes(freed)
      invariant unchanged(head)
      decreases |s| - |freed|
    {
      freed := freed + [pos];
      heap.Free(pos);
      pos := n;
      n := heap.Next(n);
    }
  }

  /** The body of the loop in FREE_MOD_LIST_HEAD. */
  method DeleteAndFree<T(0)>(heap: Heap, first: Node<T>, head: Node<T>, ghost s: seq<Node<T>>)
    requires Ring(head, s) && s != [] && first == s[0] && first in heap.live
    modifies heap, first, Nodes([head] + s)`next, Nodes([head] + s)`prev
    ensures Ring(head, s[1..])
    ensures heap.live == old(heap.live) - {first}
  {
    RingIsCycle(head, s);
    ListDel(first, [head] + s, 1);
    assert Without([head] + s, 1) == [head] + s[1..];
    RingIsCycle(head, s[1..]);
    heap.Free(first);
  }
}
