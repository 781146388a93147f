/**
  zsr/module/mod_dns.c on the heap; mod_fs, mod_ip, mod_network and mod_who have the same
  collect_record over another reader and another type of entry. Each query detaches the head from
  the previous answer with list_del_init and fills the list anew.
 */
module ModDns {
  import opened Iteration
  import opened Rings

  method Detach<T(0)>(recordList: Node<T>, ghost s: seq<Node<T>>)
    requires Ring(recordList, s)
    modifies Nodes([recordList] + s)`next, Nodes([recordList] + s)`prev
    ensures Ring(recordList, []) && (s != [] ==> Cycle(s))
  {
    RingIsCycle(recordList, s);
    if !ListEmpty(recordList) {
      ListDelInit(recordList, [recordList] + s, 0);
      assert Without([recordList] + s, 0) == s;
    }
  }

  /**
    collect_record: the list becomes the new answer, in fresh nodes. The old nodes are not
    freed: they stay linked to each other, in the same order, as a ring without a head.
   */
  method CollectRecord<T(0)>(heap: Heap, recordList: Node<T>, answer: seq<T>, ghost s: seq<Node<T>>)
    returns (ghost t: seq<Node<T>>)
    requires Ring(recordList, s)
    modifies heap, Nodes([recordList] + s)`next, Nodes([recordList] + s)`prev
    ensures fresh(t) && Ring(recordList, t) && Entries(t) == answer
    ensures (s != [] ==> Cycle(s)) && Entries(s) == old(Entries(s))
    ensures heap.live == old(heap.live) + Nodes(t)
  {
    Detach(recordList, s);
    t := AppendAll(heap, recordList, answer);
  }

  /** What the list holds before query `i`: nothing at first, then the answer to the query before. */
  function Before<T>(answers: seq<seq<T>>, i: nat): seq<T>
    requires i <= |answers|
  {
    if i == 0 then [] else answers[i - 1]
  }

  /** What the first `n` queries detach. */
  function Detached<T>(answers: seq<seq<T>>, n: nat): (olds: seq<seq<T>>)
    requires n <= |answers|
    ensures |olds| == n && forall i :: 0 <= i < n ==> olds[i] == Before(answers, i)
  {
    seq(n, i requires 0 <= i < n => Before(answers, i))
  }

  ghost function AllNodes<X>(lists: seq<seq<X>>): set<X> {
    set i, x | 0 <= i < |lists| && x in lists[i] :: x
  }

  /** A detached answer: a headless ring, unless it is empty. */
  ghost predicate Orphan<T(0)>(list: seq<Node<T>>, answer: seq<T>)
    reads list
  {
    (list == [] || Cycle(list)) && Entries(list) == answer
  }

  /** The detached answers `olds`, over the nodes `all`. */
  ghost predicate Orphans<T(0)>(lists: seq<seq<Node<T>>>, olds: seq<seq<T>>, all: set<Node<T>>)
    reads all
  {
    && |lists| == |olds|
    && (forall i :: 0 <= i < |lists| ==> Nodes(lists[i]) <= all)
    && (forall i :: 0 <= i < |lists| ==> Orphan(lists[i], olds[i]))
    && (forall i, j :: 0 <= i < j < |lists| ==> Apart(lists[i], lists[j]))
  }

  /** The list holds `answer` in the nodes `s`, and `lists` have been detached from it, with the contents `olds`. */
  ghost predicate Collected<T(0)>(recordList: Node<T>, s: seq<Node<T>>, answer: seq<T>,
                                  lists: seq<seq<Node<T>>>, olds: seq<seq<T>>, all: set<Node<T>>)
    reads recordList, s, all
  {
    && Ring(recordList, s) && Entries(s) == answer
    && Orphans(lists, olds, all)
    && recordList !in all && all !! Nodes(s)
  }

  lemma ApartByNodes<X>(a: seq<X>, b: seq<X>, all: set<X>)
    requires Nodes(a) <= all && all !! Nodes(b)
    ensures Apart(a, b)
  {
    forall i, j | 0 <= i < |a| && 0 <= j < |b| ensures a[i] != b[j] {
      assert a[i] in Nodes(a) && b[j] in Nodes(b);
    }
  }

  lemma OneMoreOrphan<T(0)>(s: seq<Node<T>>, last: seq<T>, lists: seq<seq<Node<T>>>, olds: seq<seq<T>>,
                            all: set<Node<T>>)
    requires Orphans(lists, olds, all)
    requires all !! Nodes(s) && Orphan(s, last)
    ensures Orphans(lists + [s], olds + [last], all + Nodes(s))
  {
    var ls, os := lists + [s], olds + [last];
    forall i | 0 <= i < |ls| ensures Orphan(ls[i], os[i]) && Nodes(ls[i]) <= all + Nodes(s) {
      if i < |lists| {
        assert Orphan(lists[i], olds[i]) && Nodes(lists[i]) <= all;
      }
    }
    forall i, j | 0 <= i < j < |ls| ensures Apart(ls[i], ls[j]) {
      if j == |lists| {
        ApartByNodes(lists[i], s, all);
      }
    }
  }

  /** One more query on top of the earlier ones. */
  method CollectNext<T(0)>(heap: Heap, recordList: Node<T>, answer: seq<T>, ghost s: seq<Node<T>>, ghost last: seq<T>,
                           ghost lists: seq<seq<Node<T>>>, ghost olds: seq<seq<T>>, ghost all: set<Node<T>>)
    returns (ghost t: seq<Node<T>>)
    requires Collected(recordList, s, last, lists, olds, all)
    modifies heap, Nodes([recordList] + s)`next, Nodes([recordList] + s)`prev
    ensures Collected(recordList, t, answer, lists + [s], olds + [last], all + Nodes(s)) && fresh(t)
    ensures heap.live == old(heap.live) + Nodes(t)
  {
    hide Cycle, Orphans, Entries;
    t := CollectRecord(heap, recordList, answer, s);
    OneMoreOrphan(s, last, lists, olds, all);
  }

  lemma NothingDetached<T(0)>()
    ensures Orphans<T>([], [], {})
  {
  }

  lemma AllNodesSnoc<X>(lists: seq<seq<X>>, s: seq<X>)
    ensures AllNodes(lists + [s]) == AllNodes(lists) + Nodes(s)
  {
    var ls := lists + [s];
    forall x ensures x in AllNodes(ls) <==> x in AllNodes(lists) + Nodes(s) {
      if x in AllNodes(lists) {
        var i :| 0 <= i < |lists| && x in lists[i];
        assert x in ls[i];
      }
      if x in s {
        assert x in ls[|lists|];
      }
    }
  }

  /**
    Any number of queries: the list holds the last answer only, and every node ever allocated is
    in exactly one ring, that of the list or that of the detached answer it belongs to.
   */
  method CollectRounds<T(0)>(heap: Heap, recordList: Node<T>, answers: seq<seq<T>>)
    returns (ghost s: seq<Node<T>>, ghost lists: seq<seq<Node<T>>>)
    requires Ring(recordList, [])
    modifies heap, recordList`next, recordList`prev
    ensures Collected(recordList, s, Before(answers, |answers|), lists, Detached(answers, |answers|), AllNodes(lists))
    ensures fresh(AllNodes(lists)) && fresh(s)
    ensures heap.live == old(heap.live) + AllNodes(lists) + Nodes(s)
  {
    hide Ring, Orphans, Entries;
    s, lists := [], [];
    assert AllNodes(lists) == {};
    assert Nodes(s) == {} && Entries(s) == [];
    NothingDetached<T>();
    for i := 0 to |answers|
      invariant Collected(recordList, s, Before(answers, i), lists, Detached(answers, i), AllNodes(lists))
      invariant fresh(AllNodes(lists)) && fresh(s)
      invariant heap.live == old(heap.live) + AllNodes(lists) + Nodes(s)
    {
      ghost var last, olds := Before(answers, i), Detached(answers, i);
      var t := CollectNext(heap, recordList, answers[i], s, last, lists, olds, AllNodes(lists));
      AllNodesSnoc(lists, s);
      assert Detached(answers, i + 1) == olds + [last];
      s, lists := t, lists + [s];
    }
  }

  function Total<X>(lists: seq<seq<X>>): nat {
    if lists == [] then 0 else Total(lists[..|lists| - 1]) + |lists[|lists| - 1]|
  }

  lemma {:induction false} NodesCount<X>(s: seq<X>)
    requires Distinct(s)
    ensures |Nodes(s)| == |s|
  {
    if s != [] {
      var n := |s| - 1;
      NodesCount(s[..n]);
      assert s == s[..n] + [s[n]] && Nodes(s) == Nodes(s[..n]) + {s[n]};
    }
  }

  lemma LastOrphan<T(0)>(lists: seq<seq<Node<T>>>, olds: seq<seq<T>>, all: set<Node<T>>)
    requires Orphans(lists, olds, all) && lists != []
    ensures var n := |lists| - 1;
      && |olds| == n + 1 && Orphans(lists[..n], olds[..n], all)
      && Distinct(lists[n]) && |lists[n]| == |olds[n]| && AllNodes(lists[..n]) !! Nodes(lists[n])
  {
    var n := |lists| - 1;
    hide Ring, Entries;
    assert Orphan(lists[n], olds[n]);
    forall i | 0 <= i < n ensures Apart(lists[i], lists[n]) {
    }
  }

  lemma NoNodes<T(0)>(lists: seq<seq<Node<T>>>, olds: seq<seq<T>>, all: set<Node<T>>)
    requires Orphans(lists, olds, all)
    ensures lists == [] ==> |AllNodes(lists)| == 0 && Total(olds) == 0
  {
    if lists == [] {
      assert AllNodes(lists) == {};
    }
  }

  lemma OneMoreCount<X, T>(lists: seq<seq<X>>, olds: seq<seq<T>>)
    requires |lists| == |olds| > 0
    requires var n := |lists| - 1;
      && |AllNodes(lists[..n])| == Total(olds[..n]) && AllNodes(lists[..n]) !! Nodes(lists[n])
      && Distinct(lists[n]) && |lists[n]| == |olds[n]|
    ensures |AllNodes(lists)| == Total(olds)
  {
    hide AllNodes, Nodes, Distinct;
    var n := |lists| - 1;
    NodesCount(lists[n]);
    AllNodesSnoc(lists[..n], lists[n]);
    assert lists == lists[..n] + [lists[n]];
  }

  /** The detached answers take up one node for each of their items. */
  lemma {:induction false} OrphanCount<T(0)>(lists: seq<seq<Node<T>>>, olds: seq<seq<T>>, all: set<Node<T>>)
    requires Orphans(lists, olds, all)
    ensures |AllNodes(lists)| == Total(olds)
  {
    hide *;
    NoNodes(lists, olds, all);
    if lists != [] {
      var n := |lists| - 1;
      LastOrphan(lists, olds, all);
      OrphanCount(lists[..n], olds[..n], all);
      OneMoreCount(lists, olds);
    }
  }

  /** Freeing the list at the end frees the last answer; the nodes of all the earlier ones are never freed. */
  method CollectThenFree<T(0)>(heap: Heap, recordList: Node<T>, answers: seq<seq<T>>)
    returns (ghost lists: seq<seq<Node<T>>>)
    requires Ring(recordList, []) && recordList in heap.live
    modifies heap, recordList`next, recordList`prev
    ensures Orphans(lists, Detached(answers, |answers|), AllNodes(lists))
    ensures heap.live == old(heap.live) + AllNodes(lists) && fresh(AllNodes(lists))
  {
    hide Ring, Orphans;
    ghost var s;
    s, lists := CollectRounds(heap, recordList, answers);
    ghost var freed := FreeListHead(heap, recordList, s);
  }
}
