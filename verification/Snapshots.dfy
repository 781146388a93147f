/**
  The record list of mod_io and mod_proc: a ring of list_list_t structs, each of which holds the
  head of one more ring, the entries of one collection. A `Node` for list_list_t has the inner
  head as its payload.
 */
module Snapshots {
  import opened Iteration
  import opened Rings

  /** The inner ring of one list_list_t. */
  datatype Snap<T(0)> = Snap(head: Node<T>, list: seq<Node<T>>)

  ghost function Members<T(0)>(w: Snap<T>): set<Node<T>> {
    Nodes([w.head] + w.list)
  }

  /** The outer entry `o` holds the inner ring `w`, whose entries carry `v`. */
  ghost predicate Hung<T(0)>(o: Node<Node?<T>>, w: Snap<T>, v: seq<T>)
    reads o`entry, w.head, w.list
  {
    o.entry == w.head && Ring(w.head, w.list) && Entries(w.list) == v
  }

  ghost predicate NoneShared(a: set<object>, b: set<object>) {
    a !! b
  }

  /**
    The nested ring: `os` are the outer entries of `head`, `ws` the inner rings they hold, `vs`
    what those carry, and `all` the nodes of the inner rings. No node is in two rings.
   */
  ghost predicate Nested<T(0)>(head: Node<Node?<T>>, os: seq<Node<Node?<T>>>, ws: seq<Snap<T>>, vs: seq<seq<T>>,
                               all: set<Node<T>>)
    reads head, os, all
  {
    && Ring(head, os) && |os| == |ws| == |vs|
    && (forall i :: 0 <= i < |ws| ==> Members(ws[i]) <= all)
    && (forall i :: 0 <= i < |ws| ==> Hung(os[i], ws[i], vs[i]))
    && (forall i, j :: 0 <= i < j < |ws| ==> Members(ws[i]) !! Members(ws[j]))
    && NoneShared(Nodes([head] + os), all)
  }

  /** `list_empty` and `list_last_entry` on a nested ring: the last snapshot, if there is one. */
  lemma LastSnapshot<T(0)>(head: Node<Node?<T>>, os: seq<Node<Node?<T>>>, ws: seq<Snap<T>>, vs: seq<seq<T>>,
                           all: set<Node<T>>)
    requires Nested(head, os, ws, vs, all)
    ensures |os| == |ws| == |vs| && (ListEmpty(head) <==> vs == [])
    ensures vs != [] ==> var n := |vs| - 1; head.prev == os[n] && Hung(os[n], ws[n], vs[n])
  {
    QueriesDecide(head, os, head);
  }

  /** Read a collection into a fresh inner ring, held by a fresh outer entry that is in no ring yet. */
  method ReadSnapshot<T(0)>(heap: Heap, es: seq<T>) returns (o: Node<Node?<T>>, ghost w: Snap<T>)
    modifies heap
    ensures fresh(o) && fresh(Members(w)) && fresh(w.list) && NoneShared({o}, Members(w))
    ensures Hung(o, w, es)
    ensures heap.live == old(heap.live) + {o} + Members(w)
  {
    o := heap.Malloc<Node?<T>>();
    var inner := heap.Malloc<T>();
    o.entry := inner;
    InitListHead(inner);
    ghost var s := AppendAll(heap, inner, es);
    w := Snap(inner, s);
  }

  lemma NestedSnoc<T(0)>(o: Node<Node?<T>>, head: Node<Node?<T>>, w: Snap<T>, v: seq<T>,
                         os: seq<Node<Node?<T>>>, ws: seq<Snap<T>>, vs: seq<seq<T>>, all: set<Node<T>>)
    requires Ring(head, os + [o]) && |os| == |ws| == |vs|
    requires forall i :: 0 <= i < |ws| ==> Members(ws[i]) <= all
    requires forall i :: 0 <= i < |ws| ==> Hung(os[i], ws[i], vs[i])
    requires forall i, j :: 0 <= i < j < |ws| ==> Members(ws[i]) !! Members(ws[j])
    requires Hung(o, w, v) && Members(w) !! all
    requires NoneShared(Nodes([head, o] + os), all + Members(w))
    ensures Nested(head, os + [o], ws + [w], vs + [v], all + Members(w))
  {
    var os', ws', vs' := os + [o], ws + [w], vs + [v];
    forall i | 0 <= i < |ws'| ensures Hung(os'[i], ws'[i], vs'[i]) && Members(ws'[i]) <= all + Members(w) {
      if i < |ws| {
        assert Hung(os[i], ws[i], vs[i]) && Members(ws[i]) <= all;
      }
    }
    forall i, j | 0 <= i < j < |ws'| ensures Members(ws'[i]) !! Members(ws'[j]) {
      if j == |ws| {
        assert Members(ws[i]) <= all;
      }
    }
    assert Nodes([head] + os') <= Nodes([head, o] + os);
  }

  lemma Untouched<T(0)>(w: Snap<T>, all: set<Node<T>>, outer: set<object>)
    requires Members(w) <= all && NoneShared(outer, all)
    ensures w.head !in outer && forall k :: 0 <= k < |w.list| ==> w.list[k] !in outer
  {
    assert w.head in Members(w);
    forall k | 0 <= k < |w.list| ensures w.list[k] !in outer {
      assert ([w.head] + w.list)[k + 1] in Members(w);
    }
  }

  /** `list_add_tail(&cur_list->list, &mod->record_list)`: the outer ring grows by one snapshot. */
  method AddSnapshot<T(0)>(o: Node<Node?<T>>, head: Node<Node?<T>>, ghost w: Snap<T>, ghost v: seq<T>,
                           ghost os: seq<Node<Node?<T>>>, ghost ws: seq<Snap<T>>, ghost vs: seq<seq<T>>,
                           ghost all: set<Node<T>>)
    requires Nested(head, os, ws, vs, all) && Hung(o, w, v)
    requires o != head && o !in os && Members(w) !! all
    requires NoneShared({o}, all) && NoneShared({o}, Members(w)) && NoneShared(Nodes([head] + os), Members(w))
    modifies o`next, o`prev, Nodes([head] + os)`next, Nodes([head] + os)`prev
    ensures Nested(head, os + [o], ws + [w], vs + [v], all + Members(w))
  {
    hide Ring, Hung, Members;
    ListAddTail(o, head, os);
    ghost var outer: set<object> := Nodes([head, o] + os);
    assert outer == Nodes([head] + os) + {o};
    forall i | 0 <= i < |os| ensures Hung(os[i], ws[i], vs[i]) {
      assert old(Hung(os[i], ws[i], vs[i]));
      Untouched(ws[i], all, outer);
    }
    Untouched(w, all + Members(w), outer);
    NestedSnoc(o, head, w, v, os, ws, vs, all);
  }

  ghost function AllMembers<T(0)>(ws: seq<Snap<T>>): set<Node<T>> {
    set i, x | 0 <= i < |ws| && x in Members(ws[i]) :: x
  }

  lemma AllMembersAppend<T(0)>(ws: seq<Snap<T>>, w: Snap<T>)
    ensures AllMembers(ws + [w]) == AllMembers(ws) + Members(w)
    ensures AllMembers([w] + ws) == Members(w) + AllMembers(ws)
  {
    forall x ensures x in AllMembers(ws + [w]) <==> x in AllMembers(ws) + Members(w) {
      if x in AllMembers(ws) {
        var i :| 0 <= i < |ws| && x in Members(ws[i]);
        assert x in Members((ws + [w])[i]);
      }
      if x in Members(w) {
        assert x in Members((ws + [w])[|ws|]);
      }
    }
    forall x ensures x in AllMembers([w] + ws) <==> x in Members(w) + AllMembers(ws) {
      if x in AllMembers(ws) {
        var i :| 0 <= i < |ws| && x in Members(ws[i]);
        assert x in Members(([w] + ws)[i + 1]);
      }
      if x in Members(w) {
        assert x in Members(([w] + ws)[0]);
      }
    }
  }

  lemma LiveGrows<T(0)>(before: set<object>, os: seq<Node<Node?<T>>>, o: Node<Node?<T>>,
                        all: set<object>, more: set<object>)
    ensures before + Nodes(os) + all + {o} + more == before + Nodes(os + [o]) + (all + more)
  {
  }

  lemma NothingNested<T(0)>(head: Node<Node?<T>>, os: seq<Node<Node?<T>>>, ws: seq<Snap<T>>)
    requires Ring(head, []) && os == [] && ws == []
    ensures Nodes(os) == {} && AllMembers(ws) == {} && Nested(head, os, ws, [], AllMembers(ws))
  {
  }

  // -------------------------------------------------------------------- freeing

  /** The inner loop and the two frees of one round: an inner list, its head, and the entry that holds them. */
  method FreeSnapshot<T(0)>(heap: Heap, o: Node<Node?<T>>, ghost w: Snap<T>, ghost v: seq<T>)
    returns (ghost freed: seq<Node<T>>)
    requires Hung(o, w, v) && Members(w) <= heap.live && o in heap.live && NoneShared({o}, Members(w))
    modifies heap, o, Members(w)
    ensures freed == w.list + [w.head]
    ensures heap.live == old(heap.live) - Members(w) - {o}
  {
    var inner := o.entry;
    assert w.head in Members(w) && Nodes(w.list) <= Members(w);
    freed := FreeListHead(heap, inner, w.list);
    heap.Free(inner);
    heap.Free(o);
    freed := freed + [inner];
  }

  /** No object is at once the head, one of the outer entries, or in one of the inner rings; nor in two of these. */
  ghost predicate Separated<T(0)>(head: Node<Node?<T>>, os: seq<Node<Node?<T>>>, ws: seq<Snap<T>>)
    requires |os| == |ws|
  {
    && (forall i :: 0 <= i < |os| ==> head != os[i])
    && (forall i :: 0 <= i < |ws| ==> NoneShared({head}, Members(ws[i])))
    && (forall i, j :: 0 <= i < |os| && 0 <= j < |ws| ==> NoneShared({os[i]}, Members(ws[j])))
    && Distinct(os)
    && (forall i, j :: 0 <= i < j < |ws| ==> Members(ws[i]) !! Members(ws[j]))
  }

  lemma NestedIsSeparated<T(0)>(head: Node<Node?<T>>, os: seq<Node<Node?<T>>>, ws: seq<Snap<T>>, vs: seq<seq<T>>,
                                all: set<Node<T>>)
    requires Nested(head, os, ws, vs, all)
    ensures Separated(head, os, ws)
  {
    var outer: set<object> := Nodes([head] + os);
    forall i, j | 0 <= i < |os| && 0 <= j < |ws|
      ensures NoneShared({os[i]}, Members(ws[j])) && NoneShared({head}, Members(ws[j]))
    {
      assert head in outer && os[i] in outer && Members(ws[j]) <= all;
    }
  }

  /** The outer entry `os[i]` is as a freeing walk needs it: linked, live, and with its inner ring intact. */
  ghost predicate Intact<T(0)>(head: Node<Node?<T>>, os: seq<Node<Node?<T>>>, ws: seq<Snap<T>>, vs: seq<seq<T>>,
                               live: set<object>, i: nat)
    requires i < |os| == |ws| == |vs|
    reads os, ws[i].head, ws[i].list
  {
    && os[i].next == (if i + 1 < |os| then os[i + 1] else head)
    && Hung(os[i], ws[i], vs[i])
    && os[i] in live && Members(ws[i]) <= live
  }

  /** Freeing one entry with its inner ring leaves the others intact. */
  method FreeAt<T(0)>(heap: Heap, o: Node<Node?<T>>, ghost k: nat, ghost head: Node<Node?<T>>,
                      ghost os: seq<Node<Node?<T>>>, ghost ws: seq<Snap<T>>, ghost vs: seq<seq<T>>)
    requires k < |os| == |ws| == |vs| && Separated(head, os, ws) && o == os[k]
    requires forall i :: k <= i < |os| ==> Intact(head, os, ws, vs, heap.live, i)
    modifies heap, o, Members(ws[k])
    ensures forall i :: k < i < |os| ==> Intact(head, os, ws, vs, heap.live, i)
    ensures heap.live == old(heap.live) - Members(ws[k]) - {o}
  {
    assert Intact(head, os, ws, vs, heap.live, k);
    ghost var freed := FreeSnapshot(heap, o, ws[k], vs[k]);
    forall i | k < i < |os| ensures Intact(head, os, ws, vs, heap.live, i) {
      assert old(Intact(head, os, ws, vs, heap.live, i));
      assert NoneShared({os[i]}, Members(ws[k])) && NoneShared({os[k]}, Members(ws[i])) && os[i] != os[k];
      assert Members(ws[k]) !! Members(ws[i]);
      Untouched(ws[i], Members(ws[i]), {o});
      Untouched(ws[i], Members(ws[i]), Members(ws[k]));
    }
  }

  lemma NestedIsIntact<T(0)>(head: Node<Node?<T>>, os: seq<Node<Node?<T>>>, ws: seq<Snap<T>>, vs: seq<seq<T>>,
                             all: set<Node<T>>, live: set<object>)
    requires Nested(head, os, ws, vs, all) && Nodes(os) <= live && all <= live
    ensures |os| == |ws| == |vs| && Separated(head, os, ws)
    ensures head.next == if os != [] then os[0] else head
    ensures forall i :: 0 <= i < |os| ==> Intact(head, os, ws, vs, live, i) && Members(ws[i]) <= all
    ensures AllMembers(ws[..0]) == {}
  {
    NestedIsSeparated(head, os, ws, vs, all);
    forall i | 0 <= i < |os| ensures Intact(head, os, ws, vs, live, i) && Members(ws[i]) <= all {
      assert Members(ws[i]) <= all && Hung(os[i], ws[i], vs[i]) && os[i] in Nodes(os);
      assert os[i].next == if i + 1 < |os| then os[i + 1] else head;
    }
  }

  lemma FollowIntact<T(0)>(head: Node<Node?<T>>, os: seq<Node<Node?<T>>>, ws: seq<Snap<T>>, vs: seq<seq<T>>,
                           live: set<object>, i: nat)
    requires i < |os| == |ws| == |vs| && Separated(head, os, ws) && Intact(head, os, ws, vs, live, i)
    ensures os[i] in live && os[i].next == if i + 1 < |os| then os[i + 1] else head
    ensures NoneShared({head}, Members(ws[i])) && head != os[i]
  {
    hide Hung, Members;
  }

  lemma PrefixGrows<T(0)>(os: seq<Node<Node?<T>>>, ws: seq<Snap<T>>, k: nat)
    requires k < |os| == |ws|
    ensures Nodes(os[..k + 1]) == Nodes(os[..k]) + {os[k]}
    ensures AllMembers(ws[..k + 1]) == AllMembers(ws[..k]) + Members(ws[k])
  {
    AllMembersAppend(ws[..k], ws[k]);
    assert os[..k + 1] == os[..k] + [os[k]] && ws[..k + 1] == ws[..k] + [ws[k]];
  }

  /** free_record_list: every inner node, inner head and outer entry is freed once, and nothing else. */
  method FreeRecordList<T(0)>(heap: Heap, head: Node<Node?<T>>, ghost os: seq<Node<Node?<T>>>, ghost ws: seq<Snap<T>>,
                              ghost vs: seq<seq<T>>, ghost all: set<Node<T>>)
    requires Nested(head, os, ws, vs, all)
    requires head in heap.live && Nodes(os) <= heap.live && all <= heap.live
    modifies heap, os, all
    ensures heap.live == old(heap.live) - Nodes(os) - AllMembers(ws)
  {
    hide Ring, Nested, Intact, Members, AllMembers, Separated;
    NestedIsIntact(head, os, ws, vs, all, heap.live);
    if os != [] {
      FollowIntact(head, os, ws, vs, heap.live, 0);
    }
    ghost var k := 0;
    var pos := heap.Next(head);
    var n := heap.Next(pos);
    while pos != head
      invariant k <= |os| && pos == if k < |os| then os[k] else head
      invariant k < |os| ==> n == if k + 1 < |os| then os[k + 1] else head
      invariant forall i :: k <= i < |os| ==> Intact(head, os, ws, vs, heap.live, i)
      invariant heap.live == old(heap.live) - Nodes(os[..k]) - AllMembers(ws[..k])
      invariant head in heap.live
      decreases |os| - k
    {
      FollowIntact(head, os, ws, vs, heap.live, k);
      FreeAt(heap, pos, k, head, os, ws, vs);
      PrefixGrows(os, ws, k);
      k := k + 1;
      if k < |os| {
        FollowIntact(head, os, ws, vs, heap.live, k);
      }
      pos := n;
      n := heap.Next(n);
    }
    assert os[..k] == os && ws[..k] == ws;
  }
}
