/**
  The end of `main`: free_record_list of zsr/tool_zsr.c and FREE_MOD_LIST_HEAD of zsr/framework.c.
  What is not freed are the answers that the snapshot modules have detached from their lists.
 */
module Teardown {
  import opened Iteration
  import opened Modules
  import opened RecordLists
  import opened Rings
  import opened Snapshots
  import opened ToolSpec
  import ModDns

  ghost function AllListed(ps: seq<Place>): set<object> {
    set i, o | 0 <= i < |ps| && o in Listed(ps[i].layout) :: o
  }

  ghost function AllHeads(slots: seq<Slot>): set<object> {
    set i, o | 0 <= i < |slots| && o in Head(slots[i].records) :: o
  }

  lemma AllListedSnoc(ps: seq<Place>, k: nat)
    requires k < |ps|
    ensures AllListed(ps[..k + 1]) == AllListed(ps[..k]) + Listed(ps[k].layout)
  {
    var qs, rs := ps[..k], ps[..k + 1];
    forall o ensures o in AllListed(rs) <==> o in AllListed(qs) + Listed(ps[k].layout) {
      if o in AllListed(qs) {
        var i :| 0 <= i < |qs| && o in Listed(qs[i].layout);
        assert o in Listed(rs[i].layout);
      }
      if o in Listed(ps[k].layout) {
        assert o in Listed(rs[k].layout);
      }
    }
  }

  lemma AllHeadsSnoc(slots: seq<Slot>, k: nat)
    requires k < |slots|
    ensures AllHeads(slots[..k + 1]) == AllHeads(slots[..k]) + Head(slots[k].records)
  {
    var qs, rs := slots[..k], slots[..k + 1];
    forall o ensures o in AllHeads(rs) <==> o in AllHeads(qs) + Head(slots[k].records) {
      if o in AllHeads(qs) {
        var i :| 0 <= i < |qs| && o in Head(qs[i].records);
        assert o in Head(rs[i].records);
      }
      if o in Head(slots[k].records) {
        assert o in Head(rs[k].records);
      }
    }
  }

  /** From module `k` on the record lists are as they were, and none of their nodes has been freed. */
  ghost predicate StillLoaded(modList: Node<Slot>, s: seq<Node<Slot>>, mods: seq<Module<Records>>, ps: seq<Place>,
                              k: nat, live: set<object>)
    reads modList, s, AllOwned(ps)
  {
    && Ring(modList, s) && |s| == |mods| == |ps| && k <= |s|
    && (forall i :: 0 <= i < |s| ==> ps[i].nodes <= AllOwned(ps))
    && (forall i :: k <= i < |s| ==> Fits(s[i].entry, mods[i], ps[i]) && ps[i].nodes <= live)
    && Disjoint(ps) && NoneShared(Nodes([modList] + s), AllOwned(ps))
  }

  /** `mod->free_record_list(&mod->record_list)` for one module of the list. */
  method FreeAt(heap: Heap, mod: Node<Slot>, ghost k: nat, ghost modList: Node<Slot>,
                ghost s: seq<Node<Slot>>, ghost mods: seq<Module<Records>>, ghost ps: seq<Place>)
    requires StillLoaded(modList, s, mods, ps, k, heap.live) && k < |s| && mod == s[k]
    modifies heap, Listed(ps[k].layout)
    ensures StillLoaded(modList, s, mods, ps, k + 1, heap.live)
    ensures heap.live == old(heap.live) - Listed(ps[k].layout)
  {
    hide Ring, Holds, Owned, Head, Listed, Orphaned, AllOwned, Showing;
    assert Fits(mod.entry, mods[k], ps[k]);
    ListedIsOwned(mod.entry.records, ps[k].layout);
    RecordLists.FreeRecordList(heap, mod.entry.records, ps[k].layout, mods[k].records);
    forall i | k < i < |s| ensures Fits(s[i].entry, mods[i], ps[i]) && ps[i].nodes <= heap.live {
      assert old(Fits(s[i].entry, mods[i], ps[i]));
      assert ps[k].nodes !! ps[i].nodes;
      HeapIsNoNode(heap, s[i].entry.records, ps[i].layout);
    }
  }

  lemma LoadedIsStillLoaded(modList: Node<Slot>, s: seq<Node<Slot>>, mods: seq<Module<Records>>, ps: seq<Place>,
                            live: set<object>)
    requires Loaded(modList, s, mods, ps) && AllOwned(ps) <= live
    ensures StillLoaded(modList, s, mods, ps, 0, live)
    ensures |s| == |mods| == |ps| && AllListed(ps[..0]) == {}
    ensures if s == [] then modList.next == modList else modList.next == s[0] && s[0] != modList
  {
    hide Fits, AllOwned;
  }

  lemma StillLinked(modList: Node<Slot>, s: seq<Node<Slot>>, mods: seq<Module<Records>>, ps: seq<Place>, k: nat,
                    live: set<object>)
    requires StillLoaded(modList, s, mods, ps, k, live) && 0 < k
    ensures s[k - 1].next == if k < |s| then s[k] else modList
    ensures k < |s| ==> s[k] != modList
  {
    hide Fits, AllOwned;
  }

  lemma ListedAt(ps: seq<Place>, k: nat)
    requires k < |ps|
    ensures Listed(ps[k].layout) <= AllListed(ps)
  {
  }

  /** free_record_list of the tool: what is in the record lists is freed, what was detached from one is not. */
  method FreeRecordLists(heap: Heap, modList: Node<Slot>,
                         ghost s: seq<Node<Slot>>, ghost mods: seq<Module<Records>>, ghost ps: seq<Place>)
    requires Loaded(modList, s, mods, ps) && AllOwned(ps) <= heap.live
    modifies heap, AllListed(ps)
    ensures heap.live == old(heap.live) - AllListed(ps)
  {
    hide *;
    LoadedIsStillLoaded(modList, s, mods, ps, heap.live);
    ghost var k := 0;
    var mod := modList.next;
    while mod != modList
      invariant k <= |s| == |ps| && mod == if k < |s| then s[k] else modList
      invariant StillLoaded(modList, s, mods, ps, k, heap.live) && (mod == modList <==> k == |s|)
      invariant heap.live == old(heap.live) - AllListed(ps[..k])
      decreases |s| - k
    {
      AllListedSnoc(ps, k);
      ListedAt(ps, k);
      FreeAt(heap, mod, k, modList, s, mods, ps);
      StillLinked(modList, s, mods, ps, k + 1, heap.live);
      k := k + 1;
      mod := mod.next;
    }
    assert ps[..k] == ps;
  }

  ghost predicate HeadsAside(modList: Node<Slot>, s: seq<Node<Slot>>, heads: set<object>) {
    modList !in heads && forall i :: 0 <= i < |s| ==> s[i] !in heads
  }

  /** From module `k` on the module list is linked, with the list heads in `slots`, and nothing in it has been freed. */
  ghost predicate StillListed(modList: Node<Slot>, s: seq<Node<Slot>>, slots: seq<Slot>, k: nat, live: set<object>)
    reads modList, s
  {
    && k <= |s| == |slots| && Distinct(s) && modList !in s && Ring(modList, s[k..]) && modList in live
    && (forall i :: 0 <= i < |s| ==> HeadsAside(modList, s, Head(slots[i].records)))
    && (forall i, j :: 0 <= i < j < |slots| ==> Head(slots[i].records) !! Head(slots[j].records))
    && (forall i :: k <= i < |s| ==> s[i].entry == slots[i] && s[i] in live && Head(slots[i].records) <= live)
  }

  /** The body of the loop in FREE_MOD_LIST_HEAD. */
  method FreeModule(heap: Heap, mod: Node<Slot>, ghost k: nat, modList: Node<Slot>, ghost s: seq<Node<Slot>>,
                    ghost slots: seq<Slot>)
    requires StillListed(modList, s, slots, k, heap.live) && k < |s| && mod == s[k]
    modifies heap, mod, Nodes([modList] + s[k..])`next, Nodes([modList] + s[k..])`prev, Head(slots[k].records)
    ensures StillListed(modList, s, slots, k + 1, heap.live)
    ensures heap.live == old(heap.live) - {mod} - Head(slots[k].records)
  {
    hide Ring, Head;
    ghost var rest := s[k..];
    assert rest[1..] == s[k + 1..];
    var list := mod.entry.records;
    DeleteAndFree(heap, mod, modList, rest);
    FreeHead(heap, list);
  }

  lemma StillListedAt(modList: Node<Slot>, s: seq<Node<Slot>>, slots: seq<Slot>, k: nat, live: set<object>)
    requires StillListed(modList, s, slots, k, live)
    ensures |s| == |slots| && modList in live && modList !in s && Ring(modList, s[k..])
    ensures modList.next == if k < |s| then s[k] else modList
    ensures k < |s| ==> s[k] in live && s[k].next == if k + 1 < |s| then s[k + 1] else modList
    ensures Nodes(s[..0]) == {} && AllHeads(slots[..0]) == {}
    ensures k < |s| ==> Nodes(s[..k + 1]) == Nodes(s[..k]) + {s[k]} && Head(slots[k].records) <= AllHeads(slots)
  {
    hide Head;
    assert k < |s| ==> s[k..][0] == s[k];
    assert k + 1 < |s| ==> s[k..][1] == s[k + 1];
  }

  /**
    FREE_MOD_LIST_HEAD: unlinks each module and then frees it, with the list head in it. No freed
    module is followed, and the ring ends empty.
   */
  method FreeModListHead(heap: Heap, modList: Node<Slot>, ghost s: seq<Node<Slot>>, ghost slots: seq<Slot>)
    requires StillListed(modList, s, slots, 0, heap.live)
    modifies heap, modList`next, modList`prev, s, AllHeads(slots)
    ensures Ring(modList, []) && heap.live == old(heap.live) - Nodes(s) - AllHeads(slots)
  {
    hide Ring, StillListed, AllHeads, Head;
    StillListedAt(modList, s, slots, 0, heap.live);
    ghost var k := 0;
    var pos := heap.Next(modList);
    var n := heap.Next(pos);
    while pos != modList
      invariant k <= |s| == |slots| && (pos == modList <==> k == |s|) && (k < |s| ==> pos == s[k])
      invariant StillListed(modList, s, slots, k, heap.live)
      invariant k < |s| ==> n == if k + 1 < |s| then s[k + 1] else modList
      invariant heap.live == old(heap.live) - Nodes(s[..k]) - AllHeads(slots[..k])
      decreases |s| - k
    {
      StillListedAt(modList, s, slots, k, heap.live);
      AllHeadsSnoc(slots, k);
      FreeModule(heap, pos, k, modList, s, slots);
      k := k + 1;
      StillListedAt(modList, s, slots, k, heap.live);
      pos := n;
      n := heap.Next(n);
    }
    StillListedAt(modList, s, slots, k, heap.live);
    assert s[..k] == s && slots[..k] == slots && s[k..] == [];
  }

  /** The nodes in `l` that no list reaches: the rings detached from a snapshot module, with the contents they had. */
  ghost predicate Leaked(r: Records, l: Layout)
    reads Orphaned(l)
  {
    if r.LastAnswer? then
      l.AnswerNodes? && ModDns.Orphans(l.lists, r.detached, ModDns.AllNodes(l.lists))
    else
      Orphaned(l) == {}
  }

  ghost predicate AllLeaked(mods: seq<Module<Records>>, ps: seq<Place>)
    reads AllOrphaned(ps)
  {
    && |mods| == |ps|
    && (forall i :: 0 <= i < |ps| ==> Orphaned(ps[i].layout) <= AllOrphaned(ps))
    && (forall i :: 0 <= i < |ps| ==> Leaked(mods[i].records, ps[i].layout))
    && (forall i, j :: 0 <= i < j < |ps| ==> Orphaned(ps[i].layout) !! Orphaned(ps[j].layout))
  }

  lemma HoldsLeaked(list: RecordList, l: Layout, r: Records)
    requires Holds(list, l, r)
    ensures Leaked(r, l)
  {
    hide Ring, Nested, ModDns.Orphans;
  }

  /** The parts of one module's memory. */
  lemma PlaceParts(slot: Slot, mod: Module<Records>, p: Place)
    requires Fits(slot, mod, p)
    ensures p.nodes == Head(slot.records) + Listed(p.layout) + Orphaned(p.layout)
    ensures Head(slot.records) !! Listed(p.layout) && Head(slot.records) !! Orphaned(p.layout)
    ensures Listed(p.layout) !! Orphaned(p.layout) && Leaked(mod.records, p.layout)
  {
    hide Head, Listed;
    OwnedParts(slot.records, p.layout, mod.records);
    HoldsLeaked(slot.records, p.layout, mod.records);
  }

  /** The parts of two modules' memory, which may be the same module. */
  lemma PartsAcross(modList: Node<Slot>, s: seq<Node<Slot>>, slots: seq<Slot>, mods: seq<Module<Records>>,
                    ps: seq<Place>, i: nat, j: nat)
    requires Loaded(modList, s, mods, ps) && Entries(s) == slots && i < |s| && j < |s|
    ensures |s| == |mods| == |ps| && Leaked(mods[i].records, ps[i].layout)
    ensures ps[i].nodes == Head(slots[i].records) + Listed(ps[i].layout) + Orphaned(ps[i].layout)
    ensures Head(slots[i].records) !! Listed(ps[j].layout) && Head(slots[i].records) !! Orphaned(ps[j].layout)
    ensures Listed(ps[i].layout) !! Orphaned(ps[j].layout)
    ensures i != j ==> Head(slots[i].records) !! Head(slots[j].records)
    ensures i != j ==> Orphaned(ps[i].layout) !! Orphaned(ps[j].layout)
  {
    hide Ring, Fits, Leaked, Head, Listed, Orphaned, AllOwned;
    assert Fits(s[i].entry, mods[i], ps[i]) && Fits(s[j].entry, mods[j], ps[j]);
    PlaceParts(s[i].entry, mods[i], ps[i]);
    PlaceParts(s[j].entry, mods[j], ps[j]);
    assert i == j || ps[i].nodes !! ps[j].nodes;
  }

  lemma LoadedShape(modList: Node<Slot>, s: seq<Node<Slot>>, mods: seq<Module<Records>>, ps: seq<Place>)
    requires Loaded(modList, s, mods, ps)
    ensures |s| == |mods| == |ps| && Ring(modList, s) && Distinct(s) && modList !in s
    ensures NoneShared(Nodes([modList] + s), AllOwned(ps))
  {
    hide Fits, AllOwned;
  }

  lemma SumOfParts(slots: seq<Slot>, ps: seq<Place>)
    requires |slots| == |ps|
    requires forall i :: 0 <= i < |ps| ==>
               ps[i].nodes == Head(slots[i].records) + Listed(ps[i].layout) + Orphaned(ps[i].layout)
    ensures AllOwned(ps) == AllHeads(slots) + AllListed(ps) + AllOrphaned(ps)
  {
    hide Head, Listed, Orphaned;
    forall o ensures o in AllOwned(ps) <==> o in AllHeads(slots) + AllListed(ps) + AllOrphaned(ps) {
      if o in AllOwned(ps) {
        var i :| 0 <= i < |ps| && o in ps[i].nodes;
        assert o in Head(slots[i].records) || o in Listed(ps[i].layout) || o in Orphaned(ps[i].layout);
      }
    }
  }

  /** The parts of the memory of all modules. */
  lemma AllParts(modList: Node<Slot>, s: seq<Node<Slot>>, slots: seq<Slot>, mods: seq<Module<Records>>, ps: seq<Place>)
    requires Loaded(modList, s, mods, ps) && Entries(s) == slots
    ensures AllOwned(ps) == AllHeads(slots) + AllListed(ps) + AllOrphaned(ps)
    ensures AllHeads(slots) !! AllListed(ps) && AllHeads(slots) !! AllOrphaned(ps) && AllListed(ps) !! AllOrphaned(ps)
    ensures AllLeaked(mods, ps)
  {
    hide Loaded, Leaked, Head, Listed, Orphaned, Entries, Ring;
    LoadedShape(modList, s, mods, ps);
    forall i, j | 0 <= i < |ps| && 0 <= j < |ps|
      ensures Head(slots[i].records) !! Listed(ps[j].layout) && Head(slots[i].records) !! Orphaned(ps[j].layout)
      ensures Listed(ps[i].layout) !! Orphaned(ps[j].layout)
      ensures i != j ==> Orphaned(ps[i].layout) !! Orphaned(ps[j].layout)
    {
      PartsAcross(modList, s, slots, mods, ps, i, j);
    }
    forall i | 0 <= i < |ps|
      ensures ps[i].nodes == Head(slots[i].records) + Listed(ps[i].layout) + Orphaned(ps[i].layout)
      ensures Leaked(mods[i].records, ps[i].layout)
    {
      PartsAcross(modList, s, slots, mods, ps, i, i);
    }
    SumOfParts(slots, ps);
  }

  lemma OrphanedIsOwned(modList: Node<Slot>, s: seq<Node<Slot>>, mods: seq<Module<Records>>, ps: seq<Place>)
    requires Loaded(modList, s, mods, ps)
    ensures AllOrphaned(ps) <= AllOwned(ps) && NoneShared(Nodes(s), AllOwned(ps))
  {
    AllParts(modList, s, Entries(s), mods, ps);
    hide Ring, Fits, AllOwned, AllOrphaned;
    assert Nodes(s) <= Nodes([modList] + s);
  }

  /** Once the record lists are freed, the module list is still whole. */
  lemma LoadedIsStillListed(modList: Node<Slot>, s: seq<Node<Slot>>, slots: seq<Slot>, mods: seq<Module<Records>>,
                            ps: seq<Place>, live: set<object>)
    requires Loaded(modList, s, mods, ps) && Entries(s) == slots
    requires modList in live && Nodes(s) <= live && AllOwned(ps) <= live
    ensures StillListed(modList, s, slots, 0, live - AllListed(ps))
    ensures NoneShared(Nodes([modList] + s), AllListed(ps))
  {
    hide Loaded, Ring, Head, AllListed, AllOrphaned, AllOwned, Entries;
    LoadedShape(modList, s, mods, ps);
    AllParts(modList, s, slots, mods, ps);
    assert s[0..] == s;
    forall i | 0 <= i < |s|
      ensures HeadsAside(modList, s, Head(slots[i].records)) && Head(slots[i].records) <= live - AllListed(ps)
    {
      assert Head(slots[i].records) <= AllHeads(slots);
    }
    forall i, j | 0 <= i < j < |slots| ensures Head(slots[i].records) !! Head(slots[j].records) {
      PartsAcross(modList, s, slots, mods, ps, i, j);
    }
  }

  /** free_record_list(); FREE_MOD_LIST_HEAD(); */
  method FreeEverything(heap: Heap, modList: Node<Slot>,
                        ghost s: seq<Node<Slot>>, ghost mods: seq<Module<Records>>, ghost ps: seq<Place>)
    requires Loaded(modList, s, mods, ps)
    requires modList in heap.live && Nodes(s) <= heap.live && AllOwned(ps) <= heap.live
    modifies heap, modList, s, AllOwned(ps)
    ensures Ring(modList, []) && AllLeaked(mods, ps)
    ensures heap.live == old(heap.live) - Nodes(s) - (AllOwned(ps) - AllOrphaned(ps))
  {
    ghost var slots := Entries(s);
    hide AllOwned, AllListed, AllHeads, AllOrphaned, Ring, Entries, Fits, StillListed, AllLeaked;
    AllParts(modList, s, slots, mods, ps);
    LoadedIsStillListed(modList, s, slots, mods, ps, heap.live);
    HeapIsNotOwned(heap, s, mods, ps);
    FreeRecordLists(heap, modList, s, mods, ps);
    FreeModListHead(heap, modList, s, slots);
  }
}
