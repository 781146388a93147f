/**
  The module list of zsr/framework.c on the heap. A module_t embeds two list heads: its own link
  in the module list is the `Node`, the head of its record list is in `records`. Both live and die
  with the module.
 */
module Modules {
  import opened Iteration
  import opened RecordLists
  import opened Rings
  import opened Snapshots
  import opened ToolSpec

  type Slot = Module<RecordList>

  /** Where the nodes of one module are. */
  datatype Place = Place(layout: Layout, nodes: set<object>)

  ghost function AllOwned(ps: seq<Place>): set<object> {
    set i, o | 0 <= i < |ps| && o in ps[i].nodes :: o
  }

  function Showing(slot: Slot, r: Records): Module<Records> {
    Module(slot.name, slot.optLine, slot.usage, slot.enable, slot.text, r, slot.numCol, slot.info)
  }

  /** The module in memory is `mod`, its record list laid out as in `p`. */
  ghost predicate Fits(slot: Slot, mod: Module<Records>, p: Place)
    reads p.nodes
  {
    && p.nodes == Owned(slot.records, p.layout)
    && Holds(slot.records, p.layout, mod.records)
    && mod == Showing(slot, mod.records)
  }

  ghost predicate Disjoint(ps: seq<Place>) {
    forall i, j :: 0 <= i < j < |ps| ==> ps[i].nodes !! ps[j].nodes
  }

  /** The module list has the entries `s`, which are the modules `mods`, and no node belongs to two of them. */
  ghost predicate Loaded(modList: Node<Slot>, s: seq<Node<Slot>>, mods: seq<Module<Records>>, ps: seq<Place>)
    reads modList, s, AllOwned(ps)
  {
    && Ring(modList, s) && |s| == |mods| == |ps|
    && (forall i :: 0 <= i < |s| ==> ps[i].nodes <= AllOwned(ps))
    && (forall i :: 0 <= i < |s| ==> Fits(s[i].entry, mods[i], ps[i]))
    && Disjoint(ps) && NoneShared(Nodes([modList] + s), AllOwned(ps))
  }

  /** So writing to the set of live objects changes nothing in the lists. */
  lemma HeapIsNotOwned(heap: Heap, s: seq<Node<Slot>>, mods: seq<Module<Records>>, ps: seq<Place>)
    requires |s| == |mods| == |ps| && forall i :: 0 <= i < |s| ==> Fits(s[i].entry, mods[i], ps[i])
    ensures heap !in AllOwned(ps)
  {
    hide Owned, Holds;
    forall i | 0 <= i < |ps| ensures heap !in ps[i].nodes {
      assert Fits(s[i].entry, mods[i], ps[i]);
      HeapIsNoNode(heap, s[i].entry.records, ps[i].layout);
    }
  }

  lemma LoadedSnoc(n: Node<Slot>, p: Place, mod: Module<Records>, modList: Node<Slot>,
                   s: seq<Node<Slot>>, mods: seq<Module<Records>>, ps: seq<Place>)
    requires Ring(modList, s + [n]) && |s| == |mods| == |ps|
    requires forall i :: 0 <= i < |s| ==> ps[i].nodes <= AllOwned(ps)
    requires forall i :: 0 <= i < |s| ==> Fits(s[i].entry, mods[i], ps[i])
    requires Fits(n.entry, mod, p) && p.nodes !! AllOwned(ps) && Disjoint(ps)
    requires NoneShared(Nodes([modList] + s) + {n}, AllOwned(ps) + p.nodes)
    ensures Loaded(modList, s + [n], mods + [mod], ps + [p])
  {
    hide Ring, Fits, AllOwned;
    AllOwnedSnoc(ps, p);
    var s', mods', ps' := s + [n], mods + [mod], ps + [p];
    forall i | 0 <= i < |s'| ensures ps'[i].nodes <= AllOwned(ps') && Fits(s'[i].entry, mods'[i], ps'[i]) {
      if i < |s| {
        assert Fits(s[i].entry, mods[i], ps[i]) && ps[i].nodes <= AllOwned(ps);
      }
    }
    forall i, j | 0 <= i < j < |ps'| ensures ps'[i].nodes !! ps'[j].nodes {
      if j == |ps| {
        assert ps[i].nodes <= AllOwned(ps);
      }
    }
    assert Nodes([modList] + s') == Nodes([modList] + s) + {n};
  }

  lemma AllOwnedUpdate(ps: seq<Place>, k: nat, p: Place, grown: set<object>)
    requires k < |ps| && p.nodes == ps[k].nodes + grown
    ensures AllOwned(ps[k := p]) == AllOwned(ps) + grown
  {
    var qs := ps[k := p];
    forall o ensures o in AllOwned(qs) <==> o in AllOwned(ps) + grown {
      if o in AllOwned(ps) {
        var i :| 0 <= i < |ps| && o in ps[i].nodes;
        assert o in qs[i].nodes;
      }
      if o in grown {
        assert o in qs[k].nodes;
      }
      if o in AllOwned(qs) {
        var i :| 0 <= i < |qs| && o in qs[i].nodes;
        assert o in ps[i].nodes + grown;
      }
    }
  }

  lemma AllOwnedSnoc(ps: seq<Place>, p: Place)
    ensures AllOwned(ps + [p]) == AllOwned(ps) + p.nodes
  {
    var qs := ps + [p];
    forall o ensures o in AllOwned(qs) <==> o in AllOwned(ps) + p.nodes {
      if o in AllOwned(ps) {
        var i :| 0 <= i < |ps| && o in ps[i].nodes;
        assert o in qs[i].nodes;
      }
      if o in p.nodes {
        assert o in qs[|ps|].nodes;
      }
    }
  }

  ghost function AllOrphaned(ps: seq<Place>): set<object> {
    set i, o | 0 <= i < |ps| && o in Orphaned(ps[i].layout) :: o
  }

  lemma AllOrphanedSnoc(ps: seq<Place>, p: Place)
    ensures AllOrphaned(ps + [p]) == AllOrphaned(ps) + Orphaned(p.layout)
  {
    var qs := ps + [p];
    forall o ensures o in AllOrphaned(qs) <==> o in AllOrphaned(ps) + Orphaned(p.layout) {
      if o in AllOrphaned(ps) {
        var i :| 0 <= i < |ps| && o in Orphaned(ps[i].layout);
        assert o in Orphaned(qs[i].layout);
      }
      if o in Orphaned(p.layout) {
        assert o in Orphaned(qs[|ps|].layout);
      }
    }
  }

  // ---------------------------------------------------------- registration

  method NewModule(heap: Heap, r: Registration) returns (mod: Node<Slot>, ghost p: Place)
    modifies heap
    ensures fresh(mod) && fresh(p.nodes) && mod !in p.nodes && Orphaned(p.layout) == {}
    ensures Fits(mod.entry, Registered(r), p)
    ensures heap.live == old(heap.live) + {mod} + p.nodes
  {
    hide Holds, Owned, Orphaned, Initial;
    mod := heap.Malloc<Slot>();
    var list;
    ghost var l;
    list, l := InitRecordList(heap, r.callbacks);
    mod.entry := Module(r.name, r.optLine, r.usage, false, Blank, list, r.numCol, r.info);
    p := Place(l, Owned(list, l));
  }

  /** register_mod_fileds: a module is registered at the tail, disabled and without records. */
  method Register(heap: Heap, modList: Node<Slot>, r: Registration,
                  ghost s: seq<Node<Slot>>, ghost mods: seq<Module<Records>>, ghost ps: seq<Place>)
    returns (n: Node<Slot>, ghost p: Place)
    requires Loaded(modList, s, mods, ps)
    modifies heap, Nodes([modList] + s)`next, Nodes([modList] + s)`prev
    ensures fresh(n) && fresh(p.nodes) && Orphaned(p.layout) == {}
    ensures Loaded(modList, s + [n], mods + [Registered(r)], ps + [p])
    ensures heap.live == old(heap.live) + {n} + p.nodes
  {
    hide Ring, Fits, Registered;
    HeapIsNotOwned(heap, s, mods, ps);
    n, p := NewModule(heap, r);
    ListAddTail(n, modList, s);
    LoadedSnoc(n, p, Registered(r), modList, s, mods, ps);
  }

  lemma NothingLoaded(modList: Node<Slot>, rs: seq<Registration>)
    requires Ring(modList, []) && rs == []
    ensures Loaded(modList, [], AllRegistered(rs), [])
    ensures AllOwned([]) == {} && AllOrphaned([]) == {} && Nodes<Node<Slot>>([]) == {}
  {
  }

  /** load_modules */
  method LoadModules(heap: Heap, modList: Node<Slot>, rs: seq<Registration>)
    returns (ghost s: seq<Node<Slot>>, ghost ps: seq<Place>)
    requires Ring(modList, [])
    modifies heap, modList`next, modList`prev
    ensures Loaded(modList, s, AllRegistered(rs), ps)
    ensures fresh(s) && fresh(AllOwned(ps)) && AllOrphaned(ps) == {}
    ensures heap.live == old(heap.live) + Nodes(s) + AllOwned(ps)
  {
    hide Ring, Loaded, AllOwned, AllOrphaned, AllRegistered, Registered;
    if rs == [] {
      s, ps := [], [];
      NothingLoaded(modList, rs);
    } else {
      var k := |rs| - 1;
      s, ps := LoadModules(heap, modList, rs[..k]);
      var mod;
      ghost var p;
      mod, p := Register(heap, modList, rs[k], s, AllRegistered(rs[..k]), ps);
      assert AllRegistered(rs) == AllRegistered(rs[..k]) + [Registered(rs[k])];
      AllOwnedSnoc(ps, p);
      AllOrphanedSnoc(ps, p);
      s, ps := s + [mod], ps + [p];
    }
  }

  // -------------------------------------------------- one module of the list

  /** The module list at position `k`, which may be its end. */
  lemma SlotShows(k: nat, modList: Node<Slot>, s: seq<Node<Slot>>, mods: seq<Module<Records>>, ps: seq<Place>)
    requires Loaded(modList, s, mods, ps) && k <= |s|
    ensures Ring(modList, s) && |s| == |mods| == |ps| && modList.next == if s == [] then modList else s[0]
    ensures k < |s| ==>
      && mods[k].optLine == s[k].entry.optLine && mods[k].enable == s[k].entry.enable && mods[k].text == s[k].entry.text
      && mods[k] == Showing(s[k].entry, mods[k].records) && s[k] != modList
      && s[k] in Nodes(s) && s[k].next == (if k + 1 < |s| then s[k + 1] else modList)
      && Fits(s[k].entry, mods[k], ps[k]) && ps[k].nodes <= AllOwned(ps)
  {
  }

  /** A write to the module's own fields does not touch its record list. */
  method SetSlot(mod: Node<Slot>, slot: Slot, ghost k: nat, ghost modList: Node<Slot>,
                 ghost s: seq<Node<Slot>>, ghost mods: seq<Module<Records>>, ghost ps: seq<Place>)
    requires Loaded(modList, s, mods, ps) && k < |s| && mod == s[k] && slot.records == mod.entry.records
    modifies mod`entry
    ensures Loaded(modList, s, mods[k := Showing(slot, mods[k].records)], ps)
    ensures mod.entry == slot
  {
    hide AllOwned, Holds, Owned;
    ghost var now := Showing(slot, mods[k].records);
    assert Fits(s[k].entry, mods[k], ps[k]) && Holds(slot.records, ps[k].layout, mods[k].records);
    mod.entry := slot;
    assert mod in Nodes([modList] + s);
    forall i | 0 <= i < |s| ensures Fits(s[i].entry, mods[k := now][i], ps[i]) {
      assert ps[i].nodes <= AllOwned(ps) && mod !in ps[i].nodes;
      assert old(Fits(s[i].entry, mods[i], ps[i]));
    }
  }
}
