/** The tool of zsr/tool_zsr.c on the heap: options, rounds, reports, and the whole of `main`. */
module Tool {
  import opened Iteration
  import opened LeakLaws
  import opened Modules
  import opened RecordLists
  import opened Rings
  import opened Searching
  import opened Teardown
  import opened ToolSpec
  import Io

  // ------------------------------------------------------------------- options

  /** `mod->enable = 1` */
  method Enable(mod: Node<Slot>, ghost k: nat, ghost modList: Node<Slot>,
                ghost s: seq<Node<Slot>>, ghost mods: seq<Module<Records>>, ghost ps: seq<Place>)
    requires Loaded(modList, s, mods, ps) && k < |s| && mod == s[k]
    modifies mod`entry
    ensures Loaded(modList, s, mods[k := mods[k].(enable := true)], ps)
  {
    SlotShows(k, modList, s, mods, ps);
    hide Loaded, Fits, Ring;
    SetSlot(mod, mod.entry.(enable := true), k, modList, s, mods, ps);
  }

  /** enable_module: the first module with the option is enabled; without one (`!found`) the tool exits. */
  method EnableModule(modList: Node<Slot>, opt: string,
                      ghost s: seq<Node<Slot>>, ghost mods: seq<Module<Records>>, ghost ps: seq<Place>)
    returns (found: bool)
    requires Loaded(modList, s, mods, ps)
    modifies Nodes(s)`entry
    ensures found <==> opt in Opts(mods)
    ensures Loaded(modList, s, Enabling(mods, opt), ps)
  {
    hide *;
    SlotShows(0, modList, s, mods, ps);
    ghost var k := 0;
    var mod := modList.next;
    while mod != modList && mod.entry.optLine != opt
      invariant k <= |s| && mod == if k < |s| then s[k] else modList
      invariant Loaded(modList, s, mods, ps)
      invariant forall j :: 0 <= j < k ==> mods[j].optLine != opt
      decreases |s| - k
    {
      SlotShows(k, modList, s, mods, ps);
      k := k + 1;
      mod := mod.next;
    }
    SlotShows(k, modList, s, mods, ps);
    EnablingAt(mods, opt, k);
    found := mod != modList;
    if found {
      Enable(mod, k, modList, s, mods, ps);
    }
  }

  /** enable_all_module */
  method EnableAllModule(modList: Node<Slot>, ghost s: seq<Node<Slot>>, ghost mods: seq<Module<Records>>,
                         ghost ps: seq<Place>)
    requires Loaded(modList, s, mods, ps)
    modifies Nodes(s)`entry
    ensures Loaded(modList, s, EnablingAll(mods), ps)
  {
    hide *;
    SlotShows(0, modList, s, mods, ps);
    ghost var k := 0;
    ghost var now := mods;
    var mod := modList.next;
    while mod != modList
      invariant k <= |s| && mod == if k < |s| then s[k] else modList
      invariant Loaded(modList, s, now, ps) && |now| == |mods|
      invariant forall i :: 0 <= i < |mods| ==> now[i] == if i < k then mods[i].(enable := true) else mods[i]
      decreases |s| - k
    {
      SlotShows(k, modList, s, now, ps);
      Enable(mod, k, modList, s, now, ps);
      now := now[k := now[k].(enable := true)];
      SlotShows(k, modList, s, now, ps);
      k := k + 1;
      mod := mod.next;
    }
    assert now == EnablingAll(mods);
  }

  /** check_enable_module: the tool goes on only with an enabled module. */
  method CheckEnableModule(modList: Node<Slot>, ghost s: seq<Node<Slot>>, ghost mods: seq<Module<Records>>,
                           ghost ps: seq<Place>)
    returns (exits: bool)
    requires Loaded(modList, s, mods, ps)
    ensures exits <==> Enabled(mods) == []
  {
    hide *;
    SlotShows(0, modList, s, mods, ps);
    NoneEnabled(mods);
    var i := 0;
    ghost var k := 0;
    var mod := modList.next;
    while mod != modList
      invariant k <= |s| && mod == if k < |s| then s[k] else modList
      invariant Loaded(modList, s, mods, ps)
      invariant i == |Enabled(mods[..k])|
      decreases |s| - k
    {
      SlotShows(k, modList, s, mods, ps);
      EnabledSnoc(mods, k);
      if mod.entry.enable {
        i := i + 1;
      }
      k := k + 1;
      mod := mod.next;
    }
    assert mods[..k] == mods;
    exits := i == 0;
  }

  /** The options of main that enable modules, in order; `!ok` is the exit of enable_module. */
  method HandleSwitches(modList: Node<Slot>, switches: seq<Switch>,
                        ghost s: seq<Node<Slot>>, ghost mods: seq<Module<Records>>, ghost ps: seq<Place>)
    returns (ok: bool, ghost now: seq<Module<Records>>)
    requires Loaded(modList, s, mods, ps)
    modifies Nodes(s)`entry
    ensures Loaded(modList, s, now, ps)
    ensures Switched(mods, switches) == if ok then Some(now) else None
  {
    hide Loaded, Nodes, Enabling, EnablingAll;
    now, ok := mods, true;
    for i := 0 to |switches|
      invariant Loaded(modList, s, now, ps)
      invariant Switched(mods, switches) == Switched(now, switches[i..])
    {
      assert switches[i..][0] == switches[i] && switches[i..][1..] == switches[i + 1..];
      match switches[i]
      case All =>
        EnableAllModule(modList, s, now, ps);
        now := EnablingAll(now);
      case Only(opt) =>
        var found := EnableModule(modList, opt, s, now, ps);
        if !found {
          now, ok := Enabling(now, opt), false;
          return;
        }
        now := Enabling(now, opt);
    }
    assert switches[|switches|..] == [];
  }

  // ------------------------------------------------------------------ one round

  /** `mod->collect_record(mod)` for one module of the list. */
  method CollectAt(heap: Heap, mod: Node<Slot>, w: World, m: Io.Machine, ghost k: nat, ghost modList: Node<Slot>,
                   ghost s: seq<Node<Slot>>, ghost mods: seq<Module<Records>>, ghost ps: seq<Place>)
    returns (ghost qs: seq<Place>, ghost grown: set<object>)
    requires Loaded(modList, s, mods, ps) && k < |s| && mod == s[k] && Io.Runs(m)
    modifies heap, ps[k].nodes
    ensures Loaded(modList, s, mods[k := Collecting(mods[k], w, m)], qs)
    ensures |qs| == |ps| && forall i :: 0 <= i < |ps| && i != k ==> qs[i] == ps[i]
    ensures AllOwned(qs) == AllOwned(ps) + grown && fresh(grown) && heap.live == old(heap.live) + grown
  {
    hide Ring, Holds, Owned, Collected, AllOwned;
    HeapIsNotOwned(heap, s, mods, ps);
    ghost var l;
    l, grown := RecordLists.CollectRecord(heap, mod.entry.records, mod.entry.name, w, m, ps[k].layout, mods[k].records);
    ghost var p := Place(l, ps[k].nodes + grown);
    qs := ps[k := p];
    AllOwnedUpdate(ps, k, p, grown);
  }

  /** collect_record of the tool: every module collects, enabled or not. */
  method CollectRecord(heap: Heap, modList: Node<Slot>, w: World, m: Io.Machine,
                       ghost s: seq<Node<Slot>>, ghost mods: seq<Module<Records>>, ghost ps: seq<Place>)
    returns (ghost qs: seq<Place>)
    requires Loaded(modList, s, mods, ps) && AllOwned(ps) <= heap.live && Io.Runs(m)
    modifies heap, AllOwned(ps)
    ensures Loaded(modList, s, AllCollecting(mods, w, m), qs)
    ensures AllOwned(ps) <= AllOwned(qs) && fresh(AllOwned(qs) - AllOwned(ps))
    ensures heap.live == old(heap.live) + AllOwned(qs)
  {
    hide *;
    SlotShows(0, modList, s, mods, ps);
    qs := ps;
    ghost var k := 0;
    ghost var now := mods;
    ghost var grown: set<object> := {};
    var mod := modList.next;
    while mod != modList
      invariant k <= |s| && mod == if k < |s| then s[k] else modList
      invariant Loaded(modList, s, now, qs) && |now| == |mods| && |qs| == |ps| == |s|
      invariant forall i :: 0 <= i < |mods| ==> now[i] == if i < k then Collecting(mods[i], w, m) else mods[i]
      invariant forall i :: k <= i < |ps| ==> qs[i] == ps[i]
      invariant AllOwned(qs) == AllOwned(ps) + grown && fresh(grown) && heap.live == old(heap.live) + grown
      decreases |s| - k
    {
      SlotShows(k, modList, s, now, qs);
      ghost var more;
      qs, more := CollectAt(heap, mod, w, m, k, modList, s, now, qs);
      now, grown := now[k := Collecting(now[k], w, m)], grown + more;
      SlotShows(k, modList, s, now, qs);
      k := k + 1;
      mod := mod.next;
    }
    assert now == AllCollecting(mods, w, m);
  }

  lemma SlotPrints(k: nat, modList: Node<Slot>, s: seq<Node<Slot>>, mods: seq<Module<Records>>, ps: seq<Place>)
    requires Loaded(modList, s, mods, ps) && k < |s|
    ensures |s| == |mods| == |ps| && Holds(s[k].entry.records, ps[k].layout, mods[k].records)
    ensures mods[k].enable ==>
      var slot := s[k].entry.(text := Rendered(mods[k].records, s[k].entry.text));
      Printing(mods[k]) == Showing(slot, mods[k].records) && Printing(mods[k]).text == slot.text
  {
    hide Ring, Holds, Owned, Rendered, AllOwned;
    assert Fits(s[k].entry, mods[k], ps[k]);
  }

  /** record_to_str and printf for an enabled module. */
  method PrintAt(mod: Node<Slot>, ghost k: nat, ghost modList: Node<Slot>,
                 ghost s: seq<Node<Slot>>, ghost mods: seq<Module<Records>>, ghost ps: seq<Place>)
    returns (text: Text)
    requires Loaded(modList, s, mods, ps) && k < |s| && mod == s[k] && mods[k].enable
    modifies mod`entry
    ensures Loaded(modList, s, mods[k := Printing(mods[k])], ps) && text == Printing(mods[k]).text
  {
    hide *;
    SlotPrints(k, modList, s, mods, ps);
    assert allocated(AllOwned(ps)) && allocated(s);
    text := RecordToStr(mod.entry.records, mod.entry.text, ps[k].layout, mods[k].records);
    SetSlot(mod, mod.entry.(text := text), k, modList, s, mods, ps);
  }

  /** print_mod_record: the enabled modules are rendered and printed, in list order. */
  method PrintModRecord(modList: Node<Slot>, ghost s: seq<Node<Slot>>, ghost mods: seq<Module<Records>>,
                        ghost ps: seq<Place>)
    returns (report: seq<Text>)
    requires Loaded(modList, s, mods, ps)
    modifies Nodes(s)`entry
    ensures Loaded(modList, s, AllPrinting(mods), ps)
    ensures report == Texts(Enabled(AllPrinting(mods)))
  {
    hide *;
    SlotShows(0, modList, s, mods, ps);
    report := [];
    ghost var k := 0;
    ghost var now, end := mods, AllPrinting(mods);
    NoneEnabled(end);
    var mod := modList.next;
    while mod != modList
      invariant k <= |s| && mod == if k < |s| then s[k] else modList
      invariant Loaded(modList, s, now, ps) && |now| == |mods|
      invariant forall i :: 0 <= i < |mods| ==> now[i] == if i < k then Printing(mods[i]) else mods[i]
      invariant report == Texts(Enabled(end[..k]))
      decreases |s| - k
    {
      SlotShows(k, modList, s, now, ps);
      PrintingSnoc(mods, k);
      if mod.entry.enable {
        var text := PrintAt(mod, k, modList, s, now, ps);
        report, now := report + [text], now[k := Printing(mods[k])];
      }
      SlotShows(k, modList, s, now, ps);
      k := k + 1;
      mod := mod.next;
    }
    assert now == end && end[..k] == end;
  }

  // -------------------------------------------------------------- the main loop

  /** Lines 185-186. */
  method Round(heap: Heap, modList: Node<Slot>, w: World, m: Io.Machine,
               ghost s: seq<Node<Slot>>, ghost mods: seq<Module<Records>>, ghost ps: seq<Place>)
    returns (report: seq<Text>, ghost qs: seq<Place>)
    requires Loaded(modList, s, mods, ps) && AllOwned(ps) <= heap.live && Io.Runs(m)
    modifies heap, Nodes(s)`entry, AllOwned(ps)
    ensures Loaded(modList, s, AllPrinting(AllCollecting(mods, w, m)), qs)
    ensures report == Texts(Enabled(AllPrinting(AllCollecting(mods, w, m))))
    ensures AllOwned(ps) <= AllOwned(qs) && fresh(AllOwned(qs) - AllOwned(ps))
    ensures heap.live == old(heap.live) + AllOwned(qs)
  {
    hide *;
    qs := CollectRecord(heap, modList, w, m, s, mods, ps);
    report := PrintModRecord(modList, s, AllCollecting(mods, w, m), qs);
  }

  /**
    The loop of `main`. `worlds` is what the system would show in each round; it ends where the
    process is stopped from outside. With a positive count the loop ends by itself after that
    many rounds, otherwise only from outside (`stopped`). Round `k` collects the `k`-th world
    into every module and then reports the enabled ones.
   */
  method Loop(heap: Heap, modList: Node<Slot>, count: int, worlds: seq<World>, m: Io.Machine,
              ghost s: seq<Node<Slot>>, ghost mods: seq<Module<Records>>, ghost ps: seq<Place>)
    returns (reports: seq<seq<Text>>, stopped: bool, ghost qs: seq<Place>)
    requires Loaded(modList, s, mods, ps) && AllOwned(ps) <= heap.live && Io.Runs(m)
    modifies heap, Nodes(s)`entry, AllOwned(ps)
    ensures |reports| == if 0 < count <= |worlds| then count else |worlds|
    ensures stopped <==> count <= 0 || |worlds| < count
    ensures Loaded(modList, s, AllAfterRounds(mods, worlds[..|reports|], m), qs)
    ensures reports == ReportsOf(mods, worlds, m, |reports|)
    ensures AllOwned(ps) <= AllOwned(qs) && fresh(AllOwned(qs) - AllOwned(ps))
    ensures heap.live == old(heap.live) + AllOwned(qs)
  {
    hide *;
    var optCount := count;
    var isLoop := optCount <= 0;
    reports, stopped := [], false;
    qs := ps;
    NoRounds(mods, worlds, m);
    while true
      invariant |reports| <= |worlds| && (!isLoop ==> optCount == count - |reports| && 0 <= optCount)
      invariant Loaded(modList, s, AllAfterRounds(mods, worlds[..|reports|], m), qs)
      invariant reports == ReportsOf(mods, worlds, m, |reports|)
      invariant AllOwned(ps) <= AllOwned(qs) && fresh(AllOwned(qs) - AllOwned(ps))
      invariant heap.live == old(heap.live) + AllOwned(qs)
      decreases |worlds| - |reports|
    {
      if !isLoop {
        if optCount <= 0 {
          break;
        }
        optCount := optCount - 1;
      }
      if |reports| == |worlds| {
        stopped := true;
        break;
      }
      var i := |reports|;
      OneMoreRound(mods, worlds, m, i);
      var report;
      report, qs := Round(heap, modList, worlds[i], m, s, AllAfterRounds(mods, worlds[..i], m), qs);
      reports := reports + [report];
    }
  }

  // ----------------------------------------------------------------------- main

  /** The loop of `main` and, unless it is stopped from outside, what follows it. */
  method Serve(heap: Heap, modList: Node<Slot>, count: int, worlds: seq<World>, m: Io.Machine,
               ghost before: set<object>, ghost s: seq<Node<Slot>>, ghost mods: seq<Module<Records>>,
               ghost ps: seq<Place>)
    returns (reports: seq<seq<Text>>, stopped: bool, ghost qs: seq<Place>)
    requires Loaded(modList, s, mods, ps) && modList in before && Io.Runs(m)
    requires heap.live == before + Nodes(s) + AllOwned(ps) && before !! Nodes(s) && before !! AllOwned(ps)
    modifies heap, modList, s, AllOwned(ps)
    ensures |reports| == if 0 < count <= |worlds| then count else |worlds|
    ensures stopped <==> count <= 0 || |worlds| < count
    ensures reports == ReportsOf(mods, worlds, m, |reports|)
    ensures !stopped ==> Ring(modList, []) && AllLeaked(AllAfterRounds(mods, worlds[..count], m), qs)
    ensures !stopped ==> fresh(AllOrphaned(qs) - AllOwned(ps))
    ensures !stopped ==> heap.live == before + AllOrphaned(qs)
  {
    hide Ring, Loaded, AllOwned, AllOrphaned, AllLeaked, AllAfterRounds, ReportsOf;
    reports, stopped, qs := Loop(heap, modList, count, worlds, m, s, mods, ps);
    if !stopped {
      ghost var end := AllAfterRounds(mods, worlds[..count], m);
      OrphanedIsOwned(modList, s, end, qs);
      FreeEverything(heap, modList, s, end, qs);
    }
  }

  datatype Exit = InvalidOption | NothingEnabled | Stopped | Finished

  /**
    `main`. When it comes to its end, what is still allocated is exactly what the snapshot modules
    have detached from their lists: one node for each item that they were given before the last round.
   */
  method Run(heap: Heap, modList: Node<Slot>, rs: seq<Registration>, switches: seq<Switch>, count: int,
             worlds: seq<World>, m: Io.Machine)
    returns (exit: Exit, reports: seq<seq<Text>>, ghost mods: seq<Module<Records>>, ghost ps: seq<Place>)
    requires modList in heap.live && Io.Runs(m)
    modifies heap, modList
    ensures exit == InvalidOption <==> Switched(AllRegistered(rs), switches) == None
    ensures exit != InvalidOption ==> Switched(AllRegistered(rs), switches) == Some(mods)
    ensures exit == NothingEnabled <==> exit != InvalidOption && Enabled(mods) == []
    ensures exit.InvalidOption? || exit.NothingEnabled? ==> reports == []
    ensures exit == Stopped ==> (count <= 0 || |worlds| < count) && reports == ReportsOf(mods, worlds, m, |worlds|)
    ensures exit == Finished ==> 0 < count <= |worlds| && reports == ReportsOf(mods, worlds, m, count)
    ensures exit == Finished ==> Ring(modList, []) && AllLeaked(AllAfterRounds(mods, worlds[..count], m), ps)
    ensures exit == Finished ==> fresh(AllOrphaned(ps)) && heap.live == old(heap.live) + AllOrphaned(ps)
    ensures exit == Finished ==> |AllOrphaned(ps)| == LeakedByAll(rs, worlds[..count])
  {
    hide Ring, Loaded, AllOwned, AllOrphaned, AllLeaked, Switched, Enabled, AllAfterRounds, AllRegistered, ReportsOf,
      LeakedByAll;
    reports := [];
    InitListHead(modList);
    ghost var s;
    s, ps := LoadModules(heap, modList, rs);
    var ok;
    ok, mods := HandleSwitches(modList, switches, s, AllRegistered(rs), ps);
    if !ok {
      exit := InvalidOption;
      return;
    }
    var exits := CheckEnableModule(modList, s, mods, ps);
    if exits {
      exit := NothingEnabled;
      return;
    }
    var stopped;
    reports, stopped, ps := Serve(heap, modList, count, worlds, m, old(heap.live), s, mods, ps);
    exit := if stopped then Stopped else Finished;
    if !stopped {
      LeakOfRun(rs, switches, mods, worlds[..count], m, ps);
    }
  }
}
