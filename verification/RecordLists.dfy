/**
  The record lists of the modules on the heap, and the three callbacks of a module: collect_record,
  record_to_str and free_record_list.
 */
module RecordLists {
  import opened Histories
  import opened Iteration
  import opened Rings
  import opened Snapshots
  import opened ToolSpec
  import Cpu
  import Io
  import ModCpu
  import ModDns
  import ModIo
  import ModMem
  import ModProc
  import ProcSpec

  /** The head of a record list; the constructor stands for the module's callbacks. `NoList` is zeroed memory. */
  datatype RecordList =
    | NoList
    | CpuList(cpus: Node<Cpu.Cpu>)
    | IoList(ios: Node<Node?<Io.Io>>)
    | ProcList(procs: Node<Node?<ProcSpec.Proc>>)
    | AnswerList(answers: Node<string>)
    | OneList(ones: Node<ModMem.Fields>)

  /** The nodes that a module has allocated: those in its list, and the `lists` detached from it. */
  datatype Layout =
    | CpuNodes(cpus: seq<Node<Cpu.Cpu>>)
    | IoNodes(ioOuter: seq<Node<Node?<Io.Io>>>, ioInner: seq<Snap<Io.Io>>)
    | ProcNodes(procOuter: seq<Node<Node?<ProcSpec.Proc>>>, procInner: seq<Snap<ProcSpec.Proc>>)
    | AnswerNodes(answers: seq<Node<string>>, lists: seq<seq<Node<string>>>)
    | OneNode(ones: seq<Node<ModMem.Fields>>)

  /** The list head, which is a part of the module_t. */
  ghost function Head(list: RecordList): set<object> {
    match list
    case NoList => {}
    case CpuList(head) => {head}
    case IoList(head) => {head}
    case ProcList(head) => {head}
    case AnswerList(head) => {head}
    case OneList(head) => {head}
  }

  /** What is reachable from the list head. */
  ghost function Listed(l: Layout): set<object> {
    match l
    case CpuNodes(s) => Nodes(s)
    case IoNodes(os, ws) => var inner: set<object> := AllMembers(ws); Nodes(os) + inner
    case ProcNodes(os, ws) => var inner: set<object> := AllMembers(ws); Nodes(os) + inner
    case AnswerNodes(s, _) => Nodes(s)
    case OneNode(s) => Nodes(s)
  }

  /** What is allocated and no longer reachable. */
  ghost function Orphaned(l: Layout): set<object> {
    if l.AnswerNodes? then ModDns.AllNodes(l.lists) else {}
  }

  ghost function Owned(list: RecordList, l: Layout): set<object> {
    Head(list) + Listed(l) + Orphaned(l)
  }

  /** The list under the head `list` is laid out as `l` and carries `r`. */
  ghost predicate Holds(list: RecordList, l: Layout, r: Records)
    reads Owned(list, l)
  {
    match list
    case NoList => false
    case CpuList(head) =>
      l.CpuNodes? && r.CpuHistory? && Ring(head, l.cpus) && Entries(l.cpus) == r.cpus
    case IoList(head) =>
      l.IoNodes? && r.IoHistory? && Nested(head, l.ioOuter, l.ioInner, r.ios, AllMembers(l.ioInner))
    case ProcList(head) =>
      l.ProcNodes? && r.ProcHistory? && Nested(head, l.procOuter, l.procInner, r.procs, AllMembers(l.procInner))
    case AnswerList(head) =>
      && l.AnswerNodes? && r.LastAnswer?
      && ModDns.Collected(head, l.answers, r.answer, l.lists, r.detached, ModDns.AllNodes(l.lists))
    case OneList(head) =>
      l.OneNode? && r.OneRecord? && Ring(head, l.ones) && Entries(l.ones) == r.records && |l.ones| <= 1
  }

  lemma ListedIsOwned(list: RecordList, l: Layout)
    ensures Listed(l) <= Owned(list, l) && Head(list) <= Owned(list, l) && Orphaned(l) <= Owned(list, l)
  {
  }

  lemma HeapIsNoNode(heap: Heap, list: RecordList, l: Layout)
    ensures heap !in Owned(list, l)
  {
  }

  // ------------------------------------------------------------ collect_record

  method CollectCpu(heap: Heap, list: RecordList, name: string, w: World, m: Io.Machine,
                    ghost l: Layout, ghost r: Records)
    returns (ghost l': Layout, ghost grown: set<object>)
    requires Holds(list, l, r) && list.CpuList? && Io.Runs(m)
    modifies heap, Owned(list, l)
    ensures Holds(list, l', Collected(r, name, w, m)) && Owned(list, l') == Owned(list, l) + grown
    ensures fresh(grown) && heap.live == old(heap.live) + grown
  {
    ghost var n := ModCpu.CollectRecord(heap, list.cpus, w.cpu, l.cpus);
    l', grown := CpuNodes(l.cpus + [n]), {n};
  }

  method CollectIo(heap: Heap, list: RecordList, name: string, w: World, m: Io.Machine,
                   ghost l: Layout, ghost r: Records)
    returns (ghost l': Layout, ghost grown: set<object>)
    requires Holds(list, l, r) && list.IoList? && Io.Runs(m)
    modifies heap, Owned(list, l)
    ensures Holds(list, l', Collected(r, name, w, m)) && Owned(list, l') == Owned(list, l) + grown
    ensures fresh(grown) && heap.live == old(heap.live) + grown
  {
    hide Nested, Collect, Members, AllMembers;
    ghost var os, ws := l.ioOuter, l.ioInner;
    ghost var o, u;
    o, u := ModIo.CollectRecord(heap, list.ios, w.io, m, os, ws, r.ios, AllMembers(ws));
    AllMembersAppend(ws, u);
    l', grown := IoNodes(os + [o], ws + [u]), {o} + Members(u);
  }

  method CollectProc(heap: Heap, list: RecordList, name: string, w: World, m: Io.Machine,
                     ghost l: Layout, ghost r: Records)
    returns (ghost l': Layout, ghost grown: set<object>)
    requires Holds(list, l, r) && list.ProcList? && Io.Runs(m)
    modifies heap, Owned(list, l)
    ensures Holds(list, l', Collected(r, name, w, m)) && Owned(list, l') == Owned(list, l) + grown
    ensures fresh(grown) && heap.live == old(heap.live) + grown
  {
    hide Nested, Collect, Members, AllMembers;
    ghost var os, ws := l.procOuter, l.procInner;
    ghost var o, u;
    o, u := ModProc.CollectRecord(heap, list.procs, w.proc, os, ws, r.procs, AllMembers(ws));
    AllMembersAppend(ws, u);
    l', grown := ProcNodes(os + [o], ws + [u]), {o} + Members(u);
  }

  method CollectAnswer(heap: Heap, list: RecordList, name: string, w: World, m: Io.Machine,
                       ghost l: Layout, ghost r: Records)
    returns (ghost l': Layout, ghost grown: set<object>)
    requires Holds(list, l, r) && list.AnswerList? && Io.Runs(m)
    modifies heap, Owned(list, l)
    ensures Holds(list, l', Collected(r, name, w, m)) && Owned(list, l') == Owned(list, l) + grown
    ensures fresh(grown) && heap.live == old(heap.live) + grown
  {
    hide ModDns.Orphans;
    ghost var s, lists := l.answers, l.lists;
    ghost var t := ModDns.CollectNext(heap, list.answers, Answer(name, w), s, r.answer, lists, r.detached,
                                      ModDns.AllNodes(lists));
    ModDns.AllNodesSnoc(lists, s);
    l', grown := AnswerNodes(t, lists + [s]), Nodes(t);
  }

  method CollectOne(heap: Heap, list: RecordList, name: string, w: World, m: Io.Machine,
                    ghost l: Layout, ghost r: Records)
    returns (ghost l': Layout, ghost grown: set<object>)
    requires Holds(list, l, r) && list.OneList? && Io.Runs(m)
    modifies heap, Owned(list, l)
    ensures Holds(list, l', Collected(r, name, w, m)) && Owned(list, l') == Owned(list, l) + grown
    ensures fresh(grown) && heap.live == old(heap.live) + grown
  {
    hide Nested, AllMembers, ModDns.Collected, ModDns.AllNodes, ModMem.Written, Answer, Writes;
    ghost var t := ModMem.CollectRecord(heap, list.ones, Writes(name, w), l.ones);
    l', grown := OneNode(t), if l.ones == [] then Nodes(t) else {};
  }

  /** `mod->collect_record(mod)`: the list carries what the specification says, and nothing else is touched. */
  method CollectRecord(heap: Heap, list: RecordList, name: string, w: World, m: Io.Machine,
                       ghost l: Layout, ghost r: Records)
    returns (ghost l': Layout, ghost grown: set<object>)
    requires Holds(list, l, r) && Io.Runs(m)
    modifies heap, Owned(list, l)
    ensures Holds(list, l', Collected(r, name, w, m)) && Owned(list, l') == Owned(list, l) + grown
    ensures fresh(grown) && heap.live == old(heap.live) + grown
  {
    assert list != NoList;
    hide *;
    match list
    case CpuList(_) => l', grown := CollectCpu(heap, list, name, w, m, l, r);
    case IoList(_) => l', grown := CollectIo(heap, list, name, w, m, l, r);
    case ProcList(_) => l', grown := CollectProc(heap, list, name, w, m, l, r);
    case AnswerList(_) => l', grown := CollectAnswer(heap, list, name, w, m, l, r);
    case OneList(_) => l', grown := CollectOne(heap, list, name, w, m, l, r);
  }

  // -------------------------------------------------------------- record_to_str

  /** list_last_entry of a nested ring, and the loop over its entries. */
  method ReadLast<T(0)>(head: Node<Node?<T>>, ghost os: seq<Node<Node?<T>>>, ghost ws: seq<Snap<T>>,
                        ghost vs: seq<seq<T>>, ghost all: set<Node<T>>)
    returns (es: seq<T>)
    requires Nested(head, os, ws, vs, all)
    ensures es == if vs == [] then [] else vs[|vs| - 1]
  {
    LastSnapshot(head, os, ws, vs, all);
    hide Nested;
    es := [];
    if !ListEmpty(head) {
      es := ReadEntries(head.prev.entry, ws[|ws| - 1].list);
    }
  }

  /** `mod->record_to_str(mod)`: the buffer `text` afterwards. */
  method RecordToStr(list: RecordList, text: Text, ghost l: Layout, ghost r: Records) returns (text': Text)
    requires Holds(list, l, r)
    ensures text' == Rendered(r, text)
  {
    hide Nested, AllMembers, ModDns.Orphans, ModDns.AllNodes;
    text' := text;
    match list {
      case CpuList(head) =>
        if !ListEmpty(head) {
          text' := CpuText(head.prev.entry);
        }
      case IoList(head) =>
        var es := ReadLast(head, l.ioOuter, l.ioInner, r.ios, AllMembers(l.ioInner));
        if es != [] {
          text' := IoText(es);
        }
      case ProcList(head) =>
        var es := ReadLast(head, l.procOuter, l.procInner, r.procs, AllMembers(l.procInner));
        if es != [] {
          text' := ProcText(es);
        }
      case AnswerList(head) =>
        if !ListEmpty(head) {
          var es := ReadEntries(head, l.answers);
          text' := AnswerText(es);
        }
      case OneList(head) =>
        if !ListEmpty(head) {
          text' := OneText(head.prev.entry);
        }
    }
  }

  // ------------------------------------------------- initialising and freeing

  method NewHead<T(0)>(heap: Heap) returns (head: Node<T>)
    modifies heap
    ensures fresh(head) && Ring(head, []) && heap.live == old(heap.live) + {head}
  {
    head := heap.Malloc<T>();
    InitListHead(head);
  }

  /** The record list of a new module: an empty list, within the memory of the module. */
  method InitRecordList(heap: Heap, callbacks: Callbacks) returns (list: RecordList, ghost l: Layout)
    modifies heap
    ensures Holds(list, l, Initial(callbacks))
    ensures fresh(Owned(list, l)) && heap.live == old(heap.live) + Owned(list, l) && Orphaned(l) == {}
  {
    match callbacks
    case CpuModule =>
      var head := NewHead<Cpu.Cpu>(heap);
      list, l := CpuList(head), CpuNodes([]);
    case IoModule =>
      var head := NewHead<Node?<Io.Io>>(heap);
      list, l := IoList(head), IoNodes([], []);
      NothingNested<Io.Io>(head, [], []);
    case ProcModule =>
      var head := NewHead<Node?<ProcSpec.Proc>>(heap);
      list, l := ProcList(head), ProcNodes([], []);
      NothingNested<ProcSpec.Proc>(head, [], []);
    case AnswerModule =>
      var head := NewHead<string>(heap);
      list, l := AnswerList(head), AnswerNodes([], []);
      ModDns.NothingDetached<string>();
    case OneModule =>
      var head := NewHead<ModMem.Fields>(heap);
      list, l := OneList(head), OneNode([]);
  }

  method FreeNested<T(0)>(heap: Heap, head: Node<Node?<T>>, ghost os: seq<Node<Node?<T>>>, ghost ws: seq<Snap<T>>,
                          ghost vs: seq<seq<T>>)
    requires Nested(head, os, ws, vs, AllMembers(ws))
    requires head in heap.live && Nodes(os) <= heap.live && AllMembers(ws) <= heap.live
    modifies heap, os, AllMembers(ws)
    ensures var inner: set<object> := AllMembers(ws); heap.live == old(heap.live) - (Nodes(os) + inner)
  {
    hide *;
    Snapshots.FreeRecordList(heap, head, os, ws, vs, AllMembers(ws));
  }

  /** `mod->free_record_list(&mod->record_list)`: what is in the list is freed, what was detached from it is not. */
  method FreeRecordList(heap: Heap, list: RecordList, ghost l: Layout, ghost r: Records)
    requires Holds(list, l, r) && Owned(list, l) <= heap.live
    modifies heap, Listed(l)
    ensures heap.live == old(heap.live) - Listed(l)
  {
    hide Nested, Ring, AllMembers, ModDns.Orphans, ModDns.AllNodes;
    ghost var freed: seq<object>;
    match list
    case CpuList(head) => freed := FreeListHead(heap, head, l.cpus);
    case IoList(head) => FreeNested(heap, head, l.ioOuter, l.ioInner, r.ios);
    case ProcList(head) => FreeNested(heap, head, l.procOuter, l.procInner, r.procs);
    case AnswerList(head) => freed := FreeListHead(heap, head, l.answers);
    case OneList(head) => freed := FreeListHead(heap, head, l.ones);
  }

  /** Part of freeing a module_t: the list head goes with it. */
  method FreeHead(heap: Heap, list: RecordList)
    requires Head(list) <= heap.live
    modifies heap, Head(list)
    ensures heap.live == old(heap.live) - Head(list)
  {
    match list
    case NoList =>
    case CpuList(head) => heap.Free(head);
    case IoList(head) => heap.Free(head);
    case ProcList(head) => heap.Free(head);
    case AnswerList(head) => heap.Free(head);
    case OneList(head) => heap.Free(head);
  }

  /** The list head, the listed nodes and the orphaned ones are three disjoint parts. */
  lemma OwnedParts(list: RecordList, l: Layout, r: Records)
    requires Holds(list, l, r)
    ensures Head(list) !! Listed(l) && Head(list) !! Orphaned(l) && Listed(l) !! Orphaned(l)
  {
  }
}
