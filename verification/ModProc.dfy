/** zsr/module/mod_proc.c on the heap, and its whole history. */
module ModProc {
  import opened Histories
  import opened Iteration
  import opened ProcStat
  import opened ProcMeaning
  import opened ProcSpec
  import opened Rings
  import opened Snapshots
  import opened Words
  import Cpu

  /** What store_single_pid_info reads of one process: its pid and its two times, and the counters of /proc/stat. */
  datatype Sample = Sample(pid: u64, utime: u64, stime: u64, cpu: Cpu.CpuStat)

  /** One pass over /proc; `beyond` is what lies behind the arrays of the previous list (ProcSpec.ReadAt). */
  datatype Reading = Reading(samples: seq<Sample>, beyond: seq<Proc>)

  function Start(r: Reading): (es: seq<Proc>)
    ensures |es| == |r.samples|
  {
    seq(|r.samples|, i requires 0 <= i < |r.samples| =>
      var x := r.samples[i]; Proc(x.pid, Add(x.utime, x.stime), SysCpuTime(x.cpu), Real(0.0)))
  }

  function Next(r: Reading, last: seq<Proc>): seq<Proc> {
    Computed(Start(r), last, r.beyond)
  }

  function Records(run: seq<Reading>): seq<seq<Proc>> {
    History(Start, Next, run)
  }

  /**
    Over a whole run, a round whose pid list is faithful to the one before it reports the
    documented shares, whatever the other rounds looked like; the raw samples are always kept.
   */
  lemma FaithfulRoundIsDocumented(run: seq<Reading>, i: nat)
    requires 0 < i < |run|
    requires Faithful(Pids(Start(run[i])), Pids(Start(run[i - 1])))
    ensures Records(run)[i] == Documented(Start(run[i]), Records(run)[i - 1])
    ensures Pids(Records(run)[i - 1]) == Pids(Start(run[i - 1]))
  {
    hide Computed, Documented, Faithful;
    HistoryIsChained(Start, Next, run);
    RecordKeepsPids(run, i - 1);
    FaithfulIsCorrect(Start(run[i]), Records(run)[i - 1], run[i].beyond);
  }

  lemma RecordKeepsPids(run: seq<Reading>, i: nat)
    requires i < |run|
    ensures Pids(Records(run)[i]) == Pids(Start(run[i]))
  {
    hide Computed;
    HistoryIsChained(Start, Next, run);
    assert i > 0 ==> Records(run)[i] == Next(run[i], Records(run)[i - 1]);
  }

  /** The shares are computed from the second collection on, against the last list in the ring. */
  method ComputeAgainstLast(curList: Node<Node?<Proc>>, recordList: Node<Node?<Proc>>, beyond: seq<Proc>,
                            ghost w: Snap<Proc>, ghost v: seq<Proc>, ghost os: seq<Node<Node?<Proc>>>,
                            ghost ws: seq<Snap<Proc>>, ghost vs: seq<seq<Proc>>, ghost all: set<Node<Proc>>)
    requires Nested(recordList, os, ws, vs, all) && Hung(curList, w, v)
    modifies Nodes(w.list)`entry
    ensures Hung(curList, w, if vs == [] then v else Computed(v, vs[|vs| - 1], beyond))
  {
    LastSnapshot(recordList, os, ws, vs, all);
    hide Ring, Nested, Computed;
    if !ListEmpty(recordList) {
      var prevList := recordList.prev;
      ghost var n := |os| - 1;
      var overrun := ComputeProcCpuStat(curList.entry, prevList.entry, beyond, w.list, ws[n].list);
    }
  }

  /** collect_record: a new list of processes is read, computed against the last list, and appended. */
  method CollectRecord(heap: Heap, recordList: Node<Node?<Proc>>, r: Reading,
                       ghost os: seq<Node<Node?<Proc>>>, ghost ws: seq<Snap<Proc>>, ghost vs: seq<seq<Proc>>,
                       ghost all: set<Node<Proc>>)
    returns (ghost o: Node<Node?<Proc>>, ghost w: Snap<Proc>)
    requires Nested(recordList, os, ws, vs, all)
    modifies heap, Nodes([recordList] + os)`next, Nodes([recordList] + os)`prev
    ensures fresh(o) && fresh(Members(w))
    ensures Nested(recordList, os + [o], ws + [w], Collect(Start, Next, vs, r), all + Members(w))
    ensures heap.live == old(heap.live) + {o} + Members(w)
  {
    hide Computed, Start, Nested, Hung;
    var curList;
    curList, w := ReadSnapshot(heap, Start(r));
    o := curList;
    ghost var v := Start(r);
    ComputeAgainstLast(curList, recordList, r.beyond, w, v, os, ws, vs, all);
    assert Nested(recordList, os, ws, vs, all);
    v := if vs == [] then v else Computed(v, vs[|vs| - 1], r.beyond);
    AddSnapshot(curList, recordList, w, v, os, ws, vs, all);
  }

  /** One more round, over everything allocated since `before`. */
  method CollectAnother(heap: Heap, recordList: Node<Node?<Proc>>, r: Reading, ghost before: set<object>,
                        ghost os: seq<Node<Node?<Proc>>>, ghost ws: seq<Snap<Proc>>, ghost vs: seq<seq<Proc>>)
    returns (ghost o: Node<Node?<Proc>>, ghost w: Snap<Proc>)
    requires Nested(recordList, os, ws, vs, AllMembers(ws))
    requires heap.live == before + Nodes(os) + AllMembers(ws)
    modifies heap, recordList`next, recordList`prev, os
    ensures fresh(o) && fresh(Members(w)) && AllMembers(ws + [w]) == AllMembers(ws) + Members(w)
    ensures Nested(recordList, os + [o], ws + [w], Collect(Start, Next, vs, r), AllMembers(ws + [w]))
    ensures heap.live == before + Nodes(os + [o]) + AllMembers(ws + [w])
  {
    hide Nested, Members, AllMembers, Collect;
    o, w := CollectRecord(heap, recordList, r, os, ws, vs, AllMembers(ws));
    AllMembersAppend(ws, w);
    LiveGrows(before, os, o, AllMembers(ws), Members(w));
  }

  lemma LastRound(run: seq<Reading>)
    ensures Records(run) == if run == [] then [] else Collect(Start, Next, Records(run[..|run| - 1]), run[|run| - 1])
  {
  }

  /** From an initialised head, the nested ring holds the whole history, each list computed against the one before. */
  method CollectRounds(heap: Heap, recordList: Node<Node?<Proc>>, run: seq<Reading>)
    returns (ghost os: seq<Node<Node?<Proc>>>, ghost ws: seq<Snap<Proc>>)
    requires Ring(recordList, [])
    modifies heap, recordList`next, recordList`prev
    ensures Nested(recordList, os, ws, Records(run), AllMembers(ws))
    ensures fresh(os) && fresh(AllMembers(ws))
    ensures heap.live == old(heap.live) + Nodes(os) + AllMembers(ws)
  {
    hide *;
    LastRound(run);
    if run == [] {
      os, ws := [], [];
      NothingNested(recordList, os, ws);
    } else {
      var n := |run| - 1;
      os, ws := CollectRounds(heap, recordList, run[..n]);
      ghost var o, w;
      o, w := CollectAnother(heap, recordList, run[n], old(heap.live), os, ws, Records(run[..n]));
      os, ws := os + [o], ws + [w];
    }
  }

  /** A whole life: whatever was collected is freed again, and nothing else. */
  method CollectThenFree(heap: Heap, recordList: Node<Node?<Proc>>, run: seq<Reading>)
    requires Ring(recordList, []) && recordList in heap.live
    modifies heap, recordList`next, recordList`prev
    ensures heap.live == old(heap.live)
  {
    hide Nested, Ring, AllMembers;
    ghost var os, ws;
    os, ws := CollectRounds(heap, recordList, run);
    FreeRecordList(heap, recordList, os, ws, Records(run), AllMembers(ws));
  }
}
