/** zsr/module/mod_io.c on the heap. */
module ModIo {
  import opened Histories
  import opened Io
  import opened IoLaws
  import opened Iteration
  import opened Rings
  import opened Snapshots

  /** The statistics are computed from the second collection on, against the last list in the ring. */
  method RateAgainstLast(curList: Node<Node?<Io>>, recordList: Node<Node?<Io>>, m: Machine,
                         ghost w: Snap<Io>, ghost v: seq<Io>, ghost os: seq<Node<Node?<Io>>>, ghost ws: seq<Snap<Io>>,
                         ghost vs: seq<seq<Io>>, ghost all: set<Node<Io>>)
    requires Nested(recordList, os, ws, vs, all) && Hung(curList, w, v) && Runs(m)
    modifies Nodes(w.list)`entry
    ensures Hung(curList, w, if vs == [] then v else Computed(v, vs[|vs| - 1], m))
  {
    LastSnapshot(recordList, os, ws, vs, all);
    hide Ring, Nested, Computed, SameRaw;
    if !ListEmpty(recordList) {
      var prevList := recordList.prev;
      ghost var n := |os| - 1;
      ComputeIoStat(curList.entry, prevList.entry, m, w.list, ws[n].list);
    }
  }

  /** collect_record: a new list of devices is read, rated against the last list, and appended. */
  method CollectRecord(heap: Heap, recordList: Node<Node?<Io>>, samples: seq<Sample>, m: Machine,
                       ghost os: seq<Node<Node?<Io>>>, ghost ws: seq<Snap<Io>>, ghost vs: seq<seq<Io>>,
                       ghost all: set<Node<Io>>)
    returns (ghost o: Node<Node?<Io>>, ghost w: Snap<Io>)
    requires Nested(recordList, os, ws, vs, all) && Runs(m)
    modifies heap, Nodes([recordList] + os)`next, Nodes([recordList] + os)`prev
    ensures fresh(o) && fresh(Members(w))
    ensures Nested(recordList, os + [o], ws + [w], Collect(Start, Next(m), vs, samples), all + Members(w))
    ensures heap.live == old(heap.live) + {o} + Members(w)
  {
    hide Computed, Start, Nested, Hung;
    var curList;
    curList, w := ReadSnapshot(heap, Start(samples));
    o := curList;
    ghost var v := Start(samples);
    RateAgainstLast(curList, recordList, m, w, v, os, ws, vs, all);
    assert Nested(recordList, os, ws, vs, all);
    v := if vs == [] then v else Computed(v, vs[|vs| - 1], m);
    AddSnapshot(curList, recordList, w, v, os, ws, vs, all);
  }

  /** One more round, over everything allocated since `before`. */
  method CollectAnother(heap: Heap, recordList: Node<Node?<Io>>, samples: seq<Sample>, m: Machine,
                        ghost before: set<object>, ghost os: seq<Node<Node?<Io>>>, ghost ws: seq<Snap<Io>>,
                        ghost vs: seq<seq<Io>>)
    returns (ghost o: Node<Node?<Io>>, ghost w: Snap<Io>)
    requires Nested(recordList, os, ws, vs, AllMembers(ws)) && Runs(m)
    requires heap.live == before + Nodes(os) + AllMembers(ws)
    modifies heap, recordList`next, recordList`prev, os
    ensures fresh(o) && fresh(Members(w)) && AllMembers(ws + [w]) == AllMembers(ws) + Members(w)
    ensures Nested(recordList, os + [o], ws + [w], Collect(Start, Next(m), vs, samples), AllMembers(ws + [w]))
    ensures heap.live == before + Nodes(os + [o]) + AllMembers(ws + [w])
  {
    hide Nested, Members, AllMembers, Collect;
    o, w := CollectRecord(heap, recordList, samples, m, os, ws, vs, AllMembers(ws));
    AllMembersAppend(ws, w);
    LiveGrows(before, os, o, AllMembers(ws), Members(w));
  }

  lemma LastRound(run: seq<seq<Sample>>, m: Machine)
    requires Runs(m)
    ensures Records(run, m)
         == if run == [] then [] else Collect(Start, Next(m), Records(run[..|run| - 1], m), run[|run| - 1])
  {
  }

  /** From an initialised head, the nested ring holds the whole history, each list rated against the one before it. */
  method CollectRounds(heap: Heap, recordList: Node<Node?<Io>>, run: seq<seq<Sample>>, m: Machine)
    returns (ghost os: seq<Node<Node?<Io>>>, ghost ws: seq<Snap<Io>>)
    requires Ring(recordList, []) && Runs(m)
    modifies heap, recordList`next, recordList`prev
    ensures Nested(recordList, os, ws, Records(run, m), AllMembers(ws))
    ensures fresh(os) && fresh(AllMembers(ws))
    ensures heap.live == old(heap.live) + Nodes(os) + AllMembers(ws)
  {
    hide *;
    LastRound(run, m);
    if run == [] {
      os, ws := [], [];
      NothingNested(recordList, os, ws);
    } else {
      var n := |run| - 1;
      os, ws := CollectRounds(heap, recordList, run[..n], m);
      ghost var o, w;
      o, w := CollectAnother(heap, recordList, run[n], m, old(heap.live), os, ws, Records(run[..n], m));
      os, ws := os + [o], ws + [w];
    }
  }

  /** A whole life: whatever was collected is freed again, and nothing else. */
  method CollectThenFree(heap: Heap, recordList: Node<Node?<Io>>, run: seq<seq<Sample>>, m: Machine)
    requires Ring(recordList, []) && Runs(m) && recordList in heap.live
    modifies heap, recordList`next, recordList`prev
    ensures heap.live == old(heap.live)
  {
    hide Nested, Ring, AllMembers;
    ghost var os, ws;
    os, ws := CollectRounds(heap, recordList, run, m);
    FreeRecordList(heap, recordList, os, ws, Records(run, m), AllMembers(ws));
  }
}
