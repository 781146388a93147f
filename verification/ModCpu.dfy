/** zsr/module/mod_cpu.c on the heap: the record list is a ring of cpu_t structs. */
module ModCpu {
  import opened Cpu
  import opened Histories
  import opened Iteration
  import opened Rings

  /** collect_record: the new record is computed against the last one and appended. */
  method CollectRecord(heap: Heap, recordList: Node<Cpu>, sample: CpuStat, ghost s: seq<Node<Cpu>>)
    returns (ghost n: Node<Cpu>)
    requires Ring(recordList, s)
    modifies heap, Nodes([recordList] + s)`next, Nodes([recordList] + s)`prev
    ensures fresh(n) && heap.live == old(heap.live) + {n}
    ensures Ring(recordList, s + [n])
    ensures Entries(s + [n]) == Collect(Start, Next, old(Entries(s)), sample)
  {
    hide Computed, Start;
    ghost var records := Entries(s);
    var entry := heap.Malloc<Cpu>();
    entry.entry := Start(sample);
    if !ListEmpty(recordList) {
      var prevRecord := recordList.prev;
      assert s != [] && prevRecord == s[|s| - 1];
      ComputeCpuStat(entry, prevRecord);
    }
    ghost var record := entry.entry;
    assert Entries(s) == records && [record] == Collect(Start, Next, records, sample)[|s|..];
    ListAddTail(entry, recordList, s);
    n := entry;
    assert n.entry == record && Entries(s) == records;
    EntriesAppend(s, [n]);
  }

  /** From an initialised head, one collection per sample leaves the whole history in the ring. */
  method CollectRounds(heap: Heap, recordList: Node<Cpu>, samples: seq<CpuStat>) returns (ghost s: seq<Node<Cpu>>)
    requires Ring(recordList, [])
    modifies heap, recordList`next, recordList`prev
    ensures Ring(recordList, s) && fresh(s) && Entries(s) == Records(samples)
    ensures heap.live == old(heap.live) + Nodes(s)
  {
    hide Computed, Collect;
    s := [];
    for i := 0 to |samples|
      invariant Ring(recordList, s) && fresh(s) && Entries(s) == Records(samples[..i])
      invariant heap.live == old(heap.live) + Nodes(s)
    {
      var n := CollectRecord(heap, recordList, samples[i], s);
      assert samples[..i + 1][..i] == samples[..i];
      s := s + [n];
    }
    assert samples[..|samples|] == samples;
  }

  /** A whole life: whatever was collected is freed again, and nothing else. */
  method CollectThenFree(heap: Heap, recordList: Node<Cpu>, samples: seq<CpuStat>)
    requires Ring(recordList, []) && recordList in heap.live
    modifies heap, recordList`next, recordList`prev
    ensures heap.live == old(heap.live)
  {
    ghost var s := CollectRounds(heap, recordList, samples);
    ghost var freed := FreeListHead(heap, recordList, s);
  }
}
