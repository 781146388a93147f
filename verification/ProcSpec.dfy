/**
  The join of libzsr/proc.c:190-266 as a function on the two lists of samples, and when it
  means what include/zsr/zsr.h:185 documents.
 */
module ProcSpec {
  import opened Searching
  import opened Words

  /** The fields of proc_t that the join reads and writes. */
  datatype Proc = Proc(pid: u64, cpuTime: u64, sysCpuTime: u64, cpuUtil: Double)

  /** One row of the arrays `cs_array`. */
  datatype Delta = Delta(pid: u64, cpuTime: u64, sysCpuTime: u64)

  const EMPTY_ROW := Delta(0, 0, 0)

  function Util(d: Delta): Double {
    Ratio(d.cpuTime as real * 100.0, d.sysCpuTime as real)
  }

  function Change(cur: Proc, pre: Proc): Delta {
    Delta(cur.pid, Sub(cur.cpuTime, pre.cpuTime), Sub(cur.sysCpuTime, pre.sysCpuTime))
  }

  function Pids(ps: seq<Proc>): (pids: seq<u64>)
    ensures |pids| == |ps| && forall i :: 0 <= i < |ps| ==> pids[i] == ps[i].pid
  {
    seq(|ps|, i requires 0 <= i < |ps| => ps[i].pid)
  }

  // ------------------------------------------------------ the code, as written

  /**
    Rows collected from the first `c` current samples: one for each whose pid is in `prev`, in
    order. `used[c]` is the previous sample that position `c` is compared with.
   */
  function Rows(cur: seq<Proc>, prev: seq<Proc>, used: seq<Proc>, c: nat): (rows: seq<Delta>)
    requires c <= |cur| == |used|
    ensures |rows| <= c
  {
    if c == 0 then []
    else if cur[c - 1].pid in Pids(prev) then Rows(cur, prev, used, c - 1) + [Change(cur[c - 1], used[c - 1])]
    else Rows(cur, prev, used, c - 1)
  }

  /** The array has room for every current sample; rows that were not filled are zero. */
  function Row(rows: seq<Delta>, i: nat): Delta {
    if i < |rows| then rows[i] else EMPTY_ROW
  }

  /** A row goes to the first list entry that has its pid. */
  function WriteRow(es: seq<Proc>, row: Delta): (r: seq<Proc>)
    ensures |r| == |es| && Pids(r) == Pids(es)
  {
    var k := Find(Pids(es), row.pid);
    if k < |es| then es[k := es[k].(cpuUtil := Util(row))] else es
  }

  /** The list after the first `i` rows of the array have been written back. */
  function WriteBack(cur: seq<Proc>, rows: seq<Delta>, i: nat): (r: seq<Proc>)
    ensures |r| == |cur| && Pids(r) == Pids(cur)
  {
    if i == 0 then cur else WriteRow(WriteBack(cur, rows, i - 1), Row(rows, i - 1))
  }

  function Joined(cur: seq<Proc>, prev: seq<Proc>, used: seq<Proc>): (r: seq<Proc>)
    requires |used| == |cur|
    ensures Pids(r) == Pids(cur)
  {
    WriteBack(cur, Rows(cur, prev, used, |cur|), |cur|)
  }

  /**
    Lines 246 and 249 read the previous arrays at `c`, the position in the current list. Past
    their end C gives the read no meaning; it returns what `beyond` says lies there.
   */
  function ReadAt(prev: seq<Proc>, beyond: seq<Proc>, c: nat): Proc {
    if c < |prev| then prev[c] else PastEnd(beyond, c - |prev|)
  }

  function PastEnd(beyond: seq<Proc>, k: nat): Proc {
    if k < |beyond| then beyond[k] else Proc(0, 0, 0, Real(0.0))
  }

  function AtSamePosition(cur: seq<Proc>, prev: seq<Proc>, beyond: seq<Proc>): (used: seq<Proc>)
    ensures |used| == |cur|
  {
    seq(|cur|, c requires 0 <= c < |cur| => ReadAt(prev, beyond, c))
  }

  /** Some matched current sample has no previous sample at its position. */
  predicate ReadsPastEnd(cp: seq<u64>, pp: seq<u64>) {
    ReadsPastEndBefore(cp, pp, |cp|)
  }

  predicate ReadsPastEndBefore(cp: seq<u64>, pp: seq<u64>, n: nat)
    requires n <= |cp|
  {
    exists c :: 0 <= c < n && cp[c] in pp && c >= |pp|
  }

  lemma ReadsPastEndStep(cp: seq<u64>, pp: seq<u64>, n: nat)
    requires n < |cp|
    ensures ReadsPastEndBefore(cp, pp, n + 1) <==> ReadsPastEndBefore(cp, pp, n) || (cp[n] in pp && n >= |pp|)
  {
  }

  /** compute_proc_cpu_stat on the values of the two lists. */
  function Computed(cur: seq<Proc>, prev: seq<Proc>, beyond: seq<Proc>): (r: seq<Proc>)
    ensures Pids(r) == Pids(cur)
  {
    Joined(cur, prev, AtSamePosition(cur, prev, beyond))
  }

  /** The rows are read at `p`, where the pid was found. */
  function AtSamePid(cur: seq<Proc>, prev: seq<Proc>): (used: seq<Proc>)
    ensures |used| == |cur|
  {
    seq(|cur|, c requires 0 <= c < |cur| =>
      var p := Find(Pids(prev), cur[c].pid); if p < |prev| then prev[p] else cur[c])
  }

  /** The documented result: a process seen before gets 100 * (its cpu time change) / (its system time change). */
  function Documented(cur: seq<Proc>, prev: seq<Proc>): (r: seq<Proc>)
    ensures |r| == |cur|
  {
    seq(|cur|, c requires 0 <= c < |cur| =>
      var p := Find(Pids(prev), cur[c].pid);
      if p < |prev| then cur[c].(cpuUtil := Util(Change(cur[c], prev[p]))) else cur[c])
  }

  // ------------------------------------------------- what the write-back leaves

  function LastRow(rows: seq<Delta>, pid: u64, i: nat): Option<Delta> {
    if i == 0 then None
    else if Row(rows, i - 1).pid == pid then Some(Row(rows, i - 1))
    else LastRow(rows, pid, i - 1)
  }

  function Overwritten(p: Proc, row: Option<Delta>): Proc {
    if row.Some? then p.(cpuUtil := Util(row.value)) else p
  }

  /** Only the first entry with its pid is ever written, and the last row with that pid wins. */
  lemma {:induction false} WriteBackAt(cur: seq<Proc>, rows: seq<Delta>, i: nat, k: nat)
    requires k < |cur|
    ensures WriteBack(cur, rows, i)[k]
         == if Find(Pids(cur), cur[k].pid) == k then Overwritten(cur[k], LastRow(rows, cur[k].pid, i)) else cur[k]
  {
    hide WriteRow, Util;
    if i > 0 {
      WriteBackAt(cur, rows, i - 1, k);
      WriteRowAt(WriteBack(cur, rows, i - 1), Row(rows, i - 1), k);
    }
  }

  lemma WriteRowAt(es: seq<Proc>, row: Delta, k: nat)
    requires k < |es|
    ensures WriteRow(es, row)[k]
         == if Find(Pids(es), row.pid) == k then es[k].(cpuUtil := Util(row)) else es[k]
    ensures Find(Pids(es), row.pid) == k <==> es[k].pid == row.pid && Find(Pids(es), es[k].pid) == k
  {
  }

  /** The last of the first `c` current samples with this pid that is also in `prev`. */
  function LastMatch(cur: seq<Proc>, prev: seq<Proc>, used: seq<Proc>, pid: u64, c: nat): Option<Delta>
    requires c <= |cur| == |used|
  {
    if c == 0 then None
    else if cur[c - 1].pid == pid && pid in Pids(prev) then Some(Change(cur[c - 1], used[c - 1]))
    else LastMatch(cur, prev, used, pid, c - 1)
  }

  lemma {:induction false} LastRowPrefix(rows: seq<Delta>, more: seq<Delta>, pid: u64, i: nat)
    requires i <= |rows|
    ensures LastRow(rows + more, pid, i) == LastRow(rows, pid, i)
  {
    if i > 0 {
      LastRowPrefix(rows, more, pid, i - 1);
    }
  }

  /** Compacting the matches into rows loses nothing: the last row of a pid is its last match. */
  lemma {:induction false} LastRowIsLastMatch(cur: seq<Proc>, prev: seq<Proc>, used: seq<Proc>, pid: u64, c: nat)
    requires c <= |cur| == |used|
    ensures var rows := Rows(cur, prev, used, c);
      LastRow(rows, pid, |rows|) == LastMatch(cur, prev, used, pid, c)
  {
    if c > 0 {
      LastRowIsLastMatch(cur, prev, used, pid, c - 1);
      var rows := Rows(cur, prev, used, c - 1);
      LastRowPrefix(rows, [Change(cur[c - 1], used[c - 1])], pid, |rows|);
    }
  }

  /** The rows that were never filled act as rows of pid 0. */
  lemma {:induction false} UnusedRows(rows: seq<Delta>, pid: u64, n: nat)
    requires n >= |rows|
    ensures LastRow(rows, pid, n) == if pid == 0 && n > |rows| then Some(EMPTY_ROW) else LastRow(rows, pid, |rows|)
  {
    if n > |rows| {
      UnusedRows(rows, pid, n - 1);
    }
  }

  predicate AllSeenBefore(cp: seq<u64>, pp: seq<u64>, n: nat)
    requires n <= |cp|
  {
    forall c :: 0 <= c < n ==> cp[c] in pp
  }

  lemma {:induction false} RowsAreFullExactlyWhen(cur: seq<Proc>, prev: seq<Proc>, used: seq<Proc>, c: nat)
    requires c <= |cur| == |used|
    ensures |Rows(cur, prev, used, c)| == c <==> AllSeenBefore(Pids(cur), Pids(prev), c)
  {
    if c > 0 {
      RowsAreFullExactlyWhen(cur, prev, used, c - 1);
    }
  }

  /** The whole join, entry by entry, for any lists and any choice of previous samples. */
  lemma JoinedAt(cur: seq<Proc>, prev: seq<Proc>, used: seq<Proc>, k: nat)
    requires k < |cur| == |used|
    ensures var pid := cur[k].pid;
      Joined(cur, prev, used)[k] ==
        if Find(Pids(cur), pid) != k then cur[k]
        else if pid == 0 && !AllSeenBefore(Pids(cur), Pids(prev), |cur|) then cur[k].(cpuUtil := NaN)
        else Overwritten(cur[k], LastMatch(cur, prev, used, pid, |cur|))
  {
    var rows := Rows(cur, prev, used, |cur|);
    WriteBackAt(cur, rows, |cur|, k);
    UnusedRows(rows, cur[k].pid, |cur|);
    LastRowIsLastMatch(cur, prev, used, cur[k].pid, |cur|);
    RowsAreFullExactlyWhen(cur, prev, used, |cur|);
  }
}
