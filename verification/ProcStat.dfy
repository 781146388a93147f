/** compute_proc_cpu_stat and set_sys_cpu_time of libzsr/proc.c. */
module ProcStat {
  import opened Words
  import opened Rings
  import opened ProcSpec
  import opened Searching
  import Cpu

  /** set_sys_cpu_time adds up all ten counters. */
  function SysCpuTime(cpu: Cpu.CpuStat): u64 {
    Wrap(cpu.guest + cpu.hardirq + cpu.idle + cpu.iowait + cpu.nice
         + cpu.number + cpu.softirq + cpu.steal + cpu.sys + cpu.user)
  }

  /** The system time of a process exceeds the total of a cpu record by guest and number, which user and nice hold. */
  lemma SysCpuTimeCountsGuestTwice(cpu: Cpu.CpuStat)
    ensures SysCpuTime(cpu) == Wrap(Cpu.SumCpuStat(cpu) + cpu.guest + cpu.number)
  {
    WrapAbsorbs(cpu.hardirq + cpu.idle + cpu.iowait + cpu.nice + cpu.softirq + cpu.steal + cpu.sys + cpu.user,
                cpu.guest + cpu.number);
  }

  /** proc_cpu_stat_array_t: three parallel arrays. */
  datatype StatArrays = StatArrays(pid: array<u64>, cpuTime: array<u64>, sysCpuTime: array<u64>)

  ghost predicate Shaped(a: StatArrays, n: nat) {
    && a.pid.Length == a.cpuTime.Length == a.sysCpuTime.Length == n
    && a.pid != a.cpuTime && a.pid != a.sysCpuTime && a.cpuTime != a.sysCpuTime
  }

  ghost function Arrays(a: StatArrays): set<object> {
    {a.pid, a.cpuTime, a.sysCpuTime}
  }

  function RowAt(a: StatArrays, i: nat): Delta
    requires i < a.pid.Length && i < a.cpuTime.Length && i < a.sysCpuTime.Length
    reads a.pid, a.cpuTime, a.sysCpuTime
  {
    Delta(a.pid[i], a.cpuTime[i], a.sysCpuTime[i])
  }

  /** Position `i` of the arrays holds the three staged fields of `es[i]`. */
  ghost predicate Holds(a: StatArrays, es: seq<Proc>, n: nat)
    requires Shaped(a, |es|) && n <= |es|
    reads a.pid, a.cpuTime, a.sysCpuTime
  {
    forall i :: 0 <= i < n ==> RowAt(a, i) == Delta(es[i].pid, es[i].cpuTime, es[i].sysCpuTime)
  }

  /** The arrays hold `rows`, and zeros behind them. */
  ghost predicate HoldsRows(a: StatArrays, rows: seq<Delta>, n: nat)
    requires Shaped(a, n)
    reads a.pid, a.cpuTime, a.sysCpuTime
  {
    |rows| <= n && forall i :: 0 <= i < n ==> RowAt(a, i) == Row(rows, i)
  }

  method CountEntries(head: Node<Proc>, ghost s: seq<Node<Proc>>) returns (n: nat)
    requires Ring(head, s)
    ensures n == |s|
  {
    n := 0;
    var entry := head.next;
    while entry != head
      invariant n <= |s| && entry == if n < |s| then s[n] else head
      decreases |s| - n
    {
      n := n + 1;
      entry := entry.next;
    }
  }

  method CallocArrays(n: nat) returns (a: StatArrays)
    ensures Shaped(a, n) && fresh(Arrays(a)) && HoldsRows(a, [], n)
  {
    var pid := new u64[n](_ => 0);
    var cpuTime := new u64[n](_ => 0);
    var sysCpuTime := new u64[n](_ => 0);
    a := StatArrays(pid, cpuTime, sysCpuTime);
  }

  /** Lines 223-228 and 232-237: a list is copied into its arrays. */
  method Stage(head: Node<Proc>, a: StatArrays, ghost s: seq<Node<Proc>>)
    requires Ring(head, s) && Shaped(a, |s|)
    modifies Arrays(a)
    ensures Holds(a, Entries(s), |s|)
  {
    var i := 0;
    var entry := head.next;
    while entry != head
      invariant i <= |s| && entry == if i < |s| then s[i] else head
      invariant Holds(a, Entries(s), i)
      decreases |s| - i
    {
      a.pid[i] := entry.entry.pid;
      a.cpuTime[i] := entry.entry.cpuTime;
      a.sysCpuTime[i] := entry.entry.sysCpuTime;
      i := i + 1;
      entry := entry.next;
    }
  }

  method PutRow(a: StatArrays, i: nat, pid: u64, cpuTime: u64, sysCpuTime: u64, ghost rows: seq<Delta>)
    requires Shaped(a, a.pid.Length) && i < a.pid.Length
    requires HoldsRows(a, rows, a.pid.Length) && i == |rows|
    modifies Arrays(a)
    ensures HoldsRows(a, rows + [Delta(pid, cpuTime, sysCpuTime)], a.pid.Length)
  {
    a.pid[i] := pid;
    a.cpuTime[i] := cpuTime;
    a.sysCpuTime[i] := sysCpuTime;
    ghost var t := rows + [Delta(pid, cpuTime, sysCpuTime)];
    forall j | 0 <= j < a.pid.Length ensures RowAt(a, j) == Row(t, j) {
      if j != i {
        assert RowAt(a, j) == old(RowAt(a, j)) == Row(rows, j);
      }
    }
  }

  /** The inner loop: it stops at the first previous position of the pid. */
  method FindPid(prev: StatArrays, pid: u64, prevNum: nat, ghost prevs: seq<Proc>) returns (p: nat)
    requires prevNum == |prevs| && Shaped(prev, prevNum) && Holds(prev, prevs, prevNum)
    ensures p == Find(Pids(prevs), pid)
  {
    p := 0;
    while p < prevNum && pid != prev.pid[p]
      invariant p <= prevNum
      invariant forall q :: 0 <= q < p ==> Pids(prevs)[q] != pid
    {
      assert RowAt(prev, p).pid == Pids(prevs)[p];
      p := p + 1;
    }
    assert p < prevNum ==> RowAt(prev, p).pid == Pids(prevs)[p];
  }

  lemma NothingJoined(cur: seq<Proc>, prev: seq<Proc>, used: seq<Proc>)
    requires |cur| == |used|
    ensures Rows(cur, prev, used, 0) == [] && !ReadsPastEndBefore(Pids(cur), Pids(prev), 0)
    ensures ReadsPastEnd(Pids(cur), Pids(prev)) <==> ReadsPastEndBefore(Pids(cur), Pids(prev), |cur|)
  {
  }

  lemma RowsStep(cur: seq<Proc>, prev: seq<Proc>, used: seq<Proc>, c: nat)
    requires c < |cur| == |used|
    ensures Rows(cur, prev, used, c + 1)
         == if cur[c].pid in Pids(prev) then Rows(cur, prev, used, c) + [Change(cur[c], used[c])]
            else Rows(cur, prev, used, c)
  {
    hide Change, Pids;
  }

  lemma HoldsAt(a: StatArrays, es: seq<Proc>, i: nat)
    requires Shaped(a, |es|) && Holds(a, es, |es|) && i < |es|
    ensures a.pid[i] == es[i].pid && a.cpuTime[i] == es[i].cpuTime && a.sysCpuTime[i] == es[i].sysCpuTime
  {
    assert RowAt(a, i) == Delta(es[i].pid, es[i].cpuTime, es[i].sysCpuTime);
  }

  /** The two reads of the previous arrays at `c`, a position in the current list. */
  method ReadPrevious(prev: StatArrays, c: nat, prevNum: nat, beyond: seq<Proc>, ghost prevs: seq<Proc>)
    returns (cpuTime: u64, sysCpuTime: u64)
    requires prevNum == |prevs| && Shaped(prev, prevNum) && Holds(prev, prevs, prevNum)
    ensures cpuTime == ReadAt(prevs, beyond, c).cpuTime && sysCpuTime == ReadAt(prevs, beyond, c).sysCpuTime
  {
    if c < prevNum {
      HoldsAt(prev, prevs, c);
      cpuTime, sysCpuTime := prev.cpuTime[c], prev.sysCpuTime[c];
    } else {
      var past := PastEnd(beyond, c - prevNum);
      cpuTime, sysCpuTime := past.cpuTime, past.sysCpuTime;
    }
  }

  /**
    Lines 239-255: the join by pid. `overrun` tells whether a previous array was read past its
    end, at a position `c` that only the current list has.
   */
  method Join(cur: StatArrays, prev: StatArrays, cs: StatArrays, curNum: nat, prevNum: nat, beyond: seq<Proc>,
              ghost curs: seq<Proc>, ghost prevs: seq<Proc>)
    returns (overrun: bool)
    requires curNum == |curs| && prevNum == |prevs|
    requires Shaped(cur, curNum) && Shaped(prev, prevNum) && Shaped(cs, curNum)
    requires Arrays(cs) !! Arrays(cur) && Arrays(cs) !! Arrays(prev)
    requires Holds(cur, curs, curNum) && Holds(prev, prevs, prevNum) && HoldsRows(cs, [], curNum)
    modifies Arrays(cs)
    ensures HoldsRows(cs, Rows(curs, prevs, AtSamePosition(curs, prevs, beyond), curNum), curNum)
    ensures overrun <==> ReadsPastEnd(Pids(curs), Pids(prevs))
  {
    hide Wrap, Sub, Rows, Holds, HoldsRows, ReadAt, ReadsPastEnd, ReadsPastEndBefore;
    ghost var used := AtSamePosition(curs, prevs, beyond);
    NothingJoined(curs, prevs, used);
    overrun := false;
    var i := 0;
    for c := 0 to curNum
      invariant i == |Rows(curs, prevs, used, c)|
      invariant HoldsRows(cs, Rows(curs, prevs, used, c), curNum)
      invariant Holds(cur, curs, curNum) && Holds(prev, prevs, prevNum)
      invariant overrun <==> ReadsPastEndBefore(Pids(curs), Pids(prevs), c)
    {
      RowsStep(curs, prevs, used, c);
      ReadsPastEndStep(Pids(curs), Pids(prevs), c);
      HoldsAt(cur, curs, c);
      var p := FindPid(prev, cur.pid[c], prevNum, prevs);
      if p < prevNum {
        var cpuTime, sysCpuTime := ReadPrevious(prev, c, prevNum, beyond, prevs);
        assert Change(curs[c], used[c])
            == Delta(cur.pid[c], Sub(cur.cpuTime[c], cpuTime), Sub(cur.sysCpuTime[c], sysCpuTime));
        PutRow(cs, i, cur.pid[c], Sub(cur.cpuTime[c], cpuTime), Sub(cur.sysCpuTime[c], sysCpuTime),
               Rows(curs, prevs, used, c));
        overrun := overrun || c >= prevNum;
        i := i + 1;
      }
    }
  }

  /** Lines 257-266: every row, filled or not, goes to the first entry with its pid. */
  method WriteRowsBack(curList: Node<Proc>, cs: StatArrays, curNum: nat,
                       ghost s: seq<Node<Proc>>, ghost rows: seq<Delta>)
    requires Ring(curList, s) && curNum == |s| && Shaped(cs, curNum) && HoldsRows(cs, rows, curNum)
    modifies Nodes(s)`entry
    ensures Ring(curList, s) && Entries(s) == WriteBack(old(Entries(s)), rows, curNum)
  {
    hide WriteRow;
    ghost var es := Entries(s);
    for i := 0 to curNum
      invariant Entries(s) == WriteBack(es, rows, i)
    {
      assert RowAt(cs, i) == Row(rows, i);
      WriteOneBack(curList, RowAt(cs, i), s);
    }
  }

  method WriteOneBack(curList: Node<Proc>, row: Delta, ghost s: seq<Node<Proc>>)
    requires Ring(curList, s)
    modifies Nodes(s)`entry
    ensures Entries(s) == WriteRow(old(Entries(s)), row)
  {
    ghost var es := Entries(s);
    ghost var k := 0;
    var entry := curList.next;
    while entry != curList && entry.entry.pid != row.pid
      invariant k <= |s| && entry == if k < |s| then s[k] else curList
      invariant forall j :: 0 <= j < k ==> Pids(es)[j] != row.pid
      decreases |s| - k
    {
      k := k + 1;
      entry := entry.next;
    }
    if entry != curList {
      assert Pids(es)[k] == row.pid;
      entry.entry := entry.entry.(cpuUtil := Util(row));
    }
  }

  method StageBoth(curList: Node<Proc>, prevList: Node<Proc>, ghost s: seq<Node<Proc>>, ghost t: seq<Node<Proc>>)
    returns (curNum: nat, prevNum: nat, cur: StatArrays, prev: StatArrays)
    requires Ring(curList, s) && Ring(prevList, t)
    ensures curNum == |s| && prevNum == |t| && Shaped(cur, curNum) && Shaped(prev, prevNum)
    ensures fresh(Arrays(cur)) && fresh(Arrays(prev))
    ensures Holds(cur, Entries(s), curNum) && Holds(prev, Entries(t), prevNum)
  {
    hide Ring, Holds, HoldsRows;
    curNum := CountEntries(curList, s);
    prevNum := CountEntries(prevList, t);
    cur := CallocArrays(curNum);
    prev := CallocArrays(prevNum);
    Stage(curList, cur, s);
    Stage(prevList, prev, t);
  }

  /**
    compute_proc_cpu_stat: the cpu_util fields of the current list become what `Computed` says.
    The previous list may even be the current one; its samples are copied before anything is
    written.
   */
  method ComputeProcCpuStat(curList: Node<Proc>, prevList: Node<Proc>, beyond: seq<Proc>,
                            ghost s: seq<Node<Proc>>, ghost t: seq<Node<Proc>>)
    returns (overrun: bool)
    requires Ring(curList, s) && Ring(prevList, t)
    modifies Nodes(s)`entry
    ensures Ring(curList, s) && Entries(s) == Computed(old(Entries(s)), old(Entries(t)), beyond)
    ensures overrun <==> ReadsPastEnd(Pids(old(Entries(s))), Pids(old(Entries(t))))
  {
    hide Wrap, Rows, WriteBack, ReadsPastEnd, Ring, Holds, HoldsRows;
    ghost var curs, prevs := Entries(s), Entries(t);
    var curNum, prevNum, cur, prev := StageBoth(curList, prevList, s, t);
    var cs := CallocArrays(curNum);
    overrun := Join(cur, prev, cs, curNum, prevNum, beyond, curs, prevs);
    WriteRowsBack(curList, cs, curNum, s, Rows(curs, prevs, AtSamePosition(curs, prevs, beyond), curNum));
  }
}
