/**
  What the records of mod_proc say about what was read, over a whole run. The laws are stated on
  the samples of the run, with the arithmetic written out.
 */
module ProcLaws {
  import opened Histories
  import opened ModProc
  import opened ProcMeaning
  import opened ProcSpec
  import opened ProcStat
  import opened Searching
  import opened Words
  import Cpu

  function PidsRead(r: Reading): (pids: seq<u64>)
    ensures |pids| == |r.samples| && forall k :: 0 <= k < |r.samples| ==> pids[k] == r.samples[k].pid
  {
    seq(|r.samples|, k requires 0 <= k < |r.samples| => r.samples[k].pid)
  }

  predicate Present(run: seq<Reading>, pid: u64) {
    forall i :: 0 <= i < |run| ==> pid in PidsRead(run[i])
  }

  /** The first position of the pid in the `i`-th list. */
  function PositionAt(run: seq<Reading>, pid: u64, i: nat): (k: nat)
    requires i < |run| && Present(run, pid)
    ensures k < |run[i].samples| && run[i].samples[k].pid == pid
    ensures forall j :: 0 <= j < k ==> run[i].samples[j].pid != pid
  {
    Find(PidsRead(run[i]), pid)
  }

  function SampleAt(run: seq<Reading>, pid: u64, i: nat): Sample
    requires i < |run| && Present(run, pid)
  {
    run[i].samples[PositionAt(run, pid, i)]
  }

  function RecordAt(run: seq<Reading>, pid: u64, i: nat): Proc
    requires i < |run| && Present(run, pid)
  {
    RecordsHaveTheirLength(run, i);
    Records(run)[i][PositionAt(run, pid, i)]
  }

  lemma RecordsHaveTheirLength(run: seq<Reading>, i: nat)
    requires i < |run|
    ensures |Records(run)[i]| == |run[i].samples|
  {
    RecordKeepsPids(run, i);
  }

  /** All that is added up in libzsr/proc.c:76. */
  function TwoTimes(x: Sample): nat {
    x.utime + x.stime
  }

  /** All that is added up in libzsr/proc.c:138-142. */
  function TenCounters(cpu: Cpu.CpuStat): nat {
    cpu.user + cpu.nice + cpu.sys + cpu.idle + cpu.iowait + cpu.steal + cpu.hardirq + cpu.softirq + cpu.guest
    + cpu.number
  }

  lemma SumsAreStored(x: Sample)
    ensures Add(x.utime, x.stime) == TwoTimes(x) % WORD && SysCpuTime(x.cpu) == TenCounters(x.cpu) % WORD
  {
    hide Wrap;
    WrapIsModulo(TwoTimes(x));
    WrapIsModulo(TenCounters(x.cpu));
  }

  lemma StartReads(r: Reading, k: nat)
    requires k < |r.samples|
    ensures var x := r.samples[k];
      Start(r)[k] == Proc(x.pid, TwoTimes(x) % WORD, TenCounters(x.cpu) % WORD, Real(0.0))
    ensures Pids(Start(r)) == PidsRead(r)
  {
    hide Add, SysCpuTime, TwoTimes, TenCounters;
    SumsAreStored(r.samples[k]);
  }

  // --------------------------------------------------------------- any round

  lemma JoinKeepsSamples(cur: seq<Proc>, prev: seq<Proc>, used: seq<Proc>, k: nat)
    requires k < |cur| == |used|
    ensures Joined(cur, prev, used)[k] == cur[k].(cpuUtil := Joined(cur, prev, used)[k].cpuUtil)
  {
    hide Util, LastMatch, Joined;
    JoinedAt(cur, prev, used, k);
  }

  /** Each record keeps, at its place, what was read there; only the share is computed. */
  lemma RecordKeepsSamples(run: seq<Reading>, i: nat, k: nat)
    requires i < |run| && k < |run[i].samples|
    ensures |Records(run)[i]| == |run[i].samples|
    ensures var x, e := run[i].samples[k], Records(run)[i][k];
      e.pid == x.pid && e.cpuTime == TwoTimes(x) % WORD && e.sysCpuTime == TenCounters(x.cpu) % WORD
  {
    hide Joined, TwoTimes, TenCounters, Wrap;
    HistoryIsChained(Start, Next, run);
    RecordsHaveTheirLength(run, i);
    StartReads(run[i], k);
    if i > 0 {
      var cur, prev := Start(run[i]), Records(run)[i - 1];
      assert Records(run)[i] == Next(run[i], prev);
      JoinKeepsSamples(cur, prev, AtSamePosition(cur, prev, run[i].beyond), k);
    }
  }

  /** In the first list no share is computed. */
  lemma FirstSharesAreZero(run: seq<Reading>, k: nat)
    requires run != [] && k < |run[0].samples|
    ensures |Records(run)[0]| == |run[0].samples| && Records(run)[0][k].cpuUtil == Real(0.0)
  {
    hide Joined, TwoTimes, TenCounters, Wrap;
    HistoryIsChained(Start, Next, run);
    StartReads(run[0], k);
  }

  /**
    Nor is it for a pid that the list before does not have, faithful round or not; only pid 0 gets
    0/0 at its first entry.
   */
  lemma NewPidIsNotRated(run: seq<Reading>, i: nat, k: nat)
    requires 0 < i < |run| && k < |run[i].samples|
    requires run[i].samples[k].pid !in PidsRead(run[i - 1])
    ensures |Records(run)[i]| == |run[i].samples|
    ensures Records(run)[i][k].cpuUtil
         == if run[i].samples[k].pid == 0 && (forall j :: 0 <= j < k ==> run[i].samples[j].pid != 0) then NaN
            else Real(0.0)
  {
    hide Joined, TwoTimes, TenCounters, Wrap, Util;
    HistoryIsChained(Start, Next, run);
    RecordsHaveTheirLength(run, i);
    RecordKeepsPids(run, i - 1);
    StartReads(run[i], k);
    var cur, prev := Start(run[i]), Records(run)[i - 1];
    var used := AtSamePosition(cur, prev, run[i].beyond);
    assert Records(run)[i] == Next(run[i], prev);
    assert Pids(Start(run[i - 1])) == PidsRead(run[i - 1]) by {
      if run[i - 1].samples != [] {
        StartReads(run[i - 1], 0);
      }
    }
    assert cur[k].pid !in Pids(prev);
    JoinedAt(cur, prev, used, k);
    NoMatch(cur, prev, used, cur[k].pid, |cur|);
    assert Pids(cur)[k] == cur[k].pid;
  }

  // --------------------------------------------------------- faithful rounds

  /** The share of a sample against the one before of the same pid: 100 times cpu time over system time. */
  function Share(x: Sample, y: Sample): Double {
    Ratio(((TwoTimes(x) - TwoTimes(y)) % WORD) as real * 100.0,
          ((TenCounters(x.cpu) - TenCounters(y.cpu)) % WORD) as real)
  }

  /** A faithful round rates a pid against its own sample in the list before. */
  lemma RecordOfPid(run: seq<Reading>, pid: u64, i: nat)
    requires 0 < i < |run| && Present(run, pid) && Faithful(PidsRead(run[i]), PidsRead(run[i - 1]))
    ensures var x := SampleAt(run, pid, i);
      RecordAt(run, pid, i) ==
      Proc(pid, TwoTimes(x) % WORD, TenCounters(x.cpu) % WORD, Share(x, SampleAt(run, pid, i - 1)))
  {
    hide Computed, Faithful, TwoTimes, TenCounters, Wrap, Ratio;
    var k, p := PositionAt(run, pid, i), PositionAt(run, pid, i - 1);
    StartReads(run[i], k);
    StartReads(run[i - 1], p);
    FaithfulRoundIsDocumented(run, i);
    RecordKeepsSamples(run, i - 1, p);
    RecordsHaveTheirLength(run, i - 1);
    var x, y := SampleAt(run, pid, i), SampleAt(run, pid, i - 1);
    assert Records(run)[i][k].cpuUtil == Util(Change(Start(run[i])[k], Records(run)[i - 1][p]));
    WrapIsModulo(TwoTimes(x));
    WrapIsModulo(TwoTimes(y));
    WrapIsModulo(TwoTimes(x) - TwoTimes(y));
    DifferenceOfWrapped(TwoTimes(x), TwoTimes(y));
    WrapIsModulo(TenCounters(x.cpu));
    WrapIsModulo(TenCounters(y.cpu));
    WrapIsModulo(TenCounters(x.cpu) - TenCounters(y.cpu));
    DifferenceOfWrapped(TenCounters(x.cpu), TenCounters(y.cpu));
  }

  // The times of a process may wrap. `times` and `system` are its cpu time and the time of the whole
  // system as the kernel means them, list by list.

  predicate Counts(run: seq<Reading>, pid: u64, times: seq<nat>, system: seq<nat>)
    requires Present(run, pid) && |times| == |system| == |run|
  {
    forall i :: 0 <= i < |run| ==>
      && TwoTimes(SampleAt(run, pid, i)) % WORD == times[i] % WORD
      && TenCounters(SampleAt(run, pid, i).cpu) % WORD == system[i] % WORD
  }

  /** The round is faithful to the one before, and both times went on by an amount that a subtraction can see. */
  predicate Advances(run: seq<Reading>, times: seq<nat>, system: seq<nat>, i: nat)
    requires 0 < i < |run| == |times| == |system|
  {
    && Faithful(PidsRead(run[i]), PidsRead(run[i - 1]))
    && 0 <= times[i] - times[i - 1] < WORD
    && 0 <= system[i] - system[i - 1] < WORD
    && (system[i] == system[i - 1] ==> times[i] == times[i - 1])
  }

  /** The shares in the records 1 to `n`, each weighted with the system time of its interval. */
  function WeightedShares(run: seq<Reading>, pid: u64, system: seq<nat>, n: nat): real
    requires n < |run| == |system| && Present(run, pid)
  {
    if n == 0 then 0.0
    else
      WeightedShares(run, pid, system, n - 1)
      + Value(RecordAt(run, pid, n).cpuUtil) * (system[n] as real - system[n - 1] as real)
  }

  lemma ModuloDifference(a: int, b: int, x: nat, y: nat)
    requires a % WORD == x % WORD && b % WORD == y % WORD && 0 <= x - y < WORD
    ensures (a - b) % WORD == x - y
  {
    hide Wrap;
    WrapIsModulo(a);
    WrapIsModulo(b);
    WrapIsModulo(x);
    WrapIsModulo(y);
    WrapIsModulo(a - b);
    DifferenceOfWrapped(a, b);
    DifferenceOfWrapped(x, y);
    WrapSmall(x - y);
  }

  lemma ShareOfChanges(x: Sample, y: Sample, t: nat, t': nat, s: nat, s': nat)
    requires TwoTimes(x) % WORD == t' % WORD && TwoTimes(y) % WORD == t % WORD && 0 <= t' - t < WORD
    requires TenCounters(x.cpu) % WORD == s' % WORD && TenCounters(y.cpu) % WORD == s % WORD && 0 <= s' - s < WORD
    ensures Share(x, y) == Ratio((t' - t) as real * 100.0, (s' - s) as real)
  {
    hide TwoTimes, TenCounters, Ratio;
    ModuloDifference(TwoTimes(x), TwoTimes(y), t', t);
    ModuloDifference(TenCounters(x.cpu), TenCounters(y.cpu), s', s);
  }

  lemma IntervalShare(run: seq<Reading>, pid: u64, times: seq<nat>, system: seq<nat>, i: nat)
    requires 0 < i < |run| == |times| == |system| && Present(run, pid) && Counts(run, pid, times, system)
    requires Advances(run, times, system, i)
    ensures Value(RecordAt(run, pid, i).cpuUtil) * (system[i] as real - system[i - 1] as real)
         == 100.0 * (times[i] as real - times[i - 1] as real)
  {
    hide Faithful, RecordAt, SampleAt, TwoTimes, TenCounters, Ratio, Share;
    RecordOfPid(run, pid, i);
    ShareOfChanges(SampleAt(run, pid, i), SampleAt(run, pid, i - 1), times[i - 1], times[i], system[i - 1], system[i]);
    ShareCancels(times[i] - times[i - 1], system[i] - system[i - 1]);
  }

  lemma ShareCancels(x: nat, d: nat)
    requires d == 0 ==> x == 0
    ensures Value(Ratio(x as real * 100.0, d as real)) * d as real == 100.0 * x as real
  {
  }

  /**
    Over any run of faithful rounds, the shares of a pid that is in every list account for exactly
    its cpu time, wraps included.
   */
  lemma {:induction false} SharesTelescope(run: seq<Reading>, pid: u64, times: seq<nat>, system: seq<nat>, n: nat)
    requires n < |run| == |times| == |system| && Present(run, pid) && Counts(run, pid, times, system)
    requires forall i :: 0 < i <= n ==> Advances(run, times, system, i)
    ensures WeightedShares(run, pid, system, n) == 100.0 * (times[n] as real - times[0] as real)
  {
    hide Advances, RecordAt, Counts;
    if n > 0 {
      SharesTelescope(run, pid, times, system, n - 1);
      IntervalShare(run, pid, times, system, n);
    }
  }
}
