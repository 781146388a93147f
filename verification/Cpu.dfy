/** The CPU shares of libzsr/cpu.c, and what they add up to over a run of zsr/module/mod_cpu.c. */
module Cpu {
  import opened Words
  import opened Rings
  import opened Histories

  datatype CpuStat = CpuStat(user: u64, nice: u64, sys: u64, idle: u64, iowait: u64,
                             steal: u64, hardirq: u64, softirq: u64, guest: u64, number: u64)

  datatype Cpu = Cpu(idle: real, util: real, wa: real, stat: CpuStat)

  /** The eight additions wrap one by one in C, which is the same as wrapping their sum (Words.WrapAbsorbs). */
  function SumCpuStat(stat: CpuStat): u64 {
    Wrap(stat.hardirq + stat.idle + stat.iowait + stat.nice + stat.softirq + stat.steal + stat.sys + stat.user)
  }

  /** compute_cpu_stat on the values of the two records. */
  function Computed(cur: Cpu, pre: Cpu): Cpu {
    var cs, ps := cur.stat, pre.stat;
    var total := Sub(SumCpuStat(cs), SumCpuStat(ps));
    if SumCpuStat(ps) == 0 || total <= 0 then cur
    else
      var idle := Add(Sub(cs.idle, ps.idle), Sub(cs.steal, ps.steal)) as real * 100.0 / total as real;
      Cpu(idle, 100.0 - idle, Sub(cs.iowait, ps.iowait) as real * 100.0 / total as real, cs)
  }

  /** A fresh record, as mod_cpu's collect_record makes it, is all zero but for its counters. */
  function Start(stat: CpuStat): Cpu {
    Cpu(0.0, 0.0, 0.0, stat)
  }

  method ComputeCpuStat(curRecord: Node?<Cpu>, preRecord: Node?<Cpu>)
    modifies if curRecord == null then {} else {curRecord}`entry
    ensures curRecord != null && preRecord != null ==>
              curRecord.entry == Computed(old(curRecord.entry), old(preRecord.entry))
    ensures curRecord != null && preRecord == null ==> curRecord.entry == old(curRecord.entry)
  {
    hide Wrap;
    if curRecord == null || preRecord == null {
      return;
    }
    var cs := curRecord.entry.stat;
    var ps := preRecord.entry.stat;
    var curTotal := SumCpuStat(cs);
    var preTotal := SumCpuStat(ps);
    var total := Sub(curTotal, preTotal);
    if preTotal == 0 {
      return;
    }
    if total <= 0 {
      return;
    }
    curRecord.entry := curRecord.entry.(idle :=
      Add(Sub(cs.idle, ps.idle), Sub(cs.steal, ps.steal)) as real * 100.0 / total as real);
    curRecord.entry := curRecord.entry.(util := 100.0 - curRecord.entry.idle);
    curRecord.entry := curRecord.entry.(wa := Sub(cs.iowait, ps.iowait) as real * 100.0 / total as real);
  }

  /** The guard of compute_cpu_stat: no previous total, or no change that the subtraction could see. */
  predicate Skipped(cs: CpuStat, ps: CpuStat) {
    SumCpuStat(ps) == 0 || SumCpuStat(cs) == SumCpuStat(ps)
  }

  /** The counters are never written, and the shares are written exactly when the guard does not hold. */
  lemma ComputedOrSkipped(cur: Cpu, pre: Cpu)
    ensures Computed(cur, pre).stat == cur.stat
    ensures Skipped(cur.stat, pre.stat) ==> Computed(cur, pre) == cur
    ensures !Skipped(cur.stat, pre.stat) ==> Computed(cur, pre).idle + Computed(cur, pre).util == 100.0
    ensures Computed(Start(cur.stat), pre) == Start(cur.stat) <==> Skipped(cur.stat, pre.stat)
  {
    hide Wrap, SumCpuStat;
    SubIsZero(SumCpuStat(cur.stat), SumCpuStat(pre.stat));
  }

  // ------------------------------------------- counters that really count up

  /** The counters as the kernel means them: they never wrap. The record stores them modulo 2^64. */
  datatype Ticks = Ticks(user: nat, nice: nat, sys: nat, idle: nat, iowait: nat,
                         steal: nat, hardirq: nat, softirq: nat, guest: nat, number: nat)

  function Stored(t: Ticks): CpuStat {
    CpuStat(Wrap(t.user), Wrap(t.nice), Wrap(t.sys), Wrap(t.idle), Wrap(t.iowait),
            Wrap(t.steal), Wrap(t.hardirq), Wrap(t.softirq), Wrap(t.guest), Wrap(t.number))
  }

  function TotalTicks(t: Ticks): nat {
    t.user + t.nice + t.sys + t.idle + t.iowait + t.steal + t.hardirq + t.softirq
  }

  function IdleTicks(t: Ticks): nat {
    t.idle + t.steal
  }

  predicate NoneDecreased(a: Ticks, b: Ticks) {
    && a.user <= b.user && a.nice <= b.nice && a.sys <= b.sys && a.idle <= b.idle && a.iowait <= b.iowait
    && a.steal <= b.steal && a.hardirq <= b.hardirq && a.softirq <= b.softirq
  }

  lemma StoredTotal(t: Ticks)
    ensures SumCpuStat(Stored(t)) == Wrap(TotalTicks(t)) == TotalTicks(t) % WORD
  {
    hide Wrap;
    var s := Stored(t);
    WrapIsModulo(TotalTicks(t));
    WrapAbsorbs(t.hardirq, s.idle + s.iowait + s.nice + s.softirq + s.steal + s.sys + s.user);
    WrapAbsorbs(t.idle, t.hardirq + s.iowait + s.nice + s.softirq + s.steal + s.sys + s.user);
    WrapAbsorbs(t.iowait, t.hardirq + t.idle + s.nice + s.softirq + s.steal + s.sys + s.user);
    WrapAbsorbs(t.nice, t.hardirq + t.idle + t.iowait + s.softirq + s.steal + s.sys + s.user);
    WrapAbsorbs(t.softirq, t.hardirq + t.idle + t.iowait + t.nice + s.steal + s.sys + s.user);
    WrapAbsorbs(t.steal, t.hardirq + t.idle + t.iowait + t.nice + t.softirq + s.sys + s.user);
    WrapAbsorbs(t.sys, t.hardirq + t.idle + t.iowait + t.nice + t.softirq + t.steal + s.user);
    WrapAbsorbs(t.user, t.hardirq + t.idle + t.iowait + t.nice + t.softirq + t.steal + t.sys);
  }

  /** A record whose counters were read when the true ones were `t`. */
  function Observed(r: Cpu, t: Ticks): Cpu {
    r.(stat := Stored(t))
  }

  /** Two samples of true counters between which compute_cpu_stat gets to divide. */
  predicate Comparable(before: Ticks, after: Ticks) {
    && 0 < TotalTicks(after) - TotalTicks(before) < WORD
    && TotalTicks(before) % WORD != 0
  }

  /** The record that compute_cpu_stat leaves, in terms of the true counters. */
  lemma ComputedFromTicks(before: Ticks, after: Ticks, cur: Cpu, pre: Cpu)
    requires Comparable(before, after)
    ensures var d, r := TotalTicks(after) - TotalTicks(before), Computed(Observed(cur, after), Observed(pre, before));
      && r.idle == Wrap(IdleTicks(after) - IdleTicks(before)) as real * 100.0 / d as real
      && r.util == 100.0 - r.idle
      && r.wa == Wrap(after.iowait - before.iowait) as real * 100.0 / d as real
  {
    hide Wrap;
    hide SumCpuStat;
    StoredTotal(before);
    StoredTotal(after);
    DifferenceOfWrapped(TotalTicks(after), TotalTicks(before));
    DifferenceOfWrapped(after.iowait, before.iowait);
    WrapSmall(TotalTicks(after) - TotalTicks(before));
    StoredIdleChange(before, after);
  }

  lemma StoredIdleChange(before: Ticks, after: Ticks)
    ensures var cs, ps := Stored(after), Stored(before);
      Add(Sub(cs.idle, ps.idle), Sub(cs.steal, ps.steal)) == Wrap(IdleTicks(after) - IdleTicks(before))
  {
    hide Wrap;
    DifferenceOfWrapped(after.idle, before.idle);
    DifferenceOfWrapped(after.steal, before.steal);
    WrapAbsorbs(after.idle - before.idle, Wrap(after.steal - before.steal));
    WrapAbsorbs(after.steal - before.steal, after.idle - before.idle);
  }

  /**
    The stored counters give the true idle and wa percentages exactly when the idle (iowait)
    ticks did not go down, nor up by 2^64, whatever the other counters did.
   */
  lemma PercentagesAreTrue(before: Ticks, after: Ticks, cur: Cpu, pre: Cpu)
    requires Comparable(before, after)
    ensures var d := (TotalTicks(after) - TotalTicks(before)) as real;
      var r := Computed(Observed(cur, after), Observed(pre, before));
      var idle, iowait := IdleTicks(after) - IdleTicks(before), after.iowait - before.iowait;
      && (r.idle == idle as real * 100.0 / d <==> 0 <= idle < WORD)
      && (r.wa == iowait as real * 100.0 / d <==> 0 <= iowait < WORD)
  {
    hide Wrap;
    ComputedFromTicks(before, after, cur, pre);
    var d := (TotalTicks(after) - TotalTicks(before)) as real;
    WrapIsIdentity(IdleTicks(after) - IdleTicks(before));
    WrapIsIdentity(after.iowait - before.iowait);
    SameRatio(Wrap(IdleTicks(after) - IdleTicks(before)), IdleTicks(after) - IdleTicks(before), d);
    SameRatio(Wrap(after.iowait - before.iowait), after.iowait - before.iowait, d);
  }

  lemma WrapIsIdentity(x: int)
    ensures Wrap(x) == x <==> 0 <= x < WORD
  {
  }

  lemma SameRatio(x: int, y: int, d: real)
    requires d > 0.0
    ensures x as real * 100.0 / d == y as real * 100.0 / d <==> x == y
  {
    assert x as real * 100.0 / d * d == x as real * 100.0;
    assert y as real * 100.0 / d * d == y as real * 100.0;
  }

  /** When no true counter went down, the shares are percentages, and util contains wa. */
  lemma SharesAreBounded(before: Ticks, after: Ticks, cur: Cpu, pre: Cpu)
    requires Comparable(before, after)
    requires NoneDecreased(before, after)
    ensures var r := Computed(Observed(cur, after), Observed(pre, before));
      r.idle + r.util == 100.0 && 0.0 <= r.idle && 0.0 <= r.wa <= r.util <= 100.0
  {
    hide Wrap;
    ComputedFromTicks(before, after, cur, pre);
    var d := TotalTicks(after) - TotalTicks(before);
    var idle, iowait := IdleTicks(after) - IdleTicks(before), after.iowait - before.iowait;
    WrapSmall(idle);
    WrapSmall(iowait);
    SharesOfWhole(idle, iowait, d);
  }

  lemma QuotientIsProduct(x: nat, d: nat)
    requires d > 0
    ensures x as real * 100.0 / d as real == x as real * (100.0 / d as real) >= 0.0
  {
  }

  lemma SharesOfWhole(x: nat, y: nat, d: nat)
    requires x + y <= d && d > 0
    ensures 0.0 <= x as real * 100.0 / d as real
    ensures 0.0 <= y as real * 100.0 / d as real <= 100.0 - x as real * 100.0 / d as real
  {
    var k := 100.0 / d as real;
    var z := d - x - y;
    QuotientIsProduct(x, d);
    QuotientIsProduct(y, d);
    assert z as real * k >= 0.0;
    assert 100.0 == d as real * k == (x + y + z) as real * k == x as real * k + y as real * k + z as real * k;
  }

  // ------------------------------------------------------ an overflow of the ticks

  /**
    The comment at libzsr/cpu.c:68 wants the record skipped when the ticks overflowed. A stored
    total that is below the previous one never makes the code skip it.
   */
  lemma StoredOverflowIsComputed(cs: CpuStat, pre: Cpu)
    requires SumCpuStat(cs) < SumCpuStat(pre.stat)
    ensures Computed(Start(cs), pre) != Start(cs)
    ensures Computed(Start(cs), pre).idle + Computed(Start(cs), pre).util == 100.0
  {
    ComputedOrSkipped(Start(cs), pre);
  }

  /**
    Of the samples whose true total went down the code skips exactly those that look unchanged,
    or come after a zero total, modulo 2^64.
   */
  lemma OverflowSkippedExactlyWhen(before: Ticks, after: Ticks, pre: Cpu)
    requires TotalTicks(after) < TotalTicks(before)
    ensures Computed(Start(Stored(after)), Observed(pre, before)) == Start(Stored(after)) <==>
              TotalTicks(before) % WORD == 0 || (TotalTicks(before) - TotalTicks(after)) % WORD == 0
  {
    hide Wrap, SumCpuStat, Stored;
    StoredTotal(before);
    StoredTotal(after);
    ComputedOrSkipped(Start(Stored(after)), Observed(pre, before));
    SameStoredTotal(TotalTicks(before), TotalTicks(after));
  }

  lemma SameStoredTotal(x: nat, y: nat)
    ensures x % WORD == y % WORD <==> (x - y) % WORD == 0
  {
    var q, r := x / WORD - y / WORD, x % WORD - y % WORD;
    assert x - y == q * WORD + r;
    if r >= 0 {
      DivisionIsUnique(x - y, q, r);
    } else {
      DivisionIsUnique(x - y, q - 1, r + WORD);
    }
  }

  /** Five user ticks fewer than before, and nothing else: a machine at 100 percent. */
  lemma ExampleOfAnOverflow()
    ensures var pre := Start(CpuStat(10, 0, 0, 0, 0, 0, 0, 0, 0, 0));
      var cs := CpuStat(5, 0, 0, 0, 0, 0, 0, 0, 0, 0);
      && SumCpuStat(cs) < SumCpuStat(pre.stat)
      && Computed(Start(cs), pre) == Cpu(0.0, 100.0, 0.0, cs)
  {
    WrapSmall(10);
    WrapSmall(5);
    WrapSmall(0);
    assert Sub(5, 10) == WORD - 5 by { WrapShift(-5, 1); WrapSmall(WORD - 5); }
  }

  // --------------------------------------------------------- over a whole run

  /** mod_cpu's collect_record on record values, from the second round on. */
  function Next(stat: CpuStat, last: Cpu): Cpu {
    Computed(Start(stat), last)
  }

  function Records(samples: seq<CpuStat>): seq<Cpu> {
    History(Start, Next, samples)
  }

  function StoredAll(run: seq<Ticks>): (samples: seq<CpuStat>) {
    seq(|run|, i requires 0 <= i < |run| => Stored(run[i]))
  }

  /** The idle percentages of the records 1 to `n`, each weighted with the ticks of its interval. */
  function WeightedIdle(run: seq<Ticks>, records: seq<Cpu>, n: nat): real
    requires n < |run| == |records|
  {
    if n == 0 then 0.0
    else WeightedIdle(run, records, n - 1)
         + records[n].idle * (TotalTicks(run[n]) - TotalTicks(run[n - 1])) as real
  }

  /** The guard of compute_cpu_stat on true counters (OverflowSkippedExactlyWhen). */
  predicate SkippedTicks(before: Ticks, after: Ticks) {
    TotalTicks(before) % WORD == 0 || (TotalTicks(after) - TotalTicks(before)) % WORD == 0
  }

  /** An interval with a true percentage of idle time (PercentagesAreTrue), or a skipped one without any. */
  predicate IdleAdvances(run: seq<Ticks>, i: nat)
    requires 0 < i < |run|
  {
    var idle := IdleTicks(run[i]) - IdleTicks(run[i - 1]);
    || (Comparable(run[i - 1], run[i]) && 0 <= idle < WORD)
    || (SkippedTicks(run[i - 1], run[i]) && idle == 0)
  }

  predicate IntervalExact(run: seq<Ticks>, records: seq<Cpu>, i: nat)
    requires 0 < i < |run| == |records|
  {
    records[i].idle * (TotalTicks(run[i]) - TotalTicks(run[i - 1])) as real
    == 100.0 * (IdleTicks(run[i]) - IdleTicks(run[i - 1])) as real
  }

  /** Over any run, the interval percentages add up to the overall idle and steal change, wraps included. */
  lemma IdleTelescopes(run: seq<Ticks>, n: nat)
    requires n < |run|
    requires forall i :: 0 < i <= n ==> IdleAdvances(run, i)
    ensures WeightedIdle(run, Records(StoredAll(run)), n) == 100.0 * (IdleTicks(run[n]) - IdleTicks(run[0])) as real
  {
    var records := Records(StoredAll(run));
    forall i | 0 < i <= n ensures IntervalExact(run, records, i) {
      IntervalIdle(run, i);
    }
    ExactIntervalsTelescope(run, records, n);
  }

  lemma {:induction false} ExactIntervalsTelescope(run: seq<Ticks>, records: seq<Cpu>, n: nat)
    requires n < |run| == |records|
    requires forall i :: 0 < i <= n ==> IntervalExact(run, records, i)
    ensures WeightedIdle(run, records, n) == 100.0 * (IdleTicks(run[n]) - IdleTicks(run[0])) as real
  {
    if n > 0 {
      ExactIntervalsTelescope(run, records, n - 1);
      assert IntervalExact(run, records, n);
    }
  }

  lemma SkippedIsZero(before: Ticks, after: Ticks, pre: Cpu)
    requires SkippedTicks(before, after)
    ensures Computed(Start(Stored(after)), Observed(pre, before)) == Start(Stored(after))
  {
    hide Wrap, SumCpuStat, Stored;
    StoredTotal(before);
    StoredTotal(after);
    ComputedOrSkipped(Start(Stored(after)), Observed(pre, before));
    SameStoredTotal(TotalTicks(after), TotalTicks(before));
  }

  lemma ComparableShare(before: Ticks, after: Ticks, pre: Cpu)
    requires Comparable(before, after) && 0 <= IdleTicks(after) - IdleTicks(before) < WORD
    ensures var record := Computed(Start(Stored(after)), Observed(pre, before));
      record.idle * (TotalTicks(after) - TotalTicks(before)) as real
      == 100.0 * (IdleTicks(after) - IdleTicks(before)) as real
  {
    hide Wrap, Computed, SumCpuStat;
    assert Observed(Start(Stored(after)), after) == Start(Stored(after));
    ComputedFromTicks(before, after, Start(Stored(after)), pre);
    WrapSmall(IdleTicks(after) - IdleTicks(before));
    RatioCancels(IdleTicks(after) - IdleTicks(before), TotalTicks(after) - TotalTicks(before));
  }

  lemma RecordOfTicks(run: seq<Ticks>, n: nat)
    requires 0 < n < |run|
    ensures var records := Records(StoredAll(run));
      records[n] == Computed(Start(Stored(run[n])), Observed(records[n - 1], run[n - 1]))
  {
    hide Wrap, Computed, SumCpuStat, Stored;
    RecordIsComputed(StoredAll(run), n);
  }

  lemma IntervalIdle(run: seq<Ticks>, n: nat)
    requires 0 < n < |run| && IdleAdvances(run, n)
    ensures IntervalExact(run, Records(StoredAll(run)), n)
  {
    hide Wrap, Computed, Stored, Observed, Comparable, SkippedTicks, TotalTicks, IdleTicks;
    var last := Records(StoredAll(run))[n - 1];
    RecordOfTicks(run, n);
    if SkippedTicks(run[n - 1], run[n]) && IdleTicks(run[n]) == IdleTicks(run[n - 1]) {
      SkippedIsZero(run[n - 1], run[n], last);
    } else {
      ComparableShare(run[n - 1], run[n], last);
    }
  }

  lemma RatioCancels(x: int, d: int)
    requires d > 0
    ensures x as real * 100.0 / d as real * d as real == 100.0 * x as real
  {
  }

  lemma {:induction false} RecordIsComputed(samples: seq<CpuStat>, i: nat)
    requires i < |samples|
    ensures Records(samples)[i].stat == samples[i]
    ensures i == 0 ==> Records(samples)[i] == Cpu(0.0, 0.0, 0.0, samples[i])
    ensures i > 0 ==> Records(samples)[i] == Computed(Cpu(0.0, 0.0, 0.0, samples[i]), Records(samples)[i - 1])
    ensures i > 0 ==> Records(samples)[i] == Computed(Start(samples[i]), Records(samples)[i - 1])
    ensures i > 0 ==> Records(samples)[i - 1].stat == samples[i - 1]
  {
    HistoryIsChained(Start, Next, samples);
    if i > 0 {
      RecordIsComputed(samples, i - 1);
      ComputedOrSkipped(Start(samples[i]), Records(samples)[i - 1]);
    }
  }
}
