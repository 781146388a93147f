/**
  What the device rates mean: identities between the rates of one interval, and sums over a
  whole run of zsr/module/mod_io.c.
 */
module IoLaws {
  import opened Histories
  import opened Io
  import opened Searching
  import opened Words

  // -------------------------------------------------------- the join, by device

  /**
    Each current entry is rated against the first previous entry of its device, and against
    nothing else; entries of new devices and all raw counters stay as they are.
   */
  lemma JoinIsFirstMatch(cur: seq<Io>, prev: seq<Io>, m: Machine, c: nat, p: nat)
    requires Runs(m) && c < |cur| && p <= |prev|
    requires forall j :: 0 <= j < p ==> prev[j].dev != cur[c].dev
    requires p < |prev| ==> prev[p].dev == cur[c].dev
    ensures Computed(cur, prev, m)[c] == if p < |prev| then Rated(cur[c], prev[p].stat, m) else cur[c]
  {
    hide Rated;
    var k := Find(Devs(prev), cur[c].dev);
    assert k < |prev| ==> Devs(prev)[k] == prev[k].dev;
    assert p < |prev| ==> Devs(prev)[p] == prev[p].dev;
  }

  // ------------------------------------------------------------- one interval

  /** The jiffies of all processors together, or of the machine where there are several processors. */
  function ClockOf(stat: IoStat, m: Machine): u64 {
    if m.numOfCpu > 1 then stat.uptime0 else stat.uptime
  }

  lemma IntervalIsClockChange(cs: IoStat, ps: IoStat, m: Machine)
    ensures Interval(cs, ps, m) == Sub(ClockOf(cs, m), ClockOf(ps, m))
    ensures Interval(cs, ps, m) == 0 <==> ClockOf(cs, m) == ClockOf(ps, m)
  {
    hide Sub;
    SubIsZero(ClockOf(cs, m), ClockOf(ps, m));
  }

  /** The change of the summed I/O counts is the wrapped sum of the two changes. */
  lemma NrIosChange(cs: IoStat, ps: IoStat)
    ensures Sub(Add(cs.rdIos, cs.wrIos), Add(ps.rdIos, ps.wrIos))
         == Add(Sub(cs.rdIos, ps.rdIos), Sub(cs.wrIos, ps.wrIos))
  {
    hide Wrap;
    DifferenceOfWrapped(cs.rdIos + cs.wrIos, ps.rdIos + ps.wrIos);
    WrapAbsorbs(cs.rdIos - ps.rdIos, Sub(cs.wrIos, ps.wrIos));
    WrapAbsorbs(cs.wrIos - ps.wrIos, cs.rdIos - ps.rdIos);
  }

  /** tps is the sum of r/s and w/s exactly when the two changes together stay below 2^64. */
  lemma TpsIsReadsPlusWrites(e: Io, ps: IoStat, m: Machine)
    requires Runs(m) && ClockOf(e.stat, m) != ClockOf(ps, m)
    ensures var r := Rated(e, ps, m);
      && r.tps.Real? && r.rPerSec.Real? && r.wPerSec.Real?
      && (r.tps.value == r.rPerSec.value + r.wPerSec.value
          <==> Sub(e.stat.rdIos, ps.rdIos) + Sub(e.stat.wrIos, ps.wrIos) < WORD)
  {
    hide Wrap, Sub, Megabytes, Speed, Mean, ComputeStat, Interval;
    var cs, itv := e.stat, Interval(e.stat, ps, m);
    var x: nat, y: nat := Sub(cs.rdIos, ps.rdIos), Sub(cs.wrIos, ps.wrIos);
    IntervalIsClockChange(cs, ps, m);
    NrIosChange(cs, ps);
    WrapBelow(x + y);
    StatValue(Add(cs.rdIos, cs.wrIos), Add(ps.rdIos, ps.wrIos), itv, m);
    StatValue(cs.rdIos, ps.rdIos, itv, m);
    StatValue(cs.wrIos, ps.wrIos, itv, m);
    RatesAdd(Wrap(x + y), x, y, itv, m.hz);
  }

  lemma StatValue(c: u64, p: u64, itv: u64, m: Machine)
    requires Runs(m) && itv != 0
    ensures ComputeStat(c, p, itv, m) == Real(Sub(c, p) as real / itv as real * m.hz as real)
  {
  }

  lemma WrapBelow(x: int)
    ensures Wrap(x) == x <==> 0 <= x < WORD
  {
  }

  lemma RatesAdd(z: nat, x: nat, y: nat, itv: nat, hz: nat)
    requires itv > 0 && hz > 0
    ensures z == x + y <==>
              z as real / itv as real * hz as real
              == x as real / itv as real * hz as real + y as real / itv as real * hz as real
  {
    var k := hz as real / itv as real;
    assert k > 0.0;
    assert z as real / itv as real * hz as real == z as real * k;
    assert x as real / itv as real * hz as real == x as real * k;
    assert y as real / itv as real * hz as real == y as real * k;
    assert x as real * k + y as real * k == (x + y) as real * k;
    assert z != x + y ==> (z - x - y) as real * k != 0.0;
  }

  /** The counters of a device and the clocks as the kernel means them, never wrapping. */
  datatype Counts = Counts(uptime: nat, uptime0: nat, rdIos: nat, wrIos: nat, rdMerges: nat, wrMerges: nat,
                           rdSectors: nat, wrSectors: nat, rdTicks: nat, wrTicks: nat, totTicks: nat, rqTicks: nat)

  predicate StoredAs(t: Counts, s: IoStat) {
    && s.uptime == Wrap(t.uptime) && s.uptime0 == Wrap(t.uptime0)
    && s.rdIos == Wrap(t.rdIos) && s.wrIos == Wrap(t.wrIos)
    && s.rdMerges == Wrap(t.rdMerges) && s.wrMerges == Wrap(t.wrMerges)
    && s.rdSectors == Wrap(t.rdSectors) && s.wrSectors == Wrap(t.wrSectors)
    && s.rdTicks == Wrap(t.rdTicks) && s.wrTicks == Wrap(t.wrTicks)
    && s.totTicks == Wrap(t.totTicks) && s.rqTicks == Wrap(t.rqTicks)
  }

  /** The true jiffies between two samples: of the machine with several processors, else of its processor. */
  function Elapsed(x: Counts, y: Counts, m: Machine): int {
    if m.numOfCpu > 1 then y.uptime0 - x.uptime0 else y.uptime - x.uptime
  }

  /** The rate `d` in units of `unit`, kept up for `jiffies`, amounts to `x`. */
  predicate AmountsTo(d: Double, unit: real, jiffies: int, m: Machine, x: int)
    requires Runs(m)
  {
    d.Real? && d.value * unit * jiffies as real / m.hz as real == x as real
  }

  /** The rate `d` gives back the change from `x` to `y` exactly when that is a change a subtraction can see. */
  predicate AccountsFor(d: Double, unit: real, jiffies: int, m: Machine, x: nat, y: nat)
    requires Runs(m)
  {
    AmountsTo(d, unit, jiffies, m, y - x) <==> 0 <= y - x < WORD
  }

  /**
    Every rate, taken over the true time between the samples, gives back the true change of the
    counter it is named for, in its unit, exactly when that counter did not go down, nor up by
    2^64; whether it wrapped, and what the other counters did, makes no difference.
   */
  lemma RatesAccountForCounters(e: Io, ps: IoStat, m: Machine, x: Counts, y: Counts)
    requires Runs(m) && StoredAs(x, ps) && StoredAs(y, e.stat) && 0 < Elapsed(x, y, m) < WORD
    ensures var r, t := Rated(e, ps, m), Elapsed(x, y, m);
      && AccountsFor(r.rrqmPerSec, 1.0, t, m, x.rdMerges, y.rdMerges)
      && AccountsFor(r.wrqmPerSec, 1.0, t, m, x.wrMerges, y.wrMerges)
      && AccountsFor(r.rPerSec, 1.0, t, m, x.rdIos, y.rdIos)
      && AccountsFor(r.wPerSec, 1.0, t, m, x.wrIos, y.wrIos)
      && AccountsFor(r.util, 1.0, t, m, x.totTicks, y.totTicks)
      && AccountsFor(r.rSpeedPerSec, 2048.0, t, m, x.rdSectors, y.rdSectors)
      && AccountsFor(r.wSpeedPerSec, 2048.0, t, m, x.wrSectors, y.wrSectors)
      && AccountsFor(r.avgquSz, 1000.0, t, m, x.rqTicks, y.rqTicks)
  {
    hide Wrap, Megabytes, Mean, ComputeStat, Interval, AmountsTo, AccountsFor, Scale, Elapsed;
    var itv := Elapsed(x, y, m);
    IntervalIsElapsed(x, y, e.stat, ps, m);
    StatAccounts(x.rdMerges, y.rdMerges, itv, m);
    StatAccounts(x.wrMerges, y.wrMerges, itv, m);
    StatAccounts(x.rdIos, y.rdIos, itv, m);
    StatAccounts(x.wrIos, y.wrIos, itv, m);
    StatAccounts(x.totTicks, y.totTicks, itv, m);
    StatAccounts(x.rdSectors, y.rdSectors, itv, m);
    StatAccounts(x.wrSectors, y.wrSectors, itv, m);
    StatAccounts(x.rqTicks, y.rqTicks, itv, m);
  }

  lemma IntervalIsElapsed(x: Counts, y: Counts, cs: IoStat, ps: IoStat, m: Machine)
    requires StoredAs(x, ps) && StoredAs(y, cs) && 0 < Elapsed(x, y, m) < WORD
    ensures Interval(cs, ps, m) == Elapsed(x, y, m)
  {
    hide Wrap;
    DifferenceOfWrapped(y.uptime, x.uptime);
    DifferenceOfWrapped(y.uptime0, x.uptime0);
    WrapSmall(Elapsed(x, y, m));
  }

  lemma StatAccounts(x: nat, y: nat, itv: u64, m: Machine)
    requires Runs(m) && itv != 0
    ensures var d := ComputeStat(Wrap(y), Wrap(x), itv, m);
      && AccountsFor(d, 1.0, itv, m, x, y)
      && AccountsFor(Scale(d, 1.0 / 2048.0), 2048.0, itv, m, x, y)
      && AccountsFor(Scale(d, 1.0 / 1000.0), 1000.0, itv, m, x, y)
  {
    hide Wrap;
    StatValue(Wrap(y), Wrap(x), itv, m);
    DifferenceOfWrapped(y, x);
    WrapBelow(y - x);
    RateCancels(Wrap(y - x), itv, m.hz);
    assert ComputeStat(Wrap(y), Wrap(x), itv, m).value * (1.0 / 2048.0) * 2048.0
        == ComputeStat(Wrap(y), Wrap(x), itv, m).value;
    assert ComputeStat(Wrap(y), Wrap(x), itv, m).value * (1.0 / 1000.0) * 1000.0
        == ComputeStat(Wrap(y), Wrap(x), itv, m).value;
  }

  lemma RateCancels(x: nat, itv: nat, hz: nat)
    requires itv > 0 && hz > 0
    ensures x as real / itv as real * hz as real * itv as real / hz as real == x as real
  {
    var a, b := itv as real, hz as real;
    assert x as real / a * b * a / b == x as real / a * a * (b / b);
  }

  /** A division by zero: no change in no time is not a number, any other change is infinite. */
  function OverNoTime(c: u64, p: u64): Double {
    if c == p then NaN else Infinity
  }

  /** Where the clock stood still, or went round exactly, no rate is a number. */
  lemma RatesWithoutTime(e: Io, ps: IoStat, m: Machine)
    requires Runs(m) && ClockOf(e.stat, m) == ClockOf(ps, m)
    ensures var r, cs := Rated(e, ps, m), e.stat;
      && r.tps == OverNoTime(Wrap(cs.rdIos + cs.wrIos), Wrap(ps.rdIos + ps.wrIos))
      && r.rrqmPerSec == OverNoTime(cs.rdMerges, ps.rdMerges) && r.wrqmPerSec == OverNoTime(cs.wrMerges, ps.wrMerges)
      && r.rPerSec == OverNoTime(cs.rdIos, ps.rdIos) && r.wPerSec == OverNoTime(cs.wrIos, ps.wrIos)
      && r.rSpeedPerSec == OverNoTime(cs.rdSectors, ps.rdSectors)
      && r.wSpeedPerSec == OverNoTime(cs.wrSectors, ps.wrSectors)
      && r.avgquSz == OverNoTime(cs.rqTicks, ps.rqTicks) && r.util == OverNoTime(cs.totTicks, ps.totTicks)
  {
    hide Wrap, Megabytes, Mean, ComputeStat, Interval, OverNoTime;
    var cs := e.stat;
    IntervalIsClockChange(cs, ps, m);
    StatWithoutTime(Add(cs.rdIos, cs.wrIos), Add(ps.rdIos, ps.wrIos), m);
    StatWithoutTime(cs.rdMerges, ps.rdMerges, m);
    StatWithoutTime(cs.wrMerges, ps.wrMerges, m);
    StatWithoutTime(cs.rdIos, ps.rdIos, m);
    StatWithoutTime(cs.wrIos, ps.wrIos, m);
    StatWithoutTime(cs.rdSectors, ps.rdSectors, m);
    StatWithoutTime(cs.wrSectors, ps.wrSectors, m);
    StatWithoutTime(cs.rqTicks, ps.rqTicks, m);
    StatWithoutTime(cs.totTicks, ps.totTicks, m);
  }

  lemma StatWithoutTime(c: u64, p: u64, m: Machine)
    requires Runs(m)
    ensures ComputeStat(c, p, 0, m) == OverNoTime(c, p)
    ensures Scale(OverNoTime(c, p), 1.0 / 2048.0) == Scale(OverNoTime(c, p), 1.0 / 1000.0) == OverNoTime(c, p)
  {
    hide Sub;
    SubIsZero(c, p);
  }

  /** The mean `mean` of `total` over `n` true events gives the total back exactly when a subtraction can see it. */
  predicate MeanAccountsFor(mean: real, n: int, total: int) {
    if n == 0 then mean == 0.0 else mean * n as real == total as real <==> 0 <= total < WORD
  }

  function Ios(t: Counts): nat {
    t.rdIos + t.wrIos
  }

  function Sectors(t: Counts): nat {
    t.rdSectors + t.wrSectors
  }

  lemma MeanOfNone(t: u64)
    ensures Mean(t, 0) == 0.0
  {
  }

  lemma SumOfChanges(a: nat, b: nat, c: nat, d: nat)
    ensures Add(Sub(Wrap(b), Wrap(a)), Sub(Wrap(d), Wrap(c))) == Wrap(b + d - (a + c))
  {
    hide Wrap;
    DifferenceOfWrapped(b, a);
    DifferenceOfWrapped(d, c);
    WrapAbsorbs(b - a, Wrap(d - c));
    WrapAbsorbs(d - c, b - a);
  }

  lemma MeanOfChanges(n: int, total: int)
    ensures 0 <= n < WORD ==> MeanAccountsFor(Mean(Wrap(total), Wrap(n)), n, total)
  {
    hide Wrap, Mean;
    WrapBelow(n);
    WrapBelow(total);
    MeanCancels(Wrap(total), Wrap(n));
    MeanOfNone(Wrap(total));
  }

  /** avgrq_sz is the mean request size, in sectors. */
  lemma RequestSizeAccountsForSectors(e: Io, ps: IoStat, m: Machine, x: Counts, y: Counts)
    requires Runs(m) && StoredAs(x, ps) && StoredAs(y, e.stat) && 0 <= Ios(y) - Ios(x) < WORD
    ensures MeanAccountsFor(Rated(e, ps, m).avgrqSz, Ios(y) - Ios(x), Sectors(y) - Sectors(x))
  {
    hide Wrap, Add, Sub, Megabytes, Speed, Mean, ComputeStat, Interval, MeanAccountsFor;
    NrIosChange(e.stat, ps);
    SumOfChanges(x.rdIos, y.rdIos, x.wrIos, y.wrIos);
    SumOfChanges(x.rdSectors, y.rdSectors, x.wrSectors, y.wrSectors);
    MeanOfChanges(Ios(y) - Ios(x), Sectors(y) - Sectors(x));
  }

  /** Each waiting time is the mean over the I/Os of its kind, await over both kinds, in the unit of the counters. */
  lemma WaitsAccountForTicks(e: Io, ps: IoStat, m: Machine, x: Counts, y: Counts)
    requires Runs(m) && StoredAs(x, ps) && StoredAs(y, e.stat)
    ensures var r, rds, wrs := Rated(e, ps, m), y.rdIos - x.rdIos, y.wrIos - x.wrIos;
      && (0 <= rds < WORD ==> MeanAccountsFor(r.rAwait, rds, y.rdTicks - x.rdTicks))
      && (0 <= wrs < WORD ==> MeanAccountsFor(r.wAwait, wrs, y.wrTicks - x.wrTicks))
      && (0 <= rds + wrs < WORD ==>
            MeanAccountsFor(r.await, rds + wrs, y.rdTicks + y.wrTicks - x.rdTicks - x.wrTicks))
  {
    hide Wrap, Add, Sub, Megabytes, Speed, Mean, ComputeStat, Interval, MeanAccountsFor;
    NrIosChange(e.stat, ps);
    DifferenceOfWrapped(y.rdIos, x.rdIos);
    DifferenceOfWrapped(y.wrIos, x.wrIos);
    DifferenceOfWrapped(y.rdTicks, x.rdTicks);
    DifferenceOfWrapped(y.wrTicks, x.wrTicks);
    SumOfChanges(x.rdIos, y.rdIos, x.wrIos, y.wrIos);
    SumOfChanges(x.rdTicks, y.rdTicks, x.wrTicks, y.wrTicks);
    MeanOfChanges(y.rdIos - x.rdIos, y.rdTicks - x.rdTicks);
    MeanOfChanges(y.wrIos - x.wrIos, y.wrTicks - x.wrTicks);
    MeanOfChanges(y.rdIos + y.wrIos - (x.rdIos + x.wrIos), y.rdTicks + y.wrTicks - (x.rdTicks + x.wrTicks));
  }

  /** No wrap in the changes of one interval, reads and writes together. */
  predicate SmallChanges(cs: IoStat, ps: IoStat) {
    && Sub(cs.rdIos, ps.rdIos) + Sub(cs.wrIos, ps.wrIos) < WORD
    && Sub(cs.rdTicks, ps.rdTicks) + Sub(cs.wrTicks, ps.wrTicks) < WORD
  }

  /** Waiting time is counted only for a kind of I/O that occurred, or no I/O occurred at all. */
  predicate TicksHaveIos(cs: IoStat, ps: IoStat) {
    || (cs.rdIos == ps.rdIos && cs.wrIos == ps.wrIos)
    || ((cs.rdIos == ps.rdIos ==> cs.rdTicks == ps.rdTicks) && (cs.wrIos == ps.wrIos ==> cs.wrTicks == ps.wrTicks))
  }

  /**
    await is the mean of r_await and w_await, weighted with the numbers of reads and writes,
    exactly when no waiting time was counted for a kind of I/O that did not occur; with both
    kinds it lies between the two.
   */
  lemma AwaitIsWeightedMean(e: Io, ps: IoStat, m: Machine)
    requires Runs(m) && SmallChanges(e.stat, ps)
    ensures var r, x, y := Rated(e, ps, m), Sub(e.stat.rdIos, ps.rdIos) as real, Sub(e.stat.wrIos, ps.wrIos) as real;
      && (r.await * (x + y) == r.rAwait * x + r.wAwait * y <==> TicksHaveIos(e.stat, ps))
      && (x != 0.0 && y != 0.0 ==> r.rAwait <= r.await <= r.wAwait || r.wAwait <= r.await <= r.rAwait)
  {
    hide Wrap, Megabytes, Speed, Mean, ComputeStat, Interval;
    var cs := e.stat;
    NrIosChange(cs, ps);
    WrapBelow(Sub(cs.rdIos, ps.rdIos) + Sub(cs.wrIos, ps.wrIos));
    WrapBelow(Sub(cs.rdTicks, ps.rdTicks) + Sub(cs.wrTicks, ps.wrTicks));
    SubIsZero(cs.rdIos, ps.rdIos);
    SubIsZero(cs.wrIos, ps.wrIos);
    SubIsZero(cs.rdTicks, ps.rdTicks);
    SubIsZero(cs.wrTicks, ps.wrTicks);
    MeansCombine(Sub(cs.rdTicks, ps.rdTicks), Sub(cs.rdIos, ps.rdIos),
                 Sub(cs.wrTicks, ps.wrTicks), Sub(cs.wrIos, ps.wrIos));
  }

  lemma MeanCancels(t: u64, n: u64)
    ensures Mean(t, n) * n as real == if n == 0 then 0.0 else t as real
  {
  }

  lemma MeansCombine(rt: u64, rn: u64, wt: u64, wn: u64)
    requires rt + wt < WORD && rn + wn < WORD
    ensures var a, r, w := Mean(rt + wt, rn + wn), Mean(rt, rn), Mean(wt, wn);
      && (a * (rn as real + wn as real) == r * rn as real + w * wn as real
          <==> rn + wn == 0 || ((rn == 0 ==> rt == 0) && (wn == 0 ==> wt == 0)))
      && (rn != 0 && wn != 0 ==> r <= a <= w || w <= a <= r)
  {
    hide Mean;
    MeanCancels(rt, rn);
    MeanCancels(wt, wn);
    MeanCancels(rt + wt, rn + wn);
    assert (rn + wn) as real == rn as real + wn as real;
    if rn != 0 && wn != 0 {
      MeanBetween(Mean(rt + wt, rn + wn), Mean(rt, rn), Mean(wt, wn), rn as real, wn as real);
    }
  }

  lemma MeanBetween(a: real, r: real, w: real, x: real, y: real)
    requires x > 0.0 && y > 0.0 && a * (x + y) == r * x + w * y
    ensures r <= a <= w || w <= a <= r
  {
    assert (a - r) * x == (w - a) * y;
    if a < r {
      assert (a - r) * x < 0.0;
      assert w < a;
    } else if a > r {
      assert (a - r) * x > 0.0;
      assert w > a;
    }
  }

  // --------------------------------------------------------- over a whole run

  /** One line of /proc/diskstats as read_io_stat stores it. */
  datatype Sample = Sample(dev: string, stat: IoStat)

  function Fresh(x: Sample): Io {
    Io(x.dev, Real(0.0), 0, 0, Real(0.0), Real(0.0), Real(0.0), Real(0.0), Real(0.0), Real(0.0), 0.0,
       Real(0.0), 0.0, 0.0, 0.0, Real(0.0), x.stat)
  }

  /** mod_io's collect_record on list values: the first list stays as read, later ones are rated. */
  function Start(samples: seq<Sample>): (es: seq<Io>)
    ensures |es| == |samples|
  {
    seq(|samples|, i requires 0 <= i < |samples| => Fresh(samples[i]))
  }

  function Next(m: Machine): (seq<Sample>, seq<Io>) -> seq<Io>
    requires Runs(m)
  {
    (samples: seq<Sample>, last: seq<Io>) => Computed(Start(samples), last, m)
  }

  function Records(run: seq<seq<Sample>>, m: Machine): seq<seq<Io>>
    requires Runs(m)
  {
    History(Start, Next(m), run)
  }

  function DevsRead(samples: seq<Sample>): (devs: seq<string>)
    ensures |devs| == |samples| && forall c :: 0 <= c < |samples| ==> devs[c] == samples[c].dev
  {
    seq(|samples|, c requires 0 <= c < |samples| => samples[c].dev)
  }

  predicate Present(run: seq<seq<Sample>>, dev: string) {
    forall i :: 0 <= i < |run| ==> dev in DevsRead(run[i])
  }

  /** The first position of the device in the `i`-th list, and the counters read there. */
  function PositionAt(run: seq<seq<Sample>>, dev: string, i: nat): (k: nat)
    requires i < |run| && Present(run, dev)
    ensures k < |run[i]| && run[i][k].dev == dev && forall j :: 0 <= j < k ==> run[i][j].dev != dev
  {
    Find(DevsRead(run[i]), dev)
  }

  function StatAt(run: seq<seq<Sample>>, dev: string, i: nat): IoStat
    requires i < |run| && Present(run, dev)
  {
    run[i][PositionAt(run, dev, i)].stat
  }

  /** A record list keeps the devices and counters it was read with. */
  lemma RecordKeepsRaw(run: seq<seq<Sample>>, m: Machine, i: nat)
    requires Runs(m) && i < |run|
    ensures Devs(Records(run, m)[i]) == DevsRead(run[i])
    ensures forall c {:trigger Records(run, m)[i][c]} :: 0 <= c < |run[i]| ==>
              Records(run, m)[i][c].stat == run[i][c].stat
  {
    hide RatedAgainst;
    HistoryIsChained(Start, Next(m), run);
    var es := Start(run[i]);
    if i == 0 {
      assert Records(run, m)[0] == es;
    } else {
      assert Records(run, m)[i] == Computed(es, Records(run, m)[i - 1], m);
    }
    assert forall c :: 0 <= c < |run[i]| ==> es[c].dev == run[i][c].dev && es[c].stat == run[i][c].stat;
  }

  /** All that compute_io_stat writes is zero. */
  predicate Unrated(e: Io) {
    && e.tps == e.rrqmPerSec == e.wrqmPerSec == e.rPerSec == e.wPerSec == Real(0.0)
    && e.rSpeedPerSec == e.wSpeedPerSec == e.avgquSz == e.util == Real(0.0)
    && e.readByte == e.wrtnByte == 0
    && e.avgrqSz == e.await == e.rAwait == e.wAwait == 0.0
  }

  /** In the first list, and for a device that the list before does not have, nothing is rated. */
  lemma NewDeviceIsUnrated(run: seq<seq<Sample>>, m: Machine, i: nat, c: nat)
    requires Runs(m) && i < |run| && c < |run[i]|
    requires i > 0 ==> run[i][c].dev !in DevsRead(run[i - 1])
    ensures |Records(run, m)[i]| == |run[i]| && Unrated(Records(run, m)[i][c])
  {
    hide Rated;
    HistoryIsChained(Start, Next(m), run);
    RecordKeepsRaw(run, m, i);
    assert Start(run[i])[c] == Fresh(run[i][c]);
    if i > 0 {
      var last := Records(run, m)[i - 1];
      RecordKeepsRaw(run, m, i - 1);
      assert Records(run, m)[i] == Computed(Start(run[i]), last, m);
    }
  }

  /** Every later record of a device is rated against the counters of the list just before it. */
  lemma RecordOfDevice(run: seq<seq<Sample>>, m: Machine, dev: string, i: nat)
    requires Runs(m) && 0 < i < |run| && Present(run, dev)
    ensures |Records(run, m)[i]| == |run[i]|
    ensures Records(run, m)[i][PositionAt(run, dev, i)]
         == Rated(Fresh(Sample(dev, StatAt(run, dev, i))), StatAt(run, dev, i - 1), m)
  {
    hide Rated;
    HistoryIsChained(Start, Next(m), run);
    RecordKeepsRaw(run, m, i - 1);
    var k, p := PositionAt(run, dev, i), PositionAt(run, dev, i - 1);
    var last := Records(run, m)[i - 1];
    assert Records(run, m)[i] == Computed(Start(run[i]), last, m);
    assert Start(run[i])[k] == Fresh(run[i][k]);
    assert last[p].stat == run[i - 1][p].stat;
  }

  /** The record of the device in the `i`-th list. */
  function RecordAt(run: seq<seq<Sample>>, m: Machine, dev: string, i: nat): Io
    requires Runs(m) && 0 < i < |run| && Present(run, dev)
  {
    RecordOfDevice(run, m, dev, i);
    Records(run, m)[i][PositionAt(run, dev, i)]
  }

  // The counters of a device may wrap. `trues` is a counter as the kernel means it, list by list.

  /** `trues` is the number of I/Os of the device, of which each list stores the two halves modulo 2^64. */
  predicate CountsIos(run: seq<seq<Sample>>, dev: string, trues: seq<nat>)
    requires Present(run, dev) && |trues| == |run|
  {
    forall i :: 0 <= i < |run| ==> Wrap(trues[i]) == Add(StatAt(run, dev, i).rdIos, StatAt(run, dev, i).wrIos)
  }

  predicate CountsReads(run: seq<seq<Sample>>, dev: string, trues: seq<nat>)
    requires Present(run, dev) && |trues| == |run|
  {
    forall i :: 0 <= i < |run| ==> Wrap(trues[i]) == StatAt(run, dev, i).rdSectors
  }

  predicate CountsWrites(run: seq<seq<Sample>>, dev: string, trues: seq<nat>)
    requires Present(run, dev) && |trues| == |run|
  {
    forall i :: 0 <= i < |run| ==> Wrap(trues[i]) == StatAt(run, dev, i).wrSectors
  }

  /** The counter did not go down, nor up by 2^64, in the `i`-th interval. */
  predicate Grows(trues: seq<nat>, i: nat)
    requires 0 < i < |trues|
  {
    0 <= trues[i] - trues[i - 1] < WORD
  }

  /** `clock` is the clock that the lists of the device were read at, in jiffies. */
  predicate CountsTime(run: seq<seq<Sample>>, dev: string, m: Machine, clock: seq<nat>)
    requires Present(run, dev) && |clock| == |run|
  {
    forall i :: 0 <= i < |run| ==> Wrap(clock[i]) == ClockOf(StatAt(run, dev, i), m)
  }

  /** The tps values of the records 1 to `n`, each times the seconds of its interval. */
  function CountedIos(run: seq<seq<Sample>>, m: Machine, dev: string, clock: seq<nat>, n: nat): real
    requires Runs(m) && n < |run| == |clock| && Present(run, dev)
  {
    if n == 0 then 0.0
    else
      CountedIos(run, m, dev, clock, n - 1)
      + Value(RecordAt(run, m, dev, n).tps) * (clock[n] as real - clock[n - 1] as real) / m.hz as real
  }

  lemma IntervalIos(run: seq<seq<Sample>>, m: Machine, dev: string, trues: seq<nat>, clock: seq<nat>, i: nat)
    requires Runs(m) && 0 < i < |run| == |trues| == |clock| && Present(run, dev)
    requires CountsIos(run, dev, trues) && CountsTime(run, dev, m, clock)
    requires Grows(trues, i) && Grows(clock, i) && clock[i] != clock[i - 1]
    ensures AmountsTo(RecordAt(run, m, dev, i).tps, 1.0, clock[i] - clock[i - 1], m, trues[i] - trues[i - 1])
  {
    hide Wrap, Add, Sub, Megabytes, Speed, Mean, ComputeStat, Interval, ClockOf;
    var cs, ps := StatAt(run, dev, i), StatAt(run, dev, i - 1);
    RecordOfDevice(run, m, dev, i);
    IntervalIsClockChange(cs, ps, m);
    DifferenceOfWrapped(clock[i], clock[i - 1]);
    WrapSmall(clock[i] - clock[i - 1]);
    StatAccounts(trues[i - 1], trues[i], clock[i] - clock[i - 1], m);
  }

  /** Over any run, the rates of a device that is in every list account for exactly its I/Os, wraps included. */
  lemma {:induction false} TpsTelescopes(run: seq<seq<Sample>>, m: Machine, dev: string, trues: seq<nat>,
                                         clock: seq<nat>, n: nat)
    requires Runs(m) && n < |run| == |trues| == |clock| && Present(run, dev)
    requires CountsIos(run, dev, trues) && CountsTime(run, dev, m, clock)
    requires forall i :: 0 < i <= n ==> Grows(trues, i) && Grows(clock, i) && clock[i] != clock[i - 1]
    ensures CountedIos(run, m, dev, clock, n) == trues[n] as real - trues[0] as real
  {
    hide Grows, RecordAt, CountsIos, CountsTime;
    if n > 0 {
      TpsTelescopes(run, m, dev, trues, clock, n - 1);
      IntervalIos(run, m, dev, trues, clock, n);
    }
  }

  /** The sum of the entries 1 to `n`. */
  function Total(xs: seq<nat>, n: nat): nat
    requires n < |xs|
  {
    if n == 0 then 0 else Total(xs, n - 1) + xs[n]
  }

  /** `mbs[i]` is the change of the counter in the `i`-th interval, in whole megabytes, rounded down. */
  predicate Floors(mbs: seq<nat>, trues: seq<nat>, i: nat)
    requires 0 < i < |mbs| == |trues|
  {
    trues[i - 1] + 2048 * mbs[i] <= trues[i] < trues[i - 1] + 2048 * mbs[i] + 2048
  }

  lemma {:induction false} FloorsTelescope(mbs: seq<nat>, trues: seq<nat>, n: nat)
    requires n < |mbs| == |trues|
    requires forall i :: 0 < i <= n ==> Floors(mbs, trues, i)
    ensures 2048 * Total(mbs, n) <= trues[n] - trues[0] <= 2048 * Total(mbs, n) + 2047 * n
  {
    if n > 0 {
      FloorsTelescope(mbs, trues, n - 1);
      assert Floors(mbs, trues, n);
      FloorsAdd(Total(mbs, n - 1), mbs[n], trues[n - 1] - trues[0], trues[n] - trues[n - 1], n);
    }
  }

  lemma FloorsAdd(mb: nat, more: nat, x: int, y: int, n: nat)
    requires n > 0
    requires 2048 * mb <= x <= 2048 * mb + 2047 * (n - 1)
    requires 2048 * more <= y < 2048 * more + 2048
    ensures 2048 * (mb + more) <= x + y <= 2048 * (mb + more) + 2047 * n
  {
  }

  /** The megabytes that each record reports as read; the first list reports none. */
  function ReportedReads(run: seq<seq<Sample>>, m: Machine, dev: string): (mbs: seq<nat>)
    requires Runs(m) && Present(run, dev)
    ensures |mbs| == |run| && forall i :: 0 < i < |run| ==> mbs[i] == RecordAt(run, m, dev, i).readByte
  {
    seq(|run|, i requires 0 <= i < |run| => if i == 0 then 0 else RecordAt(run, m, dev, i).readByte)
  }

  lemma IntervalReads(run: seq<seq<Sample>>, m: Machine, dev: string, trues: seq<nat>, i: nat)
    requires Runs(m) && 0 < i < |run| == |trues| && Present(run, dev) && CountsReads(run, dev, trues)
    requires Grows(trues, i)
    ensures Floors(ReportedReads(run, m, dev), trues, i)
  {
    hide Wrap, Sub, Megabytes, Speed, Mean, ComputeStat, Interval;
    var cs, ps := StatAt(run, dev, i), StatAt(run, dev, i - 1);
    DifferenceOfWrapped(trues[i], trues[i - 1]);
    WrapSmall(trues[i] - trues[i - 1]);
    RecordOfDevice(run, m, dev, i);
    assert RecordAt(run, m, dev, i).readByte == Megabytes(Sub(cs.rdSectors, ps.rdSectors));
  }

  /** The megabytes reported as read never exceed the true ones, and over `n` intervals fall short by less than `n`. */
  lemma ReadsAddUp(run: seq<seq<Sample>>, m: Machine, dev: string, trues: seq<nat>, n: nat)
    requires Runs(m) && n < |run| == |trues| && Present(run, dev) && CountsReads(run, dev, trues)
    requires forall i :: 0 < i <= n ==> Grows(trues, i)
    ensures var mb := Total(ReportedReads(run, m, dev), n);
      2048 * mb <= trues[n] - trues[0] <= 2048 * mb + 2047 * n
  {
    hide RecordAt, Grows, Floors, CountsReads;
    forall i | 0 < i <= n ensures Floors(ReportedReads(run, m, dev), trues, i) {
      IntervalReads(run, m, dev, trues, i);
    }
    FloorsTelescope(ReportedReads(run, m, dev), trues, n);
  }

  /** The megabytes that each record reports as written; the first list reports none. */
  function ReportedWrites(run: seq<seq<Sample>>, m: Machine, dev: string): (mbs: seq<nat>)
    requires Runs(m) && Present(run, dev)
    ensures |mbs| == |run| && forall i :: 0 < i < |run| ==> mbs[i] == RecordAt(run, m, dev, i).wrtnByte
  {
    seq(|run|, i requires 0 <= i < |run| => if i == 0 then 0 else RecordAt(run, m, dev, i).wrtnByte)
  }

  lemma IntervalWrites(run: seq<seq<Sample>>, m: Machine, dev: string, trues: seq<nat>, i: nat)
    requires Runs(m) && 0 < i < |run| == |trues| && Present(run, dev) && CountsWrites(run, dev, trues)
    requires Grows(trues, i)
    ensures Floors(ReportedWrites(run, m, dev), trues, i)
  {
    hide Wrap, Sub, Megabytes, Speed, Mean, ComputeStat, Interval;
    var cs, ps := StatAt(run, dev, i), StatAt(run, dev, i - 1);
    DifferenceOfWrapped(trues[i], trues[i - 1]);
    WrapSmall(trues[i] - trues[i - 1]);
    RecordOfDevice(run, m, dev, i);
    assert RecordAt(run, m, dev, i).wrtnByte == Megabytes(Sub(cs.wrSectors, ps.wrSectors));
  }

  /** The same for the megabytes reported as written. */
  lemma WritesAddUp(run: seq<seq<Sample>>, m: Machine, dev: string, trues: seq<nat>, n: nat)
    requires Runs(m) && n < |run| == |trues| && Present(run, dev) && CountsWrites(run, dev, trues)
    requires forall i :: 0 < i <= n ==> Grows(trues, i)
    ensures var mb := Total(ReportedWrites(run, m, dev), n);
      2048 * mb <= trues[n] - trues[0] <= 2048 * mb + 2047 * n
  {
    hide RecordAt, Grows, Floors, CountsWrites;
    forall i | 0 < i <= n ensures Floors(ReportedWrites(run, m, dev), trues, i) {
      IntervalWrites(run, m, dev, trues, i);
    }
    FloorsTelescope(ReportedWrites(run, m, dev), trues, n);
  }

  // ------------------------------------------------------------- the uptime

  /** read_uptime_in_jiffies on the two numbers scanned from /proc/uptime, seconds and hundredths. */
  function UptimeInJiffies(sec: u64, cent: u64, m: Machine): u64 {
    Add(Wrap(sec * m.hz), Wrap(cent * m.hz) / 100)
  }

  /** Without a wrap, the jiffies are the hundredths of a second, scaled and rounded down once; later is never less. */
  lemma UptimeIsFloor(sec: u64, cent: u64, m: Machine)
    requires (100 * sec + cent) * m.hz < WORD
    ensures UptimeInJiffies(sec, cent, m) == (100 * sec + cent) * m.hz / 100
  {
    var a, b := sec * m.hz, cent * m.hz;
    assert (100 * sec + cent) * m.hz == 100 * a + b;
    assert (100 * a + b) / 100 == a + b / 100;
    WrapSmall(a);
    WrapSmall(b);
    WrapSmall(a + b / 100);
  }

  lemma UptimeIsMonotone(sec: u64, cent: u64, sec': u64, cent': u64, m: Machine)
    requires (100 * sec' + cent') * m.hz < WORD && 100 * sec + cent <= 100 * sec' + cent'
    ensures UptimeInJiffies(sec, cent, m) <= UptimeInJiffies(sec', cent', m)
  {
    assert (100 * sec + cent) * m.hz <= (100 * sec' + cent') * m.hz;
    UptimeIsFloor(sec, cent, m);
    UptimeIsFloor(sec', cent', m);
  }
}
