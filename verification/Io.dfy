/** The device rates of libzsr/io.c. */
module Io {
  import opened Rings
  import opened Searching
  import opened Words

  datatype IoStat = IoStat(uptime: u64, uptime0: u64, rdSectors: u64, wrSectors: u64, rdIos: u64, rdMerges: u64,
                           wrIos: u64, wrMerges: u64, rdTicks: u64, wrTicks: u64, iosPgr: u64, totTicks: u64,
                           rqTicks: u64)

  datatype Io = Io(dev: string, tps: Double, readByte: u64, wrtnByte: u64, rrqmPerSec: Double, wrqmPerSec: Double,
                   rPerSec: Double, wPerSec: Double, rSpeedPerSec: Double, wSpeedPerSec: Double, avgrqSz: real,
                   avgquSz: Double, await: real, rAwait: real, wAwait: real, util: Double, stat: IoStat)

  /** The file-level HZ (clock ticks per second, positive) and NUM_OF_CPU. */
  datatype Machine = Machine(hz: nat, numOfCpu: nat)

  predicate Runs(m: Machine) {
    m.hz > 0
  }

  /** Sectors of 512 bytes per megabyte. */
  const FACTOR: nat := 1024 * 1024 / 512

  /** The macro COMPUTE_STAT. */
  function ComputeStat(c: u64, p: u64, itv: u64, m: Machine): Double
    requires Runs(m)
  {
    Scale(Ratio(Sub(c, p) as real, itv as real), m.hz as real)
  }

  function Interval(cs: IoStat, ps: IoStat, m: Machine): u64 {
    if m.numOfCpu > 1 then Sub(cs.uptime0, ps.uptime0) else Sub(cs.uptime, ps.uptime)
  }

  /** `sectors / factor_`: whole megabytes. */
  function Megabytes(sectors: u64): (mb: u64)
    ensures 2048 * mb <= sectors < 2048 * mb + 2048
  {
    sectors / FACTOR
  }

  /** COMPUTE_STAT of two sector counts, in megabytes per second. */
  function Speed(c: u64, p: u64, itv: u64, m: Machine): Double
    requires Runs(m)
  {
    Scale(ComputeStat(c, p, itv, m), 1.0 / FACTOR as real)
  }

  /** `x ? y / x : 0.0` */
  function Mean(y: u64, x: u64): real {
    if x != 0 then y as real / x as real else 0.0
  }

  /** The fields that compute_io_stat fills in for a current entry whose match has the counters `ps`. */
  function Rated(e: Io, ps: IoStat, m: Machine): (r: Io)
    requires Runs(m)
    ensures r.dev == e.dev && r.stat == e.stat
  {
    hide Wrap, Megabytes;
    var cs := e.stat;
    var interval := Interval(cs, ps, m);
    var changeNrIos := Sub(Add(cs.rdIos, cs.wrIos), Add(ps.rdIos, ps.wrIos));
    var changeRdTicks, changeWrTicks := Sub(cs.rdTicks, ps.rdTicks), Sub(cs.wrTicks, ps.wrTicks);
    var changeRdSectors, changeWrSectors := Sub(cs.rdSectors, ps.rdSectors), Sub(cs.wrSectors, ps.wrSectors);
    e.(tps := ComputeStat(Add(cs.rdIos, cs.wrIos), Add(ps.rdIos, ps.wrIos), interval, m),
       readByte := Megabytes(changeRdSectors),
       wrtnByte := Megabytes(changeWrSectors),
       rrqmPerSec := ComputeStat(cs.rdMerges, ps.rdMerges, interval, m),
       wrqmPerSec := ComputeStat(cs.wrMerges, ps.wrMerges, interval, m),
       rPerSec := ComputeStat(cs.rdIos, ps.rdIos, interval, m),
       wPerSec := ComputeStat(cs.wrIos, ps.wrIos, interval, m),
       rSpeedPerSec := Speed(cs.rdSectors, ps.rdSectors, interval, m),
       wSpeedPerSec := Speed(cs.wrSectors, ps.wrSectors, interval, m),
       avgrqSz := Mean(Add(changeRdSectors, changeWrSectors), changeNrIos),
       avgquSz := Scale(ComputeStat(cs.rqTicks, ps.rqTicks, interval, m), 1.0 / 1000.0),
       await := Mean(Add(changeRdTicks, changeWrTicks), changeNrIos),
       rAwait := Mean(changeRdTicks, Sub(cs.rdIos, ps.rdIos)),
       wAwait := Mean(changeWrTicks, Sub(cs.wrIos, ps.wrIos)),
       util := ComputeStat(cs.totTicks, ps.totTicks, interval, m))
  }

  function Devs(es: seq<Io>): (devs: seq<string>)
    ensures |devs| == |es| && forall i :: 0 <= i < |es| ==> devs[i] == es[i].dev
  {
    seq(|es|, i requires 0 <= i < |es| => es[i].dev)
  }

  /** One entry of the join: rated against the first previous entry of the same device, if there is one. */
  function RatedAgainst(e: Io, prev: seq<Io>, m: Machine): (r: Io)
    requires Runs(m)
    ensures r.dev == e.dev && r.stat == e.stat
  {
    var p := Find(Devs(prev), e.dev);
    if p < |prev| then Rated(e, prev[p].stat, m) else e
  }

  /** compute_io_stat on the values of the two lists. */
  function Computed(cur: seq<Io>, prev: seq<Io>, m: Machine): (r: seq<Io>)
    requires Runs(m)
    ensures |r| == |cur|
    ensures forall c :: 0 <= c < |cur| ==> r[c].dev == cur[c].dev && r[c].stat == cur[c].stat
  {
    seq(|cur|, c requires 0 <= c < |cur| => RatedAgainst(cur[c], prev, m))
  }

  /** The list still has the devices and raw counters of `es`, which the join never writes. */
  ghost predicate SameRaw(t: seq<Node<Io>>, es: seq<Io>)
    reads t
  {
    && |t| == |es|
    && forall i {:trigger t[i].entry} :: 0 <= i < |t| ==> t[i].entry.dev == es[i].dev && t[i].entry.stat == es[i].stat
  }

  /** compute_io_stat: the nested loops over the two lists, which may share entries. */
  method ComputeIoStat(curList: Node<Io>, prevList: Node<Io>, m: Machine,
                       ghost s: seq<Node<Io>>, ghost t: seq<Node<Io>>)
    requires Ring(curList, s) && Ring(prevList, t) && Runs(m)
    modifies Nodes(s)`entry
    ensures Ring(curList, s) && Entries(s) == Computed(old(Entries(s)), old(Entries(t)), m)
    ensures SameRaw(t, old(Entries(t)))
  {
    hide RatedAgainst;
    ghost var cur, prev := Entries(s), Entries(t);
    ghost var c := 0;
    var entry := curList.next;
    while entry != curList
      invariant c <= |s| && entry == if c < |s| then s[c] else curList
      invariant forall i {:trigger s[i].entry} :: 0 <= i < |s| ==>
                  s[i].entry == if i < c then RatedAgainst(cur[i], prev, m) else cur[i]
      invariant SameRaw(t, prev)
      decreases |s| - c
    {
      RateEntry(entry, prevList, m, t, prev);
      c := c + 1;
      entry := entry.next;
    }
  }

  /** The inner loop: the first previous entry of the same device is used, then the loop breaks. */
  method RateEntry(entry: Node<Io>, prevList: Node<Io>, m: Machine, ghost t: seq<Node<Io>>, ghost prev: seq<Io>)
    requires Ring(prevList, t) && Runs(m) && SameRaw(t, prev)
    modifies entry`entry
    ensures entry.entry == RatedAgainst(old(entry.entry), prev, m)
    ensures SameRaw(t, prev)
  {
    hide Rated, Wrap;
    ghost var p := 0;
    var prevEntry := prevList.next;
    while prevEntry != prevList && entry.entry.dev != prevEntry.entry.dev
      invariant p <= |t| && prevEntry == if p < |t| then t[p] else prevList
      invariant forall q :: 0 <= q < p ==> Devs(prev)[q] != entry.entry.dev
      decreases |t| - p
    {
      p := p + 1;
      prevEntry := prevEntry.next;
    }
    if prevEntry != prevList {
      assert Devs(prev)[p] == prev[p].dev;
      WriteRates(entry, prevEntry.entry.stat, m);
    }
  }

  /** Lines 121-190: the fields are written one after the other. */
  method WriteRates(entry: Node<Io>, ps: IoStat, m: Machine)
    requires Runs(m)
    modifies entry`entry
    ensures entry.entry == Rated(old(entry.entry), ps, m)
  {
    hide Wrap;
    var cs := entry.entry.stat;
    var interval := if m.numOfCpu > 1 then Sub(cs.uptime0, ps.uptime0) else Sub(cs.uptime, ps.uptime);
    var csNrIos := Add(cs.rdIos, cs.wrIos);
    var psNrIos := Add(ps.rdIos, ps.wrIos);
    var changeNrIos := Sub(csNrIos, psNrIos);
    var changeRdTicks := Sub(cs.rdTicks, ps.rdTicks);
    var changeWrTicks := Sub(cs.wrTicks, ps.wrTicks);
    var changeRdIos := Sub(cs.rdIos, ps.rdIos);
    var changeWrIos := Sub(cs.wrIos, ps.wrIos);
    var changeRdSectors := Sub(cs.rdSectors, ps.rdSectors);
    var changeWrSectors := Sub(cs.wrSectors, ps.wrSectors);
    var e := entry.entry;
    e := e.(tps := ComputeStat(Add(cs.rdIos, cs.wrIos), Add(ps.rdIos, ps.wrIos), interval, m));
    e := e.(readByte := Megabytes(changeRdSectors));
    e := e.(wrtnByte := Megabytes(changeWrSectors));
    e := e.(rrqmPerSec := ComputeStat(cs.rdMerges, ps.rdMerges, interval, m));
    e := e.(wrqmPerSec := ComputeStat(cs.wrMerges, ps.wrMerges, interval, m));
    e := e.(rPerSec := ComputeStat(cs.rdIos, ps.rdIos, interval, m));
    e := e.(wPerSec := ComputeStat(cs.wrIos, ps.wrIos, interval, m));
    e := e.(rSpeedPerSec := Speed(cs.rdSectors, ps.rdSectors, interval, m));
    e := e.(wSpeedPerSec := Speed(cs.wrSectors, ps.wrSectors, interval, m));
    e := e.(avgrqSz := Mean(Add(changeRdSectors, changeWrSectors), changeNrIos));
    e := e.(avgquSz := Scale(ComputeStat(cs.rqTicks, ps.rqTicks, interval, m), 1.0 / 1000.0));
    e := e.(await := Mean(Add(changeRdTicks, changeWrTicks), changeNrIos));
    e := e.(rAwait := Mean(changeRdTicks, changeRdIos));
    e := e.(wAwait := Mean(changeWrTicks, changeWrIos));
    e := e.(util := ComputeStat(cs.totTicks, ps.totTicks, interval, m));
    entry.entry := e;
  }
}
