/**
  read_mem_stat and read_swap_stat of libzsr/mem.c and libzsr/swap.c, on the lines of
  /proc/meminfo. Both keep `usedKb` determined by the other two fields, whatever they find.
 */
module Meminfo {
  import opened Searching
  import opened Words

  /** A line with the total or the free memory, and its number, if that could be scanned; or another line. */
  datatype Line = TotalLine(kb: Option<u64>) | FreeLine(kb: Option<u64>) | OtherLine

  /** read_mem_stat stops at the first line that is neither of the two. */
  function Leading(lines: seq<Line>): seq<Line> {
    if lines == [] || lines[0].OtherLine? then [] else [lines[0]] + Leading(lines[1..])
  }

  /** read_swap_stat stops behind the first line with the free swap. */
  function ThroughFree(lines: seq<Line>): seq<Line> {
    if lines == [] then []
    else [lines[0]] + if lines[0].FreeLine? then [] else ThroughFree(lines[1..])
  }

  /** The last total that the lines give, or `kb` if they give none. */
  function LastTotal(lines: seq<Line>, kb: u64): u64 {
    if lines == [] then kb
    else LastTotal(lines[1..], if lines[0].TotalLine? && lines[0].kb.Some? then lines[0].kb.value else kb)
  }

  function LastFree(lines: seq<Line>, kb: u64): u64 {
    if lines == [] then kb
    else LastFree(lines[1..], if lines[0].FreeLine? && lines[0].kb.Some? then lines[0].kb.value else kb)
  }

  predicate GivesTotal(line: Line) {
    line.TotalLine? && line.kb.Some?
  }

  predicate GivesFree(line: Line) {
    line.FreeLine? && line.kb.Some?
  }

  /** `lines[k - 1]` is the last to give a total, or none does. */
  lemma {:induction false} LastTotalAt(lines: seq<Line>, kb: u64, k: nat)
    requires k <= |lines| && (k > 0 ==> GivesTotal(lines[k - 1]))
    requires forall j :: k <= j < |lines| ==> !GivesTotal(lines[j])
    ensures LastTotal(lines, kb) == if k == 0 then kb else lines[k - 1].kb.value
  {
    if lines != [] {
      var next := if GivesTotal(lines[0]) then lines[0].kb.value else kb;
      LastTotalAt(lines[1..], next, if k == 0 then 0 else k - 1);
    }
  }

  lemma {:induction false} LastFreeAt(lines: seq<Line>, kb: u64, k: nat)
    requires k <= |lines| && (k > 0 ==> GivesFree(lines[k - 1]))
    requires forall j :: k <= j < |lines| ==> !GivesFree(lines[j])
    ensures LastFree(lines, kb) == if k == 0 then kb else lines[k - 1].kb.value
  {
    if lines != [] {
      var next := if GivesFree(lines[0]) then lines[0].kb.value else kb;
      LastFreeAt(lines[1..], next, if k == 0 then 0 else k - 1);
    }
  }

  /** read_mem_stat reads the lines before the first other one. */
  lemma {:induction false} LeadingAre(lines: seq<Line>, n: nat)
    requires n <= |lines| && (n < |lines| ==> lines[n].OtherLine?)
    requires forall j :: 0 <= j < n ==> !lines[j].OtherLine?
    ensures Leading(lines) == lines[..n]
  {
    if n > 0 {
      LeadingAre(lines[1..], n - 1);
      assert lines[..n] == [lines[0]] + lines[1..][..n - 1];
    }
  }

  /** read_swap_stat reads the lines through the first one with the free swap. */
  lemma {:induction false} ThroughFreeAre(lines: seq<Line>, n: nat)
    requires n <= |lines| && (n < |lines| ==> lines[n].FreeLine?)
    requires forall j :: 0 <= j < n ==> !lines[j].FreeLine?
    ensures ThroughFree(lines) == if n < |lines| then lines[..n + 1] else lines
  {
    if n > 0 {
      var rest := lines[1..];
      ThroughFreeAre(rest, n - 1);
      if n < |lines| {
        assert lines[..n + 1] == [lines[0]] + rest[..n];
      } else {
        assert lines == [lines[0]] + rest;
      }
    }
  }

  /** mem_stat_t and swap_stat_t. */
  class MemStat {
    var totalKb: u64
    var usedKb: u64
    var freeKb: u64

    /** memset */
    constructor ()
      ensures totalKb == 0 && freeKb == 0 && Determined()
    {
      totalKb, usedKb, freeKb := 0, 0, 0;
      new;
      WrapSmall(0);
    }

    predicate Determined()
      reads this
    {
      usedKb == Sub(totalKb, freeKb)
    }

    method StoreLine(line: Line)
      modifies this`totalKb, this`freeKb
      ensures totalKb == LastTotal([line], old(totalKb)) && freeKb == LastFree([line], old(freeKb))
    {
      match line
      case TotalLine(kb) =>
        if kb.Some? {
          totalKb := kb.value;
        }
      case FreeLine(kb) =>
        if kb.Some? {
          freeKb := kb.value;
        }
      case OtherLine =>
    }

    /** `file` is None if it cannot be opened. */
    method ReadMemStat(file: Option<seq<Line>>)
      modifies this
      ensures file == None ==> unchanged(this)
      ensures file.Some? ==>
        && totalKb == LastTotal(Leading(file.value), old(totalKb))
        && freeKb == LastFree(Leading(file.value), old(freeKb))
      ensures file.Some? || old(Determined()) ==> Determined()
    {
      if file == None {
        return;
      }
      var lines := file.value;
      var i := 0;
      while i < |lines|
        invariant i <= |lines|
        invariant LastTotal(Leading(lines[i..]), totalKb) == LastTotal(Leading(lines), old(totalKb))
        invariant LastFree(Leading(lines[i..]), freeKb) == LastFree(Leading(lines), old(freeKb))
      {
        if lines[i].OtherLine? {
          break;
        }
        assert lines[i..][1..] == lines[i + 1..];
        StoreLine(lines[i]);
        i := i + 1;
      }
      usedKb := Sub(totalKb, freeKb);
    }

    method ReadSwapStat(file: Option<seq<Line>>)
      modifies this
      ensures file == None ==> unchanged(this)
      ensures file.Some? ==>
        && totalKb == LastTotal(ThroughFree(file.value), old(totalKb))
        && freeKb == LastFree(ThroughFree(file.value), old(freeKb))
      ensures file.Some? || old(Determined()) ==> Determined()
    {
      if file == None {
        return;
      }
      var lines := file.value;
      var i := 0;
      var done := false;
      while i < |lines| && !done
        invariant i <= |lines|
        invariant LastTotal(if done then [] else ThroughFree(lines[i..]), totalKb)
               == LastTotal(ThroughFree(lines), old(totalKb))
        invariant LastFree(if done then [] else ThroughFree(lines[i..]), freeKb)
               == LastFree(ThroughFree(lines), old(freeKb))
      {
        assert lines[i..][1..] == lines[i + 1..];
        StoreLine(lines[i]);
        done := lines[i].FreeLine?;
        i := i + 1;
      }
      usedKb := Sub(totalKb, freeKb);
    }
  }
}
