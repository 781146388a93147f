/**
  When compute_proc_cpu_stat computes what include/zsr/zsr.h:185 documents.

  The documented share compares a process with its own previous sample, found at position `p`
  (libzsr/proc.c:242). The code subtracts the previous sample at position `c` (lines 246 and
  249) instead. The two agree exactly on the pid lists that are `Faithful`.
 */
module ProcMeaning {
  import opened Words
  import opened ProcSpec
  import opened Searching

  /** Every pid that both lists have is first met, in the previous list, at its position in the current list. */
  predicate Aligned(cp: seq<u64>, pp: seq<u64>) {
    forall c :: 0 <= c < |cp| && cp[c] in pp ==> Find(pp, cp[c]) == c
  }

  /** Pid 0, the mark of a process whose stat file could not be read, must not meet an unused row. */
  predicate NoStrayRow(cp: seq<u64>, pp: seq<u64>) {
    0 in cp ==> AllSeenBefore(cp, pp, |cp|)
  }

  predicate Faithful(cp: seq<u64>, pp: seq<u64>) {
    Aligned(cp, pp) && NoStrayRow(cp, pp)
  }

  ghost predicate MeetsDocumentation(cp: seq<u64>, pp: seq<u64>) {
    forall cur, prev, beyond {:trigger Computed(cur, prev, beyond)} ::
      Pids(cur) == cp && Pids(prev) == pp ==> Computed(cur, prev, beyond) == Documented(cur, prev)
  }

  /** No pid that the previous list has occurs twice in the current list. */
  predicate MatchedOnce(cp: seq<u64>, pp: seq<u64>) {
    forall i, j :: 0 <= i < j < |cp| && cp[i] == cp[j] ==> cp[i] !in pp
  }

  /** The join would be right for all samples on these pid lists if it read the previous arrays at `p`. */
  ghost predicate MeetsDocumentationAtSamePid(cp: seq<u64>, pp: seq<u64>) {
    forall cur, prev {:trigger Documented(cur, prev)} ::
      Pids(cur) == cp && Pids(prev) == pp ==> Joined(cur, prev, AtSamePid(cur, prev)) == Documented(cur, prev)
  }

  /** On a pair of pid lists the code is right for all samples exactly when the pair is faithful. */
  lemma CorrectExactlyWhenFaithful(cp: seq<u64>, pp: seq<u64>)
    ensures MeetsDocumentation(cp, pp) <==> Faithful(cp, pp)
  {
    if Faithful(cp, pp) {
      forall cur, prev, beyond | Pids(cur) == cp && Pids(prev) == pp
        ensures Computed(cur, prev, beyond) == Documented(cur, prev)
      {
        FaithfulIsCorrect(cur, prev, beyond);
      }
    } else {
      var cur, prev, beyond := UnfaithfulIsWrong(cp, pp);
      assert Computed(cur, prev, beyond) != Documented(cur, prev);
    }
  }

  /** Reading at `p` would be right exactly where no matched pid occurs twice and no row strays. */
  lemma SamePidCorrectExactlyWhen(cp: seq<u64>, pp: seq<u64>)
    ensures MeetsDocumentationAtSamePid(cp, pp) <==> MatchedOnce(cp, pp) && NoStrayRow(cp, pp)
  {
    hide Joined, Documented;
    if MatchedOnce(cp, pp) && NoStrayRow(cp, pp) {
      forall cur, prev | Pids(cur) == cp && Pids(prev) == pp
        ensures Joined(cur, prev, AtSamePid(cur, prev)) == Documented(cur, prev)
      {
        SamePidIndexIsCorrect(cur, prev);
      }
    } else {
      var cur, prev := CurWitness(cp), PrevWitness(pp, |pp|);
      if !NoStrayRow(cp, pp) {
        StrayRowIsWrong(cur, prev, AtSamePid(cur, prev));
      } else {
        var i, j :| 0 <= i < j < |cp| && cp[i] == cp[j] && cp[i] in pp;
        RepeatedPidIsWrong(cp, pp, i, j);
      }
    }
  }

  // ----------------------------------------------------------------- soundness

  lemma {:induction false} LastMatchOfDistinct(cur: seq<Proc>, prev: seq<Proc>, used: seq<Proc>, k: nat, c: nat)
    requires k < c <= |cur| == |used| && cur[k].pid in Pids(prev)
    requires forall j :: k < j < |cur| ==> cur[j].pid != cur[k].pid
    ensures LastMatch(cur, prev, used, cur[k].pid, c) == Some(Change(cur[k], used[k]))
  {
    if c - 1 > k {
      LastMatchOfDistinct(cur, prev, used, k, c - 1);
    }
  }

  lemma {:induction false} NoMatch(cur: seq<Proc>, prev: seq<Proc>, used: seq<Proc>, pid: u64, c: nat)
    requires c <= |cur| == |used| && pid !in Pids(prev)
    ensures LastMatch(cur, prev, used, pid, c) == None
  {
    if c > 0 {
      NoMatch(cur, prev, used, pid, c - 1);
    }
  }

  /** Where matched pids are distinct and no row strays, every entry gets the change from the sample used for it. */
  lemma JoinedEntry(cur: seq<Proc>, prev: seq<Proc>, used: seq<Proc>, k: nat)
    requires k < |cur| == |used|
    requires NoStrayRow(Pids(cur), Pids(prev))
    requires forall i, j :: 0 <= i < j < |cur| && cur[i].pid == cur[j].pid ==> cur[i].pid !in Pids(prev)
    ensures Joined(cur, prev, used)[k]
         == if cur[k].pid in Pids(prev) then cur[k].(cpuUtil := Util(Change(cur[k], used[k]))) else cur[k]
  {
    var cp := Pids(cur);
    var pid := cur[k].pid;
    JoinedAt(cur, prev, used, k);
    assert cp[k] == pid;
    if pid in Pids(prev) {
      assert Find(cp, pid) == k by {
        var f := Find(cp, pid);
        assert cp[f] == pid == cur[f].pid;
      }
      LastMatchOfDistinct(cur, prev, used, k, |cur|);
    } else {
      NoMatch(cur, prev, used, pid, |cur|);
    }
  }

  lemma FaithfulIsCorrect(cur: seq<Proc>, prev: seq<Proc>, beyond: seq<Proc>)
    requires Faithful(Pids(cur), Pids(prev))
    ensures Computed(cur, prev, beyond) == Documented(cur, prev)
  {
    var cp, pp := Pids(cur), Pids(prev);
    var used := AtSamePosition(cur, prev, beyond);
    forall i, j | 0 <= i < j < |cur| && cur[i].pid == cur[j].pid ensures cur[i].pid !in pp {
      assert cp[i] == cp[j];
    }
    forall k | 0 <= k < |cur| ensures Computed(cur, prev, beyond)[k] == Documented(cur, prev)[k] {
      JoinedEntry(cur, prev, used, k);
      assert cp[k] == cur[k].pid;
    }
  }

  lemma SamePidIndexIsCorrect(cur: seq<Proc>, prev: seq<Proc>)
    requires NoStrayRow(Pids(cur), Pids(prev)) && MatchedOnce(Pids(cur), Pids(prev))
    ensures Joined(cur, prev, AtSamePid(cur, prev)) == Documented(cur, prev)
  {
    hide Joined, NoStrayRow, Change;
    var used, cp := AtSamePid(cur, prev), Pids(cur);
    forall i, j | 0 <= i < j < |cur| && cur[i].pid == cur[j].pid ensures cur[i].pid !in Pids(prev) {
      assert cp[i] == cp[j];
    }
    forall k | 0 <= k < |cur| ensures Joined(cur, prev, used)[k] == Documented(cur, prev)[k] {
      JoinedEntry(cur, prev, used, k);
    }
  }

  // -------------------------------------------------------------- completeness

  /** Samples on which every faulty pair of pid lists shows: all intervals are one tick, and only
      the previous sample at `p` has the cpu time of the current ones. */
  function CurWitness(cp: seq<u64>): (cur: seq<Proc>)
    ensures Pids(cur) == cp
  {
    seq(|cp|, c requires 0 <= c < |cp| => Proc(cp[c], 1, 1, Real(7.0)))
  }

  function PrevWitness(pp: seq<u64>, p: nat): (prev: seq<Proc>)
    ensures Pids(prev) == pp
  {
    seq(|pp|, j requires 0 <= j < |pp| => Proc(pp[j], if j == p then 1 else 0, 0, Real(7.0)))
  }

  lemma {:induction false} LastMatchIsAt(cur: seq<Proc>, prev: seq<Proc>, used: seq<Proc>, k: nat, c: nat)
    returns (l: nat)
    requires k < c <= |cur| == |used| && cur[k].pid in Pids(prev)
    ensures k <= l < c && cur[l].pid == cur[k].pid && forall j :: l < j < c ==> cur[j].pid != cur[k].pid
    ensures LastMatch(cur, prev, used, cur[k].pid, c) == Some(Change(cur[l], used[l]))
  {
    if cur[c - 1].pid == cur[k].pid {
      l := c - 1;
    } else {
      l := LastMatchIsAt(cur, prev, used, k, c - 1);
    }
  }

  /** The share that comes out of a witness pair: 0 against a sample with the same cpu time, 100 against any other. */
  lemma WitnessShare(e: Proc, pre: Proc)
    requires e.cpuTime == 1 && e.sysCpuTime == 1 && pre.cpuTime <= 1 && pre.sysCpuTime == 0
    ensures Util(Change(e, pre)) == if pre.cpuTime == 1 then Real(0.0) else Real(100.0)
  {
    hide Wrap;
    WrapSmall(0);
    WrapSmall(1);
  }

  lemma UnfaithfulIsWrong(cp: seq<u64>, pp: seq<u64>)
    returns (cur: seq<Proc>, prev: seq<Proc>, beyond: seq<Proc>)
    requires !Faithful(cp, pp)
    ensures Pids(cur) == cp && Pids(prev) == pp
    ensures Computed(cur, prev, beyond) != Documented(cur, prev)
  {
    hide Joined, Documented;
    beyond := [];
    cur := CurWitness(cp);
    if !NoStrayRow(cp, pp) {
      prev := PrevWitness(pp, |pp|);
      StrayRowIsWrong(cur, prev, AtSamePosition(cur, prev, beyond));
    } else {
      var c :| 0 <= c < |cp| && cp[c] in pp && Find(pp, cp[c]) != c;
      prev := PrevWitness(pp, Find(pp, cp[c]));
      MisalignedIsWrong(cp, pp, c);
    }
  }

  lemma WitnessDocumented(cp: seq<u64>, pp: seq<u64>, p: nat, i: nat)
    requires i < |cp| && cp[i] in pp
    ensures Documented(CurWitness(cp), PrevWitness(pp, p))[i].cpuUtil
         == if Find(pp, cp[i]) == p then Real(0.0) else Real(100.0)
  {
    hide Change, Util;
    var cur, prev := CurWitness(cp), PrevWitness(pp, p);
    WitnessShare(cur[i], prev[Find(pp, cp[i])]);
  }

  /** An entry of pid 0 beside a new pid, whatever the samples are compared with. */
  lemma StrayRowIsWrong(cur: seq<Proc>, prev: seq<Proc>, used: seq<Proc>)
    requires |used| == |cur| && !NoStrayRow(Pids(cur), Pids(prev))
    requires cur == CurWitness(Pids(cur)) && prev == PrevWitness(Pids(prev), |prev|)
    ensures Joined(cur, prev, used) != Documented(cur, prev)
  {
    hide Joined, Change, Util, LastMatch;
    var k := Find(Pids(cur), 0);
    assert Pids(cur)[k] == cur[k].pid == 0;
    JoinedAt(cur, prev, used, k);
    assert Joined(cur, prev, used)[k].cpuUtil == NaN;
    if 0 in Pids(prev) {
      WitnessDocumented(Pids(cur), Pids(prev), |prev|, k);
    }
  }

  /** A pid of the previous list that occurs twice in the current one: its second entry is never written. */
  lemma RepeatedPidIsWrong(cp: seq<u64>, pp: seq<u64>, i: nat, j: nat)
    requires i < j < |cp| && cp[i] == cp[j] && cp[i] in pp
    ensures var cur, prev := CurWitness(cp), PrevWitness(pp, |pp|);
      Joined(cur, prev, AtSamePid(cur, prev)) != Documented(cur, prev)
  {
    hide Joined, LastMatch, Documented;
    var cur, prev := CurWitness(cp), PrevWitness(pp, |pp|);
    var used := AtSamePid(cur, prev);
    assert Find(Pids(cur), cp[j]) <= i;
    JoinedAt(cur, prev, used, j);
    WitnessDocumented(cp, pp, |pp|, j);
    assert Joined(cur, prev, used)[j].cpuUtil == Real(7.0);
  }

  lemma MisalignedIsWrong(cp: seq<u64>, pp: seq<u64>, c: nat)
    requires c < |cp| && cp[c] in pp && Find(pp, cp[c]) != c
    ensures Computed(CurWitness(cp), PrevWitness(pp, Find(pp, cp[c])), [])
         != Documented(CurWitness(cp), PrevWitness(pp, Find(pp, cp[c])))
  {
    hide Joined, Documented, LastMatch, Change, Util;
    var pid, p := cp[c], Find(pp, cp[c]);
    var cur, prev := CurWitness(cp), PrevWitness(pp, p);
    var used := AtSamePosition(cur, prev, []);
    var k := Find(cp, pid);
    var l := LastMatchIsAt(cur, prev, used, k, |cur|);
    WitnessDocumented(cp, pp, p, k);
    WitnessDocumented(cp, pp, p, l);
    JoinedAt(cur, prev, used, k);
    if l != p {
      // The first entry with this pid gets the change from another process.
      assert used[l].cpuTime == 0 && used[l].sysCpuTime == 0;
      WitnessShare(cur[l], used[l]);
    } else {
      // The last entry with this pid is aligned; `c` comes before it, so it is never written.
      assert cur[c].pid == pid && Find(Pids(cur), pid) <= c < l;
      JoinedAt(cur, prev, used, l);
      assert Computed(cur, prev, [])[l].cpuUtil == Real(7.0);
    }
  }

  // ------------------------------------------------- which lists are faithful

  /** While processes are only added behind the known ones, the code is right. */
  lemma GrowthIsFaithful(cp: seq<u64>, pp: seq<u64>)
    requires cp <= pp || (pp <= cp && 0 !in cp)
    requires forall i, j :: 0 <= i < j < |cp| ==> cp[i] != cp[j]
    ensures Faithful(cp, pp)
  {
    forall c | 0 <= c < |cp| && cp[c] in pp ensures Find(pp, cp[c]) == c {
      var p := Find(pp, cp[c]);
      assert c < |pp| ==> pp[c] == cp[c];
      assert p < |cp| ==> pp[p] == cp[p];
    }
    if cp <= pp {
      forall c | 0 <= c < |cp| ensures cp[c] in pp {
        assert pp[c] == cp[c];
      }
    }
  }

  /** As soon as a process other than the last one has gone, the code is wrong for some samples. */
  lemma ExitIsUnfaithful(pp: seq<u64>, gone: nat)
    requires gone + 1 < |pp|
    requires forall i, j :: 0 <= i < j < |pp| ==> pp[i] != pp[j]
    ensures !Faithful(pp[..gone] + pp[gone + 1..], pp)
  {
    var cp := pp[..gone] + pp[gone + 1..];
    assert cp[gone] == pp[gone + 1];
    assert pp[Find(pp, cp[gone])] == cp[gone];
  }

  /**
    Pid 7 did nothing in 10 ticks, but pid 3, which stood before it, has exited: pid 7 is
    measured against the sample of pid 3 and reported at 500 percent.
   */
  lemma ExampleOfAnExit()
    ensures
      var prev := [Proc(3, 0, 100, Real(0.0)), Proc(7, 50, 100, Real(0.0))];
      var cur := [Proc(7, 50, 110, Real(0.0))];
      && Documented(cur, prev)[0].cpuUtil == Real(0.0)
      && Computed(cur, prev, [])[0].cpuUtil == Real(500.0)
  {
    var prev := [Proc(3, 0, 100, Real(0.0)), Proc(7, 50, 100, Real(0.0))];
    var cur := [Proc(7, 50, 110, Real(0.0))];
    var used := AtSamePosition(cur, prev, []);
    assert Pids(prev) == [3, 7] && Pids(cur) == [7];
    assert Find([7], 7) == 0 && Find([3, 7], 7) == 1;
    WrapSmall(50);
    WrapSmall(10);
    WrapSmall(0);
    assert Change(cur[0], used[0]) == Delta(7, 50, 10) && Change(cur[0], prev[1]) == Delta(7, 0, 10);
    hide Wrap, Joined, Change, Find;
    JoinedAt(cur, prev, used, 0);
    LastMatchOfDistinct(cur, prev, used, 0, 1);
  }

  /** On faithful lists every read of the previous arrays is inside them. */
  lemma FaithfulStaysInside(cp: seq<u64>, pp: seq<u64>)
    requires Faithful(cp, pp)
    ensures !ReadsPastEnd(cp, pp)
  {
  }
}
