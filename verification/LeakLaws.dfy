/** How much memory a finished run of the tool has not given back: a node for each item of each detached answer. */
module LeakLaws {
  import opened Modules
  import opened RecordLists
  import opened Searching
  import opened Teardown
  import opened ToolLaws
  import opened ToolSpec
  import Io
  import ModDns

  /** The items that a module was given in all the rounds but the last, if it is one that detaches them. */
  function LeakedBy(callbacks: Callbacks, name: string, worlds: seq<World>): nat {
    if callbacks.AnswerModule? && worlds != [] then ModDns.Total(AnswersSeen(name, worlds[..|worlds| - 1])) else 0
  }

  function LeakedByAll(rs: seq<Registration>, worlds: seq<World>): nat {
    if rs == [] then 0
    else
      var n := |rs| - 1;
      LeakedByAll(rs[..n], worlds) + LeakedBy(rs[n].callbacks, rs[n].name, worlds)
  }

  /** The modules `mods` are those registered by `rs`, whatever is enabled. */
  predicate Unused(rs: seq<Registration>, mods: seq<Module<Records>>) {
    && |rs| == |mods|
    && forall i :: 0 <= i < |rs| ==> mods[i] == Registered(rs[i]).(enable := mods[i].enable)
  }

  lemma RegisteredIsUnused(rs: seq<Registration>)
    ensures Unused(rs, AllRegistered(rs))
  {
  }

  /** The options enable modules and change nothing else. */
  lemma {:induction false} SwitchedIsUnused(rs: seq<Registration>, mods: seq<Module<Records>>, switches: seq<Switch>)
    requires Unused(rs, mods) && Switched(mods, switches).Some?
    ensures Unused(rs, Switched(mods, switches).value)
    decreases |switches|
  {
    if switches != [] {
      match switches[0]
      case All => SwitchedIsUnused(rs, EnablingAll(mods), switches[1..]);
      case Only(opt) => SwitchedIsUnused(rs, Enabling(mods, opt), switches[1..]);
    }
  }

  lemma {:induction false} TotalOfDetached(answers: seq<seq<string>>, n: nat)
    requires n <= |answers|
    ensures ModDns.Total(ModDns.Detached(answers, n)) == if n == 0 then 0 else ModDns.Total(answers[..n - 1])
  {
    if n > 0 {
      TotalOfDetached(answers, n - 1);
      assert ModDns.Detached(answers, n)[..n - 1] == ModDns.Detached(answers, n - 1);
      assert n > 1 ==> answers[..n - 1][..n - 2] == answers[..n - 2];
    }
  }

  lemma ModuleLeak(mod: Module<Records>, callbacks: Callbacks, worlds: seq<World>, m: Io.Machine, l: Layout)
    requires Io.Runs(m) && mod.records == Initial(callbacks)
    requires Leaked(AfterRounds(mod, worlds, m).records, l)
    ensures |Orphaned(l)| == LeakedBy(callbacks, mod.name, worlds)
  {
    hide AfterRounds, ModDns.Total, ModDns.Orphans, ModDns.AllNodes, ModDns.Detached;
    RecordsAfterRun(mod, callbacks, worlds, m);
    if callbacks.AnswerModule? {
      var n, answers := |worlds|, AnswersSeen(mod.name, worlds);
      ModDns.OrphanCount(l.lists, ModDns.Detached(answers, n), ModDns.AllNodes(l.lists));
      TotalOfDetached(answers, n);
      assert n > 0 ==> answers[..n - 1] == AnswersSeen(mod.name, worlds[..n - 1]);
    }
  }

  lemma LeakedPrefix(mods: seq<Module<Records>>, ps: seq<Place>)
    requires AllLeaked(mods, ps) && ps != []
    ensures var n := |ps| - 1;
      && |mods| == n + 1 && AllLeaked(mods[..n], ps[..n]) && Leaked(mods[n].records, ps[n].layout)
      && AllOrphaned(ps) == AllOrphaned(ps[..n]) + Orphaned(ps[n].layout)
      && AllOrphaned(ps[..n]) !! Orphaned(ps[n].layout)
  {
    hide Leaked, Orphaned;
    var n := |ps| - 1;
    AllOrphanedSnoc(ps[..n], ps[n]);
    assert ps == ps[..n] + [ps[n]];
    forall i | 0 <= i < n ensures Orphaned(ps[..n][i].layout) <= AllOrphaned(ps[..n]) {
    }
  }

  lemma LeakedLength(mods: seq<Module<Records>>, ps: seq<Place>)
    requires AllLeaked(mods, ps)
    ensures |mods| == |ps|
  {
  }

  /** Exactly so many nodes are still allocated after a run that came to its end. */
  lemma {:induction false} LeakedNodes(rs: seq<Registration>, mods: seq<Module<Records>>, worlds: seq<World>,
                                       m: Io.Machine, ps: seq<Place>)
    requires Io.Runs(m) && Unused(rs, mods) && AllLeaked(AllAfterRounds(mods, worlds, m), ps)
    ensures |AllOrphaned(ps)| == LeakedByAll(rs, worlds)
  {
    hide AfterRounds, Leaked, Orphaned, LeakedBy, AllLeaked, Initial;
    LeakedLength(AllAfterRounds(mods, worlds, m), ps);
    if rs == [] {
      assert AllOrphaned(ps) == {};
    } else {
      var n := |rs| - 1;
      var after := AllAfterRounds(mods, worlds, m);
      LeakedPrefix(after, ps);
      assert after[..n] == AllAfterRounds(mods[..n], worlds, m);
      LeakedNodes(rs[..n], mods[..n], worlds, m, ps[..n]);
      ModuleLeak(mods[n], rs[n].callbacks, worlds, m, ps[n].layout);
    }
  }

  /** The same for the modules that main has registered and enabled. */
  lemma LeakOfRun(rs: seq<Registration>, switches: seq<Switch>, mods: seq<Module<Records>>, worlds: seq<World>,
                  m: Io.Machine, ps: seq<Place>)
    requires Io.Runs(m) && Switched(AllRegistered(rs), switches) == Some(mods)
    requires AllLeaked(AllAfterRounds(mods, worlds, m), ps)
    ensures |AllOrphaned(ps)| == LeakedByAll(rs, worlds)
  {
    hide *;
    RegisteredIsUnused(rs);
    SwitchedIsUnused(rs, AllRegistered(rs), switches);
    LeakedNodes(rs, mods, worlds, m, ps);
  }

  lemma {:induction false} TotalIsZero(name: string, worlds: seq<World>)
    ensures ModDns.Total(AnswersSeen(name, worlds)) == 0 <==> Silent(AnswerModule, name, worlds)
  {
    hide Answer;
    if worlds != [] {
      var n := |worlds| - 1;
      TotalIsZero(name, worlds[..n]);
      assert AnswersSeen(name, worlds)[..n] == AnswersSeen(name, worlds[..n]);
      SilentSnoc(AnswerModule, name, worlds);
    }
  }

  /** Every node put in a list is freed exactly when no snapshot module was given anything before the last round. */
  lemma {:induction false} NothingLeakedExactlyWhen(rs: seq<Registration>, worlds: seq<World>)
    requires worlds != []
    ensures LeakedByAll(rs, worlds) == 0
      <==> forall i :: 0 <= i < |rs| && rs[i].callbacks.AnswerModule? ==>
             Silent(AnswerModule, rs[i].name, worlds[..|worlds| - 1])
  {
    hide Silent;
    if rs != [] {
      NothingLeakedExactlyWhen(rs[..|rs| - 1], worlds);
      TotalIsZero(rs[|rs| - 1].name, worlds[..|worlds| - 1]);
    }
  }

  /** One name server, seen in both of two rounds: its node of the first round is never freed. */
  lemma ExampleOfALeak(r: Registration, first: World, second: World)
    requires r.name == "dns" && r.callbacks == AnswerModule
    requires first.answers == second.answers == map["dns" := ["8.8.8.8"]]
    ensures LeakedByAll([r], [first, second]) == 1
  {
    assert Answer("dns", first) == ["8.8.8.8"];
    assert [first, second][..1] == [first] && AnswersSeen("dns", [first]) == [["8.8.8.8"]];
    assert ModDns.Total([["8.8.8.8"]]) == 1;
    assert LeakedByAll([r][..0], [first, second]) == 0;
  }
}
