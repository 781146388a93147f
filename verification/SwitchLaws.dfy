/** Which modules main has enabled when the options are handled, for any registrations and any options. */
module SwitchLaws {
  import opened Searching
  import opened ToolSpec

  /** The options enable module `i`: all modules, or it is the first that has an option given. */
  predicate Chosen(opts: seq<string>, switches: seq<Switch>, i: nat)
    requires i < |opts|
  {
    All in switches || (Only(opts[i]) in switches && opts[i] !in opts[..i])
  }

  /** Every option given for one module is the option of some module. */
  predicate AllKnown(opts: seq<string>, switches: seq<Switch>) {
    forall k :: 0 <= k < |switches| && switches[k].Only? ==> switches[k].opt in opts
  }

  lemma AllKnownStep(opts: seq<string>, switches: seq<Switch>)
    requires switches != []
    ensures AllKnown(opts, switches)
      <==> (switches[0].Only? ==> switches[0].opt in opts) && AllKnown(opts, switches[1..])
  {
    if (switches[0].Only? ==> switches[0].opt in opts) && AllKnown(opts, switches[1..]) {
      forall k | 0 <= k < |switches| && switches[k].Only? ensures switches[k].opt in opts {
        if k > 0 {
          assert switches[k] == switches[1..][k - 1];
        }
      }
    }
  }

  lemma ChosenStep(opts: seq<string>, switches: seq<Switch>, i: nat)
    requires i < |opts| && switches != []
    ensures Chosen(opts, switches, i) <==> Chosen(opts, [switches[0]], i) || Chosen(opts, switches[1..], i)
  {
    assert switches == [switches[0]] + switches[1..];
  }

  /** The modules `now` are `mods`, with those that the options choose enabled, too. */
  predicate EnabledBy<R(==)>(mods: seq<Module<R>>, switches: seq<Switch>, now: seq<Module<R>>) {
    && |now| == |mods|
    && forall i :: 0 <= i < |mods| ==>
         now[i] == mods[i].(enable := mods[i].enable || Chosen(Opts(mods), switches, i))
  }

  lemma OneSwitch<R>(mods: seq<Module<R>>, switch: Switch) returns (now: seq<Module<R>>)
    requires switch.Only? ==> switch.opt in Opts(mods)
    ensures now == (match switch case All => EnablingAll(mods) case Only(opt) => Enabling(mods, opt))
    ensures Opts(now) == Opts(mods) && EnabledBy(mods, [switch], now)
  {
    match switch
    case All =>
      now := EnablingAll(mods);
    case Only(opt) =>
      now := Enabling(mods, opt);
      var opts, k := Opts(mods), Find(Opts(mods), opt);
      forall i | 0 <= i < |mods| ensures Chosen(opts, [switch], i) <==> i == k {
        if i < k {
          assert opts[i] != opt;
        } else if i > k {
          assert opts[k] in opts[..i];
        }
      }
  }

  lemma {:induction false} SwitchedFrom<R>(mods: seq<Module<R>>, switches: seq<Switch>)
    ensures Switched(mods, switches).Some? <==> AllKnown(Opts(mods), switches)
    ensures Switched(mods, switches).Some? ==> EnabledBy(mods, switches, Switched(mods, switches).value)
    decreases |switches|
  {
    if switches != [] {
      AllKnownStep(Opts(mods), switches);
      if switches[0].Only? ==> switches[0].opt in Opts(mods) {
        var next := OneSwitch(mods, switches[0]);
        SwitchedFrom(next, switches[1..]);
        forall i | 0 <= i < |mods|
          ensures Chosen(Opts(mods), switches, i)
            <==> Chosen(Opts(mods), [switches[0]], i) || Chosen(Opts(mods), switches[1..], i)
        {
          ChosenStep(Opts(mods), switches, i);
        }
      }
    }
  }

  predicate HasOption(rs: seq<Registration>, opt: string) {
    exists j :: 0 <= j < |rs| && rs[j].optLine == opt
  }

  predicate IsFirst(rs: seq<Registration>, i: nat)
    requires i < |rs|
  {
    forall j :: 0 <= j < i ==> rs[j].optLine != rs[i].optLine
  }

  /**
    main goes on after its options exactly when each option given for one module is the option of
    a registered one. A module is then enabled exactly when all are, or when it is the first with
    an option given; all else is as it was registered, with an empty buffer and no records.
   */
  lemma SwitchedExactlyWhen(rs: seq<Registration>, switches: seq<Switch>)
    ensures Switched(AllRegistered(rs), switches).Some?
      <==> forall k :: 0 <= k < |switches| && switches[k].Only? ==> HasOption(rs, switches[k].opt)
    ensures Switched(AllRegistered(rs), switches).Some? ==>
      var mods := Switched(AllRegistered(rs), switches).value;
      && |mods| == |rs|
      && forall i :: 0 <= i < |rs| ==>
           mods[i] == Module(rs[i].name, rs[i].optLine, rs[i].usage,
                             All in switches || (Only(rs[i].optLine) in switches && IsFirst(rs, i)),
                             Blank, Initial(rs[i].callbacks), rs[i].numCol, rs[i].info)
  {
    var mods := AllRegistered(rs);
    var opts := Opts(mods);
    SwitchedFrom(mods, switches);
    forall k | 0 <= k < |switches| && switches[k].Only?
      ensures switches[k].opt in opts <==> HasOption(rs, switches[k].opt)
    {
      assert forall j :: 0 <= j < |rs| ==> opts[j] == rs[j].optLine;
    }
    forall i | 0 <= i < |rs| ensures opts[i] !in opts[..i] <==> IsFirst(rs, i) {
      assert forall j :: 0 <= j < i ==> opts[..i][j] == rs[j].optLine;
    }
  }
}
