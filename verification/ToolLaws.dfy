/** What a run of the tool leaves in the record lists and what it prints, for any number of rounds. */
module ToolLaws {
  import opened Histories
  import opened ToolSpec
  import Cpu
  import Dns
  import Io
  import IoLaws
  import ModDns
  import ModMem
  import ModProc

  function CpuSeen(worlds: seq<World>): (samples: seq<Cpu.CpuStat>) {
    seq(|worlds|, i requires 0 <= i < |worlds| => worlds[i].cpu)
  }

  function IoSeen(worlds: seq<World>): (samples: seq<seq<IoLaws.Sample>>) {
    seq(|worlds|, i requires 0 <= i < |worlds| => worlds[i].io)
  }

  function ProcSeen(worlds: seq<World>): (samples: seq<ModProc.Reading>) {
    seq(|worlds|, i requires 0 <= i < |worlds| => worlds[i].proc)
  }

  function AnswersSeen(name: string, worlds: seq<World>): (answers: seq<seq<string>>)
    ensures |answers| == |worlds|
  {
    seq(|worlds|, i requires 0 <= i < |worlds| => Answer(name, worlds[i]))
  }

  function WritesSeen(name: string, worlds: seq<World>): (run: seq<ModMem.Fields>)
    ensures |run| == |worlds|
  {
    seq(|worlds|, i requires 0 <= i < |worlds| => Writes(name, worlds[i]))
  }

  /** What a module holds that has seen `worlds`. */
  function Held(callbacks: Callbacks, name: string, worlds: seq<World>, m: Io.Machine): Records
    requires Io.Runs(m)
  {
    match callbacks
    case CpuModule => CpuHistory(Cpu.Records(CpuSeen(worlds)))
    case IoModule => IoHistory(IoLaws.Records(IoSeen(worlds), m))
    case ProcModule => ProcHistory(ModProc.Records(ProcSeen(worlds)))
    case AnswerModule =>
      var answers := AnswersSeen(name, worlds);
      LastAnswer(ModDns.Before(answers, |worlds|), ModDns.Detached(answers, |worlds|))
    case OneModule =>
      OneRecord(if worlds == [] then [] else [ModMem.After(WritesSeen(name, worlds))])
  }

  lemma NothingDetached(name: string)
    ensures ModDns.Before(AnswersSeen(name, []), 0) == [] && ModDns.Detached(AnswersSeen(name, []), 0) == []
  {
  }

  lemma SeenBefore(name: string, worlds: seq<World>, n: nat)
    requires |worlds| == n + 1
    ensures CpuSeen(worlds)[..n] == CpuSeen(worlds[..n]) && IoSeen(worlds)[..n] == IoSeen(worlds[..n])
    ensures ProcSeen(worlds)[..n] == ProcSeen(worlds[..n])
    ensures WritesSeen(name, worlds)[..n] == WritesSeen(name, worlds[..n])
  {
  }

  lemma DetachedBefore(name: string, worlds: seq<World>, n: nat)
    requires |worlds| == n + 1
    ensures var answers, earlier := AnswersSeen(name, worlds), AnswersSeen(name, worlds[..n]);
      && ModDns.Before(answers, n + 1) == Answer(name, worlds[n])
      && ModDns.Detached(answers, n + 1) == ModDns.Detached(earlier, n) + [ModDns.Before(earlier, n)]
  {
    hide Answer;
  }

  /** One more collection. */
  lemma HeldStep(callbacks: Callbacks, name: string, worlds: seq<World>, m: Io.Machine)
    requires Io.Runs(m)
    ensures Held(callbacks, name, worlds, m)
         == if worlds == [] then Initial(callbacks)
            else Collected(Held(callbacks, name, worlds[..|worlds| - 1], m), name, worlds[|worlds| - 1], m)
  {
    hide Cpu.Start, Cpu.Next, IoLaws.Start, ModProc.Start, ModProc.Next, Answer, Writes, Collect,
      ModMem.Written, ModDns.Before, ModDns.Detached, AnswersSeen;
    if worlds == [] {
      NothingDetached(name);
    } else {
      var n := |worlds| - 1;
      SeenBefore(name, worlds, n);
      DetachedBefore(name, worlds, n);
    }
  }

  /**
    After any number of rounds a registered cpu, io or proc module holds one record per round, in
    order, the full history of what it was shown; a snapshot module holds its last answer, and
    has detached all the earlier ones; a one-record module holds one record, each of its fields as
    it was last written (ModMem.AfterIsLastWritten).
   */
  lemma {:induction false} RecordsAfterRun(mod: Module<Records>, callbacks: Callbacks, worlds: seq<World>,
                                           m: Io.Machine)
    requires Io.Runs(m) && mod.records == Initial(callbacks)
    ensures var after := AfterRounds(mod, worlds, m);
      after.(text := mod.text) == mod.(records := Held(callbacks, mod.name, worlds, m))
  {
    hide Held, Collected, Rendered, Initial;
    HeldStep(callbacks, mod.name, worlds, m);
    if worlds != [] {
      RecordsAfterRun(mod, callbacks, worlds[..|worlds| - 1], m);
    }
  }

  /** What the system gave a snapshot module in one round; nothing, if it does not name it. */
  function Given(name: string, w: World): seq<string> {
    if name in w.answers then w.answers[name] else []
  }

  /** The answer `answer` is what was given, for dns without the addresses of the local host. */
  ghost predicate IsAnswer(name: string, given: seq<string>, answer: seq<string>) {
    if name == "dns" then exists ps :: Dns.LeftInOrder(given, answer, ps) else answer == given
  }

  /**
    A snapshot module holds the answer of the last round. It has detached the empty list that it
    started with and the answers of all the earlier rounds, in order.
   */
  lemma SnapshotHolds(mod: Module<Records>, worlds: seq<World>, m: Io.Machine)
    requires Io.Runs(m) && mod.records == Initial(AnswerModule) && worlds != []
    ensures var n, r := |worlds| - 1, AfterRounds(mod, worlds, m).records;
      && r.LastAnswer? && IsAnswer(mod.name, Given(mod.name, worlds[n]), r.answer)
      && |r.detached| == n + 1 && r.detached[0] == []
      && forall i :: 0 <= i < n ==> IsAnswer(mod.name, Given(mod.name, worlds[i]), r.detached[i + 1])
  {
    hide Answer, IsAnswer, Given, AfterRounds;
    RecordsAfterRun(mod, AnswerModule, worlds, m);
    var answers := AnswersSeen(mod.name, worlds);
    forall i | 0 <= i < |worlds| ensures IsAnswer(mod.name, Given(mod.name, worlds[i]), answers[i]) {
      AnswerIsAnswer(mod.name, worlds[i]);
    }
  }

  lemma AnswerIsAnswer(name: string, w: World)
    ensures IsAnswer(name, Given(name, w), Answer(name, w))
  {
    var ps := Dns.RemoteIsLeftInOrder(Given(name, w));
  }

  /** The dns module holds an address exactly when it was given in the last round and is not one of the local host. */
  lemma DnsHolds(mod: Module<Records>, worlds: seq<World>, m: Io.Machine, addr: string)
    requires Io.Runs(m) && mod.records == Initial(AnswerModule) && mod.name == "dns" && worlds != []
    ensures var w, r := worlds[|worlds| - 1], AfterRounds(mod, worlds, m).records;
      && r.LastAnswer?
      && (addr in r.answer
          <==> && "dns" in w.answers && addr in w.answers["dns"]
               && addr != "0.0.0.0" && addr != "127.0.0.1" && addr != "::" && addr != "::1")
  {
    hide AfterRounds, IsAnswer, Given;
    SnapshotHolds(mod, worlds, m);
    DnsAnswerHas(worlds[|worlds| - 1], AfterRounds(mod, worlds, m).records.answer, addr);
  }

  lemma DnsAnswerHas(w: World, answer: seq<string>, addr: string)
    requires IsAnswer("dns", Given("dns", w), answer)
    ensures addr in answer
      <==> && "dns" in w.answers && addr in w.answers["dns"]
           && addr != "0.0.0.0" && addr != "127.0.0.1" && addr != "::" && addr != "::1"
  {
    hide Dns.LeftInOrder;
    var ps :| Dns.LeftInOrder(Given("dns", w), answer, ps);
    Dns.LeftExactlyWhen(Given("dns", w), answer, ps, addr);
  }

  /** What the round lets the reader of a one-record module write to the field, if anything. */
  predicate WritesField(name: string, w: World, f: string) {
    name in w.writes && f in w.writes[name]
  }

  lemma WritesFieldDecides(name: string, w: World, f: string)
    ensures f in Writes(name, w) <==> WritesField(name, w, f)
    ensures WritesField(name, w, f) ==> Writes(name, w)[f] == w.writes[name][f]
  {
  }

  /** A one-record module holds one record, in which each field has the value last written, or is zero. */
  lemma OneHolds(mod: Module<Records>, worlds: seq<World>, m: Io.Machine, f: string, k: nat)
    requires Io.Runs(m) && mod.records == Initial(OneModule) && worlds != []
    requires k <= |worlds| && forall j :: k <= j < |worlds| ==> !WritesField(mod.name, worlds[j], f)
    requires k > 0 ==> WritesField(mod.name, worlds[k - 1], f)
    ensures var r := AfterRounds(mod, worlds, m).records;
      && r.OneRecord? && |r.records| == 1 && "" !in r.records[0].Values
      && (if f in r.records[0] then r.records[0][f] else "") ==
         if k == 0 then "" else worlds[k - 1].writes[mod.name][f]
  {
    hide AfterRounds, Writes, ModMem.After, ModMem.LastWritten;
    RecordsAfterRun(mod, OneModule, worlds, m);
    var seen := WritesSeen(mod.name, worlds);
    ModMem.AfterIsLastWritten(seen, f);
    forall j | k <= j < |seen| ensures f !in seen[j] {
      assert !WritesField(mod.name, worlds[j], f);
      WritesFieldDecides(mod.name, worlds[j], f);
    }
    if k > 0 {
      WritesFieldDecides(mod.name, worlds[k - 1], f);
    }
    ModMem.LastWrittenAt(seen, f, k);
  }

  /** Whether a module is enabled changes nothing in what it collects. */
  lemma {:induction false} EnableIsOnlyShown(mod: Module<Records>, worlds: seq<World>, m: Io.Machine, enable: bool)
    requires Io.Runs(m)
    ensures AfterRounds(mod.(enable := enable), worlds, m).records == AfterRounds(mod, worlds, m).records
    ensures AfterRounds(mod, worlds, m).enable == mod.enable && AfterRounds(mod, worlds, m).name == mod.name
    decreases |worlds|
  {
    hide Collected, Rendered;
    if worlds != [] {
      var n := |worlds| - 1;
      EnableIsOnlyShown(mod, worlds[..n], m, enable);
      EnableIsOnlyShown(mod.(enable := enable), worlds[..n], m, enable);
    }
  }

  /** The enabled modules are taken one by one, so none is missing and their order is kept. */
  lemma {:induction false} EnabledOfAppend<R>(a: seq<Module<R>>, b: seq<Module<R>>)
    ensures Enabled(a + b) == Enabled(a) + Enabled(b)
    ensures |b| == 1 ==> Enabled(b) == if b[0].enable then b else []
  {
    if b == [] {
      assert a + b == a;
    } else {
      var n := |b| - 1;
      EnabledOfAppend(a, b[..n]);
      assert (a + b)[..|a + b| - 1] == a + b[..n];
    }
  }

  /** A report shows the modules that were enabled at the start, and no other module has any influence on it. */
  lemma {:induction false} ReportIsOfEnabled(mods: seq<Module<Records>>, worlds: seq<World>, m: Io.Machine)
    requires Io.Runs(m)
    ensures Enabled(AllAfterRounds(mods, worlds, m)) == AllAfterRounds(Enabled(mods), worlds, m)
  {
    hide AfterRounds;
    if mods != [] {
      var n := |mods| - 1;
      ReportIsOfEnabled(mods[..n], worlds, m);
      EnableIsOnlyShown(mods[n], worlds, m, true);
      assert AllAfterRounds(mods, worlds, m)[..n] == AllAfterRounds(mods[..n], worlds, m);
      if mods[n].enable {
        assert AllAfterRounds(Enabled(mods[..n]) + [mods[n]], worlds, m)
            == AllAfterRounds(Enabled(mods[..n]), worlds, m) + [AfterRounds(mods[n], worlds, m)];
      }
    }
  }

  /** Report `k` has one text for each enabled module, in list order: its buffer after the first `k + 1` rounds. */
  lemma ReportEntry(mods: seq<Module<Records>>, worlds: seq<World>, m: Io.Machine, k: nat, j: nat)
    requires Io.Runs(m) && k < |worlds| && j < |Enabled(mods)|
    ensures |ReportOf(mods, worlds, m, k)| == |Enabled(mods)|
    ensures ReportOf(mods, worlds, m, k)[j] == AfterRounds(Enabled(mods)[j], worlds[..k + 1], m).text
  {
    hide AfterRounds, Enabled;
    ReportIsOfEnabled(mods, worlds[..k + 1], m);
  }

  // ------------------------------------------------- which round a report shows

  /** The round has something to show for the module. */
  predicate Answered(callbacks: Callbacks, name: string, w: World) {
    match callbacks
    case CpuModule => true
    case IoModule => w.io != []
    case ProcModule => w.proc.samples != []
    case AnswerModule => Answer(name, w) != []
    case OneModule => Writes(name, w) != map[]
  }

  predicate Silent(callbacks: Callbacks, name: string, worlds: seq<World>) {
    forall k :: 0 <= k < |worlds| ==> !Answered(callbacks, name, worlds[k])
  }

  lemma SilentSnoc(callbacks: Callbacks, name: string, worlds: seq<World>)
    requires worlds != []
    ensures var n := |worlds| - 1;
      Silent(callbacks, name, worlds) <==> Silent(callbacks, name, worlds[..n]) && !Answered(callbacks, name, worlds[n])
  {
    hide Answered;
  }

  /** What record_to_str makes of what is held after `worlds`, in an empty buffer. */
  function Shown(callbacks: Callbacks, name: string, worlds: seq<World>, m: Io.Machine): Text
    requires Io.Runs(m)
  {
    Rendered(Held(callbacks, name, worlds, m), Blank)
  }

  lemma ShownIsBlank(callbacks: Callbacks, name: string, worlds: seq<World>, m: Io.Machine, text: Text)
    requires Io.Runs(m)
    ensures Shown(callbacks, name, worlds, m) == Blank
      <==> worlds == [] || (!callbacks.OneModule? && !Answered(callbacks, name, worlds[|worlds| - 1]))
    ensures Rendered(Held(callbacks, name, worlds, m), text)
      == if Shown(callbacks, name, worlds, m) == Blank then text else Shown(callbacks, name, worlds, m)
  {
    hide History, Answer, Writes;
    if worlds != [] {
      var n := |worlds| - 1;
      IoLaws.RecordKeepsRaw(IoSeen(worlds), m, n);
      ModProc.RecordKeepsPids(ProcSeen(worlds), n);
      assert |IoLaws.Records(IoSeen(worlds), m)[n]| == |worlds[n].io|;
      assert |ModProc.Records(ProcSeen(worlds))[n]| == |worlds[n].proc.samples|;
    }
  }

  /** A one-record module that gets to write nothing holds what it held, and zeroed memory at first. */
  lemma OneKeeps(name: string, worlds: seq<World>, m: Io.Machine)
    requires Io.Runs(m) && worlds != [] && !Answered(OneModule, name, worlds[|worlds| - 1])
    ensures var n := |worlds| - 1;
      Shown(OneModule, name, worlds, m) == if n == 0 then OneText(map[]) else Shown(OneModule, name, worlds[..n], m)
  {
    hide Writes, ModMem.Written;
    var n, seen := |worlds| - 1, WritesSeen(name, worlds);
    assert seen[..n] == WritesSeen(name, worlds[..n]);
    ModMem.NothingWritten(ModMem.After(seen[..n]));
  }

  /** The buffer of an enabled module after one more round. */
  lemma TextAfterRound(mod: Module<Records>, callbacks: Callbacks, worlds: seq<World>, m: Io.Machine)
    requires Io.Runs(m) && mod.records == Initial(callbacks) && mod.enable && worlds != []
    ensures var n := |worlds| - 1;
      AfterRounds(mod, worlds, m).text
      == if callbacks.OneModule? || Answered(callbacks, mod.name, worlds[n]) then Shown(callbacks, mod.name, worlds, m)
         else AfterRounds(mod, worlds[..n], m).text
  {
    hide Held, Rendered, Collected, Initial, Answered, Shown;
    var before := AfterRounds(mod, worlds[..|worlds| - 1], m);
    RecordsAfterRun(mod, callbacks, worlds, m);
    EnableIsOnlyShown(mod, worlds[..|worlds| - 1], m, true);
    ShownIsBlank(callbacks, mod.name, worlds, m, before.text);
  }

  lemma {:induction false} ShowsShown(mod: Module<Records>, callbacks: Callbacks, worlds: seq<World>,
                                      m: Io.Machine, k: nat)
    requires Io.Runs(m) && mod.records == Initial(callbacks) && mod.enable
    requires k < |worlds| && Answered(callbacks, mod.name, worlds[k])
    requires forall j :: k < j < |worlds| ==> !Answered(callbacks, mod.name, worlds[j])
    ensures AfterRounds(mod, worlds, m).text == Shown(callbacks, mod.name, worlds[..k + 1], m)
  {
    hide AfterRounds, Answered, Shown;
    var n := |worlds| - 1;
    TextAfterRound(mod, callbacks, worlds, m);
    if k < n {
      ShowsShown(mod, callbacks, worlds[..n], m, k);
      assert worlds[..n][..k + 1] == worlds[..k + 1];
      if callbacks.OneModule? {
        OneKeeps(mod.name, worlds, m);
        TextAfterRound(mod, callbacks, worlds[..n], m);
      }
    } else {
      assert worlds[..k + 1] == worlds;
    }
  }

  lemma ShownHeld(callbacks: Callbacks, name: string, worlds: seq<World>, m: Io.Machine)
    requires Io.Runs(m) && worlds != [] && Shown(callbacks, name, worlds, m) != Blank
    ensures var n := |worlds| - 1;
      Shown(callbacks, name, worlds, m) == match callbacks
        case CpuModule => CpuText(Cpu.Records(CpuSeen(worlds))[n])
        case IoModule => IoText(IoLaws.Records(IoSeen(worlds), m)[n])
        case ProcModule => ProcText(ModProc.Records(ProcSeen(worlds))[n])
        case AnswerModule => AnswerText(Answer(name, worlds[n]))
        case OneModule => OneText(ModMem.After(WritesSeen(name, worlds)))
  {
    hide Answer, Writes, History, ModMem.After;
  }

  /** In a round that has something to show, each kind of module shows all of its last record or list. */
  lemma ShownByKind(callbacks: Callbacks, name: string, worlds: seq<World>, m: Io.Machine, k: nat)
    requires Io.Runs(m) && k < |worlds| && Answered(callbacks, name, worlds[k])
    ensures Shown(callbacks, name, worlds[..k + 1], m) == match callbacks
      case CpuModule => CpuText(Cpu.Records(CpuSeen(worlds))[k])
      case IoModule => IoText(IoLaws.Records(IoSeen(worlds), m)[k])
      case ProcModule => ProcText(ModProc.Records(ProcSeen(worlds))[k])
      case AnswerModule => AnswerText(Answer(name, worlds[k]))
      case OneModule => OneText(ModMem.After(WritesSeen(name, worlds)[..k + 1]))
  {
    hide Answer, Writes, Answered, Rendered, Held, Shown, History, Cpu.Start, Cpu.Next, IoLaws.Start, ModProc.Start,
      ModProc.Next;
    var seen := worlds[..k + 1];
    ShownIsBlank(callbacks, name, seen, m, Blank);
    ShownHeld(callbacks, name, seen, m);
    match callbacks
    case CpuModule =>
      assert CpuSeen(worlds)[..k + 1] == CpuSeen(seen);
      HistoryOnlyGrows(Cpu.Start, Cpu.Next, CpuSeen(worlds), k + 1);
    case IoModule =>
      assert IoSeen(worlds)[..k + 1] == IoSeen(seen);
      HistoryOnlyGrows(IoLaws.Start, IoLaws.Next(m), IoSeen(worlds), k + 1);
    case ProcModule =>
      assert ProcSeen(worlds)[..k + 1] == ProcSeen(seen);
      HistoryOnlyGrows(ModProc.Start, ModProc.Next, ProcSeen(worlds), k + 1);
    case AnswerModule =>
    case OneModule =>
      assert WritesSeen(name, worlds)[..k + 1] == WritesSeen(name, seen);
  }

  /** An enabled module shows all of what it held after the last round that had something to show. */
  lemma ShowsLastAnswered(mod: Module<Records>, callbacks: Callbacks, worlds: seq<World>, m: Io.Machine, k: nat)
    requires Io.Runs(m) && mod.records == Initial(callbacks) && mod.enable
    requires k < |worlds| && Answered(callbacks, mod.name, worlds[k])
    requires forall j :: k < j < |worlds| ==> !Answered(callbacks, mod.name, worlds[j])
    ensures AfterRounds(mod, worlds, m).text == match callbacks
      case CpuModule => CpuText(Cpu.Records(CpuSeen(worlds))[k])
      case IoModule => IoText(IoLaws.Records(IoSeen(worlds), m)[k])
      case ProcModule => ProcText(ModProc.Records(ProcSeen(worlds))[k])
      case AnswerModule => AnswerText(Answer(mod.name, worlds[k]))
      case OneModule => OneText(ModMem.After(WritesSeen(mod.name, worlds)[..k + 1]))
  {
    hide AfterRounds, Answered, Shown;
    ShowsShown(mod, callbacks, worlds, m, k);
    ShownByKind(callbacks, mod.name, worlds, m, k);
  }

  /** Before anything was answered a one-record module shows zeroed memory, and any other module nothing. */
  lemma {:induction false} ShowsNothing(mod: Module<Records>, callbacks: Callbacks, worlds: seq<World>, m: Io.Machine)
    requires Io.Runs(m) && mod.records == Initial(callbacks) && mod.enable && mod.text == Blank
    requires Silent(callbacks, mod.name, worlds)
    ensures AfterRounds(mod, worlds, m).text == if callbacks.OneModule? && worlds != [] then OneText(map[]) else Blank
  {
    if worlds != [] {
      hide *;
      var n := |worlds| - 1;
      SilentSnoc(callbacks, mod.name, worlds);
      ShowsNothing(mod, callbacks, worlds[..n], m);
      TextAfterRound(mod, callbacks, worlds, m);
      if callbacks.OneModule? {
        OneKeeps(mod.name, worlds, m);
        if n > 0 {
          TextAfterRound(mod, callbacks, worlds[..n], m);
        }
      }
    }
  }

  lemma {:induction false} BlankExactlyWhen(mod: Module<Records>, callbacks: Callbacks, worlds: seq<World>,
                                            m: Io.Machine)
    requires Io.Runs(m) && mod.records == Initial(callbacks) && mod.enable && mod.text == Blank
    requires !callbacks.OneModule?
    ensures AfterRounds(mod, worlds, m).text == Blank <==> Silent(callbacks, mod.name, worlds)
  {
    if worlds != [] {
      hide *;
      BlankExactlyWhen(mod, callbacks, worlds[..|worlds| - 1], m);
      TextAfterRound(mod, callbacks, worlds, m);
      ShownIsBlank(callbacks, mod.name, worlds, m, Blank);
      SilentSnoc(callbacks, mod.name, worlds);
    }
  }

  /** What the last of the rounds has to show: for a one-record module the fields that it writes, in a zeroed record. */
  function Current(callbacks: Callbacks, name: string, worlds: seq<World>, m: Io.Machine): Text
    requires Io.Runs(m) && worlds != []
  {
    var n := |worlds| - 1;
    match callbacks
    case CpuModule => CpuText(Cpu.Records(CpuSeen(worlds))[n])
    case IoModule => if worlds[n].io == [] then Blank else IoText(IoLaws.Records(IoSeen(worlds), m)[n])
    case ProcModule => if worlds[n].proc.samples == [] then Blank else ProcText(ModProc.Records(ProcSeen(worlds))[n])
    case AnswerModule => if Answer(name, worlds[n]) == [] then Blank else AnswerText(Answer(name, worlds[n]))
    case OneModule => OneText(ModMem.Written(map[], Writes(name, worlds[n])))
  }

  lemma CurrentIsShown(callbacks: Callbacks, name: string, worlds: seq<World>, m: Io.Machine)
    requires Io.Runs(m) && worlds != [] && !callbacks.OneModule?
    ensures Current(callbacks, name, worlds, m) == Shown(callbacks, name, worlds, m)
  {
    hide Shown, Answer;
    var n := |worlds| - 1;
    ShownIsBlank(callbacks, name, worlds, m, Blank);
    if Answered(callbacks, name, worlds[n]) {
      ShownByKind(callbacks, name, worlds, m, n);
      assert worlds[..n + 1] == worlds;
    }
  }

  /**
    A one-record module writes each field that an earlier round left in its record. Any other
    module has something to show, or never had.
   */
  ghost predicate UpToDate(callbacks: Callbacks, name: string, worlds: seq<World>)
    requires worlds != []
  {
    var n := |worlds| - 1;
    if callbacks.OneModule? then
      forall f :: ModMem.LastWritten(WritesSeen(name, worlds[..n]), f) != "" ==> f in Writes(name, worlds[n])
    else
      Answered(callbacks, name, worlds[n]) || Silent(callbacks, name, worlds[..n])
  }

  lemma OneIsCurrentExactlyWhen(name: string, worlds: seq<World>, m: Io.Machine)
    requires Io.Runs(m) && worlds != []
    ensures Shown(OneModule, name, worlds, m) == Current(OneModule, name, worlds, m)
      <==> UpToDate(OneModule, name, worlds)
  {
    hide Writes, ModMem.Written, ModMem.LastWritten;
    var n, seen := |worlds| - 1, WritesSeen(name, worlds);
    assert seen[..n] == WritesSeen(name, worlds[..n]);
    var before := ModMem.After(seen[..n]);
    ModMem.WrittenAfreshExactlyWhen(before, seen[n]);
    forall f ensures ModMem.Field(before, f) == ModMem.LastWritten(seen[..n], f) {
      ModMem.AfterIsLastWritten(seen[..n], f);
    }
  }

  /**
    The report of an enabled module shows what this round has collected, and nothing else, exactly
    when it is `UpToDate`. Otherwise something of an earlier round is shown again (ShowsLastAnswered).
   */
  lemma ReportIsCurrentExactlyWhen(mod: Module<Records>, callbacks: Callbacks, worlds: seq<World>, m: Io.Machine)
    requires Io.Runs(m) && mod.records == Initial(callbacks) && mod.enable && mod.text == Blank && worlds != []
    ensures AfterRounds(mod, worlds, m).text == Current(callbacks, mod.name, worlds, m)
      <==> UpToDate(callbacks, mod.name, worlds)
  {
    hide AfterRounds, Answered, Silent, Shown, Initial, Current;
    TextAfterRound(mod, callbacks, worlds, m);
    if callbacks.OneModule? {
      OneIsCurrentExactlyWhen(mod.name, worlds, m);
    } else {
      CurrentIsShown(callbacks, mod.name, worlds, m);
      ShownIsBlank(callbacks, mod.name, worlds, m, Blank);
      BlankExactlyWhen(mod, callbacks, worlds[..|worlds| - 1], m);
    }
  }

  /** The name server is gone in the second round, and the second report still shows it. */
  lemma ExampleOfAStaleReport(r: Registration, first: World, second: World, m: Io.Machine)
    requires Io.Runs(m) && r.name == "dns" && r.callbacks == AnswerModule
    requires first.answers == map["dns" := ["8.8.8.8"]] && second.answers == map["dns" := []]
    ensures var after := AfterRounds(Registered(r).(enable := true), [first, second], m);
      after.records == LastAnswer([], [[], ["8.8.8.8"]]) && after.text == AnswerText(["8.8.8.8"])
  {
    var mod, worlds := Registered(r).(enable := true), [first, second];
    assert Answer("dns", first) == ["8.8.8.8"] && Answer("dns", second) == [];
    RecordsAfterRun(mod, AnswerModule, worlds, m);
    ShowsLastAnswered(mod, AnswerModule, worlds, m, 0);
    var answers := AnswersSeen("dns", worlds);
    assert ModDns.Detached(answers, 2) == [[], ["8.8.8.8"]];
    assert worlds[..1] == [first];
  }

  /** The default route is gone in the second round, and record and report still show the old gateway. */
  lemma ExampleOfALostGateway(r: Registration, first: World, second: World, m: Io.Machine)
    requires Io.Runs(m) && r.name == "gateway" && r.callbacks == OneModule
    requires first.writes == map["gateway" := map["addr" := "10.0.0.1"]] && second.writes == map[]
    ensures var after := AfterRounds(Registered(r).(enable := true), [first, second], m);
      after.records == OneRecord([map["addr" := "10.0.0.1"]]) && after.text == OneText(map["addr" := "10.0.0.1"])
    ensures Current(OneModule, "gateway", [first, second], m) == OneText(map[])
  {
    hide ModMem.Written, AfterRounds, Collected;
    var mod, worlds := Registered(r).(enable := true), [first, second];
    var writes: ModMem.Fields := map["addr" := "10.0.0.1"];
    RecordsAfterRun(mod, OneModule, worlds, m);
    TextAfterRound(mod, OneModule, worlds, m);
    assert WritesSeen("gateway", worlds) == [writes, map[]];
    TwoRounds(writes);
  }

  lemma TwoRounds(writes: ModMem.Fields)
    requires ModMem.Canonical(writes)
    ensures ModMem.After([writes, map[]]) == writes && ModMem.Written(map[], map[]) == map[]
  {
    hide ModMem.Written;
    assert [writes, map[]][..1] == [writes] && [writes][..0] == [];
    assert ModMem.After([writes]) == ModMem.Written(map[], writes);
    ModMem.NothingWritten(writes);
    ModMem.NothingWritten(map[]);
  }

  lemma CpuSeenOfPrefix(worlds: seq<World>, k: nat)
    requires k < |worlds|
    ensures |Cpu.Records(CpuSeen(worlds))| == |worlds| && |Cpu.Records(CpuSeen(worlds[..k + 1]))| == k + 1
    ensures Cpu.Records(CpuSeen(worlds[..k + 1]))[k] == Cpu.Records(CpuSeen(worlds))[k]
  {
    hide Cpu.Start, Cpu.Next, Collect;
    assert CpuSeen(worlds)[..k + 1] == CpuSeen(worlds[..k + 1]);
    HistoryOnlyGrows(Cpu.Start, Cpu.Next, CpuSeen(worlds), k + 1);
  }

  /** With one enabled module, cpu, among any others, round `k` reports record `k`, computed against record `k - 1`. */
  lemma CpuReport(mods: seq<Module<Records>>, worlds: seq<World>, m: Io.Machine, c: nat, k: nat)
    requires Io.Runs(m) && c < |mods| && k < |worlds|
    requires mods[c].records == Initial(CpuModule) && mods[c].enable && Enabled(mods) == [mods[c]]
    ensures ReportOf(mods, worlds, m, k) == [CpuText(Cpu.Records(CpuSeen(worlds))[k])]
    ensures k > 0 ==> var records := Cpu.Records(CpuSeen(worlds));
      records[k] == Cpu.Computed(Cpu.Start(worlds[k].cpu), records[k - 1])
  {
    hide Cpu.Computed, AfterRounds, Initial, Enabled, Cpu.Start, Cpu.Next, History;
    var seen := worlds[..k + 1];
    ReportIsOfEnabled(mods, seen, m);
    ShowsLastAnswered(mods[c], CpuModule, seen, m, k);
    CpuSeenOfPrefix(worlds, k);
    Cpu.RecordIsComputed(CpuSeen(worlds), k);
  }
}
