/**
  What the collector does, on values: a module's record list is the sequence that its ring
  carries. `Tool` refines these functions on the heap.
 */
module ToolSpec {
  import opened Histories
  import opened Searching
  import Cpu
  import Dns
  import Io
  import IoLaws
  import ModMem
  import ModProc
  import ProcSpec

  /**
    What a module's record list holds; the constructor stands for its three callbacks. `detached`
    are the answers that a snapshot module no longer has in its list.
   */
  datatype Records =
    | CpuHistory(cpus: seq<Cpu.Cpu>)
    | IoHistory(ios: seq<seq<Io.Io>>)
    | ProcHistory(procs: seq<seq<ProcSpec.Proc>>)
    | LastAnswer(answer: seq<string>, detached: seq<seq<string>>)
    | OneRecord(records: seq<ModMem.Fields>)

  /** The contents of the buffer `record`, as the records that were rendered into it. */
  datatype Text =
    | Blank
    | CpuText(cpu: Cpu.Cpu)
    | IoText(io: seq<Io.Io>)
    | ProcText(proc: seq<ProcSpec.Proc>)
    | AnswerText(answer: seq<string>)
    | OneText(fields: ModMem.Fields)

  /** A module_t over some form `R` of record lists. */
  datatype Module<R> = Module(name: string, optLine: string, usage: string, enable: bool, text: Text, records: R,
                              numCol: int, info: seq<string>)

  /**
    What the system shows in one round: to cpu, io and proc, to each snapshot module an answer, and
    to each one-record module the fields that its reader gets to write.
   */
  datatype World = World(cpu: Cpu.CpuStat, io: seq<IoLaws.Sample>, proc: ModProc.Reading,
                         answers: map<string, seq<string>>, writes: map<string, ModMem.Fields>)

  /** The callbacks that a module is registered with. */
  datatype Callbacks = CpuModule | IoModule | ProcModule | AnswerModule | OneModule

  /** A freshly initialised record list. */
  function Initial(callbacks: Callbacks): Records {
    match callbacks
    case CpuModule => CpuHistory([])
    case IoModule => IoHistory([])
    case ProcModule => ProcHistory([])
    case AnswerModule => LastAnswer([], [])
    case OneModule => OneRecord([])
  }

  function Answer(name: string, w: World): seq<string> {
    var answer := if name in w.answers then w.answers[name] else [];
    if name == "dns" then Dns.Remote(answer) else answer
  }

  function Writes(name: string, w: World): ModMem.Fields {
    if name in w.writes then w.writes[name] else map[]
  }

  /** The five forms of collect_record. */
  function Collected(r: Records, name: string, w: World, m: Io.Machine): Records
    requires Io.Runs(m)
  {
    match r
    case CpuHistory(rs) => CpuHistory(Collect(Cpu.Start, Cpu.Next, rs, w.cpu))
    case IoHistory(rs) => IoHistory(Collect(IoLaws.Start, IoLaws.Next(m), rs, w.io))
    case ProcHistory(rs) => ProcHistory(Collect(ModProc.Start, ModProc.Next, rs, w.proc))
    case LastAnswer(last, olds) => LastAnswer(Answer(name, w), olds + [last])
    case OneRecord(rs) => OneRecord([ModMem.Written(if rs == [] then map[] else rs[|rs| - 1], Writes(name, w))])
  }

  /**
    record_to_str: the last record is rendered into the buffer. Where there is nothing to render
    (no record yet, or a last list without entries) the buffer keeps what it had.
   */
  function Rendered(r: Records, text: Text): Text {
    match r
    case CpuHistory(rs) => if rs == [] then text else CpuText(rs[|rs| - 1])
    case IoHistory(rs) => if rs == [] || rs[|rs| - 1] == [] then text else IoText(rs[|rs| - 1])
    case ProcHistory(rs) => if rs == [] || rs[|rs| - 1] == [] then text else ProcText(rs[|rs| - 1])
    case LastAnswer(answer, _) => if answer == [] then text else AnswerText(answer)
    case OneRecord(rs) => if rs == [] then text else OneText(rs[|rs| - 1])
  }

  /** `mod->collect_record(mod)`. */
  function Collecting(mod: Module<Records>, w: World, m: Io.Machine): Module<Records>
    requires Io.Runs(m)
  {
    mod.(records := Collected(mod.records, mod.name, w, m))
  }

  /** One step of print_mod_record: only an enabled module is rendered. */
  function Printing(mod: Module<Records>): Module<Records> {
    if mod.enable then mod.(text := Rendered(mod.records, mod.text)) else mod
  }

  /** A module after one round in each of the worlds. */
  function AfterRounds(mod: Module<Records>, worlds: seq<World>, m: Io.Machine): Module<Records>
    requires Io.Runs(m)
  {
    if worlds == [] then mod
    else Printing(Collecting(AfterRounds(mod, worlds[..|worlds| - 1], m), worlds[|worlds| - 1], m))
  }

  /** The enabled modules, in list order. */
  function Enabled<R>(mods: seq<Module<R>>): seq<Module<R>> {
    if mods == [] then []
    else
      var n := |mods| - 1;
      Enabled(mods[..n]) + if mods[n].enable then [mods[n]] else []
  }

  lemma EnabledSnoc<R>(mods: seq<Module<R>>, k: nat)
    requires k < |mods|
    ensures Enabled(mods[..k + 1]) == Enabled(mods[..k]) + if mods[k].enable then [mods[k]] else []
  {
    assert mods[..k + 1][..k] == mods[..k];
  }

  lemma NoneEnabled<R>(mods: seq<Module<R>>)
    ensures Enabled(mods[..0]) == []
  {
  }

  function Texts<R>(mods: seq<Module<R>>): (texts: seq<Text>)
    ensures |texts| == |mods| && forall i :: 0 <= i < |mods| ==> texts[i] == mods[i].text
  {
    seq(|mods|, i requires 0 <= i < |mods| => mods[i].text)
  }

  function AllCollecting(mods: seq<Module<Records>>, w: World, m: Io.Machine): (r: seq<Module<Records>>)
    requires Io.Runs(m)
    ensures |r| == |mods| && forall i :: 0 <= i < |mods| ==> r[i] == Collecting(mods[i], w, m)
  {
    seq(|mods|, i requires 0 <= i < |mods| => Collecting(mods[i], w, m))
  }

  function AllPrinting(mods: seq<Module<Records>>): (r: seq<Module<Records>>)
    ensures |r| == |mods| && forall i :: 0 <= i < |mods| ==> r[i] == Printing(mods[i])
  {
    seq(|mods|, i requires 0 <= i < |mods| => Printing(mods[i]))
  }

  function AllAfterRounds(mods: seq<Module<Records>>, worlds: seq<World>, m: Io.Machine): (r: seq<Module<Records>>)
    requires Io.Runs(m)
    ensures |r| == |mods| && forall i :: 0 <= i < |mods| ==> r[i] == AfterRounds(mods[i], worlds, m)
  {
    seq(|mods|, i requires 0 <= i < |mods| => AfterRounds(mods[i], worlds, m))
  }

  /** What the first `k + 1` modules print. */
  lemma PrintingSnoc(mods: seq<Module<Records>>, k: nat)
    requires k < |mods|
    ensures !mods[k].enable ==> Printing(mods[k]) == mods[k]
    ensures var now := AllPrinting(mods);
      Texts(Enabled(now[..k + 1]))
      == Texts(Enabled(now[..k])) + if mods[k].enable then [Printing(mods[k]).text] else []
  {
    hide Rendered;
    EnabledSnoc(AllPrinting(mods), k);
  }

  /** What round `k` prints: the buffers of the enabled modules, in list order. */
  function ReportOf(mods: seq<Module<Records>>, worlds: seq<World>, m: Io.Machine, k: nat): seq<Text>
    requires Io.Runs(m) && k < |worlds|
  {
    Texts(Enabled(AllAfterRounds(mods, worlds[..k + 1], m)))
  }

  /** What the first `n` rounds print, one after the other. */
  function ReportsOf(mods: seq<Module<Records>>, worlds: seq<World>, m: Io.Machine, n: nat): (reports: seq<seq<Text>>)
    requires Io.Runs(m) && n <= |worlds|
    ensures |reports| == n && forall k :: 0 <= k < n ==> reports[k] == ReportOf(mods, worlds, m, k)
  {
    seq(n, k requires 0 <= k < n => ReportOf(mods, worlds, m, k))
  }

  lemma NoRounds(mods: seq<Module<Records>>, worlds: seq<World>, m: Io.Machine)
    requires Io.Runs(m)
    ensures AllAfterRounds(mods, worlds[..0], m) == mods && ReportsOf(mods, worlds, m, 0) == []
  {
  }

  /** One more round, and what it prints. */
  lemma OneMoreRound(mods: seq<Module<Records>>, worlds: seq<World>, m: Io.Machine, k: nat)
    requires Io.Runs(m) && k < |worlds|
    ensures var now := AllPrinting(AllCollecting(AllAfterRounds(mods, worlds[..k], m), worlds[k], m));
      && AllAfterRounds(mods, worlds[..k + 1], m) == now
      && ReportsOf(mods, worlds, m, k + 1) == ReportsOf(mods, worlds, m, k) + [Texts(Enabled(now))]
  {
    hide Collecting, Printing;
    assert worlds[..k + 1][..k] == worlds[..k];
  }

  // -------------------------------------------------------- enabling modules

  function Opts<R>(mods: seq<Module<R>>): (opts: seq<string>)
    ensures |opts| == |mods| && forall i :: 0 <= i < |mods| ==> opts[i] == mods[i].optLine
  {
    seq(|mods|, i requires 0 <= i < |mods| => mods[i].optLine)
  }

  /** The first module with the option is enabled. */
  function Enabling<R>(mods: seq<Module<R>>, opt: string): (r: seq<Module<R>>)
    ensures |r| == |mods|
  {
    var k := Find(Opts(mods), opt);
    if k < |mods| then mods[k := mods[k].(enable := true)] else mods
  }

  /** The search for the option ends at `k`. */
  lemma EnablingAt<R>(mods: seq<Module<R>>, opt: string, k: nat)
    requires k <= |mods| && forall j :: 0 <= j < k ==> mods[j].optLine != opt
    requires k < |mods| ==> mods[k].optLine == opt
    ensures k < |mods| <==> opt in Opts(mods)
    ensures Enabling(mods, opt) == if k < |mods| then mods[k := mods[k].(enable := true)] else mods
  {
    assert forall j :: 0 <= j < k ==> Opts(mods)[j] != opt;
    assert k < |mods| ==> Opts(mods)[k] == opt;
    assert Find(Opts(mods), opt) == k;
  }

  /** Every module is enabled. */
  function EnablingAll<R>(mods: seq<Module<R>>): (r: seq<Module<R>>)
    ensures |r| == |mods| && forall i :: 0 <= i < |mods| ==> r[i] == mods[i].(enable := true)
  {
    seq(|mods|, i requires 0 <= i < |mods| => mods[i].(enable := true))
  }

  /** The options that enable modules: `-a`, and the option of one module. */
  datatype Switch = All | Only(opt: string)

  /** The modules after the options were handled in order; an option of no module ends the tool. */
  function Switched<R>(mods: seq<Module<R>>, switches: seq<Switch>): Option<seq<Module<R>>>
    decreases |switches|
  {
    if switches == [] then Some(mods)
    else
      match switches[0]
      case All => Switched(EnablingAll(mods), switches[1..])
      case Only(opt) => if opt in Opts(mods) then Switched(Enabling(mods, opt), switches[1..]) else None
  }

  /** What a module registers with. */
  datatype Registration = Registration(name: string, info: seq<string>, optLine: string, usage: string, numCol: int,
                                       callbacks: Callbacks)

  /** A module just registered: disabled, without records, nothing in its buffer. */
  function Registered(r: Registration): Module<Records> {
    Module(r.name, r.optLine, r.usage, false, Blank, Initial(r.callbacks), r.numCol, r.info)
  }

  function AllRegistered(rs: seq<Registration>): (mods: seq<Module<Records>>)
    ensures |mods| == |rs| && forall i :: 0 <= i < |rs| ==> mods[i] == Registered(rs[i])
  {
    seq(|rs|, i requires 0 <= i < |rs| => Registered(rs[i]))
  }
}
