/** The interpreter of runner.json actions, whose dependency graph may be cyclic. */
module RunnerActions {
  import opened Prelude

  type Uid = string

  datatype WasmMode = Det | NonDet

  datatype Action =
    | MapFile(to: string, file: string)
    | AddEnv(name: string, val: string)
    | SetArgs(args: seq<string>)
    | Depends(uid: Uid)
    | LinkWasm(path: string)
    | StartWasm(path: string)
    | When(cond: WasmMode, action: Action)
    | Seq(actions: seq<Action>)
    | With(runner: Uid, action: Action)

  /**
   * The published runners, the aliases for their latest versions, the address of the contract, and every runner's
   * actions.
   */
  datatype Registry = Registry(all: map<string, seq<string>>, latest: map<string, string>, address: string,
                               runnerJson: map<Uid, Action>)

  /** What the interpreter does to the virtual machine, in order. */
  datatype Event =
    | Mapped(arch: Uid, to: string, file: string)
    | EnvSet(name: string, value: string)
    | ArgsSet(args: seq<string>)
    | Loaded(arch: Uid)
    | Entered(arch: Uid)
    | Linked(arch: Uid, path: string)
    | Started(arch: Uid, path: string, env: map<string, string>)

  /**
   * The rest of the virtual machine: its mode, whether it manages to do an event after a given history,
   * and how it expands references to variables.
   */
  datatype Host = Host(deterministic: bool, does: (seq<Event>, Event) -> bool,
                       patch: (map<string, string>, string) -> Option<string>)

  // ----- runner ids

  const CONTRACT: Uid := "<contract>"

  /** `get_runner_of_contract`; `address` is in hexadecimal. */
  function ContractId(reg: Registry): Uid {
    "on_chain:0x" + reg.address
  }

  function FirstColon(s: string): (i: nat)
    ensures i <= |s| && (forall j :: 0 <= j < i ==> s[j] != ':') && (i < |s| ==> s[i] == ':')
  {
    if s == [] || s[0] == ':' then 0 else 1 + FirstColon(s[1..])
  }

  predicate IsIdChar(c: char) {
    'a' <= c <= 'z' || 'A' <= c <= 'Z' || '0' <= c <= '9' || c == '-' || c == '_'
  }

  predicate IsId(s: string) {
    forall c :: c in s ==> IsIdChar(c)
  }

  predicate IsHash(s: string) {
    forall c :: c in s ==> IsIdChar(c) || c == '='
  }

  /** `verify_runner`: exactly one colon, and only allowed characters around it. */
  function VerifyRunner(uid: Uid): Option<(string, string)> {
    var i := FirstColon(uid);
    if i < |uid| && IsId(uid[..i]) && IsHash(uid[i + 1..]) then Some((uid[..i], uid[i + 1..])) else None
  }

  lemma VerifyJoined(id: string, hash: string)
    ensures VerifyRunner(id + ":" + hash) == (if IsId(id) && IsHash(hash) then Some((id, hash)) else None)
  {
    var uid := id + ":" + hash;
    assert uid[|id|] == ':' && uid[..|id|] == id && uid[|id| + 1..] == hash;
    var i := FirstColon(uid);
    if i < |id| {
      assert id[i] == ':' && !IsIdChar(':');
    }
  }

  /** `full_check_runner_uid`. */
  function FullCheck(reg: Registry, uid: Uid): Option<Uid> {
    if uid == CONTRACT then Some(ContractId(reg))
    else
      var parts := VerifyRunner(uid);
      if parts.None? then None
      else
        var (id, named) := parts.value;
        var hash := if named != "test" && named != "latest" then Some(named)
                    else if id in reg.latest then Some(reg.latest[id]) else None;
        if hash.None? || id !in reg.all || hash.value !in reg.all[id] then None
        else Some(id + ":" + hash.value)
  }

  /** The ids that can come out of the check. */
  function Universe(reg: Registry): set<Uid> {
    {ContractId(reg)} + set id, hash | id in reg.all && hash in reg.all[id] :: id + ":" + hash
  }

  lemma CheckedIsKnown(reg: Registry, uid: Uid)
    ensures FullCheck(reg, uid).Some? ==> FullCheck(reg, uid).value in Universe(reg)
  {
  }

  /** Checking a checked id again either fails or gives the same id: ids never drift along a chain of dependencies. */
  lemma CheckedIsStable(reg: Registry, uid: Uid)
    requires FullCheck(reg, uid).Some?
    ensures var v := FullCheck(reg, uid).value;
            FullCheck(reg, v).Some? ==> FullCheck(reg, v).value == v
  {
    var v := FullCheck(reg, uid).value;
    if uid == CONTRACT {
      assert ContractId(reg) == "on_chain" + ":" + ("0x" + reg.address);
      VerifyJoined("on_chain", "0x" + reg.address);
      assert v[0] == 'o' && ("0x" + reg.address)[0] == '0';
    } else {
      var id := VerifyRunner(uid).value.0;
      assert v == id + ":" + v[|id| + 1..];
      VerifyJoined(id, v[|id| + 1..]);
      assert v[|id|] == ':' && ':' !in CONTRACT;
    }
  }

  // ----- the interpreter, as a function

  datatype Outcome = Continue | Instance | Failed

  datatype Run = Run(visited: set<Uid>, trace: seq<Event>, outcome: Outcome)

  /** The environment built so far. */
  function EnvOf(trace: seq<Event>): map<string, string> {
    if trace == [] then map[]
    else
      var last := trace[|trace| - 1];
      var before := EnvOf(trace[..|trace| - 1]);
      if last.EnvSet? then before[last.name := last.value] else before
  }

  function Do(host: Host, visited: set<Uid>, trace: seq<Event>, event: Event, outcome: Outcome): Run {
    if host.does(trace, event) then Run(visited, trace + [event], outcome) else Run(visited, trace, Failed)
  }

  /** `get_arch`. */
  function GetArch(reg: Registry, host: Host, uid: Uid, trace: seq<Event>): Option<Uid> {
    var v := FullCheck(reg, uid);
    if v.None? || VerifyRunner(v.value).None? || !host.does(trace, Loaded(v.value)) then None else v
  }

  function Apply(reg: Registry, host: Host, a: Action, current: Uid, visited: set<Uid>, trace: seq<Event>): (r: Run)
    ensures visited <= r.visited
    decreases Universe(reg) - visited, a, 0
  {
    match a
    case MapFile(to, file) => Do(host, visited, trace, Mapped(current, to, file), Continue)
    case AddEnv(name, val) =>
      var patched := host.patch(EnvOf(trace), val);
      if patched.None? then Run(visited, trace, Failed)
      else Run(visited, trace + [EnvSet(name, patched.value)], Continue)
    case SetArgs(args) => Do(host, visited, trace, ArgsSet(args), Continue)
    case LinkWasm(path) => Do(host, visited, trace, Linked(current, path), Continue)
    case StartWasm(path) => Do(host, visited, trace, Started(current, path, EnvOf(trace)), Instance)
    case When(cond, action) =>
      if (cond == Det) != host.deterministic then Run(visited, trace, Continue)
      else Apply(reg, host, action, current, visited, trace)
    case Seq(actions) => ApplyAll(reg, host, a, |actions|, current, visited, trace)
    case With(runner, action) =>
      var arch := GetArch(reg, host, runner, trace);
      if arch.None? then Run(visited, trace, Failed)
      else Apply(reg, host, action, arch.value, visited, trace + [Loaded(arch.value)])
    case Depends(uid) =>
      var checked := FullCheck(reg, uid);
      if checked.None? then Run(visited, trace, Failed)
      else if checked.value in visited then Run(visited, trace, Continue)
      else
        CheckedIsKnown(reg, uid);
        var seen := visited + {checked.value};
        var arch := GetArch(reg, host, checked.value, trace);
        if arch.None? then Run(seen, trace, Failed)
        else if arch.value !in reg.runnerJson then Run(seen, trace + [Loaded(arch.value)], Failed)
        else Apply(reg, host, reg.runnerJson[arch.value], arch.value, seen,
                   trace + [Loaded(arch.value), Entered(arch.value)])
  }

  /** The first `n` actions of a sequence, up to the first that does not continue. */
  function ApplyAll(reg: Registry, host: Host, a: Action, n: nat, current: Uid, visited: set<Uid>,
                    trace: seq<Event>): (r: Run)
    requires a.Seq? && n <= |a.actions|
    ensures visited <= r.visited
    decreases Universe(reg) - visited, a, 0, n
  {
    if n == 0 then Run(visited, trace, Continue)
    else
      var r := ApplyAll(reg, host, a, n - 1, current, visited, trace);
      if r.outcome != Continue then r else Apply(reg, host, a.actions[n - 1], current, r.visited, r.trace)
  }

  // ----- what every run keeps

  /** No runner is entered at two places of the history. */
  predicate EnteredAtMostOnce(trace: seq<Event>) {
    forall i, j :: 0 <= i < j < |trace| && trace[i].Entered? ==> trace[i] != trace[j]
  }

  /** The visited ids are known ids, among them every runner entered, and only those unless the run failed. */
  ghost predicate VisitedAreEntered(reg: Registry, run: Run) {
    && run.visited <= Universe(reg)
    && (forall e :: e in run.trace && e.Entered? ==> e.arch in run.visited)
    && (run.outcome != Failed ==> forall u :: u in run.visited ==> Entered(u) in run.trace)
  }

  /**
   * An instance is returned exactly when the last event started one; it got the environment built before, and nothing
   * came after.
   */
  ghost predicate StartIsLast(run: Run) {
    && (run.outcome == Instance ==> run.trace != [] && run.trace[|run.trace| - 1].Started?)
    && (forall i :: 0 <= i < |run.trace| && run.trace[i].Started? ==>
          run.outcome == Instance && i == |run.trace| - 1 && run.trace[i].env == EnvOf(run.trace[..i]))
  }

  ghost predicate Sound(reg: Registry, run: Run) {
    EnteredAtMostOnce(run.trace) && VisitedAreEntered(reg, run) && StartIsLast(run)
  }

  /** An event other than an entry keeps a run sound. */
  lemma DoKeepsSound(reg: Registry, visited: set<Uid>, trace: seq<Event>, event: Event, outcome: Outcome)
    requires Sound(reg, Run(visited, trace, Continue)) && !event.Entered? && outcome != Failed
    requires event.Started? <==> outcome == Instance
    requires event.Started? ==> event.env == EnvOf(trace)
    ensures Sound(reg, Run(visited, trace + [event], outcome))
  {
    var r := trace + [event];
    assert r[..|trace|] == trace;
    forall u | u in visited
      ensures Entered(u) in r
    {
      assert Entered(u) in trace;
    }
  }

  lemma DoIsSound(reg: Registry, host: Host, visited: set<Uid>, trace: seq<Event>, event: Event, outcome: Outcome)
    requires Sound(reg, Run(visited, trace, Continue)) && !event.Entered? && outcome != Failed
    requires event.Started? <==> outcome == Instance
    requires event.Started? ==> event.env == EnvOf(trace)
    ensures var r := Do(host, visited, trace, event, outcome); Sound(reg, r) && trace <= r.trace
  {
    DoKeepsSound(reg, visited, trace, event, outcome);
  }

  lemma EnterKeepsSound(reg: Registry, visited: set<Uid>, trace: seq<Event>, v: Uid)
    requires Sound(reg, Run(visited, trace, Continue)) && v in Universe(reg) && v !in visited
    ensures Sound(reg, Run(visited + {v}, trace + [Loaded(v), Entered(v)], Continue))
  {
    DoKeepsSound(reg, visited, trace, Loaded(v), Continue);
    var before := trace + [Loaded(v)];
    var r := trace + [Loaded(v), Entered(v)];
    assert r == before + [Entered(v)];
    forall u | u in visited + {v}
      ensures Entered(u) in r
    {
      assert r[|before|] == Entered(v);
      assert u in visited ==> Entered(u) in before;
    }
    assert Entered(v) !in before;
  }

  /**
   * Whatever the registry, the graph of dependencies and the machine do, a sound run stays sound and its history only
   * grows.
   */
  lemma {:induction false} ApplyIsSound(reg: Registry, host: Host, a: Action, current: Uid, visited: set<Uid>,
                                        trace: seq<Event>)
    requires Sound(reg, Run(visited, trace, Continue))
    ensures var r := Apply(reg, host, a, current, visited, trace);
            Sound(reg, r) && trace <= r.trace
    decreases Universe(reg) - visited, a, 1
  {
    match a
    case MapFile(to, file) => DoIsSound(reg, host, visited, trace, Mapped(current, to, file), Continue);
    case AddEnv(name, val) =>
      var patched := host.patch(EnvOf(trace), val);
      if patched.Some? {
        DoKeepsSound(reg, visited, trace, EnvSet(name, patched.value), Continue);
      }
    case SetArgs(args) => DoIsSound(reg, host, visited, trace, ArgsSet(args), Continue);
    case LinkWasm(path) => DoIsSound(reg, host, visited, trace, Linked(current, path), Continue);
    case StartWasm(path) => DoIsSound(reg, host, visited, trace, Started(current, path, EnvOf(trace)), Instance);
    case When(cond, action) =>
      if (cond == Det) == host.deterministic {
        ApplyIsSound(reg, host, action, current, visited, trace);
      }
    case Seq(actions) => ApplyAllIsSound(reg, host, a, |actions|, current, visited, trace);
    case With(runner, action) =>
      var arch := GetArch(reg, host, runner, trace);
      if arch.Some? {
        DoKeepsSound(reg, visited, trace, Loaded(arch.value), Continue);
        ApplyIsSound(reg, host, action, arch.value, visited, trace + [Loaded(arch.value)]);
      }
    case Depends(uid) => DependsIsSound(reg, host, uid, current, visited, trace);
  }

  lemma {:induction false} ApplyAllIsSound(reg: Registry, host: Host, a: Action, n: nat, current: Uid,
                                           visited: set<Uid>, trace: seq<Event>)
    requires Sound(reg, Run(visited, trace, Continue))
    requires a.Seq? && n <= |a.actions|
    ensures var r := ApplyAll(reg, host, a, n, current, visited, trace);
            Sound(reg, r) && trace <= r.trace
    decreases Universe(reg) - visited, a, 0, n
  {
    if n > 0 {
      ApplyAllIsSound(reg, host, a, n - 1, current, visited, trace);
      var r := ApplyAll(reg, host, a, n - 1, current, visited, trace);
      if r.outcome == Continue {
        ApplyIsSound(reg, host, a.actions[n - 1], current, r.visited, r.trace);
      }
    }
  }

  lemma {:induction false} DependsIsSound(reg: Registry, host: Host, uid: Uid, current: Uid, visited: set<Uid>,
                                          trace: seq<Event>)
    requires Sound(reg, Run(visited, trace, Continue))
    ensures var r := Apply(reg, host, Depends(uid), current, visited, trace);
            Sound(reg, r) && trace <= r.trace
    decreases Universe(reg) - visited, Depends(uid), 0
  {
    var checked := FullCheck(reg, uid);
    if checked.Some? && checked.value !in visited {
      var v := checked.value;
      CheckedIsKnown(reg, uid);
      CheckedIsStable(reg, uid);
      EnterKeepsSound(reg, visited, trace, v);
      DoKeepsSound(reg, visited, trace, Loaded(v), Continue);
      var entered := trace + [Loaded(v), Entered(v)];
      assert trace <= entered;
      if GetArch(reg, host, v, trace).Some? && v in reg.runnerJson {
        ApplyIsSound(reg, host, reg.runnerJson[v], v, visited + {v}, entered);
      }
    }
  }

  /** The run of a contract's own actions. */
  function RunContract(reg: Registry, host: Host, actions: Action): Run {
    Apply(reg, host, actions, ContractId(reg), {}, [])
  }

  /**
   * Every run of a contract's actions comes to an end, whatever cycles its dependencies have (`Apply` is total).
   * It enters a runner at most once, and enters known runners only; it starts at most one module, as its last act.
   */
  lemma ContractRunIsSound(reg: Registry, host: Host, actions: Action)
    ensures Sound(reg, RunContract(reg, host, actions))
  {
    ApplyIsSound(reg, host, actions, ContractId(reg), {}, []);
  }

  // ----- when a dependency can be entered

  predicate IsPublished(reg: Registry, parts: (string, string)) {
    parts.0 in reg.all && parts.1 in reg.all[parts.0]
  }

  /** The check made again on a checked id succeeds exactly for ids that are well formed and published. */
  lemma CheckedAgain(reg: Registry, uid: Uid)
    requires FullCheck(reg, uid).Some?
    ensures var v := FullCheck(reg, uid).value;
            FullCheck(reg, v).Some? <==> VerifyRunner(v).Some? && IsPublished(reg, VerifyRunner(v).value)
  {
    var v := FullCheck(reg, uid).value;
    CheckedIsStable(reg, uid);
    if uid == CONTRACT {
      assert ContractId(reg) == "on_chain" + ":" + ("0x" + reg.address);
      VerifyJoined("on_chain", "0x" + reg.address);
      assert v[0] == 'o' && ("0x" + reg.address)[0] == '0';
    } else {
      var id := VerifyRunner(uid).value.0;
      var hash := v[|id| + 1..];
      assert v == id + ":" + hash && v[|id|] == ':' && ':' !in CONTRACT;
      VerifyJoined(id, hash);
    }
  }

  /**
   * A dependency not yet visited is entered exactly when its checked id passes the check again, its archive loads and
   * has actions.
   */
  lemma DependsEnters(reg: Registry, host: Host, uid: Uid, current: Uid, visited: set<Uid>, trace: seq<Event>)
    requires FullCheck(reg, uid).Some? && FullCheck(reg, uid).value !in visited
    requires Sound(reg, Run(visited, trace, Continue))
    ensures var v := FullCheck(reg, uid).value;
            var r := Apply(reg, host, Depends(uid), current, visited, trace);
            && v in r.visited
            && (Entered(v) in r.trace <==>
                  && VerifyRunner(v).Some? && IsPublished(reg, VerifyRunner(v).value)
                  && host.does(trace, Loaded(v)) && v in reg.runnerJson)
            && (Entered(v) !in r.trace ==> r.outcome == Failed)
  {
    var v := FullCheck(reg, uid).value;
    CheckedIsKnown(reg, uid);
    CheckedIsStable(reg, uid);
    CheckedAgain(reg, uid);
    EnterKeepsSound(reg, visited, trace, v);
    if GetArch(reg, host, v, trace).Some? && v in reg.runnerJson {
      var entered := trace + [Loaded(v), Entered(v)];
      ApplyIsSound(reg, host, reg.runnerJson[v], v, visited + {v}, entered);
      assert entered[|trace| + 1] == Entered(v);
    }
  }

  /** Depending on a runner again, at any later point, does nothing: a runner shared by many is entered once. */
  lemma DependsAgainIsNothing(reg: Registry, host: Host, uid: Uid, current: Uid, visited: set<Uid>, trace: seq<Event>,
                              later: set<Uid>, laterTrace: seq<Event>)
    requires var r := Apply(reg, host, Depends(uid), current, visited, trace); r.outcome != Failed && r.visited <= later
    ensures Apply(reg, host, Depends(uid), current, later, laterTrace) == Run(later, laterTrace, Continue)
  {
    var v := FullCheck(reg, uid).value;
    assert v in Apply(reg, host, Depends(uid), current, visited, trace).visited;
  }

  /** Nesting does not matter: a sequence inside a sequence runs as if its actions were written out in place. */
  lemma {:induction false} NestedSequenceIsFlat(reg: Registry, host: Host, xs: seq<Action>, ys: seq<Action>, n: nat,
                                                current: Uid, visited: set<Uid>, trace: seq<Event>)
    requires n <= |ys|
    ensures ApplyAll(reg, host, Seq([Seq(xs)] + ys), 1 + n, current, visited, trace) ==
            ApplyAll(reg, host, Seq(xs + ys), |xs| + n, current, visited, trace)
  {
    var nested, flat := Seq([Seq(xs)] + ys), Seq(xs + ys);
    if n == 0 {
      SamePrefix(reg, host, xs, ys, |xs|, current, visited, trace);
      assert nested.actions[0] == Seq(xs);
      assert ApplyAll(reg, host, nested, 0, current, visited, trace) == Run(visited, trace, Continue);
    } else {
      NestedSequenceIsFlat(reg, host, xs, ys, n - 1, current, visited, trace);
      assert nested.actions[n] == ys[n - 1] == flat.actions[|xs| + n - 1];
    }
  }

  lemma {:induction false} SamePrefix(reg: Registry, host: Host, xs: seq<Action>, ys: seq<Action>, n: nat, current: Uid,
                                      visited: set<Uid>, trace: seq<Event>)
    requires n <= |xs|
    ensures ApplyAll(reg, host, Seq(xs + ys), n, current, visited, trace) ==
            ApplyAll(reg, host, Seq(xs), n, current, visited, trace)
  {
    if n > 0 {
      SamePrefix(reg, host, xs, ys, n - 1, current, visited, trace);
    }
  }

  lemma ContractIdParts(reg: Registry)
    ensures VerifyRunner(ContractId(reg)) ==
            if IsHash(reg.address) then Some(("on_chain", "0x" + reg.address)) else None
  {
    assert ContractId(reg) == "on_chain" + ":" + ("0x" + reg.address);
    VerifyJoined("on_chain", "0x" + reg.address);
    assert forall c :: c in "0x" + reg.address <==> c in "0x" || c in reg.address;
  }

  /** A contract that depends on itself fails, unless it is also a published runner. */
  lemma ContractCannotDependOnItself(reg: Registry, host: Host, current: Uid, visited: set<Uid>, trace: seq<Event>)
    requires ContractId(reg) !in visited && !IsPublished(reg, ("on_chain", "0x" + reg.address))
    ensures Apply(reg, host, Depends(CONTRACT), current, visited, trace).outcome == Failed
  {
    ContractIdParts(reg);
    CheckedAgain(reg, CONTRACT);
  }

  /** It can however run an action with its own archive whenever that archive loads. */
  lemma ContractCanUseItself(reg: Registry, host: Host, a: Action, current: Uid, visited: set<Uid>, trace: seq<Event>)
    requires IsHash(reg.address) && host.does(trace, Loaded(ContractId(reg)))
    ensures Apply(reg, host, With(CONTRACT, a), current, visited, trace) ==
            Apply(reg, host, a, ContractId(reg), visited, trace + [Loaded(ContractId(reg))])
  {
    ContractIdParts(reg);
    assert GetArch(reg, host, CONTRACT, trace) == Some(ContractId(reg));
  }

  // ----- the interpreter as it runs

  lemma EnvExtends(trace: seq<Event>, event: Event)
    ensures EnvOf(trace + [event]) ==
            if event.EnvSet? then EnvOf(trace)[event.name := event.value] else EnvOf(trace)
  {
    assert (trace + [event])[..|trace|] == trace;
  }

  /** `trace` stands for the machine and for the archives loaded: what has been done to them so far. */
  class Ctx {
    const reg: Registry
    const host: Host
    var env: map<string, string>
    var visited: set<Uid>
    var trace: seq<Event>

    constructor (reg: Registry, host: Host)
      ensures this.reg == reg && this.host == host && Valid()
      ensures visited == {} && trace == []
    {
      this.reg, this.host := reg, host;
      env, visited, trace := map[], {}, [];
    }

    ghost predicate Valid()
      reads this
    {
      env == EnvOf(trace)
    }

    /** The machine does one event, or fails to. */
    method DoOne(event: Event, success: Outcome) returns (outcome: Outcome)
      requires Valid() && !event.EnvSet?
      modifies this`trace
      ensures Valid() && Run(visited, trace, outcome) == Do(host, visited, old(trace), event, success)
    {
      if !host.does(trace, event) {
        return Failed;
      }
      EnvExtends(trace, event);
      trace := trace + [event];
      outcome := success;
    }

    method GetArchive(uid: Uid) returns (arch: Option<Uid>)
      requires Valid()
      modifies this`trace
      ensures Valid() && arch == GetArch(reg, host, uid, old(trace))
      ensures trace == old(trace) + if arch.Some? then [Loaded(arch.value)] else []
    {
      arch := FullCheck(reg, uid);
      if arch.None? {
        return;
      }
      if VerifyRunner(arch.value).None? {
        return None;
      }
      var outcome := DoOne(Loaded(arch.value), Continue);
      if outcome == Failed {
        arch := None;
      }
    }

    /** The interpreter does what the function of the same state says. */
    method Perform(a: Action, current: Uid) returns (outcome: Outcome)
      requires Valid()
      modifies this
      ensures Valid()
      ensures Run(visited, trace, outcome) == Apply(reg, host, a, current, old(visited), old(trace))
      decreases Universe(reg) - visited, a, 1
    {
      match a {
        case MapFile(to, file) => outcome := DoOne(Mapped(current, to, file), Continue);
        case AddEnv(name, val) => outcome := SetVariable(name, val);
        case SetArgs(args) => outcome := DoOne(ArgsSet(args), Continue);
        case LinkWasm(path) => outcome := DoOne(Linked(current, path), Continue);
        case StartWasm(path) => outcome := DoOne(Started(current, path, env), Instance);
        case When(cond, action) =>
          if (cond == Det) != host.deterministic {
            return Continue;
          }
          outcome := Perform(action, current);
        case Seq(actions) => outcome := PerformAll(a, current);
        case With(runner, action) =>
          var arch := GetArchive(runner);
          if arch.None? {
            return Failed;
          }
          outcome := Perform(action, arch.value);
        case Depends(uid) => outcome := Depend(uid, current);
      }
    }

    method SetVariable(name: string, val: string) returns (outcome: Outcome)
      requires Valid()
      modifies this
      ensures Valid()
      ensures Run(visited, trace, outcome) == Apply(reg, host, AddEnv(name, val), "", old(visited), old(trace))
    {
      var patched := host.patch(env, val);
      if patched.None? {
        return Failed;
      }
      EnvExtends(trace, EnvSet(name, patched.value));
      env := env[name := patched.value];
      trace := trace + [EnvSet(name, patched.value)];
      outcome := Continue;
    }

    method PerformAll(a: Action, current: Uid) returns (outcome: Outcome)
      requires Valid() && a.Seq?
      modifies this
      ensures Valid()
      ensures Run(visited, trace, outcome) == ApplyAll(reg, host, a, |a.actions|, current, old(visited), old(trace))
      decreases Universe(reg) - visited, a, 0
    {
      outcome := Continue;
      for i := 0 to |a.actions|
        invariant Valid() && old(visited) <= visited && outcome == Continue
        invariant Run(visited, trace, outcome) == ApplyAll(reg, host, a, i, current, old(visited), old(trace))
      {
        outcome := Perform(a.actions[i], current);
        if outcome != Continue {
          StoppedStaysStopped(reg, host, a, i + 1, |a.actions|, current, old(visited), old(trace));
          return;
        }
      }
    }

    method Depend(uid: Uid, current: Uid) returns (outcome: Outcome)
      requires Valid()
      modifies this
      ensures Valid()
      ensures Run(visited, trace, outcome) == Apply(reg, host, Depends(uid), current, old(visited), old(trace))
      decreases Universe(reg) - visited, Depends(uid), 0
    {
      var checked := FullCheck(reg, uid);
      if checked.None? {
        return Failed;
      }
      if checked.value in visited {
        return Continue;
      }
      CheckedIsKnown(reg, uid);
      visited := visited + {checked.value};
      var arch := GetArchive(checked.value);
      if arch.None? {
        return Failed;
      }
      if arch.value !in reg.runnerJson {
        return Failed;
      }
      outcome := EnterRunner(arch.value);
      assert old(trace) + [Loaded(arch.value)] + [Entered(arch.value)] ==
          old(trace) + [Loaded(arch.value), Entered(arch.value)];
    }

    /** A runner's own actions. */
    method EnterRunner(arch: Uid) returns (outcome: Outcome)
      requires Valid() && arch in reg.runnerJson
      modifies this
      ensures Valid()
      ensures Run(visited, trace, outcome) ==
              Apply(reg, host, reg.runnerJson[arch], arch, old(visited), old(trace) + [Entered(arch)])
      decreases Universe(reg) - visited, reg.runnerJson[arch], 2
    {
      EnvExtends(trace, Entered(arch));
      trace := trace + [Entered(arch)];
      outcome := Perform(reg.runnerJson[arch], arch);
    }
  }

  /** A sequence that stopped early has the same result however many actions follow. */
  lemma {:induction false} StoppedStaysStopped(reg: Registry, host: Host, a: Action, n: nat, m: nat, current: Uid,
                                               visited: set<Uid>, trace: seq<Event>)
    requires a.Seq? && n <= m <= |a.actions|
    requires ApplyAll(reg, host, a, n, current, visited, trace).outcome != Continue
    ensures ApplyAll(reg, host, a, m, current, visited, trace) == ApplyAll(reg, host, a, n, current, visited, trace)
  {
    if n < m {
      StoppedStaysStopped(reg, host, a, n, m - 1, current, visited, trace);
    }
  }
}
