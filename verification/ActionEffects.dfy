/**
 * What a run of runner.json actions does, said in terms of the JSON: which actions are active in the mode of the
 * machine, which event each of them causes, and that the events of a run are theirs, in their order.
 */
module ActionEffects {
  import opened Prelude
  import opened RunnerActions

  /** An action that does something itself, and the archive it takes its files from. */
  datatype Act = Act(action: Action, arch: Uid)

  /** The acts of an action that stand under no condition on the other mode, in the order of the JSON. */
  function ActsOf(reg: Registry, deterministic: bool, a: Action, arch: Uid): seq<Act>
    decreases a, 0
  {
    match a
    case When(Det, action) => if deterministic then ActsOf(reg, deterministic, action, arch) else []
    case When(NonDet, action) => if deterministic then [] else ActsOf(reg, deterministic, action, arch)
    case Seq(actions) => ActsOfAll(reg, deterministic, a, |actions|, arch)
    case With(runner, action) =>
      var v := FullCheck(reg, runner);
      [Act(a, arch)] + if v.Some? then ActsOf(reg, deterministic, action, v.value) else []
    case _ => [Act(a, arch)]
  }

  function ActsOfAll(reg: Registry, deterministic: bool, a: Action, n: nat, arch: Uid): seq<Act>
    requires a.Seq? && n <= |a.actions|
    decreases a, 0, n
  {
    if n == 0 then []
    else ActsOfAll(reg, deterministic, a, n - 1, arch) + ActsOf(reg, deterministic, a.actions[n - 1], arch)
  }

  function ActsOfRunner(reg: Registry, host: Host, v: Uid): seq<Act>
    requires v in reg.runnerJson
  {
    ActsOf(reg, host.deterministic, reg.runnerJson[v], v)
  }

  /** The event is one that the act causes after the given history. */
  predicate Does(reg: Registry, host: Host, act: Act, before: seq<Event>, e: Event) {
    && (match act.action
        case MapFile(to, file) => e == Mapped(act.arch, to, file)
        case AddEnv(name, val) => e.EnvSet? && e.name == name && host.patch(EnvOf(before), val) == Some(e.value)
        case SetArgs(args) => e == ArgsSet(args)
        case LinkWasm(path) => e == Linked(act.arch, path)
        case StartWasm(path) => e == Started(act.arch, path, EnvOf(before))
        case With(runner, _) => e.Loaded? && FullCheck(reg, runner) == Some(e.arch)
        case Depends(uid) => (e.Loaded? || e.Entered?) && FullCheck(reg, uid) == Some(e.arch)
        case When(_, _) => false
        case Seq(_) => false)
    && (e.EnvSet? || e.Entered? || host.does(before, e))
  }

  /** The act can do nothing after the given history. */
  predicate Refused(reg: Registry, host: Host, act: Act, before: seq<Event>) {
    match act.action
    case MapFile(to, file) => !host.does(before, Mapped(act.arch, to, file))
    case AddEnv(name, val) => host.patch(EnvOf(before), val).None?
    case SetArgs(args) => !host.does(before, ArgsSet(args))
    case LinkWasm(path) => !host.does(before, Linked(act.arch, path))
    case StartWasm(path) => !host.does(before, Started(act.arch, path, EnvOf(before)))
    case With(runner, _) => !Loads(reg, host, FullCheck(reg, runner), before)
    case Depends(uid) =>
      var v := FullCheck(reg, uid);
      !Loads(reg, host, v, before) || FullCheck(reg, v.value).None? || v.value !in reg.runnerJson
    case When(_, _) => false
    case Seq(_) => false
  }

  predicate Loads(reg: Registry, host: Host, v: Option<Uid>, before: seq<Event>) {
    v.Some? && VerifyRunner(v.value).Some? && host.does(before, Loaded(v.value))
  }

  // ----- ids and variables

  /** An ASCII letter or digit, or one of the other characters. */
  predicate IsMadeOf(s: string, others: string) {
    forall c :: c in s ==> 97 <= c as int <= 122 || 65 <= c as int <= 90 || 48 <= c as int <= 57 || c in others
  }

  /**
   * An id of a runner is two parts joined by a colon. It stands for the published runner of these parts, where "test"
   * and "latest" name the latest hash. Nothing else is an id but "<contract>".
   */
  lemma CheckedMeans(reg: Registry, id: string, hash: string, actual: string)
    requires ':' !in id
    ensures FullCheck(reg, id + ":" + hash) == Some(id + ":" + actual) <==>
            && IsMadeOf(id, "-_") && IsMadeOf(hash, "-_=")
            && id in reg.all && actual in reg.all[id]
            && (if hash == "test" || hash == "latest" then id in reg.latest && reg.latest[id] == actual
                else hash == actual)
    ensures FullCheck(reg, id).Some? <==> id == "<contract>"
    ensures FullCheck(reg, "<contract>") == Some("on_chain:0x" + reg.address)
  {
    assert IsId(id) <==> IsMadeOf(id, "-_");
    assert IsHash(hash) <==> IsMadeOf(hash, "-_=");
    VerifyJoined(id, hash);
    var uid := id + ":" + hash;
    assert uid[|id|] == ':' && ':' !in CONTRACT;
    forall named: string | id + ":" + named == id + ":" + actual
      ensures named == actual
    {
      assert (id + ":" + named)[|id| + 1..] == named && (id + ":" + actual)[|id| + 1..] == actual;
    }
  }

  predicate SetsAt(trace: seq<Event>, i: nat, name: string) {
    i < |trace| && trace[i].EnvSet? && trace[i].name == name
  }

  /** A variable has the value it was last set to. */
  lemma {:induction false} VariableIsLastSet(trace: seq<Event>, name: string)
    ensures name in EnvOf(trace) <==> exists i: nat :: SetsAt(trace, i, name)
    ensures forall i: nat :: SetsAt(trace, i, name) && (forall j: nat :: i < j ==> !SetsAt(trace, j, name)) ==>
                               EnvOf(trace)[name] == trace[i].value
    decreases |trace|
  {
    if trace != [] {
      var n := |trace| - 1;
      var before := trace[..n];
      VariableIsLastSet(before, name);
      assert SetsAt(trace, n, name) ==> EnvOf(trace)[name] == trace[n].value;
      assert forall j: nat :: j < n ==> (SetsAt(trace, j, name) <==> SetsAt(before, j, name));
      assert !SetsAt(trace, n, name) ==> (name in EnvOf(trace) <==> name in EnvOf(before));
    }
  }

  // ----- where the events come from

  ghost predicate IsFrom(reg: Registry, host: Host, acts: seq<Act>, trace: seq<Event>, i: nat)
    requires i < |trace|
  {
    exists k: nat :: k < |acts| && Does(reg, host, acts[k], trace[..i], trace[i])
  }

  ghost predicate IsFromRunner(reg: Registry, host: Host, v: Uid, trace: seq<Event>, i: nat)
    requires i < |trace|
  {
    v in reg.runnerJson && Entered(v) in trace[..i] && IsFrom(reg, host, ActsOfRunner(reg, host, v), trace, i)
  }

  /** The event is caused by one of the acts, or by an active action of a runner entered before. */
  ghost predicate Explained(reg: Registry, host: Host, acts: seq<Act>, trace: seq<Event>, i: nat)
    requires i < |trace|
  {
    IsFrom(reg, host, acts, trace, i) || exists v :: IsFromRunner(reg, host, v, trace, i)
  }

  ghost predicate AllExplained(reg: Registry, host: Host, acts: seq<Act>, trace: seq<Event>, from: nat) {
    forall i :: from <= i < |trace| ==> Explained(reg, host, acts, trace, i)
  }

  // ----- in which order they come

  /** The act is done by the first `at` events: its event is the last of them, or its runner is among those entered. */
  predicate DoneBy(reg: Registry, host: Host, act: Act, trace: seq<Event>, at: nat) {
    && at <= |trace|
    && match act.action
       case Depends(uid) => var v := FullCheck(reg, uid); v.Some? && Entered(v.value) in trace[..at]
       case _ => at > 0 && Does(reg, host, act, trace[..at - 1], trace[at - 1])
  }

  /** The acts are done one after the other by the events between the two places. */
  ghost predicate AllDone(reg: Registry, host: Host, acts: seq<Act>, trace: seq<Event>, from: nat, to: nat)
    decreases |acts|, 1
  {
    if acts == [] then from <= to else exists at: nat :: LastAt(reg, host, acts, trace, from, to, at)
  }

  /** The last of the acts is done by the first `at` events, the others by those before its own. */
  ghost predicate LastAt(reg: Registry, host: Host, acts: seq<Act>, trace: seq<Event>, from: nat, to: nat, at: nat)
    requires acts != []
    decreases |acts|, 0
  {
    var act := acts[|acts| - 1];
    && at <= to
    && DoneBy(reg, host, act, trace, at)
    && AllDone(reg, host, acts[..|acts| - 1], trace, from, Before(act, at))
  }

  /** What comes before an act may be done up to here; a dependency may have been entered long before. */
  function Before(act: Act, at: nat): (n: nat) {
    if act.action.Depends? || at == 0 then at else at - 1
  }

  /** The act, or the runner it depends on, is what the run ended with. */
  predicate Stops(reg: Registry, host: Host, act: Act, run: Run) {
    || (act.action.Depends? && DoneBy(reg, host, act, run.trace, |run.trace|))
    || (run.outcome == Failed && Refused(reg, host, act, run.trace))
    || (run.outcome == Instance && act.action.StartWasm? && DoneBy(reg, host, act, run.trace, |run.trace|))
  }

  ghost predicate StoppedAt(reg: Registry, host: Host, acts: seq<Act>, run: Run, from: nat, n: nat) {
    n < |acts| && AllDone(reg, host, acts[..n], run.trace, from, |run.trace|) && Stops(reg, host, acts[n], run)
  }

  /** The acts are all done, or the run ended at one of them and the ones before are done. */
  ghost predicate CarriedOut(reg: Registry, host: Host, acts: seq<Act>, run: Run, from: nat, whole: bool) {
    if whole then AllDone(reg, host, acts, run.trace, from, |run.trace|)
    else run.outcome != Continue && exists n: nat :: StoppedAt(reg, host, acts, run, from, n)
  }

  ghost predicate RunnerCarriedOut(reg: Registry, host: Host, run: Run, i: nat)
    requires i < |run.trace| && run.trace[i].Entered?
  {
    var v := run.trace[i].arch;
    && v in reg.runnerJson
    && (|| CarriedOut(reg, host, ActsOfRunner(reg, host, v), run, i + 1, true)
        || CarriedOut(reg, host, ActsOfRunner(reg, host, v), run, i + 1, false))
  }

  ghost predicate RunnersCarriedOut(reg: Registry, host: Host, run: Run, from: nat) {
    forall i :: from <= i < |run.trace| && run.trace[i].Entered? ==> RunnerCarriedOut(reg, host, run, i)
  }

  /** What the events from a place on have to do with the acts. */
  ghost predicate Faithful(reg: Registry, host: Host, acts: seq<Act>, run: Run, from: nat) {
    && AllExplained(reg, host, acts, run.trace, from)
    && CarriedOut(reg, host, acts, run, from, run.outcome == Continue)
    && RunnersCarriedOut(reg, host, run, from)
  }

  // ----- putting runs together

  lemma ExplainedStill(reg: Registry, host: Host, xs: seq<Act>, acts: seq<Act>, trace: seq<Event>,
                       longer: seq<Event>, i: nat)
    requires i < |trace| && trace <= longer && Explained(reg, host, xs, trace, i)
    requires forall x :: x in xs ==> x in acts
    ensures Explained(reg, host, acts, longer, i)
  {
    assert longer[..i] == trace[..i] && longer[i] == trace[i];
    if IsFrom(reg, host, xs, trace, i) {
      var k: nat :| k < |xs| && Does(reg, host, xs[k], trace[..i], trace[i]);
      assert xs[k] in acts;
      var l: nat :| l < |acts| && acts[l] == xs[k];
      assert Does(reg, host, acts[l], longer[..i], longer[i]);
    } else {
      var v :| IsFromRunner(reg, host, v, trace, i);
      var k: nat :| k < |ActsOfRunner(reg, host, v)|
                    && Does(reg, host, ActsOfRunner(reg, host, v)[k], trace[..i], trace[i]);
      assert Does(reg, host, ActsOfRunner(reg, host, v)[k], longer[..i], longer[i]);
      assert IsFromRunner(reg, host, v, longer, i);
    }
  }

  lemma DoneStill(reg: Registry, host: Host, act: Act, trace: seq<Event>, longer: seq<Event>, at: nat)
    requires trace <= longer && DoneBy(reg, host, act, trace, at)
    ensures DoneBy(reg, host, act, longer, at)
  {
    assert longer[..at] == trace[..at];
    if at > 0 {
      assert longer[..at - 1] == trace[..at - 1];
    }
  }

  lemma {:induction false} AllDoneStill(reg: Registry, host: Host, acts: seq<Act>, trace: seq<Event>, from: nat,
                                        to: nat, longer: seq<Event>, later: nat)
    requires AllDone(reg, host, acts, trace, from, to) && trace <= longer && to <= later
    ensures AllDone(reg, host, acts, longer, from, later)
    decreases |acts|
  {
    if acts != [] {
      var at: nat :| LastAt(reg, host, acts, trace, from, to, at);
      var n := |acts| - 1;
      DoneStill(reg, host, acts[n], trace, longer, at);
      AllDoneStill(reg, host, acts[..n], trace, from, Before(acts[n], at), longer, Before(acts[n], at));
      assert LastAt(reg, host, acts, longer, from, later, at);
    }
  }

  lemma OneDone(reg: Registry, host: Host, act: Act, trace: seq<Event>, from: nat, to: nat, at: nat)
    requires DoneBy(reg, host, act, trace, at) && from <= Before(act, at) && at <= to
    ensures AllDone(reg, host, [act], trace, from, to)
  {
    assert [act][..0] == [];
    assert AllDone(reg, host, [], trace, from, Before(act, at));
    assert LastAt(reg, host, [act], trace, from, to, at);
  }

  lemma {:induction false} AllDoneJoined(reg: Registry, host: Host, xs: seq<Act>, ys: seq<Act>, trace: seq<Event>,
                                         from: nat, mid: nat, to: nat)
    requires AllDone(reg, host, xs, trace, from, mid) && AllDone(reg, host, ys, trace, mid, to)
    ensures AllDone(reg, host, xs + ys, trace, from, to)
    decreases |ys|
  {
    if ys == [] {
      assert xs + ys == xs;
      AllDoneStill(reg, host, xs, trace, from, mid, trace, to);
    } else {
      var at: nat :| LastAt(reg, host, ys, trace, mid, to, at);
      var n := |ys| - 1;
      AllDoneJoined(reg, host, xs, ys[..n], trace, from, mid, Before(ys[n], at));
      LastOfBoth(reg, host, xs, ys, trace, from, to, at);
    }
  }

  lemma LastOfBoth(reg: Registry, host: Host, xs: seq<Act>, ys: seq<Act>, trace: seq<Event>, from: nat, to: nat,
                   at: nat)
    requires ys != [] && at <= to && DoneBy(reg, host, ys[|ys| - 1], trace, at)
    requires AllDone(reg, host, xs + ys[..|ys| - 1], trace, from, Before(ys[|ys| - 1], at))
    ensures AllDone(reg, host, xs + ys, trace, from, to)
  {
    var n := |xs| + |ys| - 1;
    assert (xs + ys)[..n] == xs + ys[..|ys| - 1] && (xs + ys)[n] == ys[|ys| - 1];
    assert LastAt(reg, host, xs + ys, trace, from, to, at);
  }

  lemma AllExplainedJoined(reg: Registry, host: Host, xs: seq<Act>, ys: seq<Act>, first: seq<Event>,
                           trace: seq<Event>, from: nat)
    requires AllExplained(reg, host, xs, first, from) && AllExplained(reg, host, ys, trace, |first|) && first <= trace
    ensures AllExplained(reg, host, xs + ys, trace, from)
  {
    forall i | from <= i < |trace|
      ensures Explained(reg, host, xs + ys, trace, i)
    {
      if i < |first| {
        ExplainedStill(reg, host, xs, xs + ys, first, trace, i);
      } else {
        ExplainedStill(reg, host, ys, xs + ys, trace, trace, i);
      }
    }
  }

  lemma CarriedOutJoined(reg: Registry, host: Host, xs: seq<Act>, ys: seq<Act>, first: seq<Event>, run: Run, from: nat,
                         whole: bool)
    requires AllDone(reg, host, xs, first, from, |first|) && first <= run.trace
    requires CarriedOut(reg, host, ys, run, |first|, whole)
    ensures CarriedOut(reg, host, xs + ys, run, from, whole)
  {
    AllDoneStill(reg, host, xs, first, from, |first|, run.trace, |first|);
    if whole {
      AllDoneJoined(reg, host, xs, ys, run.trace, from, |first|, |run.trace|);
    } else {
      var n: nat :| StoppedAt(reg, host, ys, run, |first|, n);
      AllDoneJoined(reg, host, xs, ys[..n], run.trace, from, |first|, |run.trace|);
      assert (xs + ys)[..|xs| + n] == xs + ys[..n];
      assert StoppedAt(reg, host, xs + ys, run, from, |xs| + n);
    }
  }

  /** What is carried out of a run that goes on stays so. */
  lemma RunnersStill(reg: Registry, host: Host, first: Run, run: Run, from: nat)
    requires RunnersCarriedOut(reg, host, first, from) && first.outcome == Continue && first.trace <= run.trace
    requires RunnersCarriedOut(reg, host, run, |first.trace|)
    ensures RunnersCarriedOut(reg, host, run, from)
  {
    forall i | from <= i < |run.trace| && run.trace[i].Entered?
      ensures RunnerCarriedOut(reg, host, run, i)
    {
      if i < |first.trace| {
        assert first.trace[i] == run.trace[i] && RunnerCarriedOut(reg, host, first, i);
        var acts := ActsOfRunner(reg, host, run.trace[i].arch);
        assert CarriedOut(reg, host, acts, first, i + 1, true);
        AllDoneStill(reg, host, acts, first.trace, i + 1, |first.trace|, run.trace, |run.trace|);
        assert CarriedOut(reg, host, acts, run, i + 1, true);
      }
    }
  }

  /** A run that goes on, and what follows it. */
  lemma Joined(reg: Registry, host: Host, xs: seq<Act>, ys: seq<Act>, first: Run, run: Run, from: nat)
    requires Faithful(reg, host, xs, first, from) && first.outcome == Continue && first.trace <= run.trace
    requires Faithful(reg, host, ys, run, |first.trace|)
    ensures Faithful(reg, host, xs + ys, run, from)
  {
    AllExplainedJoined(reg, host, xs, ys, first.trace, run.trace, from);
    CarriedOutJoined(reg, host, xs, ys, first.trace, run, from, run.outcome == Continue);
    RunnersStill(reg, host, first, run, from);
  }

  /** A run that has ended does not care for what would follow. */
  lemma Cut(reg: Registry, host: Host, xs: seq<Act>, ys: seq<Act>, run: Run, from: nat)
    requires Faithful(reg, host, xs, run, from) && run.outcome != Continue
    ensures Faithful(reg, host, xs + ys, run, from)
  {
    forall i | from <= i < |run.trace|
      ensures Explained(reg, host, xs + ys, run.trace, i)
    {
      ExplainedStill(reg, host, xs, xs + ys, run.trace, run.trace, i);
    }
    var n: nat :| StoppedAt(reg, host, xs, run, from, n);
    assert (xs + ys)[..n] == xs[..n];
    assert StoppedAt(reg, host, xs + ys, run, from, n);
  }

  /** Nothing to do, and nothing done. */
  lemma Idle(reg: Registry, host: Host, visited: set<Uid>, trace: seq<Event>)
    ensures Faithful(reg, host, [], Run(visited, trace, Continue), |trace|)
  {
  }

  /** An act that could not be done, after events of its own that enter no runner. */
  lemma Stuck(reg: Registry, host: Host, act: Act, run: Run, from: nat)
    requires run.outcome == Failed && Refused(reg, host, act, run.trace) && from <= |run.trace|
    requires forall i :: from <= i < |run.trace| ==>
                           Does(reg, host, act, run.trace[..i], run.trace[i]) && !run.trace[i].Entered?
    ensures Faithful(reg, host, [act], run, from)
  {
    forall i | from <= i < |run.trace|
      ensures Explained(reg, host, [act], run.trace, i)
    {
      assert Does(reg, host, [act][0], run.trace[..i], run.trace[i]);
    }
    assert [act][..0] == [];
    assert StoppedAt(reg, host, [act], run, from, 0);
  }

  /** An act done by one event. */
  lemma DoneAtOnce(reg: Registry, host: Host, act: Act, visited: set<Uid>, trace: seq<Event>, e: Event,
                   outcome: Outcome)
    requires Does(reg, host, act, trace, e) && !e.Entered? && !act.action.Depends?
    requires outcome == if act.action.StartWasm? then Instance else Continue
    ensures Faithful(reg, host, [act], Run(visited, trace + [e], outcome), |trace|)
  {
    var run := Run(visited, trace + [e], outcome);
    assert run.trace[..|trace|] == trace && run.trace[|trace|] == e;
    assert Does(reg, host, [act][0], run.trace[..|trace|], run.trace[|trace|]);
    assert DoneBy(reg, host, act, run.trace, |run.trace|);
    OneDone(reg, host, act, run.trace, |trace|, |run.trace|, |run.trace|);
    assert [act][..0] == [];
    if outcome == Instance {
      assert StoppedAt(reg, host, [act], run, |trace|, 0);
    }
  }

  lemma OneEvent(reg: Registry, host: Host, act: Act, visited: set<Uid>, trace: seq<Event>, e: Event, outcome: Outcome)
    requires host.does(trace, e) ==> Does(reg, host, act, trace, e)
    requires !host.does(trace, e) ==> Refused(reg, host, act, trace)
    requires !e.Entered? && !act.action.Depends?
    requires outcome == if act.action.StartWasm? then Instance else Continue
    ensures Faithful(reg, host, [act], Do(host, visited, trace, e, outcome), |trace|)
  {
    if host.does(trace, e) {
      DoneAtOnce(reg, host, act, visited, trace, e, outcome);
    } else {
      Stuck(reg, host, act, Run(visited, trace, Failed), |trace|);
    }
  }

  /** A dependency on a runner that was entered before. */
  lemma EnteredBefore(reg: Registry, host: Host, act: Act, visited: set<Uid>, trace: seq<Event>)
    requires act.action.Depends? && DoneBy(reg, host, act, trace, |trace|)
    ensures Faithful(reg, host, [act], Run(visited, trace, Continue), |trace|)
  {
    OneDone(reg, host, act, trace, |trace|, |trace|, |trace|);
  }

  /** A dependency on a runner that is entered now: its own acts follow. */
  lemma EnteredNow(reg: Registry, host: Host, act: Act, v: Uid, trace: seq<Event>, run: Run)
    requires act.action.Depends? && FullCheck(reg, act.action.uid) == Some(v) && v in reg.runnerJson
    requires host.does(trace, Loaded(v)) && trace + [Loaded(v), Entered(v)] <= run.trace
    requires Faithful(reg, host, ActsOfRunner(reg, host, v), run, |trace| + 2)
    ensures Faithful(reg, host, [act], run, |trace|)
  {
    var n := |trace|;
    var t := run.trace;
    assert t[..n] == trace && t[n] == Loaded(v) && t[n + 1] == Entered(v);
    EnteredExplains(reg, host, act, v, t, n);
    assert t[..|t|][n + 1] == Entered(v);
    OneDone(reg, host, act, t, n, |t|, |t|);
    if run.outcome != Continue {
      assert [act][..0] == [];
      assert StoppedAt(reg, host, [act], run, n, 0);
    }
    forall i | n <= i < |t| && t[i].Entered?
      ensures RunnerCarriedOut(reg, host, run, i)
    {
      if i < n + 2 {
        assert i == n + 1;
        assert CarriedOut(reg, host, ActsOfRunner(reg, host, v), run, n + 2, run.outcome == Continue);
      }
    }
  }

  lemma EnteredExplains(reg: Registry, host: Host, act: Act, v: Uid, t: seq<Event>, n: nat)
    requires act.action.Depends? && FullCheck(reg, act.action.uid) == Some(v) && v in reg.runnerJson
    requires n + 2 <= |t| && t[n] == Loaded(v) && t[n + 1] == Entered(v) && host.does(t[..n], Loaded(v))
    requires AllExplained(reg, host, ActsOfRunner(reg, host, v), t, n + 2)
    ensures AllExplained(reg, host, [act], t, n)
  {
    forall i | n <= i < |t|
      ensures Explained(reg, host, [act], t, i)
    {
      if i < n + 2 {
        assert i == n || i == n + 1;
        assert Does(reg, host, [act][0], t[..i], t[i]);
        assert IsFrom(reg, host, [act], t, i);
      } else {
        assert t[..i][n + 1] == Entered(v);
        assert IsFrom(reg, host, ActsOfRunner(reg, host, v), t, i) ==> IsFromRunner(reg, host, v, t, i);
        assert Explained(reg, host, ActsOfRunner(reg, host, v), t, i);
      }
    }
  }

  // ----- the interpreter does what the JSON says

  /** From a sound history, whatever the registry and the machine: the events of a run are those of the active acts. */
  lemma {:induction false} ApplyIsFaithful(reg: Registry, host: Host, a: Action, current: Uid, visited: set<Uid>,
                                           trace: seq<Event>)
    requires Sound(reg, Run(visited, trace, Continue))
    ensures Faithful(reg, host, ActsOf(reg, host.deterministic, a, current),
                     Apply(reg, host, a, current, visited, trace), |trace|)
    decreases Universe(reg) - visited, a, 1
  {
    match a
    case MapFile(to, file) =>
      OneEvent(reg, host, Act(a, current), visited, trace, Mapped(current, to, file), Continue);
    case AddEnv(name, val) =>
      var patched := host.patch(EnvOf(trace), val);
      if patched.Some? {
        DoneAtOnce(reg, host, Act(a, current), visited, trace, EnvSet(name, patched.value), Continue);
      } else {
        Stuck(reg, host, Act(a, current), Run(visited, trace, Failed), |trace|);
      }
    case SetArgs(args) => OneEvent(reg, host, Act(a, current), visited, trace, ArgsSet(args), Continue);
    case LinkWasm(path) => OneEvent(reg, host, Act(a, current), visited, trace, Linked(current, path), Continue);
    case StartWasm(path) =>
      OneEvent(reg, host, Act(a, current), visited, trace, Started(current, path, EnvOf(trace)), Instance);
    case When(cond, action) =>
      if (cond == Det) == host.deterministic {
        ApplyIsFaithful(reg, host, action, current, visited, trace);
      } else {
        Idle(reg, host, visited, trace);
      }
    case Seq(actions) => ApplyAllIsFaithful(reg, host, a, |actions|, current, visited, trace);
    case With(runner, action) => WithIsFaithful(reg, host, runner, action, current, visited, trace);
    case Depends(uid) => DependsIsFaithful(reg, host, uid, current, visited, trace);
  }

  lemma {:induction false} ApplyAllIsFaithful(reg: Registry, host: Host, a: Action, n: nat, current: Uid,
                                              visited: set<Uid>, trace: seq<Event>)
    requires Sound(reg, Run(visited, trace, Continue))
    requires a.Seq? && n <= |a.actions|
    ensures Faithful(reg, host, ActsOfAll(reg, host.deterministic, a, n, current),
                     ApplyAll(reg, host, a, n, current, visited, trace), |trace|)
    decreases Universe(reg) - visited, a, 0, n
  {
    if n == 0 {
      Idle(reg, host, visited, trace);
    } else {
      var xs := ActsOfAll(reg, host.deterministic, a, n - 1, current);
      var ys := ActsOf(reg, host.deterministic, a.actions[n - 1], current);
      var r := ApplyAll(reg, host, a, n - 1, current, visited, trace);
      ApplyAllIsFaithful(reg, host, a, n - 1, current, visited, trace);
      ApplyAllIsSound(reg, host, a, n - 1, current, visited, trace);
      if r.outcome == Continue {
        ApplyIsFaithful(reg, host, a.actions[n - 1], current, r.visited, r.trace);
        ApplyIsSound(reg, host, a.actions[n - 1], current, r.visited, r.trace);
        Joined(reg, host, xs, ys, r, Apply(reg, host, a.actions[n - 1], current, r.visited, r.trace), |trace|);
      } else {
        Cut(reg, host, xs, ys, r, |trace|);
      }
    }
  }

  lemma {:induction false} WithIsFaithful(reg: Registry, host: Host, runner: Uid, action: Action, current: Uid,
                                          visited: set<Uid>, trace: seq<Event>)
    requires Sound(reg, Run(visited, trace, Continue))
    ensures var a := With(runner, action);
            Faithful(reg, host, ActsOf(reg, host.deterministic, a, current),
                     Apply(reg, host, a, current, visited, trace), |trace|)
    decreases Universe(reg) - visited, With(runner, action), 0
  {
    var act := Act(With(runner, action), current);
    var v := FullCheck(reg, runner);
    var ys := if v.Some? then ActsOf(reg, host.deterministic, action, v.value) else [];
    if Loads(reg, host, v, trace) {
      var loaded := trace + [Loaded(v.value)];
      DoKeepsSound(reg, visited, trace, Loaded(v.value), Continue);
      DoneAtOnce(reg, host, act, visited, trace, Loaded(v.value), Continue);
      ApplyIsFaithful(reg, host, action, v.value, visited, loaded);
      ApplyIsSound(reg, host, action, v.value, visited, loaded);
      Joined(reg, host, [act], ys, Run(visited, loaded, Continue),
             Apply(reg, host, action, v.value, visited, loaded), |trace|);
    } else {
      Stuck(reg, host, act, Run(visited, trace, Failed), |trace|);
      Cut(reg, host, [act], ys, Run(visited, trace, Failed), |trace|);
    }
  }

  lemma {:induction false} DependsIsFaithful(reg: Registry, host: Host, uid: Uid, current: Uid, visited: set<Uid>,
                                             trace: seq<Event>)
    requires Sound(reg, Run(visited, trace, Continue))
    ensures Faithful(reg, host, [Act(Depends(uid), current)],
                     Apply(reg, host, Depends(uid), current, visited, trace), |trace|)
    decreases Universe(reg) - visited, Depends(uid), 0
  {
    var act := Act(Depends(uid), current);
    var checked := FullCheck(reg, uid);
    if checked.None? {
      Stuck(reg, host, act, Run(visited, trace, Failed), |trace|);
    } else if checked.value in visited {
      assert trace[..|trace|] == trace;
      EnteredBefore(reg, host, act, visited, trace);
    } else {
      var v := checked.value;
      CheckedIsKnown(reg, uid);
      CheckedIsStable(reg, uid);
      var seen := visited + {v};
      var arch := GetArch(reg, host, v, trace);
      if arch.None? {
        Stuck(reg, host, act, Run(seen, trace, Failed), |trace|);
      } else if v !in reg.runnerJson {
        var loaded := trace + [Loaded(v)];
        assert loaded[..|trace|] == trace;
        Stuck(reg, host, act, Run(seen, loaded, Failed), |trace|);
      } else {
        var entered := trace + [Loaded(v), Entered(v)];
        EnterKeepsSound(reg, visited, trace, v);
        ApplyIsFaithful(reg, host, reg.runnerJson[v], v, seen, entered);
        ApplyIsSound(reg, host, reg.runnerJson[v], v, seen, entered);
        EnteredNow(reg, host, act, v, trace, Apply(reg, host, reg.runnerJson[v], v, seen, entered));
      }
    }
  }

  /**
   * Every event of a contract's run is caused by an action of the contract that is active in the machine's mode, with
   * the contract's archive or that of the `With` it stands under, or by such an action of a runner entered before, with
   * that runner's.
   */
  lemma EveryEventIsExplained(reg: Registry, host: Host, actions: Action, i: nat)
    requires i < |RunContract(reg, host, actions).trace|
    ensures Explained(reg, host, ActsOf(reg, host.deterministic, actions, ContractId(reg)),
                      RunContract(reg, host, actions).trace, i)
  {
    ApplyIsFaithful(reg, host, actions, ContractId(reg), {}, []);
  }

  /**
   * A run that goes on has done the contract's active actions, each after the one before. One that ends has done those
   * before the one it ended at, which was refused, or started the module, or is a dependency. The same holds for the
   * actions of every runner from the moment it was entered.
   */
  lemma ActionsAreCarriedOut(reg: Registry, host: Host, actions: Action)
    ensures var run := RunContract(reg, host, actions);
            var acts := ActsOf(reg, host.deterministic, actions, ContractId(reg));
            && CarriedOut(reg, host, acts, run, 0, run.outcome == Continue)
            && forall i :: 0 <= i < |run.trace| && run.trace[i].Entered? ==> RunnerCarriedOut(reg, host, run, i)
  {
    ApplyIsFaithful(reg, host, actions, ContractId(reg), {}, []);
  }
}
