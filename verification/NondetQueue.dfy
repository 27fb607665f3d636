/**
 * The queue of validator tasks: the main thread submits and finally waits, up to two workers take tasks,
 * and the verdict is the least call number that disagreed. Every step is one atomic action of one thread.
 */
module NondetQueue {
  import opened Prelude

  /** What running the task's VM would give: `[16]`, anything else, or an internal error. */
  datatype Outcome = Agrees | Disagrees | Fails

  datatype Task = Task(callNo: u32, outcome: Outcome)

  /**
   * Counted but not yet sent; in the channel; received; running; finished or skipped but its token not yet dropped;
   * done.
   */
  datatype Phase = Pending | Queued | Taken | Running | Dropping(ran: bool) | Settled(ran: bool)

  datatype Worker = Absent | Idle | Busy(task: nat) | Exited

  datatype Verdict = InternalError | AllAgreed | Disagreement(callNo: u32)

  datatype MainThread = Executing | Closed | Counted | Locking | Done(verdict: Verdict)

  datatype State = State(
    tasks: seq<Task>, phases: seq<Phase>, taken: nat, counter: int, register: u32, failed: bool,
    main: MainThread, a: Worker, b: Worker)

  const CHANNEL_CAPACITY := 100

  datatype Who = WorkerA | WorkerB

  datatype Step =
    | Increment(task: Task) | Send | Close | Countdown | Inspect | Lock
    | Take(who: Who) | Check(who: Who) | Finish(who: Who) | Release(who: Who)
    | ExitAtZero(who: Who) | ExitAtEnd(who: Who)

  const INITIAL := State([], [], 0, 1, U32_MAX, false, Executing, Idle, Absent)

  function At(s: State, who: Who): Worker {
    if who == WorkerA then s.a else s.b
  }

  function Put(s: State, who: Who, w: Worker): State {
    if who == WorkerA then s.(a := w) else s.(b := w)
  }

  predicate HasPending(s: State) {
    s.phases != [] && s.phases[|s.phases| - 1].Pending?
  }

  predicate QueueEmpty(s: State) {
    s.taken >= |s.phases| || s.phases[s.taken].Pending?
  }

  /** The task a worker holds, if it is in phase `p`. */
  predicate Holds(s: State, who: Who, p: Phase) {
    At(s, who).Busy? && At(s, who).task < |s.phases| == |s.tasks| && s.phases[At(s, who).task] == p
  }

  predicate Enabled(s: State, step: Step) {
    match step
    case Increment(_) => s.main == Executing && !HasPending(s)
    case Send => HasPending(s) && |s.phases| - 1 - s.taken < CHANNEL_CAPACITY
    case Close => s.main == Executing && !HasPending(s)
    case Countdown => s.main == Closed
    case Inspect => s.main == Counted
    case Lock => s.main == Locking && s.a == Exited && (s.b == Absent || s.b == Exited)
    case Take(who) => At(s, who) == Idle && !QueueEmpty(s)
    case Check(who) => Holds(s, who, Taken)
    case Finish(who) => Holds(s, who, Running)
    case Release(who) => Holds(s, who, Dropping(true)) || Holds(s, who, Dropping(false))
    case ExitAtZero(who) => At(s, who) == Idle && s.counter == 0
    case ExitAtEnd(who) => At(s, who) == Idle && s.main != Executing && QueueEmpty(s)
  }

  function After(s: State, step: Step): State
    requires Enabled(s, step)
  {
    match step
    case Increment(task) => s.(tasks := s.tasks + [task], phases := s.phases + [Pending], counter := s.counter + 1)
    case Send => s.(phases := s.phases[|s.phases| - 1 := Queued])
    case Close => s.(main := Closed)
    case Countdown => s.(main := Counted, counter := s.counter - 1)
    case Inspect => s.(main := Locking, b := if QueueEmpty(s) then s.b else Idle)
    case Lock => s.(main := Done(VerdictOf(s)))
    case Take(who) => Put(s, who, Busy(s.taken)).(phases := s.phases[s.taken := Taken], taken := s.taken + 1)
    case Check(who) =>
      s.(phases := s.phases[At(s, who).task := if s.register != U32_MAX then Dropping(false) else Running])
    case Finish(who) =>
      var i := At(s, who).task;
      var t := s.(phases := s.phases[i := Dropping(true)]);
      if s.tasks[i].outcome == Agrees then t
      else if s.tasks[i].outcome == Fails then t.(failed := true)
      else t.(register := if s.tasks[i].callNo < s.register then s.tasks[i].callNo else s.register)
    case Release(who) =>
      var i := At(s, who).task;
      Put(s, who, Idle).(phases := s.phases[i := Settled(s.phases[i].ran)], counter := s.counter - 1)
    case ExitAtZero(who) => Put(s, who, Exited)
    case ExitAtEnd(who) => Put(s, who, Exited)
  }

  function VerdictOf(s: State): Verdict {
    if s.failed then InternalError
    else if s.register == U32_MAX then AllAgreed
    else Disagreement(s.register)
  }

  // ----- the invariant

  ghost function Unsettled(phases: seq<Phase>): set<nat> {
    set i: nat | i < |phases| && !phases[i].Settled?
  }

  /** The task has been run and its result recorded. */
  predicate Reported(s: State, i: nat) {
    i < |s.phases| == |s.tasks| && (s.phases[i] == Dropping(true) || s.phases[i] == Settled(true))
  }

  predicate Skipped(s: State, i: nat) {
    i < |s.phases| && (s.phases[i] == Dropping(false) || s.phases[i] == Settled(false))
  }

  predicate InHand(p: Phase) {
    p.Taken? || p.Running? || p.Dropping?
  }

  ghost predicate PhaseOk(s: State, i: nat) {
    i < |s.phases| &&
    if i < s.taken then s.phases[i].Settled? || (InHand(s.phases[i]) && (s.a == Busy(i) || s.b == Busy(i)))
    else s.phases[i].Queued? || (s.phases[i].Pending? && i == |s.phases| - 1 && s.main == Executing)
  }

  ghost predicate WorkerOk(s: State, who: Who) {
    match At(s, who)
    case Busy(i) => i < s.taken && i < |s.phases| && InHand(s.phases[i])
                    && At(s, if who == WorkerA then WorkerB else WorkerA) != Busy(i)
    case Exited => s.main != Executing && s.taken == |s.phases|
    case Absent => who == WorkerB
    case Idle => true
  }

  predicate Disagreed(s: State, i: nat) {
    Reported(s, i) && s.tasks[i].outcome == Disagrees
  }

  predicate Failed(s: State, i: nat) {
    Reported(s, i) && s.tasks[i].outcome == Fails
  }

  /** The register holds the least call number reported to disagree, if there is one; nothing is skipped before that. */
  ghost predicate RegisterOk(s: State) {
    && (forall i: nat :: Disagreed(s, i) ==> s.register <= s.tasks[i].callNo)
    && (s.register != U32_MAX ==> exists i: nat :: Disagreed(s, i) && s.tasks[i].callNo == s.register)
    && (forall i: nat :: Skipped(s, i) ==> s.register != U32_MAX)
    && (s.failed <==> exists i: nat :: Failed(s, i))
  }

  /** A step that reports nothing leaves the register as it should be. */
  lemma RegisterStays(s: State, t: State)
    requires RegisterOk(s) && t.register == s.register && t.failed == s.failed
    requires |t.phases| == |t.tasks| && |s.phases| == |s.tasks| <= |t.tasks| && t.tasks[..|s.tasks|] == s.tasks
    requires forall i: nat :: Reported(t, i) <==> Reported(s, i)
    requires forall i: nat :: Skipped(t, i) ==> Skipped(s, i) || s.register != U32_MAX
    ensures RegisterOk(t)
  {
    forall i: nat
      ensures Disagreed(t, i) <==> Disagreed(s, i)
      ensures Failed(t, i) <==> Failed(s, i)
      ensures Reported(s, i) ==> t.tasks[i] == s.tasks[i]
    {
      if i < |s.tasks| { assert t.tasks[i] == t.tasks[..|s.tasks|][i]; }
    }
  }

  ghost predicate Inv(s: State) {
    && |s.phases| == |s.tasks| && s.taken <= |s.phases|
    && (forall i: nat :: i < |s.phases| ==> PhaseOk(s, i))
    && WorkerOk(s, WorkerA) && WorkerOk(s, WorkerB)
    && (s.b != Absent ==> s.main.Locking? || s.main.Done?)
    // the countdown is the main thread's own token and one token per task that is not settled
    && s.counter == |Unsettled(s.phases)| + (if s.main.Executing? || s.main.Closed? then 1 else 0)
    && RegisterOk(s)
    && (s.main.Done? ==> s.main.verdict == VerdictOf(s) && forall i: nat :: i < |s.phases| ==> s.phases[i].Settled?)
  }

  lemma InitialInv()
    ensures Inv(INITIAL)
  {
  }

  lemma UnsettledUpdate(phases: seq<Phase>, i: nat, p: Phase)
    requires i < |phases| && !phases[i].Settled?
    ensures |Unsettled(phases[i := p])| == |Unsettled(phases)| - (if p.Settled? then 1 else 0)
  {
    if p.Settled? {
      assert Unsettled(phases[i := p]) == Unsettled(phases) - {i};
    } else {
      assert Unsettled(phases[i := p]) == Unsettled(phases);
    }
  }

  lemma UnsettledAppend(phases: seq<Phase>)
    ensures |Unsettled(phases + [Pending])| == |Unsettled(phases)| + 1
  {
    assert Unsettled(phases + [Pending]) == Unsettled(phases) + {|phases|};
  }

  lemma NothingUnsettled(s: State)
    requires Inv(s) && |Unsettled(s.phases)| == 0
    ensures forall i: nat :: i < |s.phases| ==> s.phases[i].Settled?
    ensures s.taken == |s.phases|
  {
    assert Unsettled(s.phases) == {};
    forall i: nat | i < |s.phases|
      ensures s.phases[i].Settled?
    {
      assert i !in Unsettled(s.phases);
    }
    assert s.taken < |s.phases| ==> PhaseOk(s, s.taken);
  }

  lemma InvKept(s: State, step: Step)
    requires Inv(s) && Enabled(s, step)
    ensures Inv(After(s, step))
  {
    match step
    case Increment(_) => IncrementKeeps(s, step);
    case Send => SendKeeps(s);
    case Take(who) => TakeKeeps(s, who);
    case Check(who) => CheckKeeps(s, who);
    case Finish(who) => FinishKeeps(s, who);
    case Release(who) => ReleaseKeeps(s, who);
    case Lock => LockKeeps(s);
    case ExitAtZero(who) => ExitKeeps(s, step, who);
    case ExitAtEnd(who) => ExitKeeps(s, step, who);
    case _ => MainKeeps(s, step);
  }

  lemma IncrementKeeps(s: State, step: Step)
    requires Inv(s) && Enabled(s, step) && step.Increment?
    ensures Inv(After(s, step))
  {
    var t := After(s, step);
    UnsettledAppend(s.phases);
    forall i: nat | i < |t.phases|
      ensures PhaseOk(t, i)
    {
      if i < |s.phases| { assert PhaseOk(s, i); }
    }
    RegisterStays(s, t);
  }

  lemma SendKeeps(s: State)
    requires Inv(s) && Enabled(s, Send)
    ensures Inv(After(s, Send))
  {
    var t := After(s, Send);
    UnsettledUpdate(s.phases, |s.phases| - 1, Queued);
    forall i: nat | i < |t.phases|
      ensures PhaseOk(t, i)
    {
      assert PhaseOk(s, i);
    }
    RegisterStays(s, t);
  }

  lemma TakeKeeps(s: State, who: Who)
    requires Inv(s) && Enabled(s, Take(who))
    ensures Inv(After(s, Take(who)))
  {
    var t := After(s, Take(who));
    assert PhaseOk(s, s.taken);
    UnsettledUpdate(s.phases, s.taken, Taken);
    forall i: nat | i < |t.phases|
      ensures PhaseOk(t, i)
    {
      assert PhaseOk(s, i);
    }
    RegisterStays(s, t);
    assert WorkerOk(s, WorkerA) && WorkerOk(s, WorkerB);
  }

  /** A task moves on in the hands of its worker: places, workers and tokens stay in order. */
  lemma InHandMoves(s: State, t: State, i: nat)
    requires Inv(s) && i < |s.phases| && InHand(s.phases[i])
    requires |t.phases| == |s.phases| && t.phases == s.phases[i := t.phases[i]] && InHand(t.phases[i])
    requires t.tasks == s.tasks && t.taken == s.taken && t.a == s.a && t.b == s.b && t.main == s.main
    ensures forall j: nat :: j < |t.phases| ==> PhaseOk(t, j)
    ensures WorkerOk(t, WorkerA) && WorkerOk(t, WorkerB)
    ensures |Unsettled(t.phases)| == |Unsettled(s.phases)|
  {
    assert PhaseOk(s, i) && WorkerOk(s, WorkerA) && WorkerOk(s, WorkerB);
    UnsettledUpdate(s.phases, i, t.phases[i]);
    forall j: nat | j < |t.phases|
      ensures PhaseOk(t, j)
    {
      assert PhaseOk(s, j);
    }
  }

  lemma CheckKeeps(s: State, who: Who)
    requires Inv(s) && Enabled(s, Check(who))
    ensures Inv(After(s, Check(who)))
  {
    var t := After(s, Check(who));
    InHandMoves(s, t, At(s, who).task);
    RegisterStays(s, t);
  }

  lemma FinishKeeps(s: State, who: Who)
    requires Inv(s) && Enabled(s, Finish(who))
    ensures Inv(After(s, Finish(who)))
  {
    var t := After(s, Finish(who));
    var i := At(s, who).task;
    InHandMoves(s, t, i);
    ReportedOneMore(s, t, i);
  }

  lemma ReportedOneMore(s: State, t: State, i: nat)
    requires RegisterOk(s) && |s.phases| == |s.tasks| && i < |s.phases| && s.phases[i].Running?
    requires t.tasks == s.tasks && t.phases == s.phases[i := Dropping(true)]
    requires t.failed == (s.failed || s.tasks[i].outcome == Fails)
    requires t.register == if s.tasks[i].outcome == Disagrees && s.tasks[i].callNo < s.register
                           then s.tasks[i].callNo else s.register
    ensures RegisterOk(t)
  {
    assert forall j: nat :: Reported(t, j) <==> Reported(s, j) || j == i;
    assert forall j: nat :: Skipped(t, j) <==> Skipped(s, j);
    assert forall j: nat :: Disagreed(t, j) <==> Disagreed(s, j) || (j == i && s.tasks[i].outcome == Disagrees);
    assert forall j: nat :: Failed(t, j) <==> Failed(s, j) || (j == i && s.tasks[i].outcome == Fails);
    assert s.tasks[i].outcome == Disagrees ==> Disagreed(t, i);
    assert s.tasks[i].outcome == Fails ==> Failed(t, i);
  }

  lemma ReleaseKeeps(s: State, who: Who)
    requires Inv(s) && Enabled(s, Release(who))
    ensures Inv(After(s, Release(who)))
  {
    var t := After(s, Release(who));
    var i := At(s, who).task;
    assert PhaseOk(s, i);
    UnsettledUpdate(s.phases, i, t.phases[i]);
    forall j: nat | j < |t.phases|
      ensures PhaseOk(t, j)
    {
      assert PhaseOk(s, j);
    }
    RegisterStays(s, t);
  }

  /** When the last worker has let go of the lock, no task is in anybody's hands. */
  lemma LockKeeps(s: State)
    requires Inv(s) && Enabled(s, Lock)
    ensures Inv(After(s, Lock))
  {
    var t := After(s, Lock);
    assert WorkerOk(s, WorkerA);
    forall i: nat | i < |t.phases|
      ensures PhaseOk(t, i) && t.phases[i].Settled?
    {
      assert PhaseOk(s, i);
    }
    RegisterStays(s, t);
  }

  lemma MainKeeps(s: State, step: Step)
    requires Inv(s) && Enabled(s, step) && (step.Close? || step.Countdown? || step.Inspect?)
    ensures Inv(After(s, step))
  {
    var t := After(s, step);
    forall i: nat | i < |t.phases|
      ensures PhaseOk(t, i)
    {
      assert PhaseOk(s, i);
    }
    RegisterStays(s, t);
    assert WorkerOk(s, WorkerA) && WorkerOk(s, WorkerB);
  }

  /** A worker goes only when the queue is empty for good. */
  lemma ExitKeeps(s: State, step: Step, who: Who)
    requires Inv(s) && Enabled(s, step) && (step == ExitAtZero(who) || step == ExitAtEnd(who))
    ensures Inv(After(s, step))
  {
    var t := After(s, step);
    forall i: nat | i < |t.phases|
      ensures PhaseOk(t, i)
    {
      assert PhaseOk(s, i);
    }
    RegisterStays(s, t);
    if step.ExitAtZero? {
      NothingUnsettled(s);
    }
    assert s.taken < |s.phases| ==> PhaseOk(s, s.taken);
    assert WorkerOk(s, WorkerA) && WorkerOk(s, WorkerB);
  }

  // ----- every run

  /** The state after the steps, if each of them is possible when its turn comes. */
  function Execute(s: State, steps: seq<Step>): Option<State>
    decreases |steps|
  {
    if steps == [] then Some(s)
    else if !Enabled(s, steps[0]) then None
    else Execute(After(s, steps[0]), steps[1..])
  }

  lemma {:induction false} RunKeepsInv(s: State, steps: seq<Step>)
    requires Inv(s) && Execute(s, steps).Some?
    ensures Inv(Execute(s, steps).value)
    decreases |steps|
  {
    if steps != [] {
      InvKept(s, steps[0]);
      RunKeepsInv(After(s, steps[0]), steps[1..]);
    }
  }

  /**
   * In every interleaving the verdict is read only when every task submitted has been run or skipped and its token
   * returned.
   */
  lemma VerdictIsComplete(steps: seq<Step>)
    requires Execute(INITIAL, steps).Some? && Execute(INITIAL, steps).value.main.Done?
    ensures var s := Execute(INITIAL, steps).value;
            s.counter == 0 && |s.phases| == |s.tasks| && forall i: nat :: i < |s.tasks| ==> s.phases[i].Settled?
  {
    InitialInv();
    RunKeepsInv(INITIAL, steps);
    var s := Execute(INITIAL, steps).value;
    assert Unsettled(s.phases) == {};
  }

  /** The task was run and did not count as a disagreement. */
  predicate RanAndAgreed(s: State, i: nat) {
    && Reported(s, i)
    && (s.tasks[i].outcome == Agrees || (s.tasks[i].outcome == Disagrees && s.tasks[i].callNo == U32_MAX))
  }

  /**
   * Every interleaving reports agreement exactly if every task ran and agreed (the one call number that doubles as
   * "no disagreement" aside), and any number it reports is the least among the tasks that ran and disagreed.
   */
  lemma VerdictIsSound(steps: seq<Step>)
    requires Execute(INITIAL, steps).Some? && Execute(INITIAL, steps).value.main.Done?
    ensures var s := Execute(INITIAL, steps).value;
            && (s.main.verdict == AllAgreed <==> forall i: nat :: i < |s.tasks| ==> RanAndAgreed(s, i))
            && (s.main.verdict.Disagreement? ==>
                  && (exists i: nat :: Disagreed(s, i) && s.tasks[i].callNo == s.main.verdict.callNo)
                  && (forall i: nat :: Disagreed(s, i) ==> s.main.verdict.callNo <= s.tasks[i].callNo))
            && (s.main.verdict == InternalError <==> exists i: nat :: Failed(s, i))
  {
    InitialInv();
    RunKeepsInv(INITIAL, steps);
    var s := Execute(INITIAL, steps).value;
    if s.main.verdict == AllAgreed {
      forall i: nat | i < |s.tasks|
        ensures RanAndAgreed(s, i)
      {
        assert s.phases[i].Settled? && !Skipped(s, i) && !Failed(s, i);
        assert s.tasks[i].outcome == Disagrees ==> Disagreed(s, i);
      }
    } else if s.failed {
      var i: nat :| Failed(s, i);
      assert !RanAndAgreed(s, i);
    } else {
      var i: nat :| Disagreed(s, i) && s.tasks[i].callNo == s.register;
      assert !RanAndAgreed(s, i);
    }
  }

  // ----- the channel and the second worker

  ghost function InChannel(s: State): set<nat> {
    set i: nat | i < |s.phases| && s.phases[i].Queued?
  }

  lemma {:induction false} RangeSize(range: set<nat>, lo: nat, hi: nat)
    requires lo <= hi && forall i: nat :: i in range <==> lo <= i < hi
    ensures |range| == hi - lo
  {
    if lo == hi {
      assert range == {};
    } else {
      RangeSize(range - {hi - 1}, lo, hi - 1);
      assert range == (range - {hi - 1}) + {hi - 1};
    }
  }

  function Sent(s: State): nat {
    if HasPending(s) then |s.phases| - 1 else |s.phases|
  }

  /** The tasks in the channel are those sent and not yet taken. */
  lemma ChannelSize(s: State)
    requires Inv(s)
    ensures |InChannel(s)| == Sent(s) - s.taken
  {
    var sent := Sent(s);
    if HasPending(s) {
      assert PhaseOk(s, sent);
    }
    forall i: nat | i < |s.phases|
      ensures s.phases[i].Queued? <==> s.taken <= i < sent
    {
      assert PhaseOk(s, i);
    }
    RangeSize(InChannel(s), s.taken, sent);
  }

  /** A task is sent as soon as fewer than 100 are in the channel, and not before. */
  lemma SendWaitsForRoom(s: State)
    requires Inv(s)
    ensures Enabled(s, Send) <==> HasPending(s) && |InChannel(s)| < 100
  {
    ChannelSize(s);
  }

  lemma SentAfter(s: State, step: Step)
    requires Inv(s) && Enabled(s, step)
    ensures var t := After(s, step);
            && s.taken <= t.taken && (Sent(t) <= Sent(s) || (Sent(t) == Sent(s) + 1 && Sent(s) - s.taken < 100))
  {
    if HasPending(s) {
      assert PhaseOk(s, |s.phases| - 1);
    }
    assert s.taken < |s.phases| ==> PhaseOk(s, s.taken);
    match step
    case Check(who) => assert WorkerOk(s, who);
    case Finish(who) => assert WorkerOk(s, who);
    case Release(who) => assert WorkerOk(s, who);
    case _ =>
  }

  lemma {:induction false} ChannelStaysBounded(s: State, steps: seq<Step>)
    requires Inv(s) && |InChannel(s)| <= 100 && Execute(s, steps).Some?
    ensures |InChannel(Execute(s, steps).value)| <= 100
    decreases |steps|
  {
    if steps != [] {
      var t := After(s, steps[0]);
      InvKept(s, steps[0]);
      ChannelSize(s);
      ChannelSize(t);
      SentAfter(s, steps[0]);
      ChannelStaysBounded(t, steps[1..]);
    }
  }

  /** In every interleaving the channel never holds more than 100 tasks. */
  lemma ChannelIsBounded(steps: seq<Step>)
    requires Execute(INITIAL, steps).Some?
    ensures |InChannel(Execute(INITIAL, steps).value)| <= 100
  {
    InitialInv();
    ChannelStaysBounded(INITIAL, steps);
  }

  /** The second worker is started once, by the main thread's look at the channel, and only if a task waits there. */
  lemma SecondWorkerOnlyForWork(s: State, step: Step)
    requires Inv(s) && Enabled(s, step) && s.b == Absent
    ensures After(s, step).b == if step == Inspect && InChannel(s) != {} then Idle else Absent
  {
    if step == Inspect {
      if QueueEmpty(s) {
        forall i: nat | i < |s.phases|
          ensures !s.phases[i].Queued?
        {
          assert PhaseOk(s, i) && (s.taken < |s.phases| ==> PhaseOk(s, s.taken));
        }
      } else {
        assert PhaseOk(s, s.taken) && s.taken in InChannel(s);
      }
    }
  }

  // ----- the last call number

  /** Calls 0 to `n - 1` have run one after the other, and all of them agreed. */
  function Agreed(n: nat): State
    requires n <= U32_MAX
  {
    State(AgreeingTasks(n), AllSettled(n), n, 1, U32_MAX, false, Executing, Idle, Absent)
  }

  function AgreeingTasks(n: nat): seq<Task>
    requires n <= U32_MAX
  {
    seq<Task>(n, (k: nat) requires k < n => Task(k, Agrees))
  }

  function AllSettled(n: nat): seq<Phase> {
    seq(n, (k: nat) => Settled(true))
  }

  /** The next task's way from its submission to its result, with the others settled. */
  function Next(n: nat, task: Task, p: Phase): State
    requires n <= U32_MAX
  {
    Agreed(n).(tasks := AgreeingTasks(n) + [task], phases := AllSettled(n) + [p], counter := 2,
               taken := if p.Pending? || p.Queued? then n else n + 1,
               a := if p.Pending? || p.Queued? || p.Settled? then Idle else Busy(n))
  }

  lemma NextSubmitted(n: nat, task: Task)
    requires n <= U32_MAX
    ensures Execute(Agreed(n), [Increment(task), Send]) == Some(Next(n, task, Queued))
  {
    var pending := Next(n, task, Pending);
    assert Enabled(Agreed(n), Increment(task)) && After(Agreed(n), Increment(task)) == pending;
    assert pending.phases[n := Queued] == AllSettled(n) + [Queued];
    assert [Increment(task), Send] + [] == [Increment(task), Send];
    TwoSteps(Agreed(n), Increment(task), Send, Next(n, task, Queued), [], Next(n, task, Queued));
  }

  lemma NextRuns(n: nat, task: Task)
    requires n <= U32_MAX
    ensures Execute(Next(n, task, Queued), [Take(WorkerA), Check(WorkerA)]) == Some(Next(n, task, Running))
  {
    var s, t, u := Next(n, task, Queued), Next(n, task, Taken), Next(n, task, Running);
    assert s.phases[n := Taken] == t.phases && t.phases[n := Running] == u.phases;
    TwoSteps(s, Take(WorkerA), Check(WorkerA), u, [], u);
  }

  lemma {:induction false} OneMoreAgrees(n: nat)
    requires n < U32_MAX
    ensures Execute(Next(n, Task(n, Agrees), Running), [Finish(WorkerA), Release(WorkerA)]) == Some(Agreed(n + 1))
  {
    var s, t := Next(n, Task(n, Agrees), Running), Next(n, Task(n, Agrees), Dropping(true));
    assert s.phases[n := Dropping(true)] == t.phases && t.phases[n := Settled(true)] == AllSettled(n + 1);
    assert s.tasks == AgreeingTasks(n + 1);
    TwoSteps(s, Finish(WorkerA), Release(WorkerA), Agreed(n + 1), [], Agreed(n + 1));
  }

  lemma {:induction false} AgreedIsReached(n: nat) returns (steps: seq<Step>)
    requires n <= U32_MAX
    ensures Execute(INITIAL, steps) == Some(Agreed(n))
  {
    if n == 0 {
      steps := [];
      assert Agreed(0) == INITIAL;
    } else {
      var task := Task(n - 1, Agrees);
      steps := AgreedIsReached(n - 1);
      NextSubmitted(n - 1, task);
      ExecuteConcat(INITIAL, steps, [Increment(task), Send]);
      steps := steps + [Increment(task), Send];
      NextRuns(n - 1, task);
      ExecuteConcat(INITIAL, steps, [Take(WorkerA), Check(WorkerA)]);
      steps := steps + [Take(WorkerA), Check(WorkerA)];
      OneMoreAgrees(n - 1);
      ExecuteConcat(INITIAL, steps, [Finish(WorkerA), Release(WorkerA)]);
      steps := steps + [Finish(WorkerA), Release(WorkerA)];
    }
  }

  /** The last call disagrees, and leaves the register as it is. */
  const LAST := Task(U32_MAX, Disagrees)

  /** Where the run ends. */
  const ALL_AGREED := Next(U32_MAX, LAST, Settled(true)).(counter := 0, main := Done(AllAgreed), a := Exited)

  lemma VerdictAfterLast() returns (steps: seq<Step>)
    ensures Execute(Next(U32_MAX, LAST, Settled(true)).(counter := 1), steps) == Some(ALL_AGREED)
  {
    var t := Next(U32_MAX, LAST, Settled(true));
    var counted := t.(counter := 0, main := Counted);
    var exited := counted.(main := Locking, a := Exited);
    assert Execute(exited, [Lock]) == Some(ALL_AGREED);
    TwoSteps(counted, Inspect, ExitAtZero(WorkerA), exited, [Lock], ALL_AGREED);
    steps := [Inspect, ExitAtZero(WorkerA)] + [Lock];
    TwoSteps(t.(counter := 1), Close, Countdown, counted, steps, ALL_AGREED);
    steps := [Close, Countdown] + steps;
  }

  lemma LastRunEnds() returns (steps: seq<Step>)
    ensures Execute(Next(U32_MAX, LAST, Running), steps) == Some(ALL_AGREED)
  {
    var s := Next(U32_MAX, LAST, Running);
    var t := Next(U32_MAX, LAST, Settled(true)).(counter := 1);
    assert s.tasks[U32_MAX] == LAST && s.phases[U32_MAX := Dropping(true)][U32_MAX := Settled(true)] == t.phases;
    steps := VerdictAfterLast();
    TwoSteps(s, Finish(WorkerA), Release(WorkerA), t, steps, ALL_AGREED);
    steps := [Finish(WorkerA), Release(WorkerA)] + steps;
  }

  /**
   * The last call number doubles as "no disagreement": with all calls numbered from 0, the run of the last one
   * disagrees, and agreement is reported.
   */
  lemma LastNumberCannotDisagree() returns (steps: seq<Step>)
    ensures Execute(INITIAL, steps) == Some(ALL_AGREED) && ALL_AGREED.main == Done(AllAgreed)
    ensures forall k: nat :: k < |ALL_AGREED.tasks| ==> ALL_AGREED.tasks[k].callNo == k
    ensures Ascending(ALL_AGREED.tasks) && |ALL_AGREED.tasks| == TWO_32 && Disagreed(ALL_AGREED, U32_MAX)
  {
    steps := AgreedIsReached(U32_MAX);
    NextSubmitted(U32_MAX, LAST);
    ExecuteConcat(INITIAL, steps, [Increment(LAST), Send]);
    steps := steps + [Increment(LAST), Send];
    NextRuns(U32_MAX, LAST);
    ExecuteConcat(INITIAL, steps, [Take(WorkerA), Check(WorkerA)]);
    steps := steps + [Take(WorkerA), Check(WorkerA)];
    var end := LastRunEnds();
    ExecuteConcat(INITIAL, steps, end);
    steps := steps + end;
  }

  // ----- the least disagreeing call, run or not

  /** Call numbers are handed out in submission order. */
  predicate Ascending(tasks: seq<Task>) {
    forall i, j :: 0 <= i < j < |tasks| ==> tasks[i].callNo < tasks[j].callNo
  }

  /** The number reported is the least of all tasks that would disagree, whether they ran or not. */
  ghost predicate ReportsLeast(s: State) {
    && s.main.Done? && s.main.verdict.Disagreement?
    && (exists i: nat :: i < |s.tasks| && s.tasks[i] == Task(s.main.verdict.callNo, Disagrees))
    && (forall i: nat :: i < |s.tasks| && s.tasks[i].outcome == Disagrees ==>
         s.main.verdict.callNo <= s.tasks[i].callNo)
  }

  /** A check that skips its task although it would disagree with a lower number than the register holds. */
  predicate SkipsLower(s: State, step: Step)
    requires Enabled(s, step)
  {
    step.Check? && s.register != U32_MAX
    && var task := s.tasks[At(s, step.who).task]; task.outcome == Disagrees && task.callNo < s.register
  }

  predicate NeverSkipsLower(s: State, steps: seq<Step>)
    decreases |steps|
  {
    steps != [] && Enabled(s, steps[0]) ==> !SkipsLower(s, steps[0]) && NeverSkipsLower(After(s, steps[0]), steps[1..])
  }

  /** What was skipped would not have lowered the register. */
  ghost predicate SkippedAbove(s: State) {
    forall i: nat :: Skipped(s, i) && i < |s.tasks| && s.tasks[i].outcome == Disagrees ==>
      s.register <= s.tasks[i].callNo
  }

  lemma SkippedAboveKept(s: State, step: Step)
    requires Inv(s) && SkippedAbove(s) && Enabled(s, step) && !SkipsLower(s, step)
    ensures SkippedAbove(After(s, step))
  {
    var t := After(s, step);
    forall i: nat | Skipped(t, i) && i < |t.tasks| && t.tasks[i].outcome == Disagrees
      ensures t.register <= t.tasks[i].callNo
    {
      assert Skipped(s, i) || (step.Check? && At(s, step.who) == Busy(i) && s.register != U32_MAX);
    }
  }

  lemma {:induction false} SkippedAboveAtEnd(s: State, steps: seq<Step>)
    requires Inv(s) && SkippedAbove(s) && Execute(s, steps).Some? && NeverSkipsLower(s, steps)
    ensures SkippedAbove(Execute(s, steps).value)
    decreases |steps|
  {
    if steps != [] {
      InvKept(s, steps[0]);
      SkippedAboveKept(s, steps[0]);
      SkippedAboveAtEnd(After(s, steps[0]), steps[1..]);
    }
  }

  /** Tasks are taken in order, so of two busy workers one has the newest. */
  ghost predicate NewestIsBusy(s: State) {
    s.a.Busy? && s.b.Busy? ==> s.a.task == s.taken - 1 || s.b.task == s.taken - 1
  }

  lemma NewestIsBusyKept(s: State, step: Step)
    requires NewestIsBusy(s) && Enabled(s, step)
    ensures NewestIsBusy(After(s, step))
  {
  }

  predicate MayReport(p: Phase) {
    p.Taken? || p.Running?
  }

  /** A task was skipped that disagrees with a lower number, and no earlier task can report any more. */
  ghost predicate Missed(s: State, i: nat) {
    && i < |s.tasks| && i < s.taken && Skipped(s, i) && s.tasks[i].outcome == Disagrees
    && s.register != U32_MAX && s.tasks[i].callNo < s.register
    && (forall j: nat :: j < i && j < |s.phases| ==> !MayReport(s.phases[j]))
  }

  lemma SkippingLowerMisses(s: State, step: Step)
    requires Inv(s) && NewestIsBusy(s) && Ascending(s.tasks) && Enabled(s, step) && SkipsLower(s, step)
    ensures Missed(After(s, step), At(s, step.who).task)
  {
    var i := At(s, step.who).task;
    assert WorkerOk(s, step.who);
    var k: nat :| Disagreed(s, k) && s.tasks[k].callNo == s.register;
    assert k > i && PhaseOk(s, k);
    forall j: nat | j < i && j < |s.phases|
      ensures !MayReport(s.phases[j])
    {
      assert PhaseOk(s, j);
    }
  }

  lemma MissedStays(s: State, step: Step, i: nat)
    requires Inv(s) && Missed(s, i) && Ascending(s.tasks) && Enabled(s, step)
    ensures Missed(After(s, step), i)
  {
    if step.Finish? {
      assert WorkerOk(s, step.who) && At(s, step.who).task > i;
    }
  }

  /** The tasks at the end begin with those of any earlier state. */
  lemma {:induction false} TasksOnlyGrow(s: State, steps: seq<Step>)
    requires Execute(s, steps).Some?
    ensures s.tasks <= Execute(s, steps).value.tasks
    ensures Ascending(Execute(s, steps).value.tasks) ==> Ascending(s.tasks)
    decreases |steps|
  {
    if steps != [] {
      TasksOnlyGrow(After(s, steps[0]), steps[1..]);
    }
  }

  lemma {:induction false} MissedAtEnd(s: State, steps: seq<Step>, i: nat)
    requires Inv(s) && Missed(s, i) && Execute(s, steps).Some? && Ascending(Execute(s, steps).value.tasks)
    ensures Missed(Execute(s, steps).value, i)
    decreases |steps|
  {
    if steps != [] {
      TasksOnlyGrow(s, steps);
      InvKept(s, steps[0]);
      MissedStays(s, steps[0], i);
      MissedAtEnd(After(s, steps[0]), steps[1..], i);
    }
  }

  lemma {:induction false} SomethingMissed(s: State, steps: seq<Step>) returns (i: nat)
    requires Inv(s) && NewestIsBusy(s) && Execute(s, steps).Some? && Ascending(Execute(s, steps).value.tasks)
    requires !NeverSkipsLower(s, steps)
    ensures Missed(Execute(s, steps).value, i)
    decreases |steps|
  {
    TasksOnlyGrow(s, steps);
    InvKept(s, steps[0]);
    var t := After(s, steps[0]);
    if SkipsLower(s, steps[0]) {
      SkippingLowerMisses(s, steps[0]);
      i := At(s, steps[0].who).task;
      MissedAtEnd(t, steps[1..], i);
    } else {
      NewestIsBusyKept(s, steps[0]);
      i := SomethingMissed(t, steps[1..]);
    }
  }

  /**
   * In every interleaving that ends with a disagreement, the number reported is the least that disagrees at all, run or
   * not, exactly if no check skipped a task that disagrees with a lower number than the register held.
   */
  lemma VerdictIsLeastIff(steps: seq<Step>)
    requires Execute(INITIAL, steps).Some?
    requires var s := Execute(INITIAL, steps).value; s.main.Done? && s.main.verdict.Disagreement? && Ascending(s.tasks)
    ensures ReportsLeast(Execute(INITIAL, steps).value) <==> NeverSkipsLower(INITIAL, steps)
  {
    InitialInv();
    RunKeepsInv(INITIAL, steps);
    VerdictIsSound(steps);
    var s := Execute(INITIAL, steps).value;
    if NeverSkipsLower(INITIAL, steps) {
      SkippedAboveAtEnd(INITIAL, steps);
      forall i: nat | i < |s.tasks| && s.tasks[i].outcome == Disagrees
        ensures s.main.verdict.callNo <= s.tasks[i].callNo
      {
        assert s.phases[i].Settled?;
        assert Skipped(s, i) || Disagreed(s, i);
      }
    } else {
      var i := SomethingMissed(INITIAL, steps);
    }
  }

  // ----- schedules that never skip a lower number

  predicate NoneTaken(s: State) {
    forall i :: 0 <= i < |s.phases| ==> !s.phases[i].Taken?
  }

  /** No worker takes a task while another task has been taken but not yet checked against the register. */
  predicate Orderly(s: State, steps: seq<Step>)
    decreases |steps|
  {
    steps == [] ||
    (Enabled(s, steps[0]) && (steps[0].Take? ==> NoneTaken(s)) && Orderly(After(s, steps[0]), steps[1..]))
  }

  /** Only the task taken last may be unchecked, and whatever was skipped comes after a disagreement. */
  ghost predicate OrderInv(s: State) {
    TakenIsNewest(s) && forall i: nat :: Skipped(s, i) ==> SkippedAfter(s, i)
  }

  ghost predicate TakenIsNewest(s: State) {
    forall i: nat :: i < |s.phases| && s.phases[i].Taken? ==> i == s.taken - 1
  }

  ghost predicate SkippedAfter(s: State, i: nat) {
    exists j: nat :: j < i && Disagreed(s, j)
  }

  lemma DisagreedStays(s: State, step: Step, j: nat)
    requires Inv(s) && Enabled(s, step) && Disagreed(s, j)
    ensures Disagreed(After(s, step), j)
  {
    assert s.taken < |s.phases| ==> PhaseOk(s, s.taken);
    assert s.phases[j] == Dropping(true) || s.phases[j] == Settled(true);
  }

  lemma SkippedAfterStays(s: State, step: Step, i: nat)
    requires Inv(s) && Enabled(s, step) && SkippedAfter(s, i)
    ensures SkippedAfter(After(s, step), i)
  {
    var j: nat :| j < i && Disagreed(s, j);
    DisagreedStays(s, step, j);
  }

  lemma TakenStaysNewest(s: State, step: Step)
    requires Inv(s) && TakenIsNewest(s) && Enabled(s, step) && (step.Take? ==> NoneTaken(s))
    ensures TakenIsNewest(After(s, step))
  {
  }

  lemma OrderKept(s: State, step: Step)
    requires Inv(s) && OrderInv(s) && Enabled(s, step) && (step.Take? ==> NoneTaken(s))
    ensures OrderInv(After(s, step))
  {
    var t := After(s, step);
    TakenStaysNewest(s, step);
    forall i: nat | Skipped(t, i)
      ensures SkippedAfter(t, i)
    {
      if Skipped(s, i) {
        SkippedAfterStays(s, step, i);
      } else {
        assert step.Check? && s.phases[i].Taken? && s.register != U32_MAX;
        var j: nat :| Disagreed(s, j) && s.tasks[j].callNo == s.register;
        assert PhaseOk(s, j);
        DisagreedStays(s, step, j);
        assert j < i;
      }
    }
  }

  /** In such an order a check that skips comes after the disagreement the register holds. */
  lemma OrderlyCheck(s: State, step: Step)
    requires Inv(s) && OrderInv(s) && Ascending(s.tasks) && Enabled(s, step)
    ensures !SkipsLower(s, step)
  {
    if step.Check? && s.register != U32_MAX {
      var i := At(s, step.who).task;
      var j: nat :| Disagreed(s, j) && s.tasks[j].callNo == s.register;
      assert PhaseOk(s, j) && WorkerOk(s, step.who);
      assert j < i;
    }
  }

  lemma {:induction false} OrderlyNeverSkipsLower(s: State, steps: seq<Step>)
    requires Inv(s) && OrderInv(s) && Orderly(s, steps)
    requires Execute(s, steps).Some? && Ascending(Execute(s, steps).value.tasks)
    ensures NeverSkipsLower(s, steps)
    decreases |steps|
  {
    if steps != [] {
      TasksOnlyGrow(s, steps);
      OrderlyCheck(s, steps[0]);
      InvKept(s, steps[0]);
      OrderKept(s, steps[0]);
      OrderlyNeverSkipsLower(After(s, steps[0]), steps[1..]);
    }
  }

  /**
   * If taking and checking are never torn apart by another taking, the number reported is the least that disagrees at
   * all.
   */
  lemma OrderlyVerdictIsLeast(steps: seq<Step>)
    requires Orderly(INITIAL, steps) && Execute(INITIAL, steps).Some?
    requires var s := Execute(INITIAL, steps).value; s.main.Done? && s.main.verdict.Disagreement? && Ascending(s.tasks)
    ensures ReportsLeast(Execute(INITIAL, steps).value)
  {
    InitialInv();
    OrderlyNeverSkipsLower(INITIAL, steps);
    VerdictIsLeastIff(steps);
  }

  /** Every taking is at once followed by that worker's check. */
  predicate CheckedAtOnce(steps: seq<Step>) {
    steps == [] ||
    (if steps[0].Take? then |steps| > 1 && steps[1] == Check(steps[0].who) && CheckedAtOnce(steps[2..])
     else CheckedAtOnce(steps[1..]))
  }

  lemma NoneTakenStays(s: State, step: Step)
    requires NoneTaken(s) && Enabled(s, step) && !step.Take?
    ensures NoneTaken(After(s, step))
  {
  }

  lemma NoneTakenAfterCheck(s: State, who: Who)
    requires NoneTaken(s) && |s.phases| == |s.tasks| && Enabled(s, Take(who))
             && Enabled(After(s, Take(who)), Check(who))
    ensures NoneTaken(After(After(s, Take(who)), Check(who)))
  {
  }

  lemma {:induction false} CheckedAtOnceIsOrderly(s: State, steps: seq<Step>)
    requires Inv(s) && NoneTaken(s) && Execute(s, steps).Some? && CheckedAtOnce(steps)
    ensures Orderly(s, steps)
    decreases |steps|
  {
    if steps != [] {
      var t := After(s, steps[0]);
      InvKept(s, steps[0]);
      if steps[0].Take? {
        assert steps[1..][1..] == steps[2..] && steps[1..][0] == steps[1];
        InvKept(t, steps[1]);
        NoneTakenAfterCheck(s, steps[0].who);
        CheckedAtOnceIsOrderly(After(t, steps[1]), steps[2..]);
        assert Orderly(t, steps[1..]);
      } else {
        NoneTakenStays(s, steps[0]);
        CheckedAtOnceIsOrderly(t, steps[1..]);
      }
    }
  }

  /** Only the worker started with the supervisor takes tasks. */
  predicate OneWorker(steps: seq<Step>) {
    forall k :: 0 <= k < |steps| ==> steps[k] != Take(WorkerB)
  }

  ghost predicate BNeverBusy(s: State) {
    !s.b.Busy?
  }

  lemma {:induction false} OneWorkerIsOrderly(s: State, steps: seq<Step>)
    requires Inv(s) && BNeverBusy(s) && Execute(s, steps).Some? && OneWorker(steps)
    ensures Orderly(s, steps)
    decreases |steps|
  {
    if steps != [] {
      var step := steps[0];
      assert step != Take(WorkerB);
      if step.Take? {
        IdleAloneTookNone(s);
      }
      InvKept(s, step);
      BStaysFree(s, step);
      OneWorkerIsOrderly(After(s, step), steps[1..]);
    }
  }

  lemma IdleAloneTookNone(s: State)
    requires Inv(s) && s.a == Idle && BNeverBusy(s)
    ensures NoneTaken(s)
  {
    forall i | 0 <= i < |s.phases|
      ensures !s.phases[i].Taken?
    {
      assert PhaseOk(s, i);
    }
  }

  lemma BStaysFree(s: State, step: Step)
    requires BNeverBusy(s) && Enabled(s, step) && step != Take(WorkerB)
    ensures BNeverBusy(After(s, step))
  {
  }

  /**
   * So the number reported is the least if a single worker takes tasks, or if every taking is at once followed by its
   * check.
   */
  lemma SimpleSchedulesReportLeast(steps: seq<Step>)
    requires Execute(INITIAL, steps).Some? && (OneWorker(steps) || CheckedAtOnce(steps))
    requires var s := Execute(INITIAL, steps).value; s.main.Done? && s.main.verdict.Disagreement? && Ascending(s.tasks)
    ensures ReportsLeast(Execute(INITIAL, steps).value)
  {
    InitialInv();
    if OneWorker(steps) {
      OneWorkerIsOrderly(INITIAL, steps);
    } else {
      CheckedAtOnceIsOrderly(INITIAL, steps);
    }
    OrderlyVerdictIsLeast(steps);
  }

  /** Torn apart, they can miss it: call 0 would disagree, yet is skipped because call 1 disagreed meanwhile. */
  lemma TornCheckCanMissTheLeast() returns (steps: seq<Step>)
    ensures Execute(INITIAL, steps).Some?
    ensures var s := Execute(INITIAL, steps).value;
            s.main == Done(Disagreement(1)) && s.tasks == [Task(0, Disagrees), Task(1, Disagrees)]
    ensures !NeverSkipsLower(INITIAL, steps)
  {
    var first := TwoTasksSubmitted();
    var second := SecondTaskOvertakes();
    ExecuteConcat(INITIAL, first, second);
    steps := first + second;
    assert !ReportsLeast(MISSED) by {
      assert MISSED.tasks[0] == Task(0, Disagrees);
    }
    VerdictIsLeastIff(steps);
  }

  const TASKS := [Task(0, Disagrees), Task(1, Disagrees)]
  const BOTH_SENT := State(TASKS, [Queued, Queued], 0, 3, U32_MAX, false, Executing, Idle, Absent)

  lemma TwoTasksSubmitted() returns (steps: seq<Step>)
    ensures Execute(INITIAL, steps) == Some(BOTH_TAKEN)
  {
    var s1 := State([TASKS[0]], [Queued], 0, 2, U32_MAX, false, Executing, Idle, Absent);
    steps := FirstTaken();
    TwoSteps(s1, Increment(TASKS[1]), Send, BOTH_SENT, steps, BOTH_TAKEN);
    steps := [Increment(TASKS[1]), Send] + steps;
    TwoSteps(INITIAL, Increment(TASKS[0]), Send, s1, steps, BOTH_TAKEN);
    steps := [Increment(TASKS[0]), Send] + steps;
  }

  lemma FirstTaken() returns (steps: seq<Step>)
    ensures Execute(BOTH_SENT, steps) == Some(BOTH_TAKEN)
  {
    var s3 := BOTH_SENT.(counter := 2, main := Counted);
    TwoSteps(s3, Inspect, Take(WorkerA), BOTH_TAKEN, [], BOTH_TAKEN);
    steps := [Inspect, Take(WorkerA)] + [];
    TwoSteps(BOTH_SENT, Close, Countdown, s3, steps, BOTH_TAKEN);
    steps := [Close, Countdown] + steps;
  }

  const BOTH_TAKEN := State(TASKS, [Taken, Queued], 1, 2, U32_MAX, false, Locking, Busy(0), Idle)

  const FIRST_SKIPPED := BOTH_TAKEN.(phases := [Dropping(false), Dropping(true)], taken := 2, register := 1,
      b := Busy(1))
  const MISSED := FIRST_SKIPPED.(phases := [Settled(false), Settled(true)], counter := 0,
                                 main := Done(Disagreement(1)), a := Exited, b := Exited)

  lemma SecondTaskOvertakes() returns (steps: seq<Step>)
    ensures Execute(BOTH_TAKEN, steps) == Some(MISSED)
  {
    var s5 := BOTH_TAKEN.(phases := [Taken, Running], taken := 2, b := Busy(1));
    steps := AllWindsDown();
    TwoSteps(s5, Finish(WorkerB), Check(WorkerA), FIRST_SKIPPED, steps, MISSED);
    steps := [Finish(WorkerB), Check(WorkerA)] + steps;
    TwoSteps(BOTH_TAKEN, Take(WorkerB), Check(WorkerB), s5, steps, MISSED);
    steps := [Take(WorkerB), Check(WorkerB)] + steps;
  }

  lemma AllWindsDown() returns (steps: seq<Step>)
    ensures Execute(FIRST_SKIPPED, steps) == Some(MISSED)
  {
    var s7 := FIRST_SKIPPED.(phases := [Settled(false), Settled(true)], counter := 0, a := Idle, b := Idle);
    var s8 := s7.(a := Exited, b := Exited);
    assert Execute(s8, [Lock]) == Some(MISSED);
    TwoSteps(s7, ExitAtZero(WorkerA), ExitAtZero(WorkerB), s8, [Lock], MISSED);
    steps := [ExitAtZero(WorkerA), ExitAtZero(WorkerB)] + [Lock];
    TwoSteps(FIRST_SKIPPED, Release(WorkerA), Release(WorkerB), s7, steps, MISSED);
    steps := [Release(WorkerA), Release(WorkerB)] + steps;
  }

  /** Two steps put before a run. */
  lemma TwoSteps(s: State, x: Step, y: Step, t: State, rest: seq<Step>, end: State)
    requires Enabled(s, x) && Enabled(After(s, x), y) && After(After(s, x), y) == t && Execute(t, rest) == Some(end)
    ensures Execute(s, [x, y] + rest) == Some(end)
  {
    assert ([x, y] + rest)[1..] == [y] + rest && ([y] + rest)[1..] == rest;
    assert Execute(After(s, x), [y] + rest) == Some(end);
  }

  lemma {:induction false} ExecuteConcat(s: State, x: seq<Step>, y: seq<Step>)
    requires Execute(s, x).Some?
    ensures Execute(s, x + y) == Execute(Execute(s, x).value, y)
    decreases |x|
  {
    if x == [] {
      assert x + y == y;
    } else {
      assert (x + y)[1..] == x[1..] + y;
      ExecuteConcat(After(s, x[0]), x[1..], y);
    }
  }

  // ----- termination

  function Weight(p: Phase): nat {
    match p
    case Pending => 5 case Queued => 4 case Taken => 3 case Running => 2 case Dropping(_) => 1 case Settled(_) => 0
  }

  function Weights(phases: seq<Phase>): nat {
    if phases == [] then 0 else Weights(phases[..|phases| - 1]) + Weight(phases[|phases| - 1])
  }

  lemma {:induction false} WeightsUpdate(phases: seq<Phase>, i: nat, p: Phase)
    requires i < |phases|
    ensures Weights(phases[i := p]) == Weights(phases) - Weight(phases[i]) + Weight(p)
  {
    var n := |phases| - 1;
    if i == n {
      assert phases[i := p][..n] == phases[..n];
    } else {
      assert phases[i := p][..n] == phases[..n][i := p];
      WeightsUpdate(phases[..n], i, p);
    }
  }

  /** How much is left to do once no more tasks can be submitted. */
  function Remaining(s: State): nat {
    Weights(s.phases)
    + (match s.main case Executing => 9 case Closed => 5 case Counted => 4 case Locking => 1 case Done(_) => 0)
    + (if s.a == Exited then 0 else 1) + (if s.b == Absent || s.b == Exited then 0 else 1)
  }

  /**
   * After the channel is closed every step brings the verdict nearer, so every interleaving reaches it or can go on.
   */
  lemma WaitingTerminates(s: State, step: Step)
    requires Inv(s) && Enabled(s, step) && !s.main.Executing?
    ensures Remaining(After(s, step)) < Remaining(s)
  {
    match step
    case Send => assert PhaseOk(s, |s.phases| - 1); WeightsUpdate(s.phases, |s.phases| - 1, Queued);
    case Take(who) => assert PhaseOk(s, s.taken); WeightsUpdate(s.phases, s.taken, Taken);
    case Check(who) => HandledWeighsLess(s, who, step);
    case Finish(who) => HandledWeighsLess(s, who, step);
    case Release(who) => HandledWeighsLess(s, who, step);
    case _ =>
  }

  lemma HandledWeighsLess(s: State, who: Who, step: Step)
    requires Inv(s) && Enabled(s, step) && (step == Check(who) || step == Finish(who) || step == Release(who))
    ensures Remaining(After(s, step)) < Remaining(s)
  {
    var i, t := At(s, who).task, After(s, step);
    HandledPhase(s, who, step);
    WeightsUpdate(s.phases, i, t.phases[i]);
  }

  lemma HandledPhase(s: State, who: Who, step: Step)
    requires Inv(s) && Enabled(s, step) && (step == Check(who) || step == Finish(who) || step == Release(who))
    ensures var i, t := At(s, who).task, After(s, step);
            && i < |t.phases| && t.phases == s.phases[i := t.phases[i]] && Weight(t.phases[i]) < Weight(s.phases[i])
            && t.main == s.main && (t.a == Exited <==> s.a == Exited)
            && (t.b == Exited || t.b == Absent <==> s.b == Exited || s.b == Absent)
  {
  }

  /** Nothing gets stuck: until the verdict is read some thread can take a step. */
  lemma NeverStuck(s: State) returns (step: Step)
    requires Inv(s) && !s.main.Done?
    ensures Enabled(s, step)
  {
    match s.main
    case Executing =>
      if !HasPending(s) {
        step := Close;
      } else if |s.phases| - 1 - s.taken < CHANNEL_CAPACITY {
        step := Send;
      } else {
        assert PhaseOk(s, s.taken) && WorkerOk(s, WorkerA);
        step := WorkerCanMove(s, WorkerA);
      }
    case Closed => step := Countdown;
    case Counted => step := Inspect;
    case Locking =>
      if s.a != Exited {
        step := WorkerCanMove(s, WorkerA);
      } else if s.b != Absent && s.b != Exited {
        step := WorkerCanMove(s, WorkerB);
      } else {
        step := Lock;
      }
  }

  lemma WorkerCanMove(s: State, who: Who) returns (step: Step)
    requires Inv(s) && At(s, who) != Exited && At(s, who) != Absent
    requires !QueueEmpty(s) || s.main != Executing
    ensures Enabled(s, step)
  {
    assert WorkerOk(s, who);
    match At(s, who)
    case Idle => step := if QueueEmpty(s) then ExitAtEnd(who) else Take(who);
    case Busy(i) =>
      step := match s.phases[i] case Taken => Check(who) case Running => Finish(who) case _ => Release(who);
  }
}
