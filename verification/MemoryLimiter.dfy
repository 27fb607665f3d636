/**
 * The memory budget shared by a limiter and those derived from it, used by any number of threads at once.
 * Every step is one atomic operation of one thread.
 */
module MemoryLimiter {
  import opened Prelude

  /** Where a thread stands inside `consume` or `release`. */
  datatype Thread =
    | Idle
    | Trying(limiter: nat, delta: u32, seen: int)        // has loaded `remaining_memory`
    | Won(limiter: nat, delta: u32, left: int)           // the exchange succeeded
    | Lowered(limiter: nat, delta: u32)                  // `least_remaining_memory` is up to date
    | Releasing(limiter: nat, delta: u32)                // has given the amount back, but still counts it as consumed

  /**
   * `consumed[l]` is the 32-bit counter of limiter `l`, which wraps; `lowest` and `claims` are only for stating
   * properties. `lowest` is the least value `remaining` ever had, and `claims[l]` what has been consumed through `l`
   * and is still to be released by its users.
   */
  datatype State = State(remaining: int, least: int, consumed: seq<nat>, live: set<nat>, threads: seq<Thread>,
                         lowest: int, claims: seq<int>)

  datatype Step =
    | StartConsume(t: nat, limiter: nat, delta: u32)
    | Exchange(t: nat)
    | LowerLeast(t: nat)
    | AddConsumed(t: nat)
    | StartRelease(t: nat, limiter: nat, delta: u32)
    | SubConsumed(t: nat)
    | Derive
    | Drop(limiter: nat)

  function Initial(threads: nat): State {
    State(U32_MAX, U32_MAX, [0], {0}, seq(threads, _ => Idle), U32_MAX, [0])
  }

  function ReleasingOn(threads: seq<Thread>, l: nat): int {
    if threads == [] then 0 else
      ReleasingOn(threads[1..], l)
      + (if threads[0].Releasing? && threads[0].limiter == l then threads[0].delta as int else 0)
  }

  /** Amounts taken from the budget by an exchange and not yet counted as consumed. */
  function Taking(threads: seq<Thread>): int {
    if threads == [] then 0 else
      Taking(threads[1..]) + (if threads[0].Won? || threads[0].Lowered? then threads[0].delta as int else 0)
  }

  function Sum(xs: seq<int>): int {
    if xs == [] then 0 else Sum(xs[..|xs| - 1]) + xs[|xs| - 1]
  }

  predicate IsLimiter(s: State, l: nat) {
    l < |s.consumed| == |s.claims|
  }

  predicate Uses(th: Thread, l: nat) {
    !th.Idle? && th.limiter == l
  }

  /** A release is matched: it gives back what was consumed through the same limiter and not released yet. */
  predicate Enabled(s: State, step: Step) {
    match step
    case StartConsume(t, l, _) => t < |s.threads| && s.threads[t].Idle? && l in s.live && IsLimiter(s, l)
    case Exchange(t) => t < |s.threads| && s.threads[t].Trying?
    case LowerLeast(t) => t < |s.threads| && s.threads[t].Won?
    case AddConsumed(t) => t < |s.threads| && s.threads[t].Lowered? && IsLimiter(s, s.threads[t].limiter)
    case StartRelease(t, l, delta) =>
      t < |s.threads| && s.threads[t].Idle? && l in s.live && IsLimiter(s, l) && delta <= s.claims[l]
    case SubConsumed(t) => t < |s.threads| && s.threads[t].Releasing? && IsLimiter(s, s.threads[t].limiter)
    case Derive => true
    case Drop(l) => l in s.live && IsLimiter(s, l) && forall th :: th in s.threads ==> !Uses(th, l)
  }

  function Min(a: int, b: int): int {
    if a < b then a else b
  }

  function After(s: State, step: Step): State
    requires Enabled(s, step)
  {
    match step
    case StartConsume(t, l, delta) => s.(threads := s.threads[t := Trying(l, delta, s.remaining)])
    case Exchange(t) =>
      var th := s.threads[t];
      if th.delta > th.seen then s.(threads := s.threads[t := Idle])
      else if s.remaining == th.seen then
        var left := th.seen - th.delta;
        s.(remaining := left, lowest := Min(s.lowest, left), threads := s.threads[t := Won(th.limiter, th.delta, left)])
      else s.(threads := s.threads[t := th.(seen := s.remaining)])
    case LowerLeast(t) =>
      var th := s.threads[t];
      s.(least := Min(s.least, th.left), threads := s.threads[t := Lowered(th.limiter, th.delta)])
    case AddConsumed(t) =>
      var th := s.threads[t];
      s.(consumed := s.consumed[th.limiter := (s.consumed[th.limiter] + th.delta) % TWO_32],
         claims := s.claims[th.limiter := s.claims[th.limiter] + th.delta], threads := s.threads[t := Idle])
    case StartRelease(t, l, delta) =>
      s.(remaining := s.remaining + delta, claims := s.claims[l := s.claims[l] - delta],
         threads := s.threads[t := Releasing(l, delta)])
    case SubConsumed(t) =>
      var th := s.threads[t];
      s.(consumed := s.consumed[th.limiter := (s.consumed[th.limiter] - th.delta as int) % TWO_32],
         threads := s.threads[t := Idle])
    case Derive => s.(consumed := s.consumed + [0], claims := s.claims + [0], live := s.live + {|s.consumed|})
    case Drop(l) =>
      s.(remaining := s.remaining + s.consumed[l], consumed := s.consumed[l := 0], claims := s.claims[l := 0],
         live := s.live - {l})
  }

  // ----- the invariant

  ghost predicate ThreadOk(s: State, th: Thread) {
    && (!th.Idle? ==> th.limiter < |s.consumed| && th.limiter in s.live)
    && (th.Won? ==> s.lowest <= th.left)
  }

  /** What the counter of a limiter stands for: what its users may still release, and what is being released. */
  function Counted(s: State, l: nat): int
    requires l < |s.claims|
  {
    s.claims[l] + ReleasingOn(s.threads, l)
  }

  /** The counter holds what it stands for, in 32 bits. */
  ghost predicate CounterOk(s: State, l: nat) {
    IsLimiter(s, l) && 0 <= s.claims[l] && s.consumed[l] == Counted(s, l) % TWO_32
  }

  ghost predicate Inv(s: State) {
    // nothing of the budget is lost or made up, whatever is in flight
    && s.remaining + Sum(s.claims) + Taking(s.threads) == U32_MAX
    && 0 <= s.remaining && |s.consumed| == |s.claims|
    && (forall l: nat :: l < |s.consumed| ==> CounterOk(s, l))
    && (forall t :: 0 <= t < |s.threads| ==> ThreadOk(s, s.threads[t]))
    && (forall l :: l in s.live ==> l < |s.consumed|)
    && LeastOk(s)
  }

  /** The recorded minimum is behind the true one by at most what threads are about to record. */
  ghost predicate LeastOk(s: State) {
    && s.lowest <= s.least && s.lowest <= s.remaining
    && (s.lowest == s.least || exists t :: 0 <= t < |s.threads| && s.threads[t].Won? && s.threads[t].left == s.lowest)
  }

  lemma {:induction false} ThreadUpdate(threads: seq<Thread>, t: nat, th: Thread, l: nat)
    requires t < |threads|
    ensures Taking(threads[t := th]) == Taking(threads) - Taking([threads[t]]) + Taking([th])
    ensures ReleasingOn(threads[t := th], l) ==
            ReleasingOn(threads, l) - ReleasingOn([threads[t]], l) + ReleasingOn([th], l)
  {
    if t == 0 {
      assert threads[t := th][1..] == threads[1..];
    } else {
      assert threads[t := th][1..] == threads[1..][t - 1 := th];
      ThreadUpdate(threads[1..], t - 1, th, l);
    }
  }

  lemma {:induction false} TakingNonNegative(threads: seq<Thread>, l: nat)
    ensures 0 <= Taking(threads) && 0 <= ReleasingOn(threads, l)
  {
    if threads != [] {
      TakingNonNegative(threads[1..], l);
    }
  }

  lemma {:induction false} SumUpdate(xs: seq<int>, i: nat, x: int)
    requires i < |xs|
    ensures Sum(xs[i := x]) == Sum(xs) - xs[i] + x
  {
    var n := |xs| - 1;
    if i == n {
      assert xs[i := x][..n] == xs[..n];
    } else {
      assert xs[i := x][..n] == xs[..n][i := x];
      SumUpdate(xs[..n], i, x);
    }
  }

  lemma {:induction false} SumIncludes(xs: seq<int>, i: nat)
    requires i < |xs| && forall j :: 0 <= j < |xs| ==> 0 <= xs[j]
    ensures xs[i] <= Sum(xs)
  {
    SumNonNegative(xs[..|xs| - 1]);
    if i < |xs| - 1 {
      SumIncludes(xs[..|xs| - 1], i);
    }
  }

  lemma {:induction false} SumNonNegative(xs: seq<int>)
    requires forall j :: 0 <= j < |xs| ==> 0 <= xs[j]
    ensures 0 <= Sum(xs)
  {
    if xs != [] {
      SumNonNegative(xs[..|xs| - 1]);
    }
  }

  /** Adding to a wrapped counter is wrapping the sum. */
  lemma SumWraps(n: int, d: int)
    ensures (n % TWO_32 + d) % TWO_32 == (n + d) % TWO_32
  {
  }

  /**
   * One thread moves on, touching only limiter `l`, and the claim changes by `gained`: the counters of the other
   * limiters are untouched, and how the sums change.
   */
  lemma ThreadMoves(s: State, s': State, t: nat, l: nat)
    requires t < |s.threads| == |s'.threads| && s'.threads == s.threads[t := s'.threads[t]]
    requires IsLimiter(s, l) && |s'.consumed| == |s.consumed| && |s'.claims| == |s.claims|
    requires s'.claims == s.claims[l := s'.claims[l]]
    requires s'.consumed == s.consumed[l := s'.consumed[l]]
    requires (s.threads[t].Idle? || s.threads[t].limiter == l) && (s'.threads[t].Idle? || s'.threads[t].limiter == l)
    ensures Taking(s'.threads) == Taking(s.threads) - Taking([s.threads[t]]) + Taking([s'.threads[t]])
    ensures Counted(s', l) == Counted(s, l) + s'.claims[l] - s.claims[l]
                              + ReleasingOn([s'.threads[t]], l) - ReleasingOn([s.threads[t]], l)
    ensures forall k: nat :: k < |s.consumed| && k != l && CounterOk(s, k) ==> CounterOk(s', k)
    ensures Sum(s'.claims) == Sum(s.claims) + s'.claims[l] - s.claims[l]
  {
    ThreadUpdate(s.threads, t, s'.threads[t], l);
    forall k: nat | k < |s.consumed| && k != l && CounterOk(s, k)
      ensures CounterOk(s', k)
    {
      ThreadUpdate(s.threads, t, s'.threads[t], k);
    }
    SumUpdate(s.claims, l, s'.claims[l]);
  }

  lemma InitialInv(threads: nat)
    ensures Inv(Initial(threads))
  {
    AllIdle(Initial(threads).threads);
    assert [0][..0] == [];
  }

  lemma {:induction false} AllIdle(threads: seq<Thread>)
    requires forall t :: 0 <= t < |threads| ==> threads[t].Idle?
    ensures Taking(threads) == 0 && forall l: nat :: ReleasingOn(threads, l) == 0
  {
    if threads != [] {
      AllIdle(threads[1..]);
    }
  }

  lemma LeastStays(s: State, s': State, t: nat)
    requires LeastOk(s) && s'.lowest == s.lowest && s'.least == s.least && s'.lowest <= s'.remaining
    requires t < |s.threads| == |s'.threads| && !s.threads[t].Won? && s'.threads == s.threads[t := s'.threads[t]]
    ensures LeastOk(s')
  {
    if s.lowest != s.least {
      var u :| 0 <= u < |s.threads| && s.threads[u].Won? && s.threads[u].left == s.lowest;
      assert s'.threads[u] == s.threads[u];
    }
  }

  lemma InvKept(s: State, step: Step)
    requires Inv(s) && Enabled(s, step)
    ensures Inv(After(s, step))
  {
    match step
    case StartConsume(t, l, _) => StartKeeps(s, step, t, l);
    case Exchange(t) => ExchangeKeeps(s, t);
    case LowerLeast(t) => LowerLeastKeeps(s, t);
    case AddConsumed(t) => AddKeeps(s, t);
    case StartRelease(t, l, delta) => ReleaseKeeps(s, t, l, delta);
    case SubConsumed(t) => SubKeeps(s, t);
    case Derive => DeriveKeeps(s);
    case Drop(l) => DropKeeps(s, l);
  }

  lemma StartKeeps(s: State, step: Step, t: nat, l: nat)
    requires Inv(s) && Enabled(s, step) && step.StartConsume? && step.t == t && step.limiter == l
    ensures Inv(After(s, step))
  {
    var s' := After(s, step);
    assert CounterOk(s, l);
    ThreadMoves(s, s', t, l);
    LeastStays(s, s', t);
  }

  lemma AddKeeps(s: State, t: nat)
    requires Inv(s) && Enabled(s, AddConsumed(t))
    ensures Inv(After(s, AddConsumed(t)))
  {
    var s', th := After(s, AddConsumed(t)), s.threads[t];
    assert CounterOk(s, th.limiter);
    SumWraps(Counted(s, th.limiter), th.delta);
    ThreadMoves(s, s', t, th.limiter);
    LeastStays(s, s', t);
  }

  lemma SubKeeps(s: State, t: nat)
    requires Inv(s) && Enabled(s, SubConsumed(t))
    ensures Inv(After(s, SubConsumed(t)))
  {
    var s', th := After(s, SubConsumed(t)), s.threads[t];
    assert CounterOk(s, th.limiter);
    SumWraps(Counted(s, th.limiter), -(th.delta as int));
    ThreadMoves(s, s', t, th.limiter);
    LeastStays(s, s', t);
  }

  lemma ExchangeKeeps(s: State, t: nat)
    requires Inv(s) && Enabled(s, Exchange(t))
    ensures Inv(After(s, Exchange(t)))
  {
    var s', th := After(s, Exchange(t)), s.threads[t];
    assert ThreadOk(s, th) && CounterOk(s, th.limiter);
    ThreadMoves(s, s', t, th.limiter);
    if s'.threads[t].Won? {
      if s'.lowest != s'.least && s'.lowest == s.lowest && s.lowest != s.least {
        var u :| 0 <= u < |s.threads| && s.threads[u].Won? && s.threads[u].left == s.lowest;
        assert s'.threads[u] == s.threads[u];
      } else {
        assert s'.threads[t].left == s'.remaining;
      }
    } else {
      LeastStays(s, s', t);
    }
    assert forall u :: 0 <= u < |s.threads| && u != t ==> ThreadOk(s, s.threads[u]) && s'.threads[u] == s.threads[u];
  }

  lemma LowerLeastKeeps(s: State, t: nat)
    requires Inv(s) && Enabled(s, LowerLeast(t))
    ensures Inv(After(s, LowerLeast(t)))
  {
    var s', th := After(s, LowerLeast(t)), s.threads[t];
    assert ThreadOk(s, th) && CounterOk(s, th.limiter);
    ThreadMoves(s, s', t, th.limiter);
    if s.lowest != s.least && th.left != s.lowest {
      var u :| 0 <= u < |s.threads| && s.threads[u].Won? && s.threads[u].left == s.lowest;
      assert s'.threads[u] == s.threads[u];
    }
  }

  lemma ReleaseKeeps(s: State, t: nat, l: nat, delta: u32)
    requires Inv(s) && Enabled(s, StartRelease(t, l, delta))
    ensures Inv(After(s, StartRelease(t, l, delta)))
  {
    var s' := After(s, StartRelease(t, l, delta));
    assert CounterOk(s, l);
    ThreadMoves(s, s', t, l);
    LeastStays(s, s', t);
  }

  lemma {:induction false} NotReleasing(threads: seq<Thread>, l: nat)
    requires forall th :: th in threads ==> !Uses(th, l)
    ensures ReleasingOn(threads, l) == 0
  {
    if threads != [] {
      assert threads[0] in threads;
      NotReleasing(threads[1..], l);
    }
  }

  lemma DeriveKeeps(s: State)
    requires Inv(s)
    ensures Inv(After(s, Derive))
  {
    var s', n := After(s, Derive), |s.consumed|;
    forall th | th in s.threads
      ensures !Uses(th, n)
    {
      var t :| 0 <= t < |s.threads| && s.threads[t] == th;
      assert ThreadOk(s, s.threads[t]);
    }
    NotReleasing(s.threads, n);
    assert s'.claims[..n] == s.claims;
    forall l: nat | l < |s'.consumed|
      ensures CounterOk(s', l)
    {
      assert l < n ==> CounterOk(s, l);
    }
    assert forall t :: 0 <= t < |s.threads| ==> ThreadOk(s, s.threads[t]);
  }

  lemma ClaimsNonNegative(s: State)
    requires Inv(s)
    ensures forall j :: 0 <= j < |s.claims| ==> 0 <= s.claims[j]
  {
    forall j | 0 <= j < |s.claims|
      ensures 0 <= s.claims[j]
    {
      assert CounterOk(s, j);
    }
  }

  /** What a limiter's users may still release fits 32 bits. */
  lemma ClaimFits(s: State, l: nat)
    requires Inv(s) && l < |s.claims|
    ensures 0 <= s.claims[l] <= U32_MAX - s.remaining
  {
    ClaimsNonNegative(s);
    TakingNonNegative(s.threads, l);
    SumIncludes(s.claims, l);
  }

  /** A limiter that nobody uses has an exact counter, so dropping it gives back what it still holds. */
  lemma DropKeeps(s: State, l: nat)
    requires Inv(s) && Enabled(s, Drop(l))
    ensures Inv(After(s, Drop(l)))
  {
    var s' := After(s, Drop(l));
    NotReleasing(s.threads, l);
    ClaimFits(s, l);
    assert CounterOk(s, l);
    SumUpdate(s.claims, l, 0);
    forall k: nat | k < |s'.consumed|
      ensures CounterOk(s', k)
    {
      assert CounterOk(s, k);
    }
    forall t | 0 <= t < |s.threads|
      ensures ThreadOk(s', s'.threads[t])
    {
      assert ThreadOk(s, s.threads[t]) && s.threads[t] in s.threads;
    }
  }

  // ----- every interleaving

  function Execute(s: State, steps: seq<Step>): Option<State>
    decreases |steps|
  {
    if steps == [] then Some(s)
    else if !Enabled(s, steps[0]) then None
    else Execute(After(s, steps[0]), steps[1..])
  }

  lemma {:induction false} RunKeepsInv(s: State, steps: seq<Step>)
    requires Inv(s) && Execute(s, steps).Some?
    ensures Inv(Execute(s, steps).value)
    decreases |steps|
  {
    if steps != [] {
      InvKept(s, steps[0]);
      RunKeepsInv(After(s, steps[0]), steps[1..]);
    }
  }

  /**
   * At any moment what remains, what is consumed and not yet being released, and what is in flight add up to the whole
   * budget.
   */
  lemma BudgetIsConserved(threads: nat, steps: seq<Step>)
    requires Execute(Initial(threads), steps).Some?
    ensures var s := Execute(Initial(threads), steps).value;
            s.remaining + Sum(s.claims) + Taking(s.threads) == U32_MAX && 0 <= s.remaining <= U32_MAX
  {
    InitialInv(threads);
    RunKeepsInv(Initial(threads), steps);
    var s := Execute(Initial(threads), steps).value;
    TakingNonNegative(s.threads, 0);
    ClaimsNonNegative(s);
    SumNonNegative(s.claims);
  }

  /**
   * The amount a release or a drop adds to the budget never overflows it, and a drop gives back exactly what is
   * claimed.
   */
  lemma AdditionsNeverOverflow(threads: nat, steps: seq<Step>, next: Step)
    requires Execute(Initial(threads), steps).Some? && Enabled(Execute(Initial(threads), steps).value, next)
    ensures var s := Execute(Initial(threads), steps).value;
            && (next.StartRelease? ==> s.remaining + next.delta <= U32_MAX)
            && (next.Drop? ==> s.consumed[next.limiter] == s.claims[next.limiter]
                               && s.remaining + s.consumed[next.limiter] <= U32_MAX)
  {
    InitialInv(threads);
    RunKeepsInv(Initial(threads), steps);
    var s := Execute(Initial(threads), steps).value;
    match next
    case StartRelease(_, l, _) => ClaimFits(s, l);
    case Drop(l) => NotReleasing(s.threads, l); ClaimFits(s, l); assert CounterOk(s, l);
    case _ =>
  }

  // ----- the counter of a limiter

  /** In every interleaving a limiter's counter is what it stands for in 32 bits: exact if and only if that fits. */
  lemma CounterIsExactIffItFits(threads: nat, steps: seq<Step>, l: nat)
    requires Execute(Initial(threads), steps).Some? && l < |Execute(Initial(threads), steps).value.consumed|
    ensures var s := Execute(Initial(threads), steps).value;
            && IsLimiter(s, l) && s.consumed[l] == Counted(s, l) % TWO_32
            && (s.consumed[l] == Counted(s, l) <==> Counted(s, l) <= U32_MAX)
  {
    InitialInv(threads);
    RunKeepsInv(Initial(threads), steps);
    var s := Execute(Initial(threads), steps).value;
    assert CounterOk(s, l);
    TakingNonNegative(s.threads, l);
  }

  /** The addition or the subtraction of a counter wraps exactly when what it stands for passes a multiple of 2^32. */
  lemma CounterWrapsIffPassing(threads: nat, steps: seq<Step>, t: nat, adds: bool)
    requires Execute(Initial(threads), steps).Some?
    requires Enabled(Execute(Initial(threads), steps).value, if adds then AddConsumed(t) else SubConsumed(t))
    ensures var s := Execute(Initial(threads), steps).value;
            var l, delta := s.threads[t].limiter, s.threads[t].delta;
            var before := Counted(s, l);
            if adds then s.consumed[l] + delta > U32_MAX <==> (before + delta) / TWO_32 > before / TWO_32
            else delta > s.consumed[l] <==> (before - delta) / TWO_32 < before / TWO_32
  {
    InitialInv(threads);
    RunKeepsInv(Initial(threads), steps);
    var s := Execute(Initial(threads), steps).value;
    assert CounterOk(s, s.threads[t].limiter);
  }

  /** The whole budget was consumed and given back, but is still counted as consumed. */
  const GIVEN_BACK := State(U32_MAX, 0, [U32_MAX], {0}, [Releasing(0, U32_MAX), Idle], 0, [0])

  /** Another thread has consumed it again through the same limiter. */
  const COUNTED_TWICE := State(0, 0, [U32_MAX - 1], {0}, [Releasing(0, U32_MAX), Idle], 0, [U32_MAX])

  /** It happens: the counter stands for twice the budget, and the next subtraction goes below zero. */
  lemma CounterCanWrap() returns (steps: seq<Step>)
    ensures Execute(Initial(2), steps) == Some(COUNTED_TWICE)
    ensures Counted(COUNTED_TWICE, 0) == 2 * U32_MAX
    ensures Enabled(COUNTED_TWICE, SubConsumed(0)) && COUNTED_TWICE.threads[0].delta > COUNTED_TWICE.consumed[0]
  {
    steps := TakenAgain();
    var lowered := TAKEN_AGAIN.(threads := [Releasing(0, U32_MAX), Lowered(0, U32_MAX)]);
    steps := OneMore(Initial(2), steps, LowerLeast(1), lowered);
    steps := OneMore(Initial(2), steps, AddConsumed(1), COUNTED_TWICE);
    TwiceTheBudget();
  }

  const TAKEN_AGAIN := GIVEN_BACK.(remaining := 0, threads := [Releasing(0, U32_MAX), Won(0, U32_MAX, 0)])

  lemma TakenAgain() returns (steps: seq<Step>)
    ensures Execute(Initial(2), steps) == Some(TAKEN_AGAIN)
  {
    steps := AllGivenBack();
    var trying := GIVEN_BACK.(threads := [Releasing(0, U32_MAX), Trying(0, U32_MAX, U32_MAX)]);
    steps := OneMore(Initial(2), steps, StartConsume(1, 0, U32_MAX), trying);
    steps := OneMore(Initial(2), steps, Exchange(1), TAKEN_AGAIN);
  }

  lemma TwiceTheBudget()
    ensures Counted(COUNTED_TWICE, 0) == 2 * U32_MAX
  {
    var threads := COUNTED_TWICE.threads;
    assert threads[1..] == [Idle];
    AllIdle(threads[1..]);
    assert ReleasingOn(threads, 0) == ReleasingOn(threads[1..], 0) + U32_MAX;
  }

  lemma AllGivenBack() returns (steps: seq<Step>)
    ensures Execute(Initial(2), steps) == Some(GIVEN_BACK)
  {
    var lowered := State(0, 0, [0], {0}, [Lowered(0, U32_MAX), Idle], 0, [0]);
    var counted := State(0, 0, [U32_MAX], {0}, [Idle, Idle], 0, [U32_MAX]);
    steps := AllTaken();
    steps := OneMore(Initial(2), steps, LowerLeast(0), lowered);
    steps := OneMore(Initial(2), steps, AddConsumed(0), counted);
    steps := OneMore(Initial(2), steps, StartRelease(0, 0, U32_MAX), GIVEN_BACK);
  }

  lemma AllTaken() returns (steps: seq<Step>)
    ensures Execute(Initial(2), steps) == Some(State(0, U32_MAX, [0], {0}, [Won(0, U32_MAX, 0), Idle], 0, [0]))
  {
    var trying := Initial(2).(threads := [Trying(0, U32_MAX, U32_MAX), Idle]);
    steps := OneMore(Initial(2), [], StartConsume(0, 0, U32_MAX), trying);
    steps := OneMore(Initial(2), steps, Exchange(0),
        trying.(remaining := 0, lowest := 0, threads := [Won(0, U32_MAX, 0), Idle]));
  }

  lemma {:induction false} OneMore(s: State, steps: seq<Step>, step: Step, t: State) returns (longer: seq<Step>)
    requires Execute(s, steps).Some? && Enabled(Execute(s, steps).value, step)
             && After(Execute(s, steps).value, step) == t
    ensures Execute(s, longer) == Some(t)
    decreases |steps|
  {
    longer := steps + [step];
    if steps == [] {
      assert longer[1..] == [];
    } else {
      var rest := OneMore(After(s, steps[0]), steps[1..], step, t);
      longer := [steps[0]] + rest;
      assert longer[1..] == rest;
    }
  }

  // ----- what a consume does

  lemma {:induction false} ExecuteJoin(s: State, xs: seq<Step>, ys: seq<Step>)
    ensures Execute(s, xs + ys) == match Execute(s, xs)
                                   case None => None
                                   case Some(t) => Execute(t, ys)
    decreases |xs|
  {
    if xs == [] {
      assert xs + ys == ys;
    } else {
      assert (xs + ys)[0] == xs[0] && (xs + ys)[1..] == xs[1..] + ys;
      if Enabled(s, xs[0]) {
        ExecuteJoin(After(s, xs[0]), xs[1..], ys);
      }
    }
  }

  /** The state after the first `i` steps of a run. */
  ghost function StateAt(threads: nat, steps: seq<Step>, i: nat): State
    requires Execute(Initial(threads), steps).Some? && i <= |steps|
  {
    assert steps == steps[..i] + steps[i..];
    ExecuteJoin(Initial(threads), steps[..i], steps[i..]);
    Execute(Initial(threads), steps[..i]).value
  }

  /** From state `i` on thread `t` has been at one and the same attempt to consume. */
  ghost predicate TryingSince(threads: nat, steps: seq<Step>, i: nat, t: nat, l: nat, delta: u32)
    requires Execute(Initial(threads), steps).Some? && i <= |steps|
  {
    forall j :: i <= j <= |steps| ==>
      var s := StateAt(threads, steps, j);
      t < |s.threads| && s.threads[t].Trying? && s.threads[t].limiter == l && s.threads[t].delta == delta
  }

  /** A thread that is about to compare has seen the budget at some moment of the same attempt. */
  lemma {:induction false} SeenInAttempt(threads: nat, steps: seq<Step>, t: nat) returns (i: nat)
    requires Execute(Initial(threads), steps).Some?
    requires var s := Execute(Initial(threads), steps).value; t < |s.threads| && s.threads[t].Trying?
    ensures var th := Execute(Initial(threads), steps).value.threads[t];
            && i <= |steps| && StateAt(threads, steps, i).remaining == th.seen
            && TryingSince(threads, steps, i, t, th.limiter, th.delta)
    decreases |steps|
  {
    var n := |steps| - 1;
    assert steps != [];
    var before, last := steps[..n], steps[n];
    assert steps == before + [last];
    ExecuteJoin(Initial(threads), before, [last]);
    var was, now := Execute(Initial(threads), before).value, Execute(Initial(threads), steps).value;
    assert now == After(was, last);
    assert StateAt(threads, steps, n + 1) == now by {
      assert steps[..n + 1] == steps;
    }
    if now.remaining == now.threads[t].seen {
      i := n + 1;
    } else {
      i := SeenInAttempt(threads, before, t);
      forall j | i <= j <= n
        ensures StateAt(threads, steps, j) == StateAt(threads, before, j)
      {
        assert steps[..j] == before[..j];
      }
    }
  }

  /** In every interleaving a consume is given up only if at some moment of it the budget did not cover the amount. */
  lemma GivenUpOnlyIfShort(threads: nat, steps: seq<Step>, t: nat) returns (i: nat)
    requires Execute(Initial(threads), steps).Some? && Enabled(Execute(Initial(threads), steps).value, Exchange(t))
    requires After(Execute(Initial(threads), steps).value, Exchange(t)).threads[t].Idle?
    ensures var th := Execute(Initial(threads), steps).value.threads[t];
            && i <= |steps| && StateAt(threads, steps, i).remaining < th.delta
            && TryingSince(threads, steps, i, t, th.limiter, th.delta)
  {
    i := SeenInAttempt(threads, steps, t);
  }

  /** An exchange that was outrun is tried again on what was found, and with nobody in between that decides. */
  lemma SecondTryDecides(s: State, t: nat)
    requires Enabled(s, Exchange(t)) && After(s, Exchange(t)).threads[t].Trying?
    ensures Enabled(After(s, Exchange(t)), Exchange(t))
    ensures var r, delta := After(After(s, Exchange(t)), Exchange(t)), s.threads[t].delta;
            if delta <= s.remaining then r.threads[t].Won? && r.remaining == s.remaining - delta
            else r == s.(threads := s.threads[t := Idle])
  {
    var u := After(s, Exchange(t));
    assert s.threads[t := u.threads[t]][t := Idle] == s.threads[t := Idle];
  }

  /** One undisturbed consume. */
  function ConsumeAlone(t: nat, l: nat, delta: u32): seq<Step> {
    [StartConsume(t, l, delta), Exchange(t), LowerLeast(t), AddConsumed(t)]
  }

  lemma TwoSteps(s: State, a: Step, b: Step)
    requires Enabled(s, a) && Enabled(After(s, a), b)
    ensures Execute(s, [a, b]) == Some(After(After(s, a), b))
  {
    assert [a, b][1..] == [b] && [b][1..] == [];
    assert Execute(After(s, a), [b]) == Execute(After(After(s, a), b), []);
  }

  /** A consume with nobody in between takes the amount if the budget covers it. */
  lemma CoveredIsConsumed(s: State, t: nat, l: nat, delta: u32)
    requires Inv(s) && Enabled(s, StartConsume(t, l, delta)) && delta <= s.remaining
    ensures Execute(s, ConsumeAlone(t, l, delta)).Some?
    ensures var r := Execute(s, ConsumeAlone(t, l, delta)).value;
            && r.remaining == s.remaining - delta && r.claims == s.claims[l := s.claims[l] + delta]
            && r.threads == s.threads && r.live == s.live && r.least == Min(s.least, r.remaining)
  {
    var a := After(s, StartConsume(t, l, delta));
    var b := After(a, Exchange(t));
    var c := After(b, LowerLeast(t));
    TwoSteps(s, StartConsume(t, l, delta), Exchange(t));
    TwoSteps(b, LowerLeast(t), AddConsumed(t));
    assert ConsumeAlone(t, l, delta) == [StartConsume(t, l, delta), Exchange(t)] + [LowerLeast(t), AddConsumed(t)];
    ExecuteJoin(s, [StartConsume(t, l, delta), Exchange(t)], [LowerLeast(t), AddConsumed(t)]);
    assert After(c, AddConsumed(t)).threads == s.threads;
  }

  /** And otherwise gives up with everything as it was. */
  lemma UncoveredIsRefused(s: State, t: nat, l: nat, delta: u32)
    requires Enabled(s, StartConsume(t, l, delta)) && delta > s.remaining
    ensures Execute(s, [StartConsume(t, l, delta), Exchange(t)]) == Some(s)
  {
    TwoSteps(s, StartConsume(t, l, delta), Exchange(t));
    var r := After(After(s, StartConsume(t, l, delta)), Exchange(t));
    assert r.threads == s.threads;
  }

  /** So it is from every state that can be reached. */
  lemma ConsumeIsExact(threads: nat, steps: seq<Step>, t: nat, l: nat, delta: u32)
    requires Execute(Initial(threads), steps).Some?
    requires Enabled(Execute(Initial(threads), steps).value, StartConsume(t, l, delta))
    ensures var s := Execute(Initial(threads), steps).value;
            if delta <= s.remaining then
              var r := Execute(s, ConsumeAlone(t, l, delta));
              && r.Some? && r.value.remaining == s.remaining - delta
              && r.value.claims == s.claims[l := s.claims[l] + delta] && r.value.threads == s.threads
            else Execute(s, [StartConsume(t, l, delta), Exchange(t)]) == Some(s)
  {
    InitialInv(threads);
    RunKeepsInv(Initial(threads), steps);
    var s := Execute(Initial(threads), steps).value;
    if delta <= s.remaining {
      CoveredIsConsumed(s, t, l, delta);
    } else {
      UncoveredIsRefused(s, t, l, delta);
    }
  }

  /** A release with nobody in between gives exactly its amount back. */
  lemma ReleasedIsGivenBack(s: State, t: nat, l: nat, delta: u32)
    requires Enabled(s, StartRelease(t, l, delta))
    ensures Execute(s, [StartRelease(t, l, delta), SubConsumed(t)]).Some?
    ensures var r := Execute(s, [StartRelease(t, l, delta), SubConsumed(t)]).value;
            && r.remaining == s.remaining + delta && r.claims == s.claims[l := s.claims[l] - delta]
            && r.threads == s.threads && r.live == s.live && r.least == s.least
  {
    TwoSteps(s, StartRelease(t, l, delta), SubConsumed(t));
    assert After(After(s, StartRelease(t, l, delta)), SubConsumed(t)).threads == s.threads;
  }

  /** When no operation is under way the recorded minimum is the least value the budget ever had. */
  lemma AtRestLeastIsLowest(threads: nat, steps: seq<Step>)
    requires Execute(Initial(threads), steps).Some?
    requires forall t :: 0 <= t < |Execute(Initial(threads), steps).value.threads| ==>
               Execute(Initial(threads), steps).value.threads[t].Idle?
    ensures var s := Execute(Initial(threads), steps).value;
            && s.least == LowestOf(Initial(threads), steps)
            && s.consumed == s.claims && s.remaining + Sum(s.claims) == U32_MAX
  {
    InitialInv(threads);
    RunKeepsInv(Initial(threads), steps);
    LowestIsRecorded(Initial(threads), steps);
    var s := Execute(Initial(threads), steps).value;
    AllIdle(s.threads);
    forall l: nat | l < |s.consumed|
      ensures s.consumed[l] == s.claims[l]
    {
      assert CounterOk(s, l);
      ClaimFits(s, l);
    }
  }

  /** The least value of the budget over the states of a run. */
  function LowestOf(s: State, steps: seq<Step>): int
    decreases |steps|
  {
    if steps == [] || !Enabled(s, steps[0]) then s.remaining
    else Min(s.remaining, LowestOf(After(s, steps[0]), steps[1..]))
  }

  lemma {:induction false} LowestIsRecorded(s: State, steps: seq<Step>)
    requires Inv(s) && Execute(s, steps).Some?
    ensures Execute(s, steps).value.lowest == Min(s.lowest, LowestOf(s, steps))
    decreases |steps|
  {
    if steps != [] {
      var s' := After(s, steps[0]);
      InvKept(s, steps[0]);
      LowestIsRecorded(s', steps[1..]);
      LowestStep(s, steps[0]);
    }
  }

  lemma LowestStep(s: State, step: Step)
    requires Inv(s) && Enabled(s, step)
    ensures After(s, step).lowest == Min(s.lowest, After(s, step).remaining)
  {
    InvKept(s, step);
  }
}
