/**
 * The reference-counted pointer whose handles can be turned into handles to parts of the same object.
 * Every step is one atomic operation of one thread; ownership of the count moves between handles by hand.
 */
module SharedPointer {
  import opened Prelude

  /**
   * `Held` is a live `DArc` or `DArcStruct`; `Awaiting` the placeholder that owns the count while the inner future
   * runs; `Dropping` a handle whose count is given up, and which found it to be the last one or not.
   */
  datatype Handle = Held(block: nat) | Awaiting(block: nat) | Dropping(block: nat, last: bool) | Gone

  /** A control block: its counter, and how often its deleter has run. */
  datatype Block = Block(refCount: int, deletions: nat)

  datatype State = State(blocks: seq<Block>, handles: seq<Handle>)

  datatype Step =
    | New                    // `DArc::new`
    | Clone(h: nat)          // `clone`, and the first half of `gep`
    | IntoGep(h: nat)        // also `into_arc` and `into_gep_async`
    | IntoGetSub(h: nat)
    | BeginAwait(h: nat)     // `await_inner` up to its await point
    | EndAwait(h: nat)
    | AbandonAwait(h: nat)   // the inner future panics or is cancelled
    | LiftOk(h: nat)         // `lift_result` on `Ok`, `lift_option` on `Some`
    | LiftErr(h: nat)        // `lift_result` on `Err`, `lift_option` on `None`: a unit handle takes over and is dropped
    | Drop(h: nat)           // the counter is decremented
    | FinishDrop(h: nat)     // the deleter runs if the counter was one

  const EMPTY := State([], [])

  predicate IsHeld(s: State, h: nat) {
    h < |s.handles| && s.handles[h].Held? && s.handles[h].block < |s.blocks|
  }

  predicate IsAwaiting(s: State, h: nat) {
    h < |s.handles| && s.handles[h].Awaiting? && s.handles[h].block < |s.blocks|
  }

  predicate Enabled(s: State, step: Step) {
    match step
    case New => true
    case EndAwait(h) => IsAwaiting(s, h)
    case AbandonAwait(h) => IsAwaiting(s, h)
    case FinishDrop(h) => h < |s.handles| && s.handles[h].Dropping? && s.handles[h].block < |s.blocks|
    case _ => IsHeld(s, step.h)
  }

  /** Giving up one count of a block; the handle remembers whether it was the last. */
  function Decrement(s: State, h: nat): State
    requires h < |s.handles| && !s.handles[h].Gone? && s.handles[h].block < |s.blocks|
  {
    var b := s.handles[h].block;
    var previous := s.blocks[b].refCount;
    State(s.blocks[b := s.blocks[b].(refCount := previous - 1)], s.handles[h := Dropping(b, previous == 1)])
  }

  /** The handle is forgotten without touching the count, which a new handle owns from now on. */
  function HandOver(s: State, h: nat): State
    requires IsHeld(s, h)
  {
    s.(handles := s.handles[h := Gone] + [Held(s.handles[h].block)])
  }

  function After(s: State, step: Step): State
    requires Enabled(s, step)
  {
    match step
    case New => State(s.blocks + [Block(1, 0)], s.handles + [Held(|s.blocks|)])
    case Clone(h) =>
      var b := s.handles[h].block;
      State(s.blocks[b := s.blocks[b].(refCount := s.blocks[b].refCount + 1)], s.handles + [Held(b)])
    case IntoGep(h) => HandOver(s, h)
    case IntoGetSub(h) => HandOver(s, h)
    case BeginAwait(h) => s.(handles := s.handles[h := Awaiting(s.handles[h].block)])
    case EndAwait(h) => s.(handles := s.handles[h := Held(s.handles[h].block)])
    case AbandonAwait(h) => Decrement(s, h)
    case LiftOk(h) => HandOver(s, h)
    case LiftErr(h) => Decrement(s, h)
    case Drop(h) => Decrement(s, h)
    case FinishDrop(h) =>
      var b := s.handles[h].block;
      State(if s.handles[h].last then s.blocks[b := s.blocks[b].(deletions := s.blocks[b].deletions + 1)] else s.blocks,
            s.handles[h := Gone])
  }

  // ----- the invariant

  predicate Owns(h: Handle, b: nat) {
    (h.Held? || h.Awaiting?) && h.block == b
  }

  /** How many handles own a count of block `b`. */
  function Owners(handles: seq<Handle>, b: nat): nat {
    if handles == [] then 0 else Owners(handles[1..], b) + (if Owns(handles[0], b) then 1 else 0)
  }

  /** How many handles are about to run the deleter of block `b`. */
  function Deleters(handles: seq<Handle>, b: nat): nat {
    if handles == [] then 0 else Deleters(handles[1..], b) + (if handles[0] == Dropping(b, true) then 1 else 0)
  }

  ghost predicate BlockOk(s: State, b: nat)
    requires b < |s.blocks|
  {
    && s.blocks[b].refCount == Owners(s.handles, b)
    && s.blocks[b].deletions + Deleters(s.handles, b) == (if Owners(s.handles, b) == 0 then 1 else 0)
  }

  ghost predicate Inv(s: State) {
    && (forall b: nat :: b < |s.blocks| ==> BlockOk(s, b))
    && (forall h :: 0 <= h < |s.handles| && !s.handles[h].Gone? ==> s.handles[h].block < |s.blocks|)
  }

  lemma {:induction false} HandleUpdate(handles: seq<Handle>, h: nat, v: Handle, b: nat)
    requires h < |handles|
    ensures Owners(handles[h := v], b) == Owners(handles, b) - Owners([handles[h]], b) + Owners([v], b)
    ensures Deleters(handles[h := v], b) == Deleters(handles, b) - Deleters([handles[h]], b) + Deleters([v], b)
    ensures Owners([handles[h]], b) <= Owners(handles, b)
  {
    if h == 0 {
      assert handles[h := v][1..] == handles[1..];
    } else {
      assert handles[h := v][1..] == handles[1..][h - 1 := v];
      HandleUpdate(handles[1..], h - 1, v, b);
    }
  }

  lemma {:induction false} HandleAppend(handles: seq<Handle>, v: Handle, b: nat)
    ensures Owners(handles + [v], b) == Owners(handles, b) + Owners([v], b)
    ensures Deleters(handles + [v], b) == Deleters(handles, b) + Deleters([v], b)
  {
    if handles == [] {
      assert handles + [v] == [v];
    } else {
      assert (handles + [v])[1..] == handles[1..] + [v];
      HandleAppend(handles[1..], v, b);
    }
  }

  /** Handles to other blocks do not matter. */
  lemma {:induction false} NobodyOwns(handles: seq<Handle>, b: nat)
    requires forall h :: 0 <= h < |handles| && !handles[h].Gone? ==> handles[h].block < b
    ensures Owners(handles, b) == 0 && Deleters(handles, b) == 0
  {
    if handles != [] {
      assert handles[0].Gone? || handles[0].block < b;
      NobodyOwns(handles[1..], b);
    }
  }

  lemma DecrementKeeps(s: State, h: nat, b: nat)
    requires h < |s.handles| && (s.handles[h].Held? || s.handles[h].Awaiting?) && s.handles[h].block < |s.blocks|
    requires b < |s.blocks| && BlockOk(s, b) && BlockOk(s, s.handles[h].block)
    ensures BlockOk(Decrement(s, h), b)
  {
    HandleUpdate(s.handles, h, Decrement(s, h).handles[h], b);
  }

  lemma FinishKeeps(s: State, h: nat, b: nat)
    requires Enabled(s, FinishDrop(h)) && b < |s.blocks| && BlockOk(s, b)
    ensures BlockOk(After(s, FinishDrop(h)), b)
  {
    HandleUpdate(s.handles, h, Gone, b);
  }

  lemma CloneKeeps(s: State, h: nat, b: nat)
    requires Enabled(s, Clone(h)) && b < |s.blocks| && BlockOk(s, b)
    ensures BlockOk(After(s, Clone(h)), b)
  {
    var own := s.handles[h].block;
    OwnedOnce(s.handles, h, own);
    HandleAppend(s.handles, Held(own), b);
  }

  lemma NewKeeps(s: State, b: nat)
    requires Inv(s) && b <= |s.blocks|
    ensures BlockOk(After(s, New), b)
  {
    HandleAppend(s.handles, Held(|s.blocks|), b);
    if b < |s.blocks| {
      assert BlockOk(s, b);
    } else {
      NobodyOwns(s.handles, b);
    }
  }

  lemma BlockKept(s: State, step: Step, b: nat)
    requires Inv(s) && Enabled(s, step) && b < |After(s, step).blocks|
    ensures BlockOk(After(s, step), b)
  {
    assert b < |s.blocks| ==> BlockOk(s, b);
    match step
    case New => NewKeeps(s, b);
    case Clone(h) => CloneKeeps(s, h, b);
    case IntoGep(h) => HandedOver(s, h, b);
    case IntoGetSub(h) => HandedOver(s, h, b);
    case LiftOk(h) => HandedOver(s, h, b);
    case BeginAwait(h) => HandleUpdate(s.handles, h, Awaiting(s.handles[h].block), b);
    case EndAwait(h) => HandleUpdate(s.handles, h, Held(s.handles[h].block), b);
    case AbandonAwait(h) => DecrementKeeps(s, h, b);
    case LiftErr(h) => DecrementKeeps(s, h, b);
    case Drop(h) => DecrementKeeps(s, h, b);
    case FinishDrop(h) => FinishKeeps(s, h, b);
  }

  lemma HandedOver(s: State, h: nat, b: nat)
    requires IsHeld(s, h)
    ensures Owners(HandOver(s, h).handles, b) == Owners(s.handles, b)
    ensures Deleters(HandOver(s, h).handles, b) == Deleters(s.handles, b)
  {
    HandleUpdate(s.handles, h, Gone, b);
    HandleAppend(s.handles[h := Gone], Held(s.handles[h].block), b);
  }

  lemma {:induction false} OwnedOnce(handles: seq<Handle>, h: nat, b: nat)
    requires h < |handles| && Owns(handles[h], b)
    ensures Owners(handles, b) > 0
  {
    if h > 0 {
      OwnedOnce(handles[1..], h - 1, b);
    }
  }

  lemma InvKept(s: State, step: Step)
    requires Inv(s) && Enabled(s, step)
    ensures Inv(After(s, step))
  {
    forall b: nat | b < |After(s, step).blocks|
      ensures BlockOk(After(s, step), b)
    {
      BlockKept(s, step, b);
    }
  }

  /**
   * What a step does to the number of owners of a block: new handles and clones add one, dropping, a failed lift and an
   * abandoned await take one away, and every conversion hands its count over.
   */
  lemma OwnersChange(s: State, step: Step, b: nat)
    requires Inv(s) && Enabled(s, step)
    ensures Owners(After(s, step).handles, b) - Owners(s.handles, b) ==
            match step
            case New => if b == |s.blocks| then 1 else 0
            case Clone(h) => if s.handles[h].block == b then 1 else 0
            case Drop(h) => if s.handles[h].block == b then -1 else 0
            case LiftErr(h) => if s.handles[h].block == b then -1 else 0
            case AbandonAwait(h) => if s.handles[h].block == b then -1 else 0
            case _ => 0
  {
    match step
    case New => HandleAppend(s.handles, Held(|s.blocks|), b);
    case Clone(h) => HandleAppend(s.handles, Held(s.handles[h].block), b);
    case IntoGep(h) => HandedOver(s, h, b);
    case IntoGetSub(h) => HandedOver(s, h, b);
    case LiftOk(h) => HandedOver(s, h, b);
    case Drop(h) => OwnersLost(s, h, b);
    case LiftErr(h) => OwnersLost(s, h, b);
    case AbandonAwait(h) => OwnersLost(s, h, b);
    case BeginAwait(h) => OwnersKept(s, step, b);
    case EndAwait(h) => OwnersKept(s, step, b);
    case FinishDrop(h) => OwnersKept(s, step, b);
  }

  lemma OwnersLost(s: State, h: nat, b: nat)
    requires h < |s.handles| && (s.handles[h].Held? || s.handles[h].Awaiting?) && s.handles[h].block < |s.blocks|
    ensures Owners(Decrement(s, h).handles, b) == Owners(s.handles, b) - if s.handles[h].block == b then 1 else 0
  {
    HandleUpdate(s.handles, h, Decrement(s, h).handles[h], b);
  }

  lemma OwnersKept(s: State, step: Step, b: nat)
    requires (step.BeginAwait? || step.EndAwait? || step.FinishDrop?) && Enabled(s, step)
    ensures Owners(After(s, step).handles, b) == Owners(s.handles, b)
  {
    HandleUpdate(s.handles, step.h, After(s, step).handles[step.h], b);
  }

  // ----- every interleaving

  function Execute(s: State, steps: seq<Step>): Option<State>
    decreases |steps|
  {
    if steps == [] then Some(s)
    else if !Enabled(s, steps[0]) then None
    else Execute(After(s, steps[0]), steps[1..])
  }

  lemma {:induction false} RunKeepsInv(s: State, steps: seq<Step>)
    requires Inv(s) && Execute(s, steps).Some?
    ensures Inv(Execute(s, steps).value)
    decreases |steps|
  {
    if steps != [] {
      InvKept(s, steps[0]);
      RunKeepsInv(After(s, steps[0]), steps[1..]);
    }
  }

  /**
   * In every interleaving a block's counter is the number of handles that own it, and its deleter has run at most once.
   */
  lemma CountsAreOwners(steps: seq<Step>, b: nat)
    requires Execute(EMPTY, steps).Some? && b < |Execute(EMPTY, steps).value.blocks|
    ensures var s := Execute(EMPTY, steps).value;
            s.blocks[b].refCount == Owners(s.handles, b) && s.blocks[b].deletions <= 1
  {
    RunKeepsInv(EMPTY, steps);
    assert BlockOk(Execute(EMPTY, steps).value, b);
  }

  /** In every interleaving the block of a handle that owns it has not been deleted. */
  lemma OwnedIsNotDeleted(steps: seq<Step>, h: nat)
    requires Execute(EMPTY, steps).Some? && h < |Execute(EMPTY, steps).value.handles|
    ensures var s := Execute(EMPTY, steps).value;
            s.handles[h].Held? || s.handles[h].Awaiting? ==>
              s.handles[h].block < |s.blocks| && s.blocks[s.handles[h].block].deletions == 0
  {
    RunKeepsInv(EMPTY, steps);
    var s := Execute(EMPTY, steps).value;
    if s.handles[h].Held? || s.handles[h].Awaiting? {
      OwnedOnce(s.handles, h, s.handles[h].block);
      assert BlockOk(s, s.handles[h].block);
    }
  }

  /** Once the last owner has let go and finished, the deleter has run: exactly once, and not before. */
  lemma DeletedExactlyOnce(steps: seq<Step>, b: nat)
    requires Execute(EMPTY, steps).Some? && b < |Execute(EMPTY, steps).value.blocks|
    ensures var s := Execute(EMPTY, steps).value;
            && (s.blocks[b].deletions == 1 <==> Owners(s.handles, b) == 0 && Deleters(s.handles, b) == 0)
            && ((forall h :: 0 <= h < |s.handles| ==> s.handles[h].Gone?) ==> s.blocks[b].deletions == 1)
  {
    RunKeepsInv(EMPTY, steps);
    var s := Execute(EMPTY, steps).value;
    assert BlockOk(s, b);
    if forall h :: 0 <= h < |s.handles| ==> s.handles[h].Gone? {
      NobodyOwns(s.handles, b);
    }
  }
}
