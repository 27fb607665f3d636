/** The VMs of a transaction as they run: objects on a stack, which share one limiter and the supervisor's counters. */
module ReplaySession {
  import opened Prelude
  import opened PagedStorage
  import opened Replay
  import Calldata
  import StorageBudget
  import StorageDelta

  class RunningVm<S> {
    const message: Message
    const conf: Permissions
    const token: StorageMode
    const storage: Storage
    var state: S
    var events: seq<Event>

    ghost function View(): VmData<S>
      reads this, storage
    {
      VmData(state, message, conf, token, storage.pages, events)
    }

    constructor (state: S, message: Message, conf: Permissions, token: StorageMode, storage: Storage)
      ensures this.storage == storage && View() == VmData(state, message, conf, token, storage.pages, [])
    {
      this.state, this.message, this.conf, this.token, this.storage := state, message, conf, token, storage;
      events := [];
    }
  }

  ghost function StoragesOf<S>(vms: seq<RunningVm<S>>): set<Storage> {
    set vm | vm in vms :: vm.storage
  }

  ghost function Views<S>(vms: seq<RunningVm<S>>): seq<VmData<S>>
    reads vms, StoragesOf(vms)
  {
    seq(|vms|, (i: nat) requires i < |vms| reads vms, StoragesOf(vms) => vms[i].View())
  }

  twostate lemma ViewsUntouched<S>(vms: seq<RunningVm<S>>)
    requires forall vm :: vm in vms ==> unchanged(vm) && unchanged(vm.storage)
    ensures Views(vms) == old(Views(vms))
  {
    forall i | 0 <= i < |vms|
      ensures Views(vms)[i] == old(Views(vms))[i]
    {
      assert vms[i] in vms;
    }
  }

  /** No two VMs are one object or share a storage. */
  ghost predicate Apart<S>(vms: seq<RunningVm<S>>) {
    forall i, j :: 0 <= i < j < |vms| ==> vms[i] != vms[j] && vms[i].storage != vms[j].storage
  }

  lemma EmptyShowsHost(host: Host, slot: SlotId, index: u32, len: u32)
    requires index + len <= U32_MAX
    ensures Bytes(map[], host, slot, index, len) == seq(len, (k: nat) => host.content(slot, index + k))
  {
    forall k | 0 <= k < len
      ensures Bytes(map[], host, slot, index, len)[k] == host.content(slot, index + k)
    {
      assert Bytes(map[], host, slot, index, len)[k] == View(map[], host, slot, index + k);
      assert (index + k) / 32 * 32 + (index + k) % 32 == index + k;
    }
  }

  lemma PushedApart<S>(vms: seq<RunningVm<S>>, last: RunningVm<S>)
    requires Apart(vms) && forall vm :: vm in vms ==> vm != last && vm.storage != last.storage
    ensures Apart(vms + [last])
  {
    var all := vms + [last];
    forall i, j | 0 <= i < j < |all|
      ensures all[i] != all[j] && all[i].storage != all[j].storage
    {
      assert all[i] == vms[i] && vms[i] in vms;
    }
  }

  lemma Popped<S>(vms: seq<RunningVm<S>>)
    requires vms != [] && Apart(vms)
    ensures var n := |vms| - 1;
            Apart(vms[..n]) && forall vm :: vm in vms[..n] ==> vm != vms[n] && vm.storage != vms[n].storage
  {
  }

  /** A storage on a limiter of its own, with the code of a deployment in it. */
  method Deploy(world: World) returns (storage: Storage, r: Outcome)
    ensures fresh(storage) && fresh(storage.limiter)
    ensures storage.host == world.hosts(world.message.address, LatestNonFinal)
    ensures (storage.State(), r) == Deployed(world)
  {
    var pages := new Limiter(world.pageLimit);
    storage := new Storage(pages, world.hosts(world.message.address, LatestNonFinal));
    match world.code {
      case None => r := Ok(());
      case Some(code) => r := storage.WriteCode(world.codeSlot, code);
    }
  }

  class Session<S> {
    const program: Program<S>
    const world: World
    const node: Node
    const limiter: Limiter
    var top: RunningVm<S>
    var callers: seq<RunningVm<S>>
    var started: seq<Message>
    var asked: nat
    var callNo: nat
    var posted: map<nat, seq<byte>>
    var submitted: seq<nat>
    var ended: Option<Ending>

    /** The objects this session may change. */
    ghost var repr: set<object>

    ghost predicate Owns(vm: RunningVm<S>)
      reads this`repr
    {
      && vm in repr && vm.storage in repr
      && vm.storage.limiter == limiter && vm.storage.host == world.hosts(vm.message.address, vm.token)
    }

    ghost predicate Valid()
      reads this
    {
      && this in repr && limiter in repr && Owns(top) && Apart(callers)
      && forall vm :: vm in callers ==> Owns(vm) && vm != top && vm.storage != top.storage
    }

    ghost function View(): Vms<S>
      reads this, limiter, top, top.storage, callers, StoragesOf(callers)
    {
      Vms(top.View(), Views(callers), limiter.remaining, started, asked, callNo, ended)
    }

    ghost function Kept(): Books
      reads this
    {
      Books(posted, submitted)
    }

    constructor (program: Program<S>, world: World, node: Node, state: S)
      ensures Valid() && fresh(repr)
      ensures this.program == program && this.world == world && this.node == node
      ensures View() == Replay.Outermost(world, state) && Kept() == Books(map[], [])
    {
      this.program, this.world, this.node := program, world, node;
      started, asked, callNo, posted, submitted := [world.message], 0, 0, map[], [];
      var storage, r := Deploy(world);
      var vm := new RunningVm(state, world.message, world.permissions, LatestNonFinal, storage);
      limiter, top, callers := storage.limiter, vm, [];
      ended := if r.Ok? then None else Some(Internal);
      repr := {this, storage.limiter, vm, storage};
    }

    /** The running VM goes on with a reply. */
    method Resume(reply: Reply)
      requires Valid()
      modifies top
      ensures View() == Replay.Resume(program, old(View()), reply)
    {
      top.state := program.resumes(top.state, reply);
      ViewsUntouched(callers);
    }

    /** The running VM is gone, and the last that waits takes its place. */
    method Pop()
      requires Valid() && callers != []
      modifies this`top, this`callers
      ensures Valid() && callers == old(callers)[..|old(callers)| - 1] && top == old(callers)[|old(callers)| - 1]
      ensures View() == old(View()).(top := old(Views(callers)[|callers| - 1]),
                                     callers := old(Views(callers)[..|callers| - 1]))
    {
      var n := |callers|;
      Popped(callers);
      top, callers := callers[n - 1], callers[..n - 1];
    }

    method End(r: RunOk)
      requires Valid()
      modifies this`top, this`callers, this`ended, callers
      ensures Valid()
      ensures View() == Replay.End(program, old(View()), r)
      decreases |callers|
    {
      if callers == [] {
        ended := Some(Finished(r));
        return;
      }
      var child := top;
      Pop();
      if r.VmError? && !child.message.kind.Sandboxed? {
        End(r);
      } else {
        Resume(Data(AsBytes(r)));
      }
    }

    /** A new VM on top of the one that asked for it. */
    method Push(child: RunningVm<S>)
      requires Valid() && child !in repr && child.storage !in repr
      requires child.storage.limiter == limiter
      requires child.storage.host == world.hosts(child.message.address, child.token)
      modifies this`top, this`callers, this`started, this`repr
      ensures Valid() && repr == old(repr) + {child, child.storage}
      ensures View() == old(View()).(top := child.View(), callers := old(View()).callers + [old(View()).top],
                                     started := old(View()).started + [child.message])
    {
      ghost var waiting := callers + [top];
      ghost var views := Views(callers) + [top.View()];
      assert Views(waiting) == views;
      repr := repr + {child, child.storage};
      callers, top, started := callers + [top], child, started + [child.message];
      ViewsUntouched(waiting);
      assert Views(callers) == views;
      PushedApart(old(callers), old(top));
    }

    /** Runs the code for a message on a storage, unless it cannot be loaded. */
    method Start(message: Message, conf: Permissions, token: StorageMode, storage: Storage)
      requires Valid() && storage !in repr
      requires storage.limiter == limiter && storage.host == world.hosts(message.address, token)
      modifies this`top, this`callers, this`started, this`ended, this`repr
      ensures Valid() && fresh(repr - old(repr) - {storage})
      ensures View() == Replay.Start(program, old(View()), message, conf, token, storage.pages)
    {
      var loaded := program.starts(message, conf, storage.pages, started);
      match loaded {
        case None => ended := Some(Internal);
        case Some(state) =>
          var child := new RunningVm(state, message, conf, token, storage);
          ViewsUntouched(callers);
          assert View() == old(View());
          Push(child);
      }
    }

    method StartEmpty(message: Message, conf: Permissions, token: StorageMode)
      requires Valid()
      modifies this`top, this`callers, this`started, this`ended, this`repr
      ensures Valid() && fresh(repr - old(repr))
      ensures View() == Replay.Start(program, old(View()), message, conf, token, map[])
    {
      var storage := new Storage(limiter, world.hosts(message.address, token));
      ViewsUntouched(callers);
      assert View() == old(View());
      Start(message, conf, token, storage);
    }

    method HostError()
      requires Valid()
      modifies this`top, this`callers, this`ended, callers
      ensures Valid()
      ensures View() == Replay.HostError(program, world, old(View()))
    {
      match world.errors(top.message.address, top.token) {
        case None => ended := Some(Internal);
        case Some(msg) => End(VmError(msg, None));
      }
    }

    method Fetch(slot: SlotId, index: u32, len: u32) returns (r: Option<seq<byte>>)
      requires Valid() && index + len <= U32_MAX
      ensures r == Fetched(world, top.View(), slot, index, len)
    {
      if top.conf.mode.Default? {
        var vec := new byte[len];
        var read := top.storage.Read(slot, index, vec);
        if read.Err? {
          return None;
        }
        assert vec[..] == Bytes(top.storage.pages, top.storage.host, slot, index, len);
        return Some(vec[..]);
      }
      var host := world.hosts(top.message.address, top.token);
      if host.fails(slot, index, len) {
        return None;
      }
      EmptyShowsHost(host, slot, index, len);
      return Some(seq(len, (k: nat) => host.content(slot, index + k)));
    }

    method ServeRead(slot: SlotId, index: u32, len: u32)
      requires Valid()
      modifies this`top, this`callers, this`ended, top, callers
      ensures Valid()
      ensures View() == ReadStep(program, world, old(View()), slot, index, len)
    {
      if !top.conf.canReadStorage {
        Resume(Refused(Forbidden));
      } else if index + len > U32_MAX {
        Resume(Refused(Inval));
      } else {
        var data := Fetch(slot, index, len);
        ViewsUntouched(callers);
        assert View() == old(View());
        match data {
          case None => HostError();
          case Some(bytes) => Resume(Data(bytes));
        }
      }
    }

    method ServeWrite(slot: SlotId, index: u32, data: seq<byte>)
      requires Valid()
      modifies this`top, this`callers, this`ended, top, callers, top.storage`pages, limiter
      ensures Valid()
      ensures View() == WriteStep(program, world, old(View()), slot, index, data)
    {
      if !top.conf.isDeterministic || !top.conf.canWriteStorage {
        Resume(Refused(Forbidden));
      } else if index + |data| > U32_MAX {
        Resume(Refused(Inval));
      } else if slot in world.lockedSlots {
        Resume(Refused(Forbidden));
      } else {
        var r := top.storage.WriteExactly(slot, index, data);
        ViewsUntouched(callers);
        if r.Ok? {
          Resume(Nothing);
        } else if r.error == OutOfStorage {
          End(NO_BUDGET);
        } else {
          HostError();
        }
      }
    }

    method Record(topics: seq<seq<byte>>, data: seq<byte>) returns (ok: bool)
      requires Valid()
      modifies top, limiter
      ensures ok == (StorageBudget.EventSize(topics, data) <= old(View()).remaining)
      ensures View() == if ok then Recorded(old(View()), topics, data) else old(View())
    {
      ok := limiter.Consume(StorageBudget.EventSize(topics, data));
      if ok {
        top.events := top.events + [topics + [data]];
      }
      ViewsUntouched(callers);
    }

    method ServeEvent(topics: seq<seq<byte>>, blob: seq<Calldata.Entry>)
      requires Valid()
      modifies this`top, this`callers, this`ended, top, callers, limiter
      ensures Valid()
      ensures View() == EventStep(program, old(View()), topics, blob)
    {
      if !top.conf.isDeterministic {
        Resume(Refused(Forbidden));
      } else if !StorageBudget.TopicsOk(topics) {
        Resume(Refused(Inval));
      } else {
        var ok := Record(topics, StorageBudget.BlobData(blob));
        if ok {
          Resume(Nothing);
        } else {
          End(NO_BUDGET);
        }
      }
    }

    /** A call is counted, and its result posted or the run of its block submitted. */
    method Enter(r: RunOk)
      requires LeaderResult(node, callNo) == Ok(r)
      modifies this`callNo, this`posted, this`submitted
      ensures View() == old(View()).(callNo := old(callNo) + 1)
      ensures Kept() == Entered(node, old(Kept()), old(callNo))
    {
      var call := callNo;
      callNo := callNo + 1;
      match node {
        case Leader(_, _) => posted := posted[call := AsBytes(r)];
        case Replayer(_, _, isSync) =>
          if !isSync {
            submitted := submitted + [call];
          }
      }
    }

    method SetVmRunResult(r: RunOk)
      requires Valid()
      modifies this`top, this`callers, this`ended, top, callers
      ensures Valid() && View() == HandedOver(program, old(View()), r)
    {
      if r.VmError? {
        End(r);
      } else {
        Resume(Data(AsBytes(r)));
      }
    }

    method RunNondet()
      requires Valid() && top.conf.canSpawnNondet
      modifies this`top, this`callers, this`ended, this`callNo, this`posted, this`submitted, top, callers
      ensures Valid() && View() == NondetStep(program, node, old(View()))
      ensures Kept() == Entered(node, old(Kept()), old(callNo))
    {
      var r := LeaderResult(node, callNo);
      if r.Err? {
        callNo, ended := callNo + 1, Some(Internal);
      } else {
        Enter(r.value);
        SetVmRunResult(r.value);
      }
    }

    method ServeNondet()
      requires Valid()
      modifies this`top, this`callers, this`ended, this`callNo, this`posted, this`submitted, top, callers
      ensures Valid() && View() == NondetStep(program, node, old(View()))
      ensures Kept() == if old(top).conf.canSpawnNondet then Entered(node, old(Kept()), old(callNo)) else old(Kept())
    {
      if !top.conf.canSpawnNondet {
        Resume(Refused(Forbidden));
      } else {
        RunNondet();
      }
    }

    method ServeCall(address: Address, args: Calldata.Value, mode: StorageMode)
      requires Valid()
      modifies this`top, this`callers, this`started, this`ended, this`repr, top
      ensures Valid() && fresh(repr - old(repr))
      ensures View() == CallStep(program, old(View()), address, args, mode)
    {
      if !top.conf.isDeterministic || !top.conf.canCallOthers {
        Resume(Refused(Forbidden));
        return;
      }
      var state := if mode.Default? then LatestNonFinal else mode;
      var message := Message(address, top.message.stack + [top.message.address], Main, Calldata.Encode(args));
      StartEmpty(message, CalleeConf(top.conf, state), state);
    }

    method ServeSandbox(data: seq<byte>, allowWriteOps: bool)
      requires Valid()
      modifies this`top, this`callers, this`started, this`ended, this`repr
      ensures Valid() && fresh(repr - old(repr))
      ensures View() == SandboxStep(program, old(View()), data, allowWriteOps)
    {
      var checkpoint := new Storage.Clone(top.storage);
      Start(top.message.(kind := Sandboxed, data := data), SandboxConf(top.conf, allowWriteOps), top.token, checkpoint);
    }

    method ServeOutside(question: seq<byte>)
      requires Valid()
      modifies this`asked, top
      ensures View() == OutsideStep(program, node, old(View()), question)
    {
      if top.conf.isDeterministic {
        Resume(Refused(Forbidden));
      } else {
        var answer := node.outside(asked, question);
        asked := asked + 1;
        Resume(Data(answer));
      }
    }

    method ServeGlCall(call: GlCall)
      requires Valid()
      modifies repr
      ensures Valid() && fresh(repr - old(repr))
      ensures View() == GlCallStep(program, node, old(View()), call)
      ensures Kept() == if call.RunNondet? && old(top).conf.canSpawnNondet
                        then Entered(node, old(Kept()), old(callNo)) else old(Kept())
    {
      assert forall vm :: vm in callers ==> vm in repr;
      match call {
        case EmitEvent(topics, blob) => ServeEvent(topics, blob);
        case RunNondet(_, _) => ServeNondet();
        case CallContract(address, args, mode) => ServeCall(address, args, mode);
        case Sandbox(data, allowWriteOps) => ServeSandbox(data, allowWriteOps);
        case AskOutside(question) => ServeOutside(question);
        case Finish(result) => End(result);
      }
    }

    /** Serves one request of the running VM, as the function of the same state says. */
    method Serve()
      requires Valid()
      modifies repr
      ensures Valid() && fresh(repr - old(repr))
      ensures View() == Step(program, world, node, old(View()))
      ensures Kept() == BooksStep(program, node, old(View()), old(Kept()))
    {
      if ended.Some? {
        return;
      }
      assert forall vm :: vm in callers ==> vm in repr;
      match program.asks(top.state) {
        case ReadStorage(slot, index, len) => ServeRead(slot, index, len);
        case WriteStorage(slot, index, data) => ServeWrite(slot, index, data);
        case Ask(call) => ServeGlCall(call);
      }
    }

    /** The VM of the contract the transaction is for. */
    function Outermost(): RunningVm<S>
      reads this
    {
      if callers != [] then callers[0] else top
    }
  }

  lemma OneMore<S>(p: Program<S>, world: World, node: Node, state: S, n: nat, was: Vms<S>, books: Books)
    requires was == Run(p, world, node, state, n) && books == BooksAfter(p, world, node, state, n)
    ensures Step(p, world, node, was) == Run(p, world, node, state, n + 1)
    ensures BooksStep(p, node, was, books) == BooksAfter(p, world, node, state, n + 1)
  {
  }

  method ServeAll<S>(program: Program<S>, world: World, node: Node, state: S, n: nat) returns (session: Session<S>)
    ensures session.Valid() && fresh(session.repr)
    ensures session.View() == Run(program, world, node, state, n)
    ensures session.Kept() == BooksAfter(program, world, node, state, n)
  {
    session := new Session(program, world, node, state);
    for i := 0 to n
      invariant session.Valid() && fresh(session.repr)
      invariant session.program == program && session.world == world && session.node == node
      invariant session.View() == Run(program, world, node, state, i)
      invariant session.Kept() == BooksAfter(program, world, node, state, i)
    {
      OneMore(program, world, node, state, i, session.View(), session.Kept());
      session.Serve();
    }
  }

  lemma ReplayEndsAlike<S>(p: Program<S>, world: World, leader: Node, replayer: Node, state: S, n: nat, a: Vms<S>,
                           b: Vms<S>, submitted: seq<nat>)
    requires leader.Leader? && replayer.Replayer? && Postable(leader.blocks) && IsEntry(world)
    requires a == Run(p, world, leader, state, n) && replayer.posted == BooksAfter(p, world, leader, state, n).posted
    requires b == Run(p, world, replayer, state, n)
    requires submitted == BooksAfter(p, world, replayer, state, n).submitted
    ensures SameState(a, b) && SubmittedAll(submitted, replayer, a.callNo)
  {
    ReplayIsFaithful(p, world, leader, replayer, state, n, n);
    ValidatorSubmitsEveryCall(p, world, leader, replayer, state, n, n);
  }

  /** The leader's run, then the same transaction on a node that is given what the leader posted. */
  method RunBoth<S>(program: Program<S>, world: World, outside: (nat, seq<byte>) -> seq<byte>, blocks: nat -> RunOk,
                    others: (nat, seq<byte>) -> seq<byte>, isSync: bool, state: S, n: nat)
    returns (leader: Session<S>, replayer: Session<S>)
    requires Postable(blocks) && IsEntry(world)
    ensures SameState(leader.View(), replayer.View())
    ensures replayer.submitted == if isSync then [] else Numbers(leader.callNo)
  {
    leader := ServeAll(program, world, Leader(outside, blocks), state, n);
    ghost var a := leader.View();
    var node := Replayer(others, leader.posted, isSync);
    replayer := ServeAll(program, world, node, state, n);
    ReplayEndsAlike(program, world, Leader(outside, blocks), node, state, n, a, replayer.View(), replayer.submitted);
  }

  lemma OutermostAlike<S>(a: Session<S>, b: Session<S>)
    requires SameState(a.View(), b.View())
    ensures a.Outermost().View() == b.Outermost().View()
  {
    var x, y := Views(a.callers), Views(b.callers);
    assert x == y;
    if a.callers != [] {
      assert x[0] == a.callers[0].View() && y[0] == b.callers[0].View();
    }
  }

  /** What each of two sessions that ended alike hands the host: the same bytes. */
  method HandOver<S>(leader: Session<S>, replayer: Session<S>)
    returns (changes: seq<StorageDelta.Delta>, replayed: seq<StorageDelta.Delta>)
    requires SameState(leader.View(), replayer.View())
    ensures StorageDelta.IsSummary(changes, leader.Outermost().storage.pages) && replayed == changes
    ensures replayer.Outermost().events == leader.Outermost().events
  {
    OutermostAlike(leader, replayer);
    changes := StorageDelta.MakeDelta(leader.Outermost().storage);
    replayed := StorageDelta.MakeDelta(replayer.Outermost().storage);
    StorageDelta.SummaryIsUnique(leader.Outermost().storage.pages, changes, replayed);
  }

  /**
   * The leader's run, then the same transaction on a node that is given what the leader posted: they end alike, and
   * hand the host the same storage changes, byte for byte, and the same events.
   */
  method LeadAndReplay<S>(program: Program<S>, world: World, outside: (nat, seq<byte>) -> seq<byte>,
                          blocks: nat -> RunOk, others: (nat, seq<byte>) -> seq<byte>, isSync: bool, state: S, n: nat)
    returns (leader: Session<S>, replayer: Session<S>,
             changes: seq<StorageDelta.Delta>, replayed: seq<StorageDelta.Delta>)
    requires Postable(blocks) && IsEntry(world)
    ensures SameState(leader.View(), replayer.View())
    ensures replayer.submitted == if isSync then [] else Numbers(leader.callNo)
    ensures StorageDelta.IsSummary(changes, leader.Outermost().storage.pages) && replayed == changes
    ensures replayer.Outermost().events == leader.Outermost().events
  {
    leader, replayer := RunBoth(program, world, outside, blocks, others, isSync, state, n);
    label Ran:
    changes, replayed := HandOver(leader, replayer);
    ViewsUntouched@Ran(leader.callers);
    ViewsUntouched@Ran(replayer.callers);
  }
}
