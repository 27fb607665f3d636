/**
 * A transaction is run by a leader, who executes the non-deterministic blocks and posts their results, and again by
 * nodes that are given those results. Contracts call each other and open sandboxes, all on one call counter and one
 * page budget. Whatever the blocks return, every node goes through the same states.
 */
module Replay {
  import opened Prelude
  import opened PagedStorage
  import Calldata
  import StorageBudget
  import Utf8

  // ----- results and their byte form

  /** Why a VM failed, for the log only: it is not part of a result's byte form. */
  type Cause = seq<byte>

  /** Messages are the UTF-8 bytes of a string. */
  datatype RunOk = Return(data: seq<byte>) | UserError(msg: seq<byte>) | VmError(msg: seq<byte>, cause: Option<Cause>)

  const RESULT_RETURN: byte := 0
  const RESULT_USER_ERROR: byte := 1
  const RESULT_VM_ERROR: byte := 2

  function AsBytes(r: RunOk): seq<byte> {
    match r
    case Return(data) => [RESULT_RETURN] + data
    case UserError(msg) => [RESULT_USER_ERROR] + msg
    case VmError(msg, _) => [RESULT_VM_ERROR] + msg
  }

  datatype ReadError = EmptyResult | NotUtf8 | UnknownResultId | ShortRead

  function ParseResult(b: seq<byte>): Result<RunOk, ReadError> {
    if b == [] then Err(EmptyResult)
    else if b[0] == RESULT_RETURN then Ok(Return(b[1..]))
    else if b[0] == RESULT_USER_ERROR then if Utf8.Valid(b[1..]) then Ok(UserError(b[1..])) else Err(NotUtf8)
    else if b[0] == RESULT_VM_ERROR then if Utf8.Valid(b[1..]) then Ok(VmError(b[1..], None)) else Err(NotUtf8)
    else Err(UnknownResultId)
  }

  predicate IsText(r: RunOk) {
    r.Return? || Utf8.Valid(r.msg)
  }

  function WithoutCause(r: RunOk): RunOk {
    if r.VmError? then VmError(r.msg, None) else r
  }

  /** A result survives its byte form, up to the cause; and nothing else is read as a result. */
  lemma ResultRoundTrip(b: seq<byte>, r: RunOk)
    ensures ParseResult(b) == Ok(WithoutCause(r)) <==> b == AsBytes(r) && IsText(r)
  {
    if b != [] {
      assert b == [b[0]] + b[1..];
    }
  }

  /** A frame: the length as 32 little-endian bits, then the bytes. */
  function Frame(data: seq<byte>): seq<byte> {
    U32ToLe(AsU32(|data|)) + data
  }

  function ReadFrame(stream: seq<byte>): Result<(seq<byte>, seq<byte>), ReadError> {
    if |stream| < 4 then Err(ShortRead) else
      var len := U32FromLe(stream[..4]);
      if |stream| - 4 < len then Err(ShortRead) else Ok((stream[4..4 + len], stream[4 + len..]))
  }

  /** A frame is the length, its low byte first, and the data. It is read back whole exactly if that fits 32 bits. */
  lemma FrameRoundTrip(data: seq<byte>, tail: seq<byte>)
    ensures |Frame(data)| == 4 + |data| && Frame(data)[4..] == data
    ensures |data| < TWO_32 ==> forall k :: 0 <= k < 4 ==> Frame(data)[k] as int == |data| / Pow2(8 * k) % 256
    ensures ReadFrame(Frame(data) + tail) == Ok((data, tail)) <==> |data| < TWO_32
  {
    LeDigits(AsU32(|data|));
    var stream := Frame(data) + tail;
    LeRoundTrip(AsU32(|data|));
    assert stream[..4] == U32ToLe(AsU32(|data|));
    var len := AsU32(|data|);
    if |data| < TWO_32 {
      assert stream[4..4 + len] == data && stream[4 + len..] == tail;
    } else {
      assert |stream[4..4 + len]| != |data|;
    }
  }

  // ----- VMs, what they may do and what they ask for

  type Address = a: seq<byte> | |a| == Calldata.ADDRESS_SIZE witness seq(Calldata.ADDRESS_SIZE, _ => 0)

  /** Which state of a contract is read; `Default` is the running transaction's own. */
  datatype StorageMode = Default | LatestFinal | LatestNonFinal

  datatype EntryKind = Main | Sandboxed | ConsensusStage

  /** What a VM is started for; `stack` is the chain of view calls that led to it. */
  datatype Message = Message(address: Address, stack: seq<Address>, kind: EntryKind, data: seq<byte>)

  datatype Permissions = Permissions(
    isDeterministic: bool, canReadStorage: bool, canWriteStorage: bool, canSpawnNondet: bool, canCallOthers: bool,
    mode: StorageMode)

  datatype Request =
    | ReadStorage(slot: SlotId, index: u32, len: u32)
    | WriteStorage(slot: SlotId, index: u32, data: seq<byte>)
    | Ask(call: GlCall)

  datatype GlCall =
    | EmitEvent(topics: seq<seq<byte>>, blob: seq<Calldata.Entry>)
    | RunNondet(dataLeader: seq<byte>, dataValidator: seq<byte>)
    | CallContract(address: Address, args: Calldata.Value, mode: StorageMode)
    | Sandbox(data: seq<byte>, allowWriteOps: bool)
    | AskOutside(question: seq<byte>)
    | Finish(result: RunOk)

  datatype Errno = Forbidden | Inval

  datatype Reply = Data(data: seq<byte>) | Nothing | Refused(errno: Errno)

  type Event = seq<seq<byte>>

  /**
   * What runs. The code for a message is any function of it, of the permissions, of the storage it is read from and of
   * all that was started before (the cache of loaded code), or an internal error. Then what it asks for is a function
   * of its state, and its next state a function of that and the reply.
   */
  datatype Program<!S> = Program(
    starts: (Message, Permissions, map<PageId, Page>, seq<Message>) -> Option<S>,
    asks: S -> Request, resumes: (S, Reply) -> S)

  /**
   * What all nodes agree on before they start, a deployment's code included. A host that fails a request either reports
   * an error, which fails the VM, or is not there at all.
   */
  datatype World = World(
    hosts: (Address, StorageMode) -> Host, errors: (Address, StorageMode) -> Option<seq<byte>>,
    lockedSlots: set<SlotId>, pageLimit: nat, permissions: Permissions, message: Message,
    codeSlot: SlotId, code: Option<seq<byte>>)

  /**
   * A node: the leader with whatever its blocks return, or a node whose host answers from the posted results. To each
   * its own answers from the web and the language models, which may differ every time one asks.
   */
  datatype Node =
    | Leader(outside: (nat, seq<byte>) -> seq<byte>, blocks: nat -> RunOk)
    | Replayer(outside: (nat, seq<byte>) -> seq<byte>, posted: map<nat, seq<byte>>, isSync: bool)

  /** One VM; `token` is the state its storage reads from the host. */
  datatype VmData<!S> = VmData(
    state: S, message: Message, conf: Permissions, token: StorageMode, pages: map<PageId, Page>, events: seq<Event>)

  datatype Ending = Finished(result: RunOk) | Internal

  /** The running VM, the VMs that wait for it, the outermost first, and what all of them share. */
  datatype Vms<!S> = Vms(
    top: VmData<S>, callers: seq<VmData<S>>, remaining: nat, started: seq<Message>, asked: nat, callNo: nat,
    ended: Option<Ending>)

  /** A called contract may do what its caller may, except write. */
  function CalleeConf(mine: Permissions, mode: StorageMode): Permissions {
    Permissions(true, mine.canReadStorage, false, mine.canSpawnNondet, mine.canCallOthers, mode)
  }

  function SandboxConf(mine: Permissions, allowWriteOps: bool): Permissions {
    Permissions(mine.isDeterministic, mine.canReadStorage, mine.canWriteStorage && allowWriteOps, false, false,
                mine.mode)
  }

  function BlockConf(mine: Permissions): Permissions {
    Permissions(false, mine.canReadStorage, false, false, false, Default)
  }

  // ----- steps

  function Resume<S>(p: Program<S>, vms: Vms<S>, reply: Reply): Vms<S> {
    vms.(top := vms.top.(state := p.resumes(vms.top.state, reply)))
  }

  /**
   * The running VM ends. Its pages and events go with it unless it is the outermost. A sandbox hands any result over as
   * bytes; a failed contract call fails its caller as well.
   */
  function End<S>(p: Program<S>, vms: Vms<S>, r: RunOk): Vms<S>
    decreases |vms.callers|
  {
    var n := |vms.callers|;
    if n == 0 then vms.(ended := Some(Finished(r)))
    else
      var below := vms.(top := vms.callers[n - 1], callers := vms.callers[..n - 1]);
      if r.VmError? && !vms.top.message.kind.Sandboxed? then End(p, below, r)
      else Resume(p, below, Data(AsBytes(r)))
  }

  function Start<S>(p: Program<S>, vms: Vms<S>, message: Message, conf: Permissions, token: StorageMode,
                    pages: map<PageId, Page>): Vms<S> {
    match p.starts(message, conf, pages, vms.started)
    case None => vms.(ended := Some(Internal))
    case Some(state) =>
      vms.(top := VmData(state, message, conf, token, pages, []), callers := vms.callers + [vms.top],
           started := vms.started + [message])
  }

  /** The UTF-8 bytes of "OOM storage". */
  const OUT_OF_STORAGE: seq<byte> := [0x4F, 0x4F, 0x4D, 0x20, 0x73, 0x74, 0x6F, 0x72, 0x61, 0x67, 0x65]

  const NO_BUDGET := VmError(OUT_OF_STORAGE, None)

  function HostOf<S>(world: World, vm: VmData<S>): Host {
    world.hosts(vm.message.address, vm.token)
  }

  /** The host failed a request of the running VM. */
  function HostError<S>(p: Program<S>, world: World, vms: Vms<S>): Vms<S> {
    match world.errors(vms.top.message.address, vms.top.token)
    case None => vms.(ended := Some(Internal))
    case Some(msg) => End(p, vms, VmError(msg, None))
  }

  function Bytes(pages: map<PageId, Page>, host: Host, slot: SlotId, index: u32, len: u32): seq<byte>
    requires index + len <= U32_MAX
  {
    seq<byte>(len, (k: nat) requires k < len => View(pages, host, slot, index + k))
  }

  /** What a VM reads: a contract called for a state of its own is read from the host, past its storage. */
  ghost function Fetched<S>(world: World, vm: VmData<S>, slot: SlotId, index: u32, len: u32): Option<seq<byte>>
    requires index + len <= U32_MAX
  {
    var host := HostOf(world, vm);
    if vm.conf.mode.Default? then
      if ReadFails(vm.pages, host, slot, index, len) then None else Some(Bytes(vm.pages, host, slot, index, len))
    else
      if host.fails(slot, index, len) then None else Some(Bytes(map[], host, slot, index, len))
  }

  /** `storage_read`. */
  ghost function ReadStep<S>(p: Program<S>, world: World, vms: Vms<S>, slot: SlotId, index: u32, len: u32): Vms<S> {
    if !vms.top.conf.canReadStorage then Resume(p, vms, Refused(Forbidden))
    else if index + len > U32_MAX then Resume(p, vms, Refused(Inval))
    else
      match Fetched(world, vms.top, slot, index, len)
      case None => HostError(p, world, vms)
      case Some(data) => Resume(p, vms, Data(data))
  }

  /** A write over the budget fails the VM, with the pages it did write. */
  function AfterWrite<S>(p: Program<S>, world: World, vms: Vms<S>, after: Overlay, r: Outcome): Vms<S> {
    var done := vms.(top := vms.top.(pages := after.pages), remaining := after.remaining);
    if r.Ok? then Resume(p, done, Nothing)
    else if r.error == OutOfStorage then End(p, done, NO_BUDGET)
    else HostError(p, world, done)
  }

  /** `storage_write`. */
  function WriteStep<S>(p: Program<S>, world: World, vms: Vms<S>, slot: SlotId, index: u32, data: seq<byte>): Vms<S> {
    var me := vms.top;
    if !me.conf.isDeterministic || !me.conf.canWriteStorage then Resume(p, vms, Refused(Forbidden))
    else if index + |data| > U32_MAX then Resume(p, vms, Refused(Inval))
    else if slot in world.lockedSlots then Resume(p, vms, Refused(Forbidden))
    else
      var (after, r) := Written(Overlay(me.pages, vms.remaining), HostOf(world, me), slot, index, data);
      AfterWrite(p, world, vms, after, r)
  }

  /** An event is recorded and paid for. */
  function Recorded<S>(vms: Vms<S>, topics: seq<seq<byte>>, data: seq<byte>): Vms<S>
    requires StorageBudget.EventSize(topics, data) <= vms.remaining
  {
    vms.(top := vms.top.(events := vms.top.events + [topics + [data]]),
         remaining := vms.remaining - StorageBudget.EventSize(topics, data))
  }

  function EventStep<S>(p: Program<S>, vms: Vms<S>, topics: seq<seq<byte>>, blob: seq<Calldata.Entry>): Vms<S> {
    var data := StorageBudget.BlobData(blob);
    if !vms.top.conf.isDeterministic then Resume(p, vms, Refused(Forbidden))
    else if !StorageBudget.TopicsOk(topics) then Resume(p, vms, Refused(Inval))
    else if StorageBudget.EventSize(topics, data) > vms.remaining then End(p, vms, NO_BUDGET)
    else Resume(p, Recorded(vms, topics, data), Nothing)
  }

  /** The result of a block as the node gets it: by running and posting it, or from the host. */
  function LeaderResult(node: Node, callNo: nat): Result<RunOk, ReadError> {
    match node
    case Leader(_, blocks) => Ok(blocks(callNo))
    case Replayer(_, posted, _) =>
      if callNo !in posted then Err(EmptyResult) else
        var framed := ReadFrame(Frame(posted[callNo]));
        if framed.Err? then Err(framed.error) else ParseResult(framed.value.0)
  }

  /** `set_vm_run_result`: a failure fails the VM that gets it, any other result is handed over as bytes. */
  function HandedOver<S>(p: Program<S>, vms: Vms<S>, r: RunOk): Vms<S> {
    if r.VmError? then End(p, vms, r) else Resume(p, vms, Data(AsBytes(r)))
  }

  /** `run_nondet`. */
  function NondetStep<S>(p: Program<S>, node: Node, vms: Vms<S>): Vms<S> {
    if !vms.top.conf.canSpawnNondet then Resume(p, vms, Refused(Forbidden))
    else
      var r, called := LeaderResult(node, vms.callNo), vms.(callNo := vms.callNo + 1);
      if r.Err? then called.(ended := Some(Internal)) else HandedOver(p, called, r.value)
  }

  /** The `CallContract` arm: the callee has a storage of its own, without the pages its caller has written. */
  function CallStep<S>(p: Program<S>, vms: Vms<S>, address: Address, args: Calldata.Value, mode: StorageMode): Vms<S> {
    var me := vms.top;
    if !me.conf.isDeterministic || !me.conf.canCallOthers then Resume(p, vms, Refused(Forbidden))
    else
      var state := if mode.Default? then LatestNonFinal else mode;
      var message := Message(address, me.message.stack + [me.message.address], Main, Calldata.Encode(args));
      Start(p, vms, message, CalleeConf(me.conf, state), state, map[])
  }

  /** `sandbox`: the same contract on a snapshot of its storage. */
  function SandboxStep<S>(p: Program<S>, vms: Vms<S>, data: seq<byte>, allowWriteOps: bool): Vms<S> {
    var me := vms.top;
    Start(p, vms, me.message.(kind := Sandboxed, data := data), SandboxConf(me.conf, allowWriteOps), me.token, me.pages)
  }

  /** Web pages and language models are for non-deterministic VMs only. */
  function OutsideStep<S>(p: Program<S>, node: Node, vms: Vms<S>, question: seq<byte>): Vms<S> {
    if vms.top.conf.isDeterministic then Resume(p, vms, Refused(Forbidden))
    else Resume(p, vms.(asked := vms.asked + 1), Data(node.outside(vms.asked, question)))
  }

  /** `gl_call`. */
  function GlCallStep<S>(p: Program<S>, node: Node, vms: Vms<S>, call: GlCall): Vms<S> {
    match call
    case EmitEvent(topics, blob) => EventStep(p, vms, topics, blob)
    case RunNondet(_, _) => NondetStep(p, node, vms)
    case CallContract(address, args, mode) => CallStep(p, vms, address, args, mode)
    case Sandbox(data, allowWriteOps) => SandboxStep(p, vms, data, allowWriteOps)
    case AskOutside(question) => OutsideStep(p, node, vms, question)
    case Finish(result) => End(p, vms, result)
  }

  ghost function Step<S>(p: Program<S>, world: World, node: Node, vms: Vms<S>): Vms<S> {
    if vms.ended.Some? then vms
    else
      match p.asks(vms.top.state)
      case ReadStorage(slot, index, len) => ReadStep(p, world, vms, slot, index, len)
      case WriteStorage(slot, index, data) => WriteStep(p, world, vms, slot, index, data)
      case Ask(call) => GlCallStep(p, node, vms, call)
  }

  /** The VMs after `n` more requests. */
  ghost function RunFrom<S>(p: Program<S>, world: World, node: Node, vms: Vms<S>, n: nat): Vms<S> {
    if n == 0 then vms else Step(p, world, node, RunFrom(p, world, node, vms, n - 1))
  }

  /** The storage of the contract a transaction is for: a deployment has its code stored and paid for first. */
  function Deployed(world: World): (Overlay, Outcome) {
    var o := Overlay(map[], world.pageLimit);
    match world.code
    case None => (o, Ok(()))
    case Some(code) => WrittenCode(o, world.hosts(world.message.address, LatestNonFinal), world.codeSlot, code)
  }

  /** The contract a transaction is for, started in `state`, unless its code could not be stored. */
  function Outermost<S>(world: World, state: S): Vms<S> {
    var (storage, r) := Deployed(world);
    var vm := VmData(state, world.message, world.permissions, LatestNonFinal, storage.pages, []);
    Vms(vm, [], storage.remaining, [world.message], 0, 0, if r.Ok? then None else Some(Internal))
  }

  ghost function Run<S>(p: Program<S>, world: World, node: Node, state: S, n: nat): Vms<S> {
    RunFrom(p, world, node, Outermost(world, state), n)
  }

  // ----- the calls and what a node keeps of them

  /** The running VM asks for a block and may. */
  ghost predicate MakesCall<S>(p: Program<S>, vms: Vms<S>) {
    && vms.ended.None? && p.asks(vms.top.state).Ask? && p.asks(vms.top.state).call.RunNondet?
    && vms.top.conf.canSpawnNondet
  }

  /** The results a leader has posted, and the runs of blocks a validator has submitted. */
  datatype Books = Books(posted: map<nat, seq<byte>>, submitted: seq<nat>)

  /** The leader posts what its block returned; a validator submits a run of the block, a sync node does not. */
  function Entered(node: Node, books: Books, callNo: nat): Books {
    var r := LeaderResult(node, callNo);
    if r.Err? then books
    else
      match node
      case Leader(_, _) => books.(posted := books.posted[callNo := AsBytes(r.value)])
      case Replayer(_, _, isSync) => if isSync then books else books.(submitted := books.submitted + [callNo])
  }

  ghost function BooksStep<S>(p: Program<S>, node: Node, vms: Vms<S>, books: Books): Books {
    if MakesCall(p, vms) then Entered(node, books, vms.callNo) else books
  }

  /** The books after the first `n` requests. */
  ghost function BooksAfter<S>(p: Program<S>, world: World, node: Node, state: S, n: nat): Books {
    if n == 0 then Books(map[], [])
    else BooksStep(p, node, Run(p, world, node, state, n - 1), BooksAfter(p, world, node, state, n - 1))
  }

  // ----- what a step does to the stack

  /** The VM as it was, except for its own state. */
  ghost predicate IsResumed<S>(now: VmData<S>, was: VmData<S>) {
    now == was.(state := now.state)
  }

  /**
   * The running VM goes on, or has ended with nothing waiting for it. Only one that may write has changed its pages,
   * and only a deterministic one its events.
   */
  ghost predicate Stayed<S>(was: Vms<S>, now: Vms<S>) {
    var may := was.top.conf;
    && now.callers == was.callers && now.top.message == was.top.message && now.top.conf == may
    && now.top.token == was.top.token
    && (now.top.pages != was.top.pages ==> may.isDeterministic && may.canWriteStorage)
    && (now.top.events != was.top.events ==> may.isDeterministic)
  }

  /** It ended and gave way to one that waited for it. */
  ghost predicate GaveWay<S>(was: Vms<S>, now: Vms<S>) {
    && |now.callers| < |was.callers| && now.callers == was.callers[..|now.callers|]
    && IsResumed(now.top, was.callers[|now.callers|])
  }

  /** A contract it called, which has none of its pages and may not write, or a sandbox, which has them all. */
  ghost predicate IsStarted<S>(child: VmData<S>, parent: VmData<S>) {
    var may := parent.conf;
    && child.events == []
    && if child.message.kind.Sandboxed? then
         && child.message.stack == parent.message.stack && child.pages == parent.pages && child.token == parent.token
         && (child.conf == SandboxConf(may, true) || child.conf == SandboxConf(may, false))
       else
         && child.message.stack == parent.message.stack + [parent.message.address] && child.pages == map[]
         && may.isDeterministic && may.canCallOthers
         && child.conf == CalleeConf(may, child.token) && !child.token.Default?
  }

  ghost predicate Moved<S>(was: Vms<S>, now: Vms<S>) {
    Stayed(was, now) || GaveWay(was, now) || (now.callers == was.callers + [was.top] && IsStarted(now.top, was.top))
  }

  /** Everything the VMs share, but the ending. */
  ghost predicate SharedKept<S>(was: Vms<S>, now: Vms<S>) {
    && now.remaining == was.remaining && now.started == was.started && now.asked == was.asked
    && now.callNo == was.callNo
  }

  lemma {:induction false} EndMoves<S>(p: Program<S>, vms: Vms<S>, r: RunOk)
    ensures var after := End(p, vms, r);
            SharedKept(vms, after) && (GaveWay(vms, after) || after == vms.(ended := Some(Finished(r))))
    decreases |vms.callers|
  {
    var n := |vms.callers|;
    if n > 0 && r.VmError? && !vms.top.message.kind.Sandboxed? {
      var below := vms.(top := vms.callers[n - 1], callers := vms.callers[..n - 1]);
      EndMoves(p, below, r);
    }
  }

  lemma HostErrorMoves<S>(p: Program<S>, world: World, vms: Vms<S>)
    ensures var now := HostError(p, world, vms);
            SharedKept(vms, now) && (GaveWay(vms, now) || now == vms.(ended := now.ended))
  {
    match world.errors(vms.top.message.address, vms.top.token)
    case None =>
    case Some(msg) => EndMoves(p, vms, VmError(msg, None));
  }

  lemma AfterWriteMoves<S>(p: Program<S>, world: World, vms: Vms<S>, after: Overlay, r: Outcome)
    requires vms.top.conf.isDeterministic && vms.top.conf.canWriteStorage
    ensures var now := AfterWrite(p, world, vms, after, r);
            Moved(vms, now) && SharedKept(vms.(remaining := after.remaining), now)
  {
    var done := vms.(top := vms.top.(pages := after.pages), remaining := after.remaining);
    if r.Err? && r.error == OutOfStorage {
      EndMoves(p, done, NO_BUDGET);
    } else if r.Err? {
      HostErrorMoves(p, world, done);
    }
  }

  lemma WriteMoves<S>(p: Program<S>, world: World, vms: Vms<S>, slot: SlotId, index: u32, data: seq<byte>)
    ensures var now := WriteStep(p, world, vms, slot, index, data);
            Moved(vms, now) && now.remaining <= vms.remaining && now.callNo == vms.callNo
  {
    if vms.top.conf.isDeterministic && vms.top.conf.canWriteStorage && index + |data| <= U32_MAX {
      var o, host := Overlay(vms.top.pages, vms.remaining), HostOf(world, vms.top);
      var (after, r) := Written(o, host, slot, index, data);
      assert after.remaining <= vms.remaining by {
        WrittenIsFlat(o, host, slot, index, data);
      }
      AfterWriteMoves(p, world, vms, after, r);
    }
  }

  lemma NondetMoves<S>(p: Program<S>, node: Node, vms: Vms<S>)
    ensures var now := NondetStep(p, node, vms);
            && Moved(vms, now) && now.remaining == vms.remaining
            && now.callNo == if vms.top.conf.canSpawnNondet then vms.callNo + 1 else vms.callNo
  {
    var r, called := LeaderResult(node, vms.callNo), vms.(callNo := vms.callNo + 1);
    if r.Ok? {
      EndMoves(p, called, r.value);
    }
  }

  lemma CallMoves<S>(p: Program<S>, vms: Vms<S>, address: Address, args: Calldata.Value, mode: StorageMode)
    ensures var now := CallStep(p, vms, address, args, mode);
            Moved(vms, now) && now.remaining == vms.remaining && now.callNo == vms.callNo
  {
  }

  lemma SandboxMoves<S>(p: Program<S>, vms: Vms<S>, data: seq<byte>, allowWriteOps: bool)
    ensures var now := SandboxStep(p, vms, data, allowWriteOps);
            Moved(vms, now) && now.remaining == vms.remaining && now.callNo == vms.callNo
  {
  }

  lemma GlCallMoves<S>(p: Program<S>, node: Node, vms: Vms<S>, call: GlCall)
    ensures var now := GlCallStep(p, node, vms, call);
            && Moved(vms, now) && now.remaining <= vms.remaining
            && now.callNo == if call.RunNondet? && vms.top.conf.canSpawnNondet then vms.callNo + 1 else vms.callNo
  {
    match call
    case EmitEvent(topics, blob) => EndMoves(p, vms, NO_BUDGET);
    case RunNondet(_, _) => NondetMoves(p, node, vms);
    case CallContract(address, args, mode) => CallMoves(p, vms, address, args, mode);
    case Sandbox(data, allowWriteOps) => SandboxMoves(p, vms, data, allowWriteOps);
    case Finish(result) => EndMoves(p, vms, result);
    case _ =>
  }

  /**
   * One step moves the stack in one of these ways, gives nothing of the page budget back, and counts a call exactly if
   * one is made.
   */
  lemma StepMoves<S>(p: Program<S>, world: World, node: Node, vms: Vms<S>)
    ensures var now := Step(p, world, node, vms);
            && Moved(vms, now) && now.remaining <= vms.remaining
            && now.callNo == if MakesCall(p, vms) then vms.callNo + 1 else vms.callNo
  {
    if vms.ended.None? {
      match p.asks(vms.top.state)
      case ReadStorage(slot, index, len) => HostErrorMoves(p, world, vms);
      case WriteStorage(slot, index, data) => WriteMoves(p, world, vms, slot, index, data);
      case Ask(call) => GlCallMoves(p, node, vms, call);
    }
  }

  /**
   * As long as the stack has not come down to it, a waiting VM is untouched whatever the VMs it waits for do. When it
   * has, the VM on top is as it was left, pages and events included: of what ended nothing is left.
   */
  lemma {:induction false} WaitingIsUntouched<S>(p: Program<S>, world: World, node: Node, vms: Vms<S>, depth: nat,
                                                  n: nat)
    requires depth < |vms.callers|
    requires forall i: nat :: i < n ==> depth < |RunFrom(p, world, node, vms, i).callers|
    ensures var now := RunFrom(p, world, node, vms, n);
            if depth < |now.callers| then now.callers[..depth + 1] == vms.callers[..depth + 1]
            else now.callers == vms.callers[..|now.callers|] && IsResumed(now.top, vms.callers[|now.callers|])
  {
    if n > 0 {
      WaitingIsUntouched(p, world, node, vms, depth, n - 1);
      var was := RunFrom(p, world, node, vms, n - 1);
      StepMoves(p, world, node, was);
      PrefixMoves(vms.callers, was, Step(p, world, node, was), depth);
    }
  }

  lemma PrefixMoves<S>(callers: seq<VmData<S>>, was: Vms<S>, now: Vms<S>, depth: nat)
    requires depth < |callers| && depth < |was.callers| && was.callers[..depth + 1] == callers[..depth + 1]
    requires Moved(was, now)
    ensures if depth < |now.callers| then now.callers[..depth + 1] == callers[..depth + 1]
            else now.callers == callers[..|now.callers|] && IsResumed(now.top, callers[|now.callers|])
  {
    var k := |now.callers|;
    if k <= depth {
      assert was.callers[..k] == was.callers[..depth + 1][..k] == callers[..k];
      assert was.callers[k] == was.callers[..depth + 1][k] == callers[k];
    } else if k < |was.callers| {
      assert now.callers[..depth + 1] == was.callers[..depth + 1];
    } else {
      assert now.callers[..depth + 1] == was.callers[..depth + 1];
    }
  }

  /** The page budget is never given back: what a VM that has ended spent stays spent. */
  lemma {:induction false} BudgetOnlyShrinks<S>(p: Program<S>, world: World, node: Node, vms: Vms<S>, n: nat)
    ensures RunFrom(p, world, node, vms, n).remaining <= vms.remaining
  {
    if n > 0 {
      BudgetOnlyShrinks(p, world, node, vms, n - 1);
      StepMoves(p, world, node, RunFrom(p, world, node, vms, n - 1));
    }
  }

  // ----- what VMs can never do

  /**
   * A VM for a contract that was called, or for a sandbox of one, sees that contract's state from before the
   * transaction: it has no pages and cannot write any, also if it is the outermost contract called again.
   */
  ghost predicate IsView<S>(d: VmData<S>) {
    d.message.stack != [] ==> d.pages == map[] && !d.conf.canWriteStorage && !d.conf.mode.Default?
  }

  /** All VMs are deterministic, and every view is one. */
  ghost predicate IsBounded<S>(d: VmData<S>) {
    d.conf.isDeterministic && IsView(d)
  }

  ghost predicate AllBounded<S>(vms: Vms<S>) {
    IsBounded(vms.top) && forall d :: d in vms.callers ==> IsBounded(d)
  }

  /** Started for a transaction: deterministic, on the state of its own, called by nobody. */
  predicate IsEntry(world: World) {
    world.permissions.isDeterministic && world.permissions.mode.Default? && world.message.stack == []
  }

  lemma BoundedKept<S>(was: Vms<S>, now: Vms<S>)
    requires AllBounded(was) && Moved(was, now)
    ensures AllBounded(now)
  {
    if GaveWay(was, now) {
      assert was.callers[|now.callers|] in was.callers;
    }
  }

  lemma {:induction false} ViewsNeverWrite<S>(p: Program<S>, world: World, node: Node, state: S, n: nat)
    requires IsEntry(world)
    ensures AllBounded(Run(p, world, node, state, n))
  {
    if n > 0 {
      ViewsNeverWrite(p, world, node, state, n - 1);
      StepMoves(p, world, node, Run(p, world, node, state, n - 1));
      BoundedKept(Run(p, world, node, state, n - 1), Run(p, world, node, state, n));
    }
  }

  /** The VM of a non-deterministic block that `vms.top` asks for, or of a sandbox in it. */
  ghost predicate IsBlock<S>(d: VmData<S>, pages: map<PageId, Page>) {
    && !d.conf.isDeterministic && !d.conf.canSpawnNondet && !d.conf.canWriteStorage
    && d.pages == pages && d.events == []
  }

  ghost predicate AllBlocks<S>(vms: Vms<S>, pages: map<PageId, Page>) {
    IsBlock(vms.top, pages) && forall d :: d in vms.callers ==> IsBlock(d, pages)
  }

  /** A block is run on a snapshot of its contract's storage, on whatever data. */
  function BlockVms<S>(vms: Vms<S>, state: S, data: seq<byte>): Vms<S> {
    var me := vms.top;
    vms.(top := VmData(state, me.message.(kind := ConsensusStage, data := data), BlockConf(me.conf), me.token, me.pages,
                       []),
         callers := [])
  }

  /** What a block leaves alone: the page budget and the call counter, and by that all that is kept of the calls. */
  ghost predicate SameEffects<S>(was: Vms<S>, now: Vms<S>) {
    now.remaining == was.remaining && now.callNo == was.callNo
  }

  lemma BlocksKept<S>(was: Vms<S>, now: Vms<S>, pages: map<PageId, Page>)
    requires AllBlocks(was, pages) && Moved(was, now)
    ensures AllBlocks(now, pages)
  {
    if GaveWay(was, now) {
      assert was.callers[|now.callers|] in was.callers;
    }
  }

  lemma BlockEffects<S>(p: Program<S>, world: World, node: Node, vms: Vms<S>)
    requires !vms.top.conf.isDeterministic && !vms.top.conf.canSpawnNondet
    ensures SameEffects(vms, Step(p, world, node, vms)) && !MakesCall(p, vms)
  {
    if vms.ended.None? {
      match p.asks(vms.top.state)
      case ReadStorage(slot, index, len) => HostErrorMoves(p, world, vms);
      case WriteStorage(_, _, _) =>
      case Ask(call) =>
        if call.Finish? {
          EndMoves(p, vms, call.result);
        }
    }
  }

  /** Whatever a block runs and whatever it is answered from outside, it touches nothing but its own state. */
  lemma {:induction false} BlocksAreIsolated<S>(p: Program<S>, world: World, node: Node, vms: Vms<S>, state: S,
                                                data: seq<byte>, n: nat)
    ensures var block := RunFrom(p, world, node, BlockVms(vms, state, data), n);
            SameEffects(vms, block) && AllBlocks(block, vms.top.pages) && !MakesCall(p, block)
  {
    if n > 0 {
      BlocksAreIsolated(p, world, node, vms, state, data, n - 1);
      var was := RunFrom(p, world, node, BlockVms(vms, state, data), n - 1);
      StepMoves(p, world, node, was);
      BlocksKept(was, Step(p, world, node, was), vms.top.pages);
      BlockEffects(p, world, node, was);
    }
  }

  // ----- the replay

  /** Strings are UTF-8 and results fit a frame. */
  ghost predicate Postable(blocks: nat -> RunOk) {
    forall k: nat :: IsText(blocks(k)) && |AsBytes(blocks(k))| < TWO_32
  }

  function Observable(e: Option<Ending>): Option<Ending> {
    match e
    case Some(Finished(r)) => Some(Finished(WithoutCause(r)))
    case _ => e
  }

  /**
   * The same stack, each VM with the same state, storage and events; the same page budget, call count and started VMs;
   * and the same ending up to the logged cause.
   */
  ghost predicate SameState<S>(a: Vms<S>, b: Vms<S>) {
    a.(ended := None) == b.(ended := None) && Observable(a.ended) == Observable(b.ended)
  }

  /** The cause is logged and does not reach any VM. */
  lemma {:induction false} EndIgnoresCause<S>(p: Program<S>, vms: Vms<S>, r: RunOk)
    ensures SameState(End(p, vms, r), End(p, vms, WithoutCause(r)))
    decreases |vms.callers|
  {
    var n := |vms.callers|;
    assert AsBytes(WithoutCause(r)) == AsBytes(r);
    if n > 0 {
      EndIgnoresCause(p, vms.(top := vms.callers[n - 1], callers := vms.callers[..n - 1]), r);
    }
  }

  /** The result the running VM gets for its block is the leader's, less the cause. */
  ghost predicate GetsLeaderResult<S>(p: Program<S>, blocks: nat -> RunOk, node: Node, vms: Vms<S>) {
    MakesCall(p, vms) ==> LeaderResult(node, vms.callNo) == Ok(WithoutCause(blocks(vms.callNo)))
  }

  lemma NondetAgrees<S>(p: Program<S>, leader: Node, replayer: Node, vms: Vms<S>)
    requires leader.Leader?
    requires vms.top.conf.canSpawnNondet ==>
               LeaderResult(replayer, vms.callNo) == Ok(WithoutCause(leader.blocks(vms.callNo)))
    ensures SameState(NondetStep(p, leader, vms), NondetStep(p, replayer, vms))
  {
    var r := leader.blocks(vms.callNo);
    assert AsBytes(WithoutCause(r)) == AsBytes(r);
    EndIgnoresCause(p, vms.(callNo := vms.callNo + 1), r);
  }

  /**
   * From the same state, with the same result for a block, both nodes take the same step, whatever is asked for. Only a
   * deterministic VM is served, so neither is answered from outside.
   */
  lemma StepAgrees<S>(p: Program<S>, world: World, leader: Node, replayer: Node, a: Vms<S>, b: Vms<S>)
    requires leader.Leader? && SameState(a, b) && a.top.conf.isDeterministic
    requires GetsLeaderResult(p, leader.blocks, replayer, a)
    ensures SameState(Step(p, world, leader, a), Step(p, world, replayer, b))
  {
    if a.ended.None? {
      assert a == b;
      if p.asks(a.top.state).Ask? && p.asks(a.top.state).call.RunNondet? {
        NondetAgrees(p, leader, replayer, a);
      }
    }
  }

  /** The result of every call so far, whichever VM made it, is posted under its number. */
  ghost predicate PostedAll(posted: map<nat, seq<byte>>, callNo: nat, blocks: nat -> RunOk) {
    forall k: nat :: (k in posted <==> k < callNo) && (k in posted ==> posted[k] == AsBytes(blocks(k)))
  }

  lemma OneMorePosted<S>(p: Program<S>, world: World, leader: Node, vms: Vms<S>, books: Books)
    requires leader.Leader? && PostedAll(books.posted, vms.callNo, leader.blocks)
    ensures PostedAll(BooksStep(p, leader, vms, books).posted, Step(p, world, leader, vms).callNo, leader.blocks)
  {
    StepMoves(p, world, leader, vms);
  }

  lemma {:induction false} LeaderPostsAll<S>(p: Program<S>, world: World, leader: Node, state: S, n: nat)
    requires leader.Leader?
    ensures PostedAll(BooksAfter(p, world, leader, state, n).posted, Run(p, world, leader, state, n).callNo,
                      leader.blocks)
  {
    if n > 0 {
      LeaderPostsAll(p, world, leader, state, n - 1);
      OneMorePosted(p, world, leader, Run(p, world, leader, state, n - 1), BooksAfter(p, world, leader, state, n - 1));
    }
  }

  lemma {:induction false} CallsOnlyGrow<S>(p: Program<S>, world: World, node: Node, state: S, m: nat, n: nat)
    requires m <= n
    ensures Run(p, world, node, state, m).callNo <= Run(p, world, node, state, n).callNo
    decreases n
  {
    if m < n {
      CallsOnlyGrow(p, world, node, state, m, n - 1);
      StepMoves(p, world, node, Run(p, world, node, state, n - 1));
    }
  }

  /** What a replayer is given for a posted call is what the leader got, less the cause. */
  lemma PostedIsLeaderResult(replayer: Node, blocks: nat -> RunOk, k: nat)
    requires replayer.Replayer? && Postable(blocks)
    requires k in replayer.posted && replayer.posted[k] == AsBytes(blocks(k))
    ensures LeaderResult(replayer, k) == Ok(WithoutCause(blocks(k)))
  {
    var data := replayer.posted[k];
    assert IsText(blocks(k));
    FrameRoundTrip(data, []);
    assert Frame(data) + [] == Frame(data);
    ResultRoundTrip(data, blocks(k));
  }

  /** `replayer` is given what the leader has posted after `end` requests. */
  ghost predicate Replays<S>(p: Program<S>, world: World, leader: Node, replayer: Node, state: S, end: nat) {
    && leader.Leader? && Postable(leader.blocks)
    && replayer.Replayer? && replayer.posted == BooksAfter(p, world, leader, state, end).posted
  }

  lemma PostedForCall<S>(p: Program<S>, world: World, leader: Node, replayer: Node, state: S, n: nat, end: nat)
    requires Replays(p, world, leader, replayer, state, end) && n < end
    ensures GetsLeaderResult(p, leader.blocks, replayer, Run(p, world, leader, state, n))
  {
    var vms := Run(p, world, leader, state, n);
    if MakesCall(p, vms) {
      LeaderPostsAll(p, world, leader, state, end);
      StepMoves(p, world, leader, vms);
      CallsOnlyGrow(p, world, leader, state, n + 1, end);
      PostedIsLeaderResult(replayer, leader.blocks, vms.callNo);
    }
  }

  lemma OneMoreReplayed<S>(p: Program<S>, world: World, leader: Node, replayer: Node, state: S, n: nat, end: nat,
                           b: Vms<S>)
    requires Replays(p, world, leader, replayer, state, end) && IsEntry(world) && n < end
    requires SameState(Run(p, world, leader, state, n), b)
    ensures SameState(Run(p, world, leader, state, n + 1), Step(p, world, replayer, b))
  {
    PostedForCall(p, world, leader, replayer, state, n, end);
    ViewsNeverWrite(p, world, leader, state, n);
    StepAgrees(p, world, leader, replayer, Run(p, world, leader, state, n), b);
  }

  /**
   * Whatever the blocks return to the leader, in the contract itself or in contracts it calls, a sync or validating
   * node given the results posted by any point of the leader's run has gone through the same states up to that point,
   * and has seen the same result at every call.
   */
  lemma {:induction false} ReplayIsFaithful<S>(p: Program<S>, world: World, leader: Node, replayer: Node, state: S,
                                               n: nat, end: nat)
    requires Replays(p, world, leader, replayer, state, end) && IsEntry(world) && n <= end
    ensures SameState(Run(p, world, leader, state, n), Run(p, world, replayer, state, n))
    decreases n
  {
    if n > 0 {
      ReplayIsFaithful(p, world, leader, replayer, state, n - 1, end);
      OneMoreReplayed(p, world, leader, replayer, state, n - 1, end, Run(p, world, replayer, state, n - 1));
    }
  }

  function Numbers(n: nat): seq<nat> {
    seq(n, (k: nat) => k)
  }

  /** A validator has submitted one run per call, in call order; a sync node none. */
  ghost predicate SubmittedAll(submitted: seq<nat>, replayer: Node, callNo: nat)
    requires replayer.Replayer?
  {
    submitted == if replayer.isSync then [] else Numbers(callNo)
  }

  /** If the running VM makes a call, there is a result for it. */
  ghost predicate IsServed<S>(p: Program<S>, node: Node, vms: Vms<S>) {
    MakesCall(p, vms) ==> LeaderResult(node, vms.callNo).Ok?
  }

  lemma ReplayerIsServed<S>(p: Program<S>, world: World, leader: Node, replayer: Node, state: S, n: nat, end: nat)
    requires Replays(p, world, leader, replayer, state, end) && IsEntry(world) && n < end
    ensures IsServed(p, replayer, Run(p, world, replayer, state, n))
  {
    ReplayIsFaithful(p, world, leader, replayer, state, n, end);
    PostedForCall(p, world, leader, replayer, state, n, end);
  }

  lemma OneMoreSubmitted<S>(p: Program<S>, world: World, replayer: Node, state: S, n: nat)
    requires replayer.Replayer? && IsServed(p, replayer, Run(p, world, replayer, state, n))
    requires SubmittedAll(BooksAfter(p, world, replayer, state, n).submitted, replayer,
                          Run(p, world, replayer, state, n).callNo)
    ensures SubmittedAll(BooksAfter(p, world, replayer, state, n + 1).submitted, replayer,
                         Run(p, world, replayer, state, n + 1).callNo)
  {
    var callNo := Run(p, world, replayer, state, n).callNo;
    StepMoves(p, world, replayer, Run(p, world, replayer, state, n));
    assert Numbers(callNo + 1) == Numbers(callNo) + [callNo];
  }

  lemma {:induction false} ValidatorSubmitsEveryCall<S>(p: Program<S>, world: World, leader: Node, replayer: Node,
                                                        state: S, n: nat, end: nat)
    requires Replays(p, world, leader, replayer, state, end) && IsEntry(world) && n <= end
    ensures SubmittedAll(BooksAfter(p, world, replayer, state, n).submitted, replayer,
                         Run(p, world, replayer, state, n).callNo)
    decreases n
  {
    if n > 0 {
      ValidatorSubmitsEveryCall(p, world, leader, replayer, state, n - 1, end);
      ReplayerIsServed(p, world, leader, replayer, state, n - 1, end);
      OneMoreSubmitted(p, world, replayer, state, n - 1);
    }
  }
}
