/**
 * What a request gives the VM that makes it, and what it can count on over any run: it reads what it has written, no
 * locked slot ever changes, and nothing it starts may do more than it may itself.
 */
module VmEffects {
  import opened Prelude
  import opened PagedStorage
  import opened Replay
  import Calldata
  import StorageBudget

  ghost predicate Asks<S>(p: Program<S>, vms: Vms<S>, request: Request) {
    vms.ended.None? && p.asks(vms.top.state) == request
  }

  /** The running VM goes on with `reply`, and nothing else has changed. */
  ghost predicate Gets<S>(p: Program<S>, was: Vms<S>, now: Vms<S>, reply: Reply) {
    now == was.(top := was.top.(state := p.resumes(was.top.state, reply)))
  }

  // ----- reading

  /** The bytes a VM has to be given: of its own storage, or of the host's state if it was called for that. */
  ghost predicate IsContent<S>(world: World, vm: VmData<S>, slot: SlotId, index: u32, data: seq<byte>) {
    if vm.conf.mode == Default then ReadsAs(data, vm.pages, HostOf(world, vm), slot, index)
    else forall k :: 0 <= k < |data| ==> data[k] == HostOf(world, vm).content(slot, index + k)
  }

  ghost predicate HostRefuses<S>(world: World, vm: VmData<S>, slot: SlotId, index: u32, len: u32) {
    if vm.conf.mode == Default then ReadFails(vm.pages, HostOf(world, vm), slot, index, len)
    else HostOf(world, vm).fails(slot, index, len)
  }

  /** The content of the slot or a refusal, and nothing else; a VM that may not read is never given a byte. */
  lemma ReadGives<S>(p: Program<S>, world: World, node: Node, vms: Vms<S>, slot: SlotId, index: u32, len: u32)
    returns (data: seq<byte>)
    requires Asks(p, vms, ReadStorage(slot, index, len))
    ensures var now, me := Step(p, world, node, vms), vms.top;
            if !me.conf.canReadStorage then Gets(p, vms, now, Refused(Forbidden))
            else if index + len > U32_MAX then Gets(p, vms, now, Refused(Inval))
            else if HostRefuses(world, me, slot, index, len) then now == HostError(p, world, vms)
            else Gets(p, vms, now, Data(data)) && |data| == len && IsContent(world, me, slot, index, data)
  {
    var me := vms.top;
    data := [];
    if index + len <= U32_MAX && !HostRefuses(world, me, slot, index, len) {
      data := Fetched(world, me, slot, index, len).value;
      if me.conf.mode != Default {
        forall k | 0 <= k < len
          ensures data[k] == HostOf(world, me).content(slot, index + k)
        {
          assert (index + k) / 32 * 32 + (index + k) % 32 == index + k;
          assert data[k] == View(map[], HostOf(world, me), slot, index + k);
        }
      }
    }
  }

  // ----- writing

  /** A VM may write there: it is deterministic, has the permission, stays inside the slot, which is not locked. */
  predicate MayWrite<S>(world: World, vm: VmData<S>, slot: SlotId, index: u32, data: seq<byte>) {
    && vm.conf.isDeterministic && vm.conf.canWriteStorage
    && index + |data| <= U32_MAX && slot !in world.lockedSlots
  }

  /** The VM has `pages` instead, and the budget what is left after paying for the new ones. */
  ghost function WithPages<S>(vms: Vms<S>, pages: map<PageId, Page>, remaining: nat): Vms<S> {
    vms.(top := vms.top.(pages := pages), remaining := remaining)
  }

  /** A write that is not allowed is refused and changes nothing. */
  lemma WriteIsGated<S>(p: Program<S>, world: World, node: Node, vms: Vms<S>, slot: SlotId, index: u32, data: seq<byte>)
    requires Asks(p, vms, WriteStorage(slot, index, data)) && !MayWrite(world, vms.top, slot, index, data)
    ensures var may := vms.top.conf.isDeterministic && vms.top.conf.canWriteStorage;
            var why := if may && index + |data| > U32_MAX then Inval else Forbidden;
            Gets(p, vms, Step(p, world, node, vms), Refused(why))
  {
  }

  /**
   * One that is allowed: the VM goes on with exactly these bytes written, or it fails, for the budget or the host,
   * without a torn page.
   */
  lemma WriteGives<S>(p: Program<S>, world: World, node: Node, vms: Vms<S>, slot: SlotId, index: u32, data: seq<byte>)
    returns (pages: map<PageId, Page>, remaining: nat, r: Outcome)
    requires Asks(p, vms, WriteStorage(slot, index, data)) && MayWrite(world, vms.top, slot, index, data)
    ensures remaining + |pages| == vms.remaining + |vms.top.pages|
    ensures var now, me, host := Step(p, world, node, vms), vms.top, HostOf(world, vms.top);
            var done := WithPages(vms, pages, remaining);
            var range := Touched(slot, index, |data|);
            && NoTornPage(me.pages, pages, host, index, data, range)
            && match r
               case Ok(_) => Gets(p, done, now, Nothing) && FlatWrite(me.pages, pages, host, slot, index, data)
                             && PagesNeeded(me.pages, range) <= vms.remaining
               case Err(OutOfStorage) => now == End(p, done, VmError(OUT_OF_STORAGE, None))
                                         && PagesNeeded(me.pages, range) > vms.remaining
               case Err(HostFailed) => now == HostError(p, world, done) && !NeverFails(host)
  {
    var o, host := Overlay(vms.top.pages, vms.remaining), HostOf(world, vms.top);
    var written := Written(o, host, slot, index, data);
    pages, remaining, r := written.0.pages, written.0.remaining, written.1;
    WrittenIsFlat(o, host, slot, index, data);
  }

  // ----- a VM reads what it has written

  /** The VM with `depth` VMs below it. */
  function AtDepth<S>(vms: Vms<S>, depth: nat): VmData<S>
    requires depth <= |vms.callers|
  {
    if depth == |vms.callers| then vms.top else vms.callers[depth]
  }

  /** Through the first `n` requests the VM on top of `vms` has not ended, though others above it may have. */
  ghost predicate Lives<S>(p: Program<S>, world: World, node: Node, vms: Vms<S>, n: nat) {
    && RunFrom(p, world, node, vms, n).ended.None?
    && forall m: nat :: m <= n ==> |vms.callers| <= |RunFrom(p, world, node, vms, m).callers|
  }

  /** The request writes byte `i` of the slot. */
  ghost predicate WritesByte<S>(world: World, vm: VmData<S>, request: Request, slot: SlotId, i: nat) {
    && request.WriteStorage? && request.slot == slot && request.index <= i < request.index + |request.data|
    && MayWrite(world, vm, request.slot, request.index, request.data)
  }

  /**
   * What byte `i` of a slot is for the VM on top of `vms` after `n` requests: the last byte it was allowed to write
   * there itself, or what it was in the beginning.
   */
  ghost function LastWritten<S>(p: Program<S>, world: World, node: Node, vms: Vms<S>, n: nat, slot: SlotId,
                                i: nat): byte
    requires i < TWO_32
  {
    if n == 0 then View(vms.top.pages, HostOf(world, vms.top), slot, i)
    else
      var was := RunFrom(p, world, node, vms, n - 1);
      var request := p.asks(was.top.state);
      if |was.callers| == |vms.callers| && WritesByte(world, was.top, request, slot, i)
      then request.data[i - request.index]
      else LastWritten(p, world, node, vms, n - 1, slot, i)
  }

  /** The same VM as far as its storage and its rights go. */
  ghost predicate SameStorage<S>(now: VmData<S>, was: VmData<S>) {
    now.message == was.message && now.conf == was.conf && now.token == was.token
  }

  /** A VM that has ended is gone, or was the outermost, which is left as it is. */
  ghost predicate Left<S>(was: Vms<S>, now: Vms<S>) {
    |now.callers| < |was.callers| || (now.ended.Some? && now == was.(ended := now.ended))
  }

  lemma EndLeaves<S>(p: Program<S>, vms: Vms<S>, r: RunOk)
    ensures Left(vms, End(p, vms, r))
  {
    EndMoves(p, vms, r);
  }

  lemma HostErrorLeaves<S>(p: Program<S>, world: World, vms: Vms<S>)
    ensures Left(vms, HostError(p, world, vms))
  {
    match world.errors(vms.top.message.address, vms.top.token)
    case None =>
    case Some(msg) => EndLeaves(p, vms, VmError(msg, None));
  }

  /** An allowed write that does not end the VM has written exactly its bytes. */
  lemma WrittenIfLives<S>(p: Program<S>, world: World, node: Node, vms: Vms<S>, slot: SlotId, index: u32,
                          data: seq<byte>)
    requires Asks(p, vms, WriteStorage(slot, index, data)) && MayWrite(world, vms.top, slot, index, data)
    requires var now := Step(p, world, node, vms); now.ended.None? && |vms.callers| <= |now.callers|
    ensures var now := Step(p, world, node, vms);
            && now.callers == vms.callers && SameStorage(now.top, vms.top)
            && FlatWrite(vms.top.pages, now.top.pages, HostOf(world, vms.top), slot, index, data)
  {
    var pages, remaining, r := WriteGives(p, world, node, vms, slot, index, data);
    var done := WithPages(vms, pages, remaining);
    match r
    case Ok(_) =>
    case Err(OutOfStorage) => EndLeaves(p, done, VmError(OUT_OF_STORAGE, None));
    case Err(HostFailed) => HostErrorLeaves(p, world, done);
  }

  lemma CallsKeepPages<S>(p: Program<S>, node: Node, vms: Vms<S>, call: GlCall)
    requires |vms.callers| <= |GlCallStep(p, node, vms, call).callers|
    ensures var me := AtDepth(GlCallStep(p, node, vms, call), |vms.callers|);
            SameStorage(me, vms.top) && me.pages == vms.top.pages
  {
    match call
    case EmitEvent(_, _) => EndLeaves(p, vms, NO_BUDGET);
    case Finish(result) => EndLeaves(p, vms, result);
    case RunNondet(_, _) =>
      var r := LeaderResult(node, vms.callNo);
      if r.Ok? {
        EndLeaves(p, vms.(callNo := vms.callNo + 1), r.value);
      }
    case _ =>
  }

  /** No other request changes the pages of the VM that makes it, also if that ends the run. */
  lemma OthersKeepPages<S>(p: Program<S>, world: World, node: Node, vms: Vms<S>)
    requires vms.ended.None? && !p.asks(vms.top.state).WriteStorage?
    requires |vms.callers| <= |Step(p, world, node, vms).callers|
    ensures var me := AtDepth(Step(p, world, node, vms), |vms.callers|);
            SameStorage(me, vms.top) && me.pages == vms.top.pages
  {
    match p.asks(vms.top.state)
    case ReadStorage(_, _, _) => HostErrorLeaves(p, world, vms);
    case Ask(call) => CallsKeepPages(p, node, vms, call);
  }

  /** What runs above a VM leaves its storage alone. */
  lemma AboveKeepsPages<S>(p: Program<S>, world: World, node: Node, was: Vms<S>, depth: nat)
    requires depth < |was.callers| && depth <= |Step(p, world, node, was).callers|
    ensures var after := AtDepth(Step(p, world, node, was), depth);
            SameStorage(after, was.callers[depth]) && after.pages == was.callers[depth].pages
  {
    StepMoves(p, world, node, was);
  }

  /**
   * One request, made by the VM at that depth or by one above it: the VM at the depth keeps its host and its rights,
   * and in its storage byte `i` is the one written, or as it was.
   */
  ghost predicate Onward<S>(world: World, request: Request, was: Vms<S>, now: Vms<S>, depth: nat, slot: SlotId, i: nat)
    requires depth <= |was.callers| && depth <= |now.callers| && i < TWO_32
  {
    var before, after := AtDepth(was, depth), AtDepth(now, depth);
    && SameStorage(after, before)
    && View(after.pages, HostOf(world, after), slot, i) ==
       if |was.callers| == depth && WritesByte(world, before, request, slot, i) then request.data[i - request.index]
       else View(before.pages, HostOf(world, before), slot, i)
  }

  lemma OneMoreWritten<S>(p: Program<S>, world: World, node: Node, was: Vms<S>, depth: nat, slot: SlotId, i: nat)
    requires was.ended.None? && depth <= |was.callers| && i < TWO_32
    requires var now := Step(p, world, node, was); now.ended.None? && depth <= |now.callers|
    ensures Onward(world, p.asks(was.top.state), was, Step(p, world, node, was), depth, slot, i)
  {
    var request := p.asks(was.top.state);
    if |was.callers| > depth {
      AboveKeepsPages(p, world, node, was, depth);
    } else if request.WriteStorage? {
      WriteAtTop(p, world, node, was, request, slot, i);
    } else {
      OthersKeepPages(p, world, node, was);
    }
  }

  lemma WriteAtTop<S>(p: Program<S>, world: World, node: Node, was: Vms<S>, request: Request, slot: SlotId, i: nat)
    requires Asks(p, was, request) && request.WriteStorage? && i < TWO_32
    requires var now := Step(p, world, node, was); now.ended.None? && |was.callers| <= |now.callers|
    ensures var now, host := Step(p, world, node, was), HostOf(world, was.top);
            && now.callers == was.callers && SameStorage(now.top, was.top)
            && View(now.top.pages, host, slot, i) ==
               if WritesByte(world, was.top, request, slot, i) then request.data[i - request.index]
               else View(was.top.pages, host, slot, i)
  {
    if MayWrite(world, was.top, request.slot, request.index, request.data) {
      WrittenIfLives(p, world, node, was, request.slot, request.index, request.data);
    } else {
      WriteIsGated(p, world, node, was, request.slot, request.index, request.data);
    }
  }

  lemma LivedBefore<S>(p: Program<S>, world: World, node: Node, vms: Vms<S>, n: nat)
    requires Lives(p, world, node, vms, n) && n > 0
    ensures Lives(p, world, node, vms, n - 1) && RunFrom(p, world, node, vms, n).ended.None?
    ensures var was := RunFrom(p, world, node, vms, n - 1); was.ended.None? && |vms.callers| <= |was.callers|
    ensures RunFrom(p, world, node, vms, n) == Step(p, world, node, RunFrom(p, world, node, vms, n - 1))
    ensures |vms.callers| <= |RunFrom(p, world, node, vms, n).callers|
  {
  }

  /**
   * As long as a VM lives, its storage shows what it has written last and its beginnings elsewhere, whatever the VMs
   * it has called or opened, and those they have, do in between.
   */
  lemma {:induction false} StorageShowsLastWritten<S>(p: Program<S>, world: World, node: Node, vms: Vms<S>, n: nat,
                                                      slot: SlotId, i: nat)
    requires Lives(p, world, node, vms, n) && i < TWO_32
    ensures var me := AtDepth(RunFrom(p, world, node, vms, n), |vms.callers|);
            && SameStorage(me, vms.top)
            && View(me.pages, HostOf(world, vms.top), slot, i) == LastWritten(p, world, node, vms, n, slot, i)
  {
    if n > 0 {
      var was, now := RunFrom(p, world, node, vms, n - 1), RunFrom(p, world, node, vms, n);
      LivedBefore(p, world, node, vms, n);
      StorageShowsLastWritten(p, world, node, vms, n - 1, slot, i);
      OneMoreWritten(p, world, node, was, |vms.callers|, slot, i);
      LastIsShown(world, vms.top, |vms.callers|, p.asks(was.top.state), was, now, slot, i,
                  LastWritten(p, world, node, vms, n - 1, slot, i), LastWritten(p, world, node, vms, n, slot, i));
    }
  }

  /** What one more request leaves in the storage is the last byte written. */
  lemma LastIsShown<S>(world: World, me: VmData<S>, depth: nat, request: Request, was: Vms<S>, now: Vms<S>,
                       slot: SlotId, i: nat, before: byte, after: byte)
    requires depth <= |was.callers| && depth <= |now.callers| && i < TWO_32
    requires Onward(world, request, was, now, depth, slot, i)
    requires SameStorage(AtDepth(was, depth), me)
    requires View(AtDepth(was, depth).pages, HostOf(world, me), slot, i) == before
    requires after == if |was.callers| == depth && WritesByte(world, was.top, request, slot, i)
                      then request.data[i - request.index] else before
    ensures SameStorage(AtDepth(now, depth), me)
    ensures View(AtDepth(now, depth).pages, HostOf(world, me), slot, i) == after
  {
  }

  /**
   * Reads see writes: when the VM that was on top of `vms` asks for bytes of its own storage after any run, it is given
   * the last ones it wrote, and those of the beginning where it wrote none. A VM called for another state is given the
   * host's.
   */
  lemma ReadsSeeWrites<S>(p: Program<S>, world: World, node: Node, vms: Vms<S>, n: nat, slot: SlotId, index: u32,
                          len: u32) returns (data: seq<byte>)
    requires Lives(p, world, node, vms, n) && |RunFrom(p, world, node, vms, n).callers| == |vms.callers|
    requires Asks(p, RunFrom(p, world, node, vms, n), ReadStorage(slot, index, len))
    requires vms.top.conf.canReadStorage && index + len <= U32_MAX
    requires !HostRefuses(world, RunFrom(p, world, node, vms, n).top, slot, index, len)
    ensures Gets(p, RunFrom(p, world, node, vms, n), RunFrom(p, world, node, vms, n + 1), Data(data)) && |data| == len
    ensures forall i: nat :: index <= i < index + len ==>
              data[i - index] == if vms.top.conf.mode == Default then LastWritten(p, world, node, vms, n, slot, i)
                                 else HostOf(world, vms.top).content(slot, i)
  {
    var was := RunFrom(p, world, node, vms, n);
    StorageShowsLastWritten(p, world, node, vms, n, slot, index);
    data := ReadGives(p, world, node, was, slot, index, len);
    if vms.top.conf.mode == Default {
      ContentIsLastWritten(p, world, node, vms, n, slot, index, data, was.top.pages);
    } else {
      forall i: nat | index <= i < index + len
        ensures data[i - index] == HostOf(world, vms.top).content(slot, i)
      {
        assert data[i - index] == HostOf(world, vms.top).content(slot, index + (i - index));
      }
    }
  }

  lemma ShownIsLastWritten<S>(p: Program<S>, world: World, node: Node, vms: Vms<S>, n: nat,
                              pages: map<PageId, Page>, slot: SlotId, i: nat, shown: byte)
    requires Lives(p, world, node, vms, n) && pages == AtDepth(RunFrom(p, world, node, vms, n), |vms.callers|).pages
    requires i < TWO_32 && shown == View(pages, HostOf(world, vms.top), slot, i)
    ensures shown == LastWritten(p, world, node, vms, n, slot, i)
  {
    StorageShowsLastWritten(p, world, node, vms, n, slot, i);
  }

  lemma ByteRead(data: seq<byte>, pages: map<PageId, Page>, host: Host, slot: SlotId, index: u32, i: nat)
    requires ReadsAs(data, pages, host, slot, index) && index <= i < index + |data|
    ensures i < TWO_32 && data[i - index] == View(pages, host, slot, i)
  {
    assert data[i - index] == View(pages, host, slot, index + (i - index));
  }

  lemma ContentIsLastWritten<S>(p: Program<S>, world: World, node: Node, vms: Vms<S>, n: nat, slot: SlotId, index: u32,
                                data: seq<byte>, pages: map<PageId, Page>)
    requires Lives(p, world, node, vms, n) && pages == AtDepth(RunFrom(p, world, node, vms, n), |vms.callers|).pages
    requires ReadsAs(data, pages, HostOf(world, vms.top), slot, index)
    ensures forall i: nat :: index <= i < index + |data| ==>
              data[i - index] == LastWritten(p, world, node, vms, n, slot, i)
  {
    forall i: nat | index <= i < index + |data|
      ensures data[i - index] == LastWritten(p, world, node, vms, n, slot, i)
    {
      ByteRead(data, pages, HostOf(world, vms.top), slot, index, i);
      ShownIsLastWritten(p, world, node, vms, n, pages, slot, i, data[i - index]);
    }
  }

  // ----- locked slots

  /** Of the locked slots `pages` has nothing but what `code` has. */
  ghost predicate NothingNewLocked(world: World, pages: map<PageId, Page>, code: map<PageId, Page>) {
    forall k: PageId :: k.slot in world.lockedSlots && k in pages ==> k in code && pages[k] == code[k]
  }

  ghost predicate LockedIsKept<S>(world: World, vms: Vms<S>, code: map<PageId, Page>) {
    && NothingNewLocked(world, vms.top.pages, code)
    && forall d :: d in vms.callers ==> NothingNewLocked(world, d.pages, code)
  }

  /** The locked pages of `now` are those of `was`. */
  ghost predicate LockedAsBefore(world: World, was: map<PageId, Page>, now: map<PageId, Page>) {
    forall k: PageId :: k.slot in world.lockedSlots ==> IsOld(was, now, k)
  }

  /** A write that is allowed touches no locked slot, wherever it stops. */
  lemma WrittenKeepsLocked(world: World, was: map<PageId, Page>, now: map<PageId, Page>, host: Host, slot: SlotId,
                           index: u32, data: seq<byte>)
    requires index + |data| <= U32_MAX && slot !in world.lockedSlots
    requires NoTornPage(was, now, host, index, data, Touched(slot, index, |data|))
    ensures LockedAsBefore(world, was, now)
  {
    forall k: PageId | k.slot in world.lockedSlots
      ensures IsOld(was, now, k)
    {
      assert k !in Touched(slot, index, |data|);
    }
  }

  lemma WriteKeepsLocked<S>(p: Program<S>, world: World, node: Node, vms: Vms<S>, slot: SlotId, index: u32,
                            data: seq<byte>)
    requires Asks(p, vms, WriteStorage(slot, index, data)) && MayWrite(world, vms.top, slot, index, data)
    requires |vms.callers| <= |Step(p, world, node, vms).callers|
    ensures LockedAsBefore(world, vms.top.pages, Step(p, world, node, vms).top.pages)
  {
    var pages, remaining, r := WriteGives(p, world, node, vms, slot, index, data);
    var done := WithPages(vms, pages, remaining);
    WrittenKeepsLocked(world, vms.top.pages, pages, HostOf(world, vms.top), slot, index, data);
    match r
    case Ok(_) =>
    case Err(OutOfStorage) => EndLeaves(p, done, VmError(OUT_OF_STORAGE, None));
    case Err(HostFailed) => HostErrorLeaves(p, world, done);
  }

  /** The VM that makes a request keeps its locked pages. */
  lemma TopKeepsLocked<S>(p: Program<S>, world: World, node: Node, vms: Vms<S>)
    requires |vms.callers| <= |Step(p, world, node, vms).callers|
    ensures LockedAsBefore(world, vms.top.pages, AtDepth(Step(p, world, node, vms), |vms.callers|).pages)
  {
    if vms.ended.None? {
      match p.asks(vms.top.state)
      case WriteStorage(slot, index, data) =>
        WriteStays(p, world, node, vms, slot, index, data);
        if MayWrite(world, vms.top, slot, index, data) {
          WriteKeepsLocked(p, world, node, vms, slot, index, data);
        } else {
          WriteIsGated(p, world, node, vms, slot, index, data);
        }
      case _ => OthersKeepPages(p, world, node, vms);
    }
  }

  /** A write starts nothing. */
  lemma WriteStays<S>(p: Program<S>, world: World, node: Node, vms: Vms<S>, slot: SlotId, index: u32, data: seq<byte>)
    requires Asks(p, vms, WriteStorage(slot, index, data))
    ensures |Step(p, world, node, vms).callers| <= |vms.callers|
  {
    if MayWrite(world, vms.top, slot, index, data) {
      var pages, remaining, r := WriteGives(p, world, node, vms, slot, index, data);
      var done := WithPages(vms, pages, remaining);
      match r
      case Ok(_) =>
      case Err(OutOfStorage) => EndLeaves(p, done, VmError(OUT_OF_STORAGE, None));
      case Err(HostFailed) => HostErrorLeaves(p, world, done);
    } else {
      WriteIsGated(p, world, node, vms, slot, index, data);
    }
  }

  lemma StepKeepsLocked<S>(p: Program<S>, world: World, node: Node, vms: Vms<S>, code: map<PageId, Page>)
    requires LockedIsKept(world, vms, code)
    ensures LockedIsKept(world, Step(p, world, node, vms), code)
  {
    var now := Step(p, world, node, vms);
    StepMoves(p, world, node, vms);
    if GaveWay(vms, now) {
      assert vms.callers[|now.callers|] in vms.callers;
    } else {
      TopKeepsLocked(p, world, node, vms);
    }
  }

  /**
   * Over any run no VM ever has a page of a locked slot but those that were there in the beginning, and as they were.
   */
  lemma {:induction false} LockedNeverChanges<S>(p: Program<S>, world: World, node: Node, vms: Vms<S>, n: nat,
                                                 code: map<PageId, Page>)
    requires LockedIsKept(world, vms, code)
    ensures LockedIsKept(world, RunFrom(p, world, node, vms, n), code)
  {
    if n > 0 {
      LockedNeverChanges(p, world, node, vms, n - 1, code);
      StepKeepsLocked(p, world, node, RunFrom(p, world, node, vms, n - 1), code);
    }
  }

  /** A transaction: the only locked pages any VM ever has are those of the code it deploys, none if it does not. */
  lemma LockedIsCode<S>(p: Program<S>, world: World, node: Node, state: S, n: nat)
    ensures LockedIsKept(world, Run(p, world, node, state, n), Deployed(world).0.pages)
    ensures world.code == None ==> LockedIsKept(world, Run(p, world, node, state, n), map[])
  {
    LockedNeverChanges(p, world, node, Outermost(world, state), n, Deployed(world).0.pages);
  }

  /** And the outermost contract keeps all of those it has. */
  lemma {:induction false} OutermostKeepsLocked<S>(p: Program<S>, world: World, node: Node, vms: Vms<S>, n: nat)
    ensures LockedAsBefore(world, AtDepth(vms, 0).pages, AtDepth(RunFrom(p, world, node, vms, n), 0).pages)
  {
    if n > 0 {
      OutermostKeepsLocked(p, world, node, vms, n - 1);
      var was := RunFrom(p, world, node, vms, n - 1);
      if |was.callers| == 0 {
        TopKeepsLocked(p, world, node, was);
      } else {
        StepMoves(p, world, node, was);
      }
    }
  }

  // ----- rights

  /** Whoever has `a` may do nothing that whoever has `b` may not. */
  predicate AtMost(a: Permissions, b: Permissions) {
    && a.isDeterministic == b.isDeterministic
    && (a.canReadStorage ==> b.canReadStorage) && (a.canWriteStorage ==> b.canWriteStorage)
    && (a.canSpawnNondet ==> b.canSpawnNondet) && (a.canCallOthers ==> b.canCallOthers)
  }

  /** A VM has at most the rights `b`; in a sandbox it makes no calls and runs no blocks. */
  predicate IsConfined<S>(d: VmData<S>, b: Permissions) {
    && AtMost(d.conf, b)
    && (d.message.kind == Sandboxed ==> !d.conf.canSpawnNondet && !d.conf.canCallOthers)
  }

  ghost predicate AllConfined<S>(vms: Vms<S>, b: Permissions) {
    IsConfined(vms.top, b) && forall d :: d in vms.callers ==> IsConfined(d, b)
  }

  lemma ConfinedKept<S>(was: Vms<S>, now: Vms<S>, b: Permissions)
    requires AllConfined(was, b) && Moved(was, now)
    ensures AllConfined(now, b)
  {
    if GaveWay(was, now) {
      assert was.callers[|now.callers|] in was.callers;
    }
  }

  /** Over any run no VM gets a right that the first one does not have, however deep it calls and opens sandboxes. */
  lemma {:induction false} RightsNeverGrow<S>(p: Program<S>, world: World, node: Node, vms: Vms<S>, n: nat,
                                              b: Permissions)
    requires AllConfined(vms, b)
    ensures AllConfined(RunFrom(p, world, node, vms, n), b)
  {
    if n > 0 {
      RightsNeverGrow(p, world, node, vms, n - 1, b);
      StepMoves(p, world, node, RunFrom(p, world, node, vms, n - 1));
      ConfinedKept(RunFrom(p, world, node, vms, n - 1), RunFrom(p, world, node, vms, n), b);
    }
  }

  // ----- starting others

  /** `child` runs on top of `vms`, and all else is as it was. */
  ghost predicate RunsOnTop<S>(p: Program<S>, vms: Vms<S>, now: Vms<S>, child: VmData<S>) {
    && p.starts(child.message, child.conf, child.pages, vms.started) == Some(child.state) && child.events == []
    && now == vms.(top := child, callers := vms.callers + [vms.top], started := vms.started + [child.message])
  }

  /** The code for a message could not be loaded. */
  ghost predicate CannotLoad<S>(p: Program<S>, vms: Vms<S>, now: Vms<S>, child: VmData<S>) {
    p.starts(child.message, child.conf, child.pages, vms.started) == None && now == vms.(ended := Some(Internal))
  }

  /**
   * A sandbox is the same contract with a copy of its storage, which may write only if it is allowed to and its parent
   * may.
   */
  lemma SandboxGives<S>(p: Program<S>, world: World, node: Node, vms: Vms<S>, data: seq<byte>, allowWriteOps: bool)
    returns (child: VmData<S>)
    requires Asks(p, vms, Ask(Sandbox(data, allowWriteOps)))
    ensures var now, me := Step(p, world, node, vms), vms.top;
            && (RunsOnTop(p, vms, now, child) || CannotLoad(p, vms, now, child))
            && child.pages == me.pages && child.token == me.token
            && child.message.address == me.message.address && child.message.stack == me.message.stack
            && child.message.kind == Sandboxed && child.message.data == data
            && child.conf.isDeterministic == me.conf.isDeterministic
            && child.conf.canReadStorage == me.conf.canReadStorage
            && (child.conf.canWriteStorage <==> me.conf.canWriteStorage && allowWriteOps)
            && !child.conf.canSpawnNondet && !child.conf.canCallOthers && child.conf.mode == me.conf.mode
  {
    var me := vms.top;
    var conf := Permissions(me.conf.isDeterministic, me.conf.canReadStorage, me.conf.canWriteStorage && allowWriteOps,
                            false, false, me.conf.mode);
    child := VmData(me.state, me.message.(kind := Sandboxed, data := data), conf, me.token, me.pages, []);
    var loaded := p.starts(child.message, conf, me.pages, vms.started);
    if loaded.Some? {
      child := child.(state := loaded.value);
    }
  }

  /**
   * A called contract gets the arguments, sees the state that was asked for, the latest accepted one by default, starts
   * without pages, and may read, call and run blocks if its caller may.
   */
  lemma CallGives<S>(p: Program<S>, world: World, node: Node, vms: Vms<S>, address: Address, args: Calldata.Value,
                     mode: StorageMode) returns (child: VmData<S>)
    requires Asks(p, vms, Ask(CallContract(address, args, mode)))
    ensures var now, me := Step(p, world, node, vms), vms.top;
            if !me.conf.isDeterministic || !me.conf.canCallOthers then Gets(p, vms, now, Refused(Forbidden))
            else
              && (RunsOnTop(p, vms, now, child) || CannotLoad(p, vms, now, child))
              && child.pages == map[]
              && child.token == child.conf.mode == (if mode == LatestFinal then LatestFinal else LatestNonFinal)
              && child.message.address == address && child.message.kind == Main
              && child.message.stack == me.message.stack + [me.message.address]
              && (Calldata.Spellable(args) ==> Calldata.Decode(child.message.data) == Ok(args))
              && child.conf.isDeterministic && !child.conf.canWriteStorage
              && child.conf.canReadStorage == me.conf.canReadStorage
              && child.conf.canSpawnNondet == me.conf.canSpawnNondet
              && child.conf.canCallOthers == me.conf.canCallOthers
  {
    var me := vms.top;
    var state := if mode == LatestFinal then LatestFinal else LatestNonFinal;
    var conf := Permissions(true, me.conf.canReadStorage, false, me.conf.canSpawnNondet, me.conf.canCallOthers, state);
    var message := Message(address, me.message.stack + [me.message.address], Main, Calldata.Encode(args));
    child := VmData(me.state, message, conf, state, map[], []);
    Calldata.DecodeIffEncode(message.data, args);
    var loaded := p.starts(message, conf, map[], vms.started);
    if loaded.Some? {
      child := child.(state := loaded.value);
    }
  }

  // ----- events and blocks

  /** An event is recorded behind those before it, topics first, and charged, or it is refused or fails the VM. */
  lemma EventGives<S>(p: Program<S>, world: World, node: Node, vms: Vms<S>, topics: seq<seq<byte>>,
                      blob: seq<Calldata.Entry>)
    requires Asks(p, vms, Ask(EmitEvent(topics, blob)))
    ensures var now, me, data := Step(p, world, node, vms), vms.top, Calldata.Encode(Calldata.Map(blob));
            var size := |topics| + (|data| + 31) / 32;
            if !me.conf.isDeterministic then Gets(p, vms, now, Refused(Forbidden))
            else if |topics| > 4 || exists t :: t in topics && |t| != 32 then Gets(p, vms, now, Refused(Inval))
            else if size > vms.remaining then now == End(p, vms, VmError(OUT_OF_STORAGE, None))
            else
              && now.remaining == vms.remaining - size && now.top.events == me.events + [topics + [data]]
              && Gets(p, vms.(top := me.(events := now.top.events), remaining := now.remaining), now, Nothing)
  {
  }

  /** Only a VM that is not deterministic is answered from outside, each time anew. */
  lemma OutsideGives<S>(p: Program<S>, world: World, node: Node, vms: Vms<S>, question: seq<byte>)
    requires Asks(p, vms, Ask(AskOutside(question)))
    ensures var now := Step(p, world, node, vms);
            if vms.top.conf.isDeterministic then Gets(p, vms, now, Refused(Forbidden))
            else Gets(p, vms.(asked := vms.asked + 1), now, Data(node.outside(vms.asked, question)))
  {
  }

  /** `b` stands for a result: one byte for its kind, then its data or the message. */
  predicate StandsFor(b: seq<byte>, r: RunOk) {
    match r
    case Return(data) => b == [0] + data
    case UserError(msg) => b == [1] + msg
    case VmError(msg, _) => b == [2] + msg
  }

  /**
   * The contract is given the result its block had for the leader, under the number of the call; a failure of the block
   * is its own.
   */
  lemma BlockGives<S>(p: Program<S>, world: World, node: Node, vms: Vms<S>, dataLeader: seq<byte>,
                      dataValidator: seq<byte>) returns (bytes: seq<byte>)
    requires Asks(p, vms, Ask(RunNondet(dataLeader, dataValidator)))
    ensures var now, counted := Step(p, world, node, vms), vms.(callNo := vms.callNo + 1);
            if !vms.top.conf.canSpawnNondet then Gets(p, vms, now, Refused(Forbidden))
            else
              match LeaderResult(node, vms.callNo)
              case Err(_) => now == counted.(ended := Some(Internal))
              case Ok(VmError(msg, cause)) => now == End(p, counted, VmError(msg, cause))
              case Ok(r) => Gets(p, counted, now, Data(bytes)) && StandsFor(bytes, r)
    ensures node.Leader? ==> LeaderResult(node, vms.callNo) == Ok(node.blocks(vms.callNo))
  {
    var r := LeaderResult(node, vms.callNo);
    bytes := if r.Ok? then AsBytes(r.value) else [];
  }

  /**
   * A block is run as a VM of its contract on a copy of its storage; neither it nor what it opens may write, call, run
   * blocks, or read what the contract may not.
   */
  lemma BlockIsConfined<S>(p: Program<S>, world: World, node: Node, vms: Vms<S>, state: S, data: seq<byte>, n: nat)
    ensures var me, block := vms.top, BlockVms(vms, state, data).top;
            && block.message.address == me.message.address && block.message.stack == me.message.stack
            && block.message.kind == ConsensusStage && block.message.data == data
            && block.conf.mode == Default && block.token == me.token
            && block.conf.canReadStorage == me.conf.canReadStorage
    ensures AllConfined(RunFrom(p, world, node, BlockVms(vms, state, data), n),
                        Permissions(false, vms.top.conf.canReadStorage, false, false, false, Default))
  {
    RightsNeverGrow(p, world, node, BlockVms(vms, state, data), n,
                    Permissions(false, vms.top.conf.canReadStorage, false, false, false, Default));
  }

  // ----- the end of a VM

  /** The VM that caller `k` has started. */
  function StartedBy<S>(vms: Vms<S>, k: nat): VmData<S>
    requires k < |vms.callers|
  {
    AtDepth(vms, k + 1)
  }

  /** Caller `k` goes on with the result `r` of the VM it has started: any result of a sandbox, no failure of a call. */
  predicate Catches<S>(vms: Vms<S>, r: RunOk, k: nat)
    requires k < |vms.callers|
  {
    !r.VmError? || StartedBy(vms, k).message.kind == Sandboxed
  }

  /** The innermost caller that catches a result goes on with its bytes, and all above it are gone. */
  lemma {:induction false} EndIsCaught<S>(p: Program<S>, vms: Vms<S>, r: RunOk, k: nat) returns (bytes: seq<byte>)
    requires k < |vms.callers| && Catches(vms, r, k)
    requires forall j :: k < j < |vms.callers| ==> !Catches(vms, r, j)
    ensures StandsFor(bytes, r)
    ensures Gets(p, vms.(top := vms.callers[k], callers := vms.callers[..k]), End(p, vms, r), Data(bytes))
    decreases |vms.callers|
  {
    var n := |vms.callers|;
    bytes := AsBytes(r);
    if k < n - 1 {
      assert !Catches(vms, r, n - 1);
      var below := vms.(top := vms.callers[n - 1], callers := vms.callers[..n - 1]);
      forall j | k <= j < n - 1
        ensures Catches(below, r, j) == Catches(vms, r, j)
      {
      }
      assert below.callers[..k] == vms.callers[..k];
      bytes := EndIsCaught(p, below, r, k);
    }
  }

  /** If none does, the run ends with it. */
  lemma {:induction false} EndIsFinal<S>(p: Program<S>, vms: Vms<S>, r: RunOk)
    requires forall j :: 0 <= j < |vms.callers| ==> !Catches(vms, r, j)
    ensures End(p, vms, r) == vms.(top := AtDepth(vms, 0), callers := [], ended := Some(Finished(r)))
    decreases |vms.callers|
  {
    var n := |vms.callers|;
    if n > 0 {
      assert !Catches(vms, r, n - 1);
      var below := vms.(top := vms.callers[n - 1], callers := vms.callers[..n - 1]);
      forall j | 0 <= j < n - 1
        ensures Catches(below, r, j) == Catches(vms, r, j)
      {
      }
      EndIsFinal(p, below, r);
    }
  }

  /** The message of a VM that has spent the page budget. */
  lemma OutOfStorageIsText()
    ensures |OUT_OF_STORAGE| == |"OOM storage"|
    ensures forall i :: 0 <= i < |OUT_OF_STORAGE| ==> OUT_OF_STORAGE[i] == "OOM storage"[i] as int
  {
  }
}
