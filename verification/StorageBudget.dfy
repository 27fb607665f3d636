/** One transaction's page budget, shared by all snapshots of its storage and by the events it emits. */
module StorageBudget {
  import opened Prelude
  import opened PagedStorage
  import Calldata

  const EVENT_MAX_TOPICS := 4

  predicate TopicsOk(topics: seq<seq<byte>>) {
    |topics| <= EVENT_MAX_TOPICS && forall t :: t in topics ==> |t| == 32
  }

  /** The named values of an event, in key order, as the bytes that are recorded. */
  function BlobData(blob: seq<Calldata.Entry>): seq<byte> {
    Calldata.Encode(Calldata.Map(blob))
  }

  /** Whoever gets the event reads the same values from it, and no other bytes stand for them. */
  lemma BlobIsReadBack(blob: seq<Calldata.Entry>, data: seq<byte>)
    ensures Calldata.Decode(data) == Ok(Calldata.Map(blob)) <==>
            data == BlobData(blob) && Calldata.Spellable(Calldata.Map(blob))
  {
    Calldata.DecodeIffEncode(data, Calldata.Map(blob));
  }

  /** What an event is charged: a page for each topic and for each started 32 bytes of its blob. */
  function EventSize(topics: seq<seq<byte>>, blob: seq<byte>): nat {
    |topics| + (|blob| + 31) / 32
  }

  lemma EventSizeIs(topics: seq<seq<byte>>, blob: seq<byte>)
    ensures 32 * (EventSize(topics, blob) - |topics|) >= |blob| > 32 * (EventSize(topics, blob) - |topics| - 1)
  {
  }

  function Sum(xs: seq<nat>): nat {
    if xs == [] then 0 else Sum(xs[..|xs| - 1]) + xs[|xs| - 1]
  }

  lemma {:induction false} SumUpdate(xs: seq<nat>, i: nat, x: nat)
    requires i < |xs|
    ensures Sum(xs[i := x]) == Sum(xs) - xs[i] + x
  {
    var ys := xs[i := x];
    var n := |xs| - 1;
    if i == n {
      assert ys[..n] == xs[..n];
    } else {
      assert ys[..n] == xs[..n][i := x];
      SumUpdate(xs[..n], i, x);
    }
  }

  ghost predicate Balanced(initial: nat, remaining: nat, created: seq<nat>, eventSlots: nat) {
    initial == remaining + Sum(created) + eventSlots
  }

  lemma StillBalanced(initial: nat, remaining: nat, remaining': nat, created: seq<nat>, i: nat, made: nat,
                      eventSlots: nat)
    requires Balanced(initial, remaining, created, eventSlots)
    requires i < |created| && remaining' + made == remaining + created[i]
    ensures Balanced(initial, remaining', created[i := made], eventSlots)
  {
    SumUpdate(created, i, made);
  }

  datatype EventError = TooManyTopics | BadTopicLength | EventOutOfStorage

  class Transaction {
    const limiter: Limiter
    ghost const initial: nat
    /** The storage of the running contract and every snapshot taken of one of them. */
    var storages: seq<Storage>
    var events: seq<seq<seq<byte>>>
    /** For each storage the pages it had when it was made, and the pages it has overridden itself since. */
    ghost var position: map<Storage, nat>
    ghost var inherited: seq<nat>
    ghost var created: seq<nat>
    ghost var eventSlots: nat

    ghost predicate Valid()
      reads this, limiter, storages
    {
      && |inherited| == |created| == |storages|
      && (forall i :: 0 <= i < |storages| ==> Tracks(i, storages[i], inherited[i], created[i]))
      // nothing of the budget is lost and nothing is spent twice
      && Balanced(initial, limiter.remaining, created, eventSlots)
    }

    ghost predicate Tracks(i: nat, storage: Storage, had: nat, made: nat)
      reads this`position, storage
    {
      storage in position && position[storage] == i && storage.limiter == limiter && had + made == |storage.pages|
    }

    constructor (limit: nat, host: Host)
      ensures Valid() && fresh(limiter) && fresh(storages) && initial == limit && eventSlots == 0 && events == []
      ensures |storages| == 1 && storages[0].host == host && storages[0].pages == map[]
    {
      limiter := new Limiter(limit);
      initial := limit;
      events, eventSlots := [], 0;
      inherited, created := [0], [0];
      new;
      var storage := new Storage(limiter, host);
      storages, position := [storage], map[storage := 0];
      assert created[..0] == [];
    }

    /** Runs a nested or non-deterministic VM on a snapshot of storage `i`. */
    method Snapshot(i: nat)
      requires Valid() && i < |storages|
      modifies this
      ensures Valid() && limiter.remaining == old(limiter.remaining) && eventSlots == old(eventSlots)
      ensures |storages| == old(|storages|) + 1 && storages[..|storages| - 1] == old(storages)
      ensures var snapshot := storages[|storages| - 1];
              fresh(snapshot) && snapshot.pages == storages[i].pages && snapshot.host == storages[i].host
      ensures created == old(created) + [0]
    {
      var snapshot := new Storage.Clone(storages[i]);
      position := position[snapshot := |storages|];
      storages := storages + [snapshot];
      inherited := inherited + [|snapshot.pages|];
      created := created + [0];
      assert created[..|created| - 1] == old(created);
      forall j | 0 <= j < |storages|
        ensures Tracks(j, storages[j], inherited[j], created[j])
      {
        if j < old(|storages|) {
          assert old(Tracks(j, storages[j], inherited[j], created[j]));
        }
      }
    }

    /** A write through storage `i`: no other snapshot sees it, all of them pay for it. */
    method Write(i: nat, slot: SlotId, index: u32, buf: seq<byte>) returns (r: Outcome)
      requires Valid() && i < |storages| && index + |buf| <= TWO_32
      modifies this`created, limiter, storages[i]
      ensures Valid() && eventSlots == old(eventSlots)
      ensures forall j :: 0 <= j < |storages| && j != i ==> storages[j].pages == old(storages[j].pages)
      ensures created == old(created)[i := |storages[i].pages| - inherited[i]]
      ensures r.Ok? ==> FlatWrite(old(storages[i].pages), storages[i].pages, storages[i].host, slot, index, buf)
    {
      StoragesAreApart(i);
      ghost var before := |storages[i].pages|;
      r := PassOn(storages[i], slot, index, buf);
      ghost var made := created[i] + |storages[i].pages| - before;
      StillBalanced(initial, old(limiter.remaining), limiter.remaining, created, i, made, eventSlots);
      created := created[i := made];
      forall j | 0 <= j < |storages|
        ensures Tracks(j, storages[j], inherited[j], created[j])
      {
        assert old(Tracks(j, storages[j], inherited[j], created[j]));
      }
    }

    /** What the budget needs to know about a write: the limiter pays for the pages it adds. */
    static method PassOn(storage: Storage, slot: SlotId, index: u32, buf: seq<byte>) returns (r: Outcome)
      requires index + |buf| <= TWO_32
      modifies storage`pages, storage.limiter
      ensures storage.limiter.remaining + |storage.pages| == old(storage.limiter.remaining) + |old(storage.pages)|
      ensures |storage.pages| >= |old(storage.pages)|
      ensures r.Ok? ==> FlatWrite(old(storage.pages), storage.pages, storage.host, slot, index, buf)
    {
      r := storage.Write(slot, index, buf);
    }

    lemma StoragesAreApart(i: nat)
      requires Valid() && i < |storages|
      ensures storages[i].limiter == limiter && forall j :: 0 <= j < |storages| && j != i ==> storages[j] != storages[i]
    {
      assert Tracks(i, storages[i], inherited[i], created[i]);
      forall j | 0 <= j < |storages| && j != i
        ensures storages[j] != storages[i]
      {
        assert Tracks(j, storages[j], inherited[j], created[j]);
      }
    }

    /** Emits an event: one slot per topic and one per started 32 bytes of the encoded blob. */
    method EmitEvent(topics: seq<seq<byte>>, blob: seq<Calldata.Entry>) returns (r: Result<(), EventError>)
      requires Valid()
      modifies this`events, this`eventSlots, limiter
      ensures Valid()
      ensures r.Ok? <==> TopicsOk(topics) && EventSize(topics, BlobData(blob)) <= old(limiter.remaining)
      ensures r.Ok? ==> events == old(events) + [topics + [BlobData(blob)]]
                        && eventSlots == old(eventSlots) + EventSize(topics, BlobData(blob))
      ensures r == Err(TooManyTopics) <==> |topics| > 4
      ensures r == Err(BadTopicLength) <==> |topics| <= 4 && exists n :: 0 <= n < |topics| && |topics[n]| != 32
      ensures r.Err? ==> events == old(events) && limiter.remaining == old(limiter.remaining)
    {
      if |topics| > EVENT_MAX_TOPICS {
        return Err(TooManyTopics);
      }
      for n := 0 to |topics|
        invariant forall m :: 0 <= m < n ==> |topics[m]| == 32
      {
        if |topics[n]| != 32 {
          return Err(BadTopicLength);
        }
      }
      var blobData := BlobData(blob);
      var size := |topics| + (|blobData| + 31) / 32;
      var ok := limiter.Consume(size);
      if !ok {
        return Err(EventOutOfStorage);
      }
      events := events + [topics + [blobData]];
      eventSlots := eventSlots + size;
      return Ok(());
    }
  }
}
