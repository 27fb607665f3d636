/**
 * The flat page store that the overlay must be indistinguishable from, and the comparison run on any list of
 * operations.
 */
module StorageReference {
  import opened Prelude
  import opened PagedStorage

  /** Nothing beneath: pages never written are zero. */
  const ZEROS := Host((slot, i) => 0, (slot, index, len) => false)

  class FlatStore {
    var storage: map<PageId, Page>

    constructor ()
      ensures storage == map[]
    {
      storage := map[];
    }

    constructor Clone(from: FlatStore)
      ensures storage == from.storage
    {
      storage := from.storage;
    }

    /** A chunk inside one page is spliced into it. */
    method WriteChunk(slot: SlotId, index: u32, chunk: seq<byte>)
      requires chunk != [] && index % 32 + |chunk| <= 32 && index + |chunk| <= TWO_32
      modifies this
      ensures FlatWrite(old(storage), storage, ZEROS, slot, index, chunk)
    {
      var pageIndex, offset := index / 32, index % 32;
      var key := PageId(slot, pageIndex);
      var page: Page := if key in storage then storage[key] else seq(32, _ => 0);
      page := page[..offset] + chunk + page[offset + |chunk|..];
      ghost var before := storage;
      storage := storage[key := page];
      ChunkWritten(before, storage, slot, index, chunk, offset, pageIndex);
    }

    /** Chunk by chunk, each inside one page. */
    method WriteStorageSlice(slot: SlotId, index: u32, data: seq<byte>)
      requires index + |data| <= TWO_32
      modifies this
      ensures FlatWrite(old(storage), storage, ZEROS, slot, index, data)
    {
      var remaining, currentIndex := data, index;
      ghost var done := 0;
      while remaining != []
        invariant 0 <= done <= |data| && remaining == data[done..]
        invariant remaining != [] ==> currentIndex == index + done
        invariant FlatWrite(old(storage), storage, ZEROS, slot, index, data[..done])
        decreases |remaining|
      {
        var offset := currentIndex % 32;
        var n := if 32 - offset < |remaining| then 32 - offset else |remaining|;
        ghost var before := storage;
        WriteChunk(slot, currentIndex, remaining[..n]);
        FlatWritesCompose(old(storage), before, storage, ZEROS, slot, index, data[..done], remaining[..n]);
        assert data[..done] + remaining[..n] == data[..done + n];
        remaining := remaining[n..];
        currentIndex := AsU32(currentIndex + n);
        done := done + n;
      }
      assert data[..done] == data;
    }

    method StorageRead(slot: SlotId, index: u32, buf: array<byte>)
      requires index + buf.Length <= TWO_32
      modifies buf
      ensures ReadsAs(buf[..], storage, ZEROS, slot, index)
    {
      var done, currentIndex := 0, index;
      while done < buf.Length
        invariant 0 <= done <= buf.Length
        invariant done < buf.Length ==> currentIndex == index + done
        invariant forall k :: 0 <= k < done ==> buf[k] == View(storage, ZEROS, slot, index + k)
      {
        var pageIndex, offset := currentIndex / 32, currentIndex % 32;
        var n := if 32 - offset < buf.Length - done then 32 - offset else buf.Length - done;
        var key := PageId(slot, pageIndex);
        var page: Page := if key in storage then storage[key] else seq(32, _ => 0);
        forall k | done <= k < done + n {
          buf[k] := page[offset + (k - done)];
        }
        forall k | done <= k < done + n
          ensures buf[k] == View(storage, ZEROS, slot, index + k)
        {
          SamePage(currentIndex, k - done);
        }
        currentIndex := AsU32(currentIndex + n);
        done := done + n;
      }
    }
  }

  lemma SamePage(i: nat, d: nat)
    requires i % 32 + d < 32
    ensures (i + d) / 32 == i / 32 && (i + d) % 32 == i % 32 + d
  {
  }

  lemma ChunkWritten(before: map<PageId, Page>, after: map<PageId, Page>, slot: SlotId, index: u32, chunk: seq<byte>,
                     offset: nat, p: u32)
    requires p * 32 + offset == index && chunk != [] && offset + |chunk| <= 32 && index + |chunk| <= TWO_32
    requires var key := PageId(slot, p);
             key in after && after == before[key := after[key]]
             && IsPatched(after[key], before, ZEROS, slot, index, chunk, p)
    ensures FlatWrite(before, after, ZEROS, slot, index, chunk)
  {
    var key := PageId(slot, p);
    assert index / 32 == p && (index + |chunk| - 1) / 32 == p;
    assert Touched(slot, index, |chunk|) == {key};
    OneMoreNew(before, before, after, ZEROS, index, chunk, {key}, key);
    NewPagesAreFlatWrite(before, after, ZEROS, slot, index, chunk);
  }

  /** Two adjacent writes are one write of both. */
  lemma FlatWritesCompose(a: map<PageId, Page>, b: map<PageId, Page>, c: map<PageId, Page>, host: Host,
                          slot: SlotId, index: nat, x: seq<byte>, y: seq<byte>)
    requires FlatWrite(a, b, host, slot, index, x) && FlatWrite(b, c, host, slot, index + |x|, y)
    ensures FlatWrite(a, c, host, slot, index, x + y)
  {
  }

  // ----- the comparison

  datatype Op =
    | Write(slot: SlotId, index: u32, data: seq<byte>)
    | Read(slot: SlotId, index: u32, len: byte)

  /** Every slot reads the same through the overlay and in the flat store. */
  ghost predicate Agree(pages: map<PageId, Page>, host: Host, flat: map<PageId, Page>) {
    forall s: SlotId, i: nat :: i < TWO_32 ==> View(pages, host, s, i) == View(flat, ZEROS, s, i)
  }

  /** The host that serves the pages `flat` and never fails. */
  function Serving(flat: map<PageId, Page>): Host {
    Host((slot, i: nat) => if i < TWO_32 then View(flat, ZEROS, slot, i) else 0, (slot, index, len) => false)
  }

  /** `index.saturating_add(n) - index`: what is left of a length below the top of the address space. */
  function Clamped(index: u32, n: nat): (len: nat)
    ensures index + len <= U32_MAX && len <= n
  {
    if index + n <= U32_MAX then n else U32_MAX - index
  }

  lemma FreshOverlayAgrees(flat: map<PageId, Page>)
    ensures Agree(map[], Serving(flat), flat)
  {
    forall s: SlotId, i: nat | i < TWO_32
      ensures View(map[], Serving(flat), s, i) == View(flat, ZEROS, s, i)
    {
      assert i == i / 32 * 32 + i % 32;
    }
  }

  lemma AgreementKept(pages: map<PageId, Page>, pages': map<PageId, Page>, host: Host,
                      flat: map<PageId, Page>, flat': map<PageId, Page>, slot: SlotId, index: nat, data: seq<byte>)
    requires Agree(pages, host, flat)
    requires FlatWrite(pages, pages', host, slot, index, data) && FlatWrite(flat, flat', ZEROS, slot, index, data)
    ensures Agree(pages', host, flat')
  {
  }

  lemma SameReads(pages: map<PageId, Page>, host: Host, flat: map<PageId, Page>, slot: SlotId, index: nat, a: seq<byte>,
                  b: seq<byte>)
    requires Agree(pages, host, flat) && |a| == |b|
    requires ReadsAs(a, pages, host, slot, index) && ReadsAs(b, flat, ZEROS, slot, index)
    ensures a == b
  {
  }

  method CompareWrite(storage: Storage, reference: FlatStore, slot: SlotId, index: u32, data: seq<byte>)
    returns (r: Outcome)
    requires NeverFails(storage.host) && Agree(storage.pages, storage.host, reference.storage)
    requires index + |data| <= TWO_32
    modifies storage, storage.limiter, reference
    ensures r.Ok? ==> Agree(storage.pages, storage.host, reference.storage)
    ensures r.Ok? <==> PagesNeeded(old(storage.pages), Touched(slot, index, |data|)) <= old(storage.limiter.remaining)
  {
    ghost var pages, flat := storage.pages, reference.storage;
    reference.WriteStorageSlice(slot, index, data);
    r := storage.Write(slot, index, data);
    if r.Ok? {
      AgreementKept(pages, storage.pages, storage.host, flat, reference.storage, slot, index, data);
    }
  }

  method CompareRead(storage: Storage, reference: FlatStore, slot: SlotId, index: u32, len: nat) returns (same: bool)
    requires NeverFails(storage.host) && Agree(storage.pages, storage.host, reference.storage)
    requires index + len <= TWO_32
    ensures same
  {
    var referenceBuf, storageBuf := new byte[len], new byte[len];
    reference.StorageRead(slot, index, referenceBuf);
    var r := storage.Read(slot, index, storageBuf);
    assert r.Ok?;
    SameReads(storage.pages, storage.host, reference.storage, slot, index, storageBuf[..], referenceBuf[..]);
    same := storageBuf[..] == referenceBuf[..];
  }

  /** Applies the operations to an overlay over `initial` and to a flat copy of `initial`, comparing every read. */
  method Compare(initial: FlatStore, limit: nat, ops: seq<Op>) returns (consistent: bool, served: nat)
    // whatever the operations, no read ever differs; only a write over the page budget can stop the run
    ensures consistent
    ensures served <= |ops| && (served < |ops| ==> ops[served].Write?)
  {
    var reference := new FlatStore.Clone(initial);
    var host := Serving(initial.storage);
    var limiter := new Limiter(limit);
    var storage := new Storage(limiter, host);
    FreshOverlayAgrees(initial.storage);
    consistent, served := true, 0;
    while served < |ops|
      invariant storage.host == host && storage.limiter == limiter && fresh(storage) && fresh(limiter)
                && fresh(reference)
      invariant NeverFails(host) && Agree(storage.pages, host, reference.storage)
      invariant consistent && served <= |ops|
      decreases |ops| - served
    {
      match ops[served] {
        case Write(slot, index, data) =>
          var r := CompareWrite(storage, reference, slot, index, data[..Clamped(index, |data|)]);
          if r.Err? {
            return;
          }
        case Read(slot, index, len) =>
          var same := CompareRead(storage, reference, slot, index, Clamped(index, len));
          consistent := consistent && same;
      }
      served := served + 1;
    }
  }
}
