/** The copy-on-write page overlay a contract writes to, and the page budget its clones share. */
module PagedStorage {
  import opened Prelude

  type SlotId = s: seq<byte> | |s| == 32 witness seq(32, _ => 0)
  type Page = p: seq<byte> | |p| == 32 witness seq(32, _ => 0)

  datatype PageId = PageId(slot: SlotId, index: u32)

  /** The host as one transaction sees it: fixed contents, and which requests it answers with an error. */
  datatype Host = Host(content: (SlotId, nat) -> byte, fails: (SlotId, nat, nat) -> bool)

  datatype StorageError = OutOfStorage | HostFailed

  type Outcome = Result<(), StorageError>

  ghost predicate NeverFails(host: Host) {
    forall slot, index, len :: !host.fails(slot, index, len)
  }

  /** Byte `off` of page `p`: from the overriding page where there is one, from the host elsewhere. */
  function ByteAt(pages: map<PageId, Page>, host: Host, slot: SlotId, p: u32, off: nat): byte
    requires off < 32
  {
    if PageId(slot, p) in pages then pages[PageId(slot, p)][off] else host.content(slot, p * 32 + off)
  }

  /** The flat array a slot denotes. */
  function View(pages: map<PageId, Page>, host: Host, slot: SlotId, i: nat): byte
    requires i < TWO_32
  {
    ByteAt(pages, host, slot, i / 32, i % 32)
  }

  /** Byte `i` of the slot lies in an overridden page, so the host need not be asked for it. */
  ghost predicate IsKnown(pages: map<PageId, Page>, slot: SlotId, i: int) {
    0 <= i < TWO_32 && PageId(slot, i / 32) in pages
  }

  /** What a read of `len` bytes at `index` has to ask the host for: from the first unknown byte to the last. */
  ghost predicate IsGap(pages: map<PageId, Page>, slot: SlotId, index: nat, len: nat, lo: nat, hi: nat) {
    && index <= lo < hi <= index + len
    && !IsKnown(pages, slot, lo) && !IsKnown(pages, slot, hi - 1)
    && forall i :: index <= i < lo || hi <= i < index + len ==> IsKnown(pages, slot, i)
  }

  predicate HostFails(host: Host, slot: SlotId, lo: nat, hi: nat) {
    lo <= hi && host.fails(slot, lo, hi - lo)
  }

  /** A read fails: there is something to ask for, and the host does not answer that one request. */
  ghost predicate ReadFails(pages: map<PageId, Page>, host: Host, slot: SlotId, index: nat, len: nat) {
    exists lo: nat, hi: nat :: IsGap(pages, slot, index, len, lo, hi) && HostFails(host, slot, lo, hi)
  }

  lemma GapIsUnique(pages: map<PageId, Page>, slot: SlotId, index: nat, len: nat, lo: nat, hi: nat, lo': nat, hi': nat)
    requires IsGap(pages, slot, index, len, lo, hi) && IsGap(pages, slot, index, len, lo', hi')
    ensures lo == lo' && hi == hi'
  {
  }

  lemma NothingToAsk(pages: map<PageId, Page>, host: Host, slot: SlotId, index: nat, len: nat)
    requires forall i :: index <= i < index + len ==> IsKnown(pages, slot, i)
    ensures !ReadFails(pages, host, slot, index, len)
  {
  }

  /** `b` is the slot's flat array from `index` on. */
  ghost predicate ReadsAs(b: seq<byte>, pages: map<PageId, Page>, host: Host, slot: SlotId, index: nat) {
    index + |b| <= TWO_32 && forall k :: 0 <= k < |b| ==> b[k] == View(pages, host, slot, index + k)
  }

  /** The pages `first..last` of a slot. */
  ghost function PageRange(slot: SlotId, first: u32, last: u32): (range: set<PageId>)
    ensures forall k: PageId :: k in range <==> k.slot == slot && first <= k.index <= last
  {
    set p: u32 | first <= p <= last :: PageId(slot, p)
  }

  /** The pages that a write of `len` bytes at `index` covers, wholly or in part. */
  ghost function Touched(slot: SlotId, index: nat, len: nat): set<PageId>
    requires index + len <= TWO_32
  {
    if len == 0 then {} else PageRange(slot, index / 32, (index + len - 1) / 32)
  }

  /** `page` is what page `p` of `slot` holds once `buf` has been written at `index`. */
  ghost predicate IsPatched(page: Page, pages: map<PageId, Page>, host: Host, slot: SlotId, index: nat, buf: seq<byte>,
                            p: u32) {
    forall off :: 0 <= off < 32 ==>
      page[off] == if index <= p * 32 + off < index + |buf| then buf[p * 32 + off - index]
                   else ByteAt(pages, host, slot, p, off)
  }

  ghost predicate IsOld(was: map<PageId, Page>, now: map<PageId, Page>, k: PageId) {
    (k in now <==> k in was) && (k in was ==> now[k] == was[k])
  }

  ghost predicate IsNew(was: map<PageId, Page>, now: map<PageId, Page>, host: Host, index: nat, buf: seq<byte>,
                        k: PageId) {
    k in now && IsPatched(now[k], was, host, k.slot, index, buf, k.index)
  }

  /**
   * What a write of `buf` at `index` leaves behind: every page of `range` is wholly old or wholly new, every other old.
   */
  ghost predicate NoTornPage(was: map<PageId, Page>, now: map<PageId, Page>, host: Host, index: nat, buf: seq<byte>,
                             range: set<PageId>) {
    forall k :: IsOld(was, now, k) || (k in range && IsNew(was, now, host, index, buf, k))
  }

  ghost predicate AllNew(was: map<PageId, Page>, now: map<PageId, Page>, host: Host, index: nat, buf: seq<byte>,
                         range: set<PageId>) {
    forall k :: k in range ==> IsNew(was, now, host, index, buf, k)
  }

  /** How many pages of `range` a write newly overrides. */
  ghost function PagesNeeded(pages: map<PageId, Page>, range: set<PageId>): nat {
    |range - pages.Keys|
  }

  /**
   * On the flat arrays of all slots, `now` is `was` with `buf` written at `index` of `slot` and nothing else changed.
   */
  ghost predicate FlatWrite(was: map<PageId, Page>, now: map<PageId, Page>, host: Host, slot: SlotId, index: nat,
                            buf: seq<byte>) {
    forall s: SlotId, i: nat :: i < TWO_32 ==>
      View(now, host, s, i) == if s == slot && index <= i < index + |buf| then buf[i - index] else View(was, host, s, i)
  }

  lemma NewPagesAreFlatWrite(was: map<PageId, Page>, now: map<PageId, Page>, host: Host, slot: SlotId, index: nat,
                             buf: seq<byte>)
    requires index + |buf| <= TWO_32
    requires NoTornPage(was, now, host, index, buf, Touched(slot, index, |buf|))
    requires AllNew(was, now, host, index, buf, Touched(slot, index, |buf|))
    ensures FlatWrite(was, now, host, slot, index, buf)
  {
    forall s: SlotId, i: nat | i < TWO_32
      ensures View(now, host, s, i) ==
              if s == slot && index <= i < index + |buf| then buf[i - index] else View(was, host, s, i)
    {
      var k := PageId(s, i / 32);
      assert (i / 32) * 32 + i % 32 == i;
      assert s == slot && index <= i < index + |buf| ==> k in Touched(slot, index, |buf|);
      assert IsOld(was, now, k) || IsNew(was, now, host, index, buf, k);
    }
  }

  lemma SubsetSize<T>(a: set<T>, b: set<T>)
    requires a <= b
    ensures |a| <= |b|
  {
    assert b == a + (b - a);
  }

  lemma GrowthOf<T>(was: set<T>, now: set<T>, range: set<T>)
    requires was <= now <= was + range
    ensures range <= now ==> |now| - |was| == |range - was|
    ensures !(range <= now) ==> |now| - |was| < |range - was|
  {
    assert now == was + (now - was);
    if range <= now {
      assert now - was == range - was;
    } else {
      var missing :| missing in range && missing !in now;
      SubsetSize(now - was + {missing}, range - was);
    }
  }

  /** A write goes through exactly if the budget covers the pages it newly overrides, unless the host fails it. */
  lemma BudgetDecides(was: map<PageId, Page>, now: map<PageId, Page>, host: Host, index: nat, buf: seq<byte>,
                      range: set<PageId>, before: nat, after: nat, r: Outcome)
    requires NoTornPage(was, now, host, index, buf, range)
    requires after + |now| == before + |was|
    requires r.Ok? ==> AllNew(was, now, host, index, buf, range)
    requires r.Err? && r.error == OutOfStorage ==> after == 0 && !(range <= now.Keys)
    ensures |now| >= |was|
    ensures r.Ok? ==> PagesNeeded(was, range) <= before
    ensures r.Err? && r.error == OutOfStorage ==> PagesNeeded(was, range) > before
  {
    forall k
      ensures k in was.Keys ==> k in now.Keys
      ensures k in now.Keys ==> k in was.Keys + range
    {
      assert IsOld(was, now, k) || IsNew(was, now, host, index, buf, k);
    }
    if r.Ok? {
      assert range <= now.Keys;
    }
    SubsetSize(was.Keys, now.Keys);
    GrowthOf(was.Keys, now.Keys, range);
  }

  /** Overriding one more page of the range. */
  lemma OneMoreNew(was: map<PageId, Page>, before: map<PageId, Page>, now: map<PageId, Page>, host: Host,
                   index: nat, buf: seq<byte>, range: set<PageId>, key: PageId)
    requires NoTornPage(was, before, host, index, buf, range) && key in range
    requires key in now && now == before[key := now[key]]
    requires IsNew(was, now, host, index, buf, key)
    ensures NoTornPage(was, now, host, index, buf, range)
    ensures forall k :: IsNew(was, before, host, index, buf, k) ==> IsNew(was, now, host, index, buf, k)
    ensures forall k :: k != key && IsOld(was, before, k) ==> IsOld(was, now, k)
  {
    forall k
      ensures IsOld(was, now, k) || (k in range && IsNew(was, now, host, index, buf, k))
    {
      assert IsOld(was, before, k) || (k in range && IsNew(was, before, host, index, buf, k));
    }
  }

  // ----- what a write does, page by page

  /** The overridden pages and what is left of the page budget. */
  datatype Overlay = Overlay(pages: map<PageId, Page>, remaining: nat)

  /** Page `k` once `buf` has been written at `index`. */
  function PatchedPage(pages: map<PageId, Page>, host: Host, k: PageId, index: nat, buf: seq<byte>): (page: Page)
    ensures IsPatched(page, pages, host, k.slot, index, buf, k.index)
  {
    seq<byte>(32, (off: nat) requires off < 32 =>
      if index <= k.index * 32 + off < index + |buf| then buf[k.index * 32 + off - index]
      else ByteAt(pages, host, k.slot, k.index, off))
  }

  lemma PatchedIsUnique(page: Page, pages: map<PageId, Page>, host: Host, k: PageId, index: nat, buf: seq<byte>)
    requires IsPatched(page, pages, host, k.slot, index, buf, k.index)
    ensures page == PatchedPage(pages, host, k, index, buf)
  {
  }

  /** The write covers the page, so its old contents are not needed. */
  predicate IsWhole(k: PageId, index: nat, len: nat) {
    index <= k.index * 32 && k.index * 32 + 32 <= index + len
  }

  /** A write's effect on one page: old contents may have to be read, and a page newly overridden has to be paid for. */
  function PutPage(o: Overlay, host: Host, k: PageId, index: nat, buf: seq<byte>): (Overlay, Outcome) {
    if k !in o.pages && !IsWhole(k, index, |buf|) && host.fails(k.slot, k.index * 32, 32) then (o, Err(HostFailed))
    else if k !in o.pages && o.remaining == 0 then (o, Err(OutOfStorage))
    else (Overlay(o.pages[k := PatchedPage(o.pages, host, k, index, buf)],
                  if k in o.pages then o.remaining else o.remaining - 1), Ok(()))
  }

  /** Its effect on pages in a given order, up to the first failure. */
  function PutPages(o: Overlay, host: Host, ks: seq<PageId>, index: nat, buf: seq<byte>): (Overlay, Outcome)
    decreases |ks|
  {
    if ks == [] then (o, Ok(()))
    else
      var (after, r) := PutPage(o, host, ks[0], index, buf);
      if r.Err? then (after, r) else PutPages(after, host, ks[1..], index, buf)
  }

  function WholePages(slot: SlotId, index: nat, len: nat, p: nat, end: nat): seq<PageId>
    requires end <= TWO_32
    decreases end - p
  {
    if p >= end then []
    else
      (if IsWhole(PageId(slot, p), index, len) then [PageId(slot, p)] else [])
      + WholePages(slot, index, len, p + 1, end)
  }

  /**
   * The order in which a write goes through its pages: a partial first page, a partial last page, then the whole ones.
   */
  function WriteOrder(slot: SlotId, index: nat, len: nat): seq<PageId>
    requires index + len <= TWO_32
  {
    if len == 0 then []
    else
      var first, last := index / 32, (index + len - 1) / 32;
      if first == last then [PageId(slot, first)] else OrderOfMany(slot, index, len, first, last)
  }

  /** The pages at the edges that are covered in part. */
  function Edges(slot: SlotId, index: nat, len: nat, first: u32, last: u32): seq<PageId> {
    (if index > first * 32 then [PageId(slot, first)] else [])
    + (if index + len < last * 32 + 32 then [PageId(slot, last)] else [])
  }

  function OrderOfMany(slot: SlotId, index: nat, len: nat, first: u32, last: u32): seq<PageId>
    requires last < TWO_32 / 32
  {
    Edges(slot, index, len, first, last) + WholePages(slot, index, len, first, last + 1)
  }

  /** The overlay after a write, and whether it succeeds. */
  function Written(o: Overlay, host: Host, slot: SlotId, index: nat, buf: seq<byte>): (Overlay, Outcome)
    requires index + |buf| <= TWO_32
  {
    PutPages(o, host, WriteOrder(slot, index, |buf|), index, buf)
  }

  ghost predicate Distinct(ks: seq<PageId>) {
    forall i, j :: 0 <= i < j < |ks| ==> ks[i] != ks[j]
  }

  ghost function Among(ks: seq<PageId>): set<PageId> {
    set k | k in ks
  }

  lemma WiderRange(was: map<PageId, Page>, now: map<PageId, Page>, host: Host, index: nat, buf: seq<byte>,
                   a: set<PageId>, b: set<PageId>)
    requires NoTornPage(was, now, host, index, buf, a) && a <= b
    ensures NoTornPage(was, now, host, index, buf, b)
  {
  }

  /** The page put is new also measured against the pages before the write. */
  lemma PutIsNew(was: map<PageId, Page>, o: Overlay, host: Host, k: PageId, index: nat, buf: seq<byte>)
    requires IsOld(was, o.pages, k) && PutPage(o, host, k, index, buf).1.Ok?
    ensures IsNew(was, PutPage(o, host, k, index, buf).0.pages, host, index, buf, k)
  {
  }

  /** The budget pays for the page if it was not overridden, and only then. */
  lemma PutIsCharged(o: Overlay, host: Host, k: PageId, index: nat, buf: seq<byte>)
    ensures var (t, r) := PutPage(o, host, k, index, buf);
            && t.remaining + |t.pages| == o.remaining + |o.pages|
            && (r == Err(OutOfStorage) ==> t.remaining == 0 && k !in t.pages)
            && (r == Err(HostFailed) ==> !NeverFails(host))
            && (r.Err? ==> t == o)
  {
    var (t, r) := PutPage(o, host, k, index, buf);
    assert t.pages.Keys == if r.Ok? then o.pages.Keys + {k} else o.pages.Keys;
  }

  lemma PutOneMore(was: map<PageId, Page>, o: Overlay, host: Host, k: PageId, index: nat, buf: seq<byte>,
                   range: set<PageId>)
    requires NoTornPage(was, o.pages, host, index, buf, range) && AllNew(was, o.pages, host, index, buf, range)
    requires k !in range
    ensures var (t, r) := PutPage(o, host, k, index, buf);
            && NoTornPage(was, t.pages, host, index, buf, range + {k})
            && (r.Ok? ==> AllNew(was, t.pages, host, index, buf, range + {k}))
  {
    var (t, r) := PutPage(o, host, k, index, buf);
    assert IsOld(was, o.pages, k);
    WiderRange(was, o.pages, host, index, buf, range, range + {k});
    if r.Ok? {
      PutIsNew(was, o, host, k, index, buf);
      OneMoreNew(was, o.pages, t.pages, host, index, buf, range + {k}, k);
    } else {
      assert t == o;
    }
  }

  /**
   * Whenever a write stops, every page is wholly old or wholly new, and the budget has paid for exactly the pages
   * added.
   */
  lemma {:induction false} PutPagesTearsNone(was: map<PageId, Page>, o: Overlay, host: Host, ks: seq<PageId>,
                                             index: nat, buf: seq<byte>, range: set<PageId>)
    requires NoTornPage(was, o.pages, host, index, buf, range) && AllNew(was, o.pages, host, index, buf, range)
    requires Distinct(ks) && forall k :: k in ks ==> k !in range
    ensures var (t, r) := PutPages(o, host, ks, index, buf);
            && t.remaining + |t.pages| == o.remaining + |o.pages|
            && NoTornPage(was, t.pages, host, index, buf, range + Among(ks))
            && (r.Ok? ==> AllNew(was, t.pages, host, index, buf, range + Among(ks)))
            && (r == Err(OutOfStorage) ==> t.remaining == 0 && !(range + Among(ks) <= t.pages.Keys))
            && (r == Err(HostFailed) ==> !NeverFails(host))
    decreases |ks|
  {
    if ks == [] {
      assert range + Among(ks) == range;
    } else {
      var k, rest := ks[0], ks[1..];
      var (after, r) := PutPage(o, host, k, index, buf);
      PutIsCharged(o, host, k, index, buf);
      PutOneMore(was, o, host, k, index, buf, range);
      assert range + Among(ks) == range + {k} + Among(rest) by {
        assert ks == [k] + rest;
      }
      if r.Ok? {
        PutPagesTearsNone(was, after, host, rest, index, buf, range + {k});
      } else {
        WiderRange(was, after.pages, host, index, buf, range + {k}, range + Among(ks));
      }
    }
  }

  lemma {:induction false} PutPagesConcat(o: Overlay, host: Host, xs: seq<PageId>, ys: seq<PageId>, index: nat,
                                          buf: seq<byte>)
    ensures var (t, r) := PutPages(o, host, xs, index, buf);
            PutPages(o, host, xs + ys, index, buf) == if r.Err? then (t, r) else PutPages(t, host, ys, index, buf)
    decreases |xs|
  {
    if xs == [] {
      assert xs + ys == ys;
    } else {
      assert (xs + ys)[1..] == xs[1..] + ys;
      PutPagesConcat(PutPage(o, host, xs[0], index, buf).0, host, xs[1..], ys, index, buf);
    }
  }

  lemma DistinctConcat(xs: seq<PageId>, ys: seq<PageId>)
    requires Distinct(xs) && Distinct(ys) && forall k :: k in xs ==> k !in ys
    ensures Distinct(xs + ys)
  {
    var all := xs + ys;
    forall i, j | 0 <= i < j < |all|
      ensures all[i] != all[j]
    {
      assert all[i] in xs || i >= |xs|;
      assert all[j] in ys || j < |xs|;
    }
  }

  lemma {:induction false} WholePagesAre(slot: SlotId, index: nat, len: nat, p: nat, end: nat)
    requires end <= TWO_32
    ensures var ks := WholePages(slot, index, len, p, end);
            Distinct(ks) && forall k :: k in ks <==> k.slot == slot && p <= k.index < end && IsWhole(k, index, len)
    decreases end - p
  {
    if p < end {
      var k, rest := PageId(slot, p), WholePages(slot, index, len, p + 1, end);
      WholePagesAre(slot, index, len, p + 1, end);
      if IsWhole(k, index, len) {
        assert WholePages(slot, index, len, p, end) == [k] + rest;
        DistinctConcat([k], rest);
      } else {
        assert WholePages(slot, index, len, p, end) == rest;
      }
    }
  }

  lemma NotWholeIsEdge(k: PageId, index: nat, len: nat, first: u32, last: u32)
    requires first * 32 <= index < first * 32 + 32 && last * 32 < index + len <= last * 32 + 32
             && first <= k.index <= last
    ensures IsWhole(k, index, len) <==>
            !(k.index == first && index > first * 32) && !(k.index == last && index + len < last * 32 + 32)
  {
  }

  lemma OrderOfManyIsComplete(slot: SlotId, index: nat, len: nat, first: u32, last: u32)
    requires first < last < TWO_32 / 32
    requires first * 32 <= index < first * 32 + 32 && last * 32 < index + len <= last * 32 + 32
    ensures var ks := OrderOfMany(slot, index, len, first, last);
            Distinct(ks) && forall k :: k in ks <==> k.slot == slot && first <= k.index <= last
  {
    var front: seq<PageId> := if index > first * 32 then [PageId(slot, first)] else [];
    var back: seq<PageId> := if index + len < last * 32 + 32 then [PageId(slot, last)] else [];
    var middle := WholePages(slot, index, len, first, last + 1);
    WholePagesAre(slot, index, len, first, last + 1);
    forall k: PageId | first <= k.index <= last
      ensures k.slot == slot ==> (k in middle <==> k !in front && k !in back)
    {
      NotWholeIsEdge(k, index, len, first, last);
    }
    DistinctConcat(front, back);
    DistinctConcat(front + back, middle);
  }

  /** The order goes through every page the write touches, once. */
  lemma OrderIsComplete(slot: SlotId, index: nat, len: nat)
    requires index + len <= TWO_32
    ensures Distinct(WriteOrder(slot, index, len)) && Among(WriteOrder(slot, index, len)) == Touched(slot, index, len)
  {
    if len > 0 {
      var first, last := index / 32, (index + len - 1) / 32;
      if first < last {
        OrderOfManyIsComplete(slot, index, len, first, last);
      }
    }
  }

  /** Pages covered in part come before pages covered whole, and else the lower page comes first. */
  ghost predicate InWriteOrder(ks: seq<PageId>, index: nat, len: nat) {
    forall i, j :: 0 <= i < j < |ks| ==> Precedes(ks[i], ks[j], index, len)
  }

  predicate Precedes(k: PageId, m: PageId, index: nat, len: nat) {
    if IsWhole(k, index, len) then IsWhole(m, index, len) && k.index < m.index
    else IsWhole(m, index, len) || k.index < m.index
  }

  lemma InOrderConcat(xs: seq<PageId>, ys: seq<PageId>, index: nat, len: nat)
    requires InWriteOrder(xs, index, len) && InWriteOrder(ys, index, len)
    requires forall k, m :: k in xs && m in ys ==> Precedes(k, m, index, len)
    ensures InWriteOrder(xs + ys, index, len)
  {
    var all := xs + ys;
    forall i, j | 0 <= i < j < |all|
      ensures Precedes(all[i], all[j], index, len)
    {
      assert all[i] in xs || i >= |xs|;
      assert all[j] in ys || j < |xs|;
    }
  }

  ghost predicate Ascending(ks: seq<PageId>) {
    forall i, j :: 0 <= i < j < |ks| ==> ks[i].index < ks[j].index
  }

  ghost predicate AllFrom(ks: seq<PageId>, p: nat) {
    forall k :: k in ks ==> p <= k.index
  }

  lemma AscendStep(k: PageId, rest: seq<PageId>, whole: bool)
    requires Ascending(rest) && AllFrom(rest, k.index + 1)
    ensures Ascending((if whole then [k] else []) + rest) && AllFrom((if whole then [k] else []) + rest, k.index)
  {
    if !whole {
      assert [] + rest == rest;
    }
  }

  lemma {:induction false} WholePagesAscend(slot: SlotId, index: nat, len: nat, p: nat, end: nat)
    requires end <= TWO_32
    ensures Ascending(WholePages(slot, index, len, p, end)) && AllFrom(WholePages(slot, index, len, p, end), p)
    decreases end - p
  {
    if p < end {
      var k := PageId(slot, p);
      WholePagesAscend(slot, index, len, p + 1, end);
      AscendStep(k, WholePages(slot, index, len, p + 1, end), IsWhole(k, index, len));
    }
  }

  lemma WholePagesInOrder(slot: SlotId, index: nat, len: nat, p: nat, end: nat)
    requires end <= TWO_32
    ensures InWriteOrder(WholePages(slot, index, len, p, end), index, len)
  {
    WholePagesAscend(slot, index, len, p, end);
    WholePagesAre(slot, index, len, p, end);
    AscendingIsInOrder(WholePages(slot, index, len, p, end), index, len);
  }

  lemma AscendingIsInOrder(ks: seq<PageId>, index: nat, len: nat)
    requires Ascending(ks) && AllWhole(ks, index, len)
    ensures InWriteOrder(ks, index, len)
  {
    forall i, j | 0 <= i < j < |ks|
      ensures Precedes(ks[i], ks[j], index, len)
    {
      assert ks[i] in ks && ks[j] in ks;
    }
  }

  ghost predicate AllWhole(ks: seq<PageId>, index: nat, len: nat) {
    forall k :: k in ks ==> IsWhole(k, index, len)
  }

  ghost predicate NoneWhole(ks: seq<PageId>, index: nat, len: nat) {
    forall k :: k in ks ==> !IsWhole(k, index, len)
  }

  lemma PartsThenWhole(edges: seq<PageId>, whole: seq<PageId>, index: nat, len: nat)
    requires NoneWhole(edges, index, len) && AllWhole(whole, index, len)
    requires InWriteOrder(edges, index, len) && InWriteOrder(whole, index, len)
    ensures InWriteOrder(edges + whole, index, len)
  {
    InOrderConcat(edges, whole, index, len);
  }

  lemma EdgesInOrder(slot: SlotId, index: nat, len: nat, first: u32, last: u32)
    requires first < last
    ensures NoneWhole(Edges(slot, index, len, first, last), index, len)
    ensures InWriteOrder(Edges(slot, index, len, first, last), index, len)
  {
  }

  lemma ManyInOrder(slot: SlotId, index: nat, len: nat, first: u32, last: u32)
    requires first < last < TWO_32 / 32
    ensures InWriteOrder(OrderOfMany(slot, index, len, first, last), index, len)
  {
    WholePagesInOrder(slot, index, len, first, last + 1);
    WholePagesAre(slot, index, len, first, last + 1);
    EdgesInOrder(slot, index, len, first, last);
    PartsThenWhole(Edges(slot, index, len, first, last), WholePages(slot, index, len, first, last + 1), index, len);
  }

  /** The order of a write's pages, of which each has its one place. */
  lemma EdgesComeFirst(slot: SlotId, index: nat, len: nat)
    requires index + len <= TWO_32
    ensures InWriteOrder(WriteOrder(slot, index, len), index, len)
  {
    if len > 0 {
      var first, last := index / 32, (index + len - 1) / 32;
      if first != last {
        ManyInOrder(slot, index, len, first, last);
      }
    }
  }

  /** `chunk`, written at `at`, is the part of the write of `buf` at `index` that falls into page `k`. */
  ghost predicate IsChunk(k: PageId, index: nat, buf: seq<byte>, at: nat, chunk: seq<byte>) {
    && at == (if index > k.index * 32 then index else k.index * 32)
    && at + |chunk| == (if index + |buf| < k.index * 32 + 32 then index + |buf| else k.index * 32 + 32)
    && forall i :: 0 <= i < |chunk| ==> chunk[i] == buf[at - index + i]
  }

  /** The part of the write of `buf` at `index` that falls into page `k` has the same effect on it. */
  lemma PutChunk(o: Overlay, host: Host, k: PageId, index: nat, buf: seq<byte>, at: nat, chunk: seq<byte>)
    requires IsChunk(k, index, buf, at, chunk)
    ensures PutPage(o, host, k, at, chunk) == PutPage(o, host, k, index, buf)
  {
    PatchedIsUnique(PatchedPage(o.pages, host, k, at, chunk), o.pages, host, k, index, buf);
  }

  /** Little-endian bytes of a 32-bit number, and back. */
  function U32ToLe(n: u32): (b: seq<byte>)
    ensures |b| == 4
  {
    [n % 256, n / 256 % 256, n / 65536 % 256, n / 16777216]
  }

  function U32FromLe(b: seq<byte>): u32
    requires |b| == 4
  {
    b[0] as int + b[1] as int * 256 + b[2] as int * 65536 + b[3] as int * 16777216
  }

  lemma LeRoundTrip(n: u32)
    ensures U32FromLe(U32ToLe(n)) == n
  {
    assert n / 256 == n / 65536 * 256 + n / 256 % 256;
    assert n / 65536 == n / 16777216 * 256 + n / 65536 % 256;
  }

  /** Byte `k` has the bits of the number from `8 * k` on. */
  lemma LeDigits(n: u32)
    ensures forall k :: 0 <= k < 4 ==> U32ToLe(n)[k] as int == n / Pow2(8 * k) % 256
  {
    assert Pow2(0) == 1 && Pow2(8) == 256 && Pow2(16) == 65536 && Pow2(24) == 16777216;
  }

  /** The overlay after the code has been stored, a length first and the bytes behind it, and whether that succeeds. */
  function WrittenCode(o: Overlay, host: Host, codeSlot: SlotId, code: seq<byte>): (Overlay, Outcome) {
    if |code| > U32_MAX - 4 then (o, Err(OutOfStorage))
    else
      var (after, r) := Written(o, host, codeSlot, 0, U32ToLe(|code|));
      if r.Err? then (after, r) else Written(after, host, codeSlot, 4, code)
  }

  datatype CodeError = CodeUnreadable | CodeOutOfMemory

  /** The code slot starts with the length of `code`, the low byte first, followed by `code`. */
  ghost predicate HoldsCode(pages: map<PageId, Page>, host: Host, codeSlot: SlotId, code: seq<byte>) {
    && |code| <= U32_MAX - 4
    && (forall k :: 0 <= k < 4 ==> View(pages, host, codeSlot, k) == |code| / Pow2(8 * k) % 256)
    && ReadsAs(code, pages, host, codeSlot, 4)
  }

  lemma CodeWritten(was: map<PageId, Page>, middle: map<PageId, Page>, now: map<PageId, Page>, host: Host,
                    codeSlot: SlotId, code: seq<byte>)
    requires |code| <= U32_MAX - 4
    requires FlatWrite(was, middle, host, codeSlot, 0, U32ToLe(|code|))
             && FlatWrite(middle, now, host, codeSlot, 4, code)
    ensures HoldsCode(now, host, codeSlot, code)
  {
    LeDigits(|code|);
    assert forall k :: 0 <= k < 4 ==> View(now, host, codeSlot, k) == View(middle, host, codeSlot, k);
  }

  lemma HeaderRead(pages: map<PageId, Page>, host: Host, codeSlot: SlotId, code: seq<byte>, header: seq<byte>)
    requires HoldsCode(pages, host, codeSlot, code)
    requires |header| == 4 && ReadsAs(header, pages, host, codeSlot, 0)
    ensures U32FromLe(header) == |code|
  {
    LeRoundTrip(|code|);
    LeDigits(|code|);
    assert forall k :: 0 <= k < 4 ==> header[k] == U32ToLe(|code|)[k];
    assert header == U32ToLe(|code|);
  }

  lemma BodyRead(pages: map<PageId, Page>, host: Host, codeSlot: SlotId, code: seq<byte>, body: seq<byte>)
    requires HoldsCode(pages, host, codeSlot, code)
    requires |body| == |code| && ReadsAs(body, pages, host, codeSlot, 4)
    ensures body == code
  {
  }

  lemma PutPagesOne(o: Overlay, host: Host, k: PageId, index: nat, buf: seq<byte>)
    ensures PutPages(o, host, [k], index, buf) == PutPage(o, host, k, index, buf)
  {
    assert [k][1..] == [];
  }

  /** One round of the loop over the pages: a whole page is put, a partial one skipped. */
  lemma PutWholeStep(o: Overlay, host: Host, slot: SlotId, index: nat, buf: seq<byte>, p: nat, end: nat)
    requires p < end <= TWO_32
    ensures var k := PageId(slot, p);
            var rest := WholePages(slot, index, |buf|, p + 1, end);
            PutPages(o, host, WholePages(slot, index, |buf|, p, end), index, buf) ==
            if !IsWhole(k, index, |buf|) then PutPages(o, host, rest, index, buf)
            else
              var (after, r) := PutPage(o, host, k, index, buf);
              if r.Err? then (after, r) else PutPages(after, host, rest, index, buf)
  {
    var k := PageId(slot, p);
    var rest := WholePages(slot, index, |buf|, p + 1, end);
    assert [] + rest == rest && ([k] + rest)[1..] == rest;
  }

  /** What a write promises: see `Storage.Write`. */
  lemma WrittenIsFlat(o: Overlay, host: Host, slot: SlotId, index: nat, buf: seq<byte>)
    requires index + |buf| <= TWO_32
    ensures var (t, r) := Written(o, host, slot, index, buf);
            var range := Touched(slot, index, |buf|);
            && t.remaining + |t.pages| == o.remaining + |o.pages| && |t.pages| >= |o.pages|
            && NoTornPage(o.pages, t.pages, host, index, buf, range)
            && (r.Ok? ==> AllNew(o.pages, t.pages, host, index, buf, range))
            && (r.Ok? ==> FlatWrite(o.pages, t.pages, host, slot, index, buf))
            && (r == Err(HostFailed) ==> !NeverFails(host))
            && (r.Ok? ==> PagesNeeded(o.pages, range) <= o.remaining)
            && (r == Err(OutOfStorage) ==> PagesNeeded(o.pages, range) > o.remaining)
  {
    var (t, r) := Written(o, host, slot, index, buf);
    OrderIsComplete(slot, index, |buf|);
    PutPagesTearsNone(o.pages, o, host, WriteOrder(slot, index, |buf|), index, buf, {});
    assert {} + Touched(slot, index, |buf|) == Touched(slot, index, |buf|);
    BudgetDecides(o.pages, t.pages, host, index, buf, Touched(slot, index, |buf|), o.remaining, t.remaining, r);
    if r.Ok? {
      NewPagesAreFlatWrite(o.pages, t.pages, host, slot, index, buf);
    }
  }

  /** The budget of overridden pages, shared by every clone of every storage of a transaction. */
  class Limiter {
    var remaining: nat

    constructor (limit: nat)
      ensures remaining == limit
    {
      remaining := limit;
    }

    method Consume(amount: nat) returns (ok: bool)
      modifies this
      ensures ok == (amount <= old(remaining))
      ensures remaining == if ok then old(remaining) - amount else old(remaining)
    {
      if amount > remaining {
        ok := false;
      } else {
        remaining := remaining - amount;
        ok := true;
      }
    }
  }

  class Storage {
    const host: Host
    const limiter: Limiter
    var pages: map<PageId, Page>

    constructor (limiter: Limiter, host: Host)
      ensures this.limiter == limiter && this.host == host && pages == map[]
    {
      this.limiter := limiter;
      this.host := host;
      pages := map[];
    }

    /** A snapshot: its own page map, the same budget. */
    constructor Clone(from: Storage)
      ensures host == from.host && limiter == from.limiter && pages == from.pages
    {
      host := from.host;
      limiter := from.limiter;
      pages := from.pages;
    }

    /** Cuts the overridden pages off the front of `startIndex..endIndex`; where host data is needed from. */
    method CutKnownPrefix(slot: SlotId, startIndex: nat, endIndex: nat) returns (needStart: nat)
      requires startIndex < endIndex <= TWO_32
      ensures needStart >= startIndex
      ensures forall i :: startIndex <= i < needStart && i < endIndex ==> IsKnown(pages, slot, i)
      ensures needStart < endIndex ==> !IsKnown(pages, slot, needStart)
    {
      needStart := startIndex;
      var p, endPage := startIndex / 32, (endIndex - 1) / 32;
      while p <= endPage
        invariant startIndex / 32 <= p <= endPage + 1
        invariant needStart == if p == startIndex / 32 then startIndex else p * 32
        invariant forall i :: startIndex <= i < needStart && i < endIndex ==> IsKnown(pages, slot, i)
      {
        if PageId(slot, AsU32(p)) in pages {
          forall i | startIndex <= i < (p + 1) * 32 && i < endIndex
            ensures IsKnown(pages, slot, i)
          {
            if needStart <= i { assert i / 32 == p; }
          }
          needStart := (p + 1) * 32;
        } else {
          assert needStart / 32 == p;
          break;
        }
        p := p + 1;
      }
    }

    /** Cuts the overridden pages off the back of `startIndex..endIndex`; where host data is needed up to. */
    method CutKnownSuffix(slot: SlotId, startIndex: nat, endIndex: nat) returns (needEnd: nat)
      requires startIndex < endIndex <= TWO_32
      ensures needEnd <= endIndex
      ensures forall i :: startIndex <= i < endIndex && needEnd <= i ==> IsKnown(pages, slot, i)
      ensures startIndex < needEnd ==> !IsKnown(pages, slot, needEnd - 1)
    {
      needEnd := endIndex;
      var startPage, p := startIndex / 32, (endIndex - 1) / 32;
      while p >= startPage
        invariant startPage - 1 <= p <= (endIndex - 1) / 32
        invariant needEnd == if p == (endIndex - 1) / 32 then endIndex else (p + 1) * 32
        invariant forall i :: startIndex <= i < endIndex && needEnd <= i ==> IsKnown(pages, slot, i)
      {
        if PageId(slot, AsU32(p)) in pages {
          forall i | startIndex <= i < endIndex && p * 32 <= i
            ensures IsKnown(pages, slot, i)
          {
            if i < needEnd { assert i / 32 == p; }
          }
          needEnd := p * 32;
        } else {
          assert (needEnd - 1) / 32 == p;
          break;
        }
        p := p - 1;
      }
    }

    /** Copies every overriding page over its part of `buf`, which stands for `startIndex..`. */
    method ApplyOverrides(slot: SlotId, startIndex: nat, buf: array<byte>)
      requires 0 < buf.Length && startIndex + buf.Length <= TWO_32
      modifies buf
      ensures forall k :: 0 <= k < buf.Length ==>
                buf[k] == if IsKnown(pages, slot, startIndex + k) then View(pages, host, slot, startIndex + k)
                          else old(buf[k])
    {
      var endIndex := startIndex + buf.Length;
      var p, endPage := startIndex / 32, (endIndex - 1) / 32;
      while p <= endPage
        invariant startIndex / 32 <= p <= endPage + 1
        invariant forall k :: 0 <= k < buf.Length ==>
                    buf[k] == if startIndex + k < p * 32 && IsKnown(pages, slot, startIndex + k)
                              then View(pages, host, slot, startIndex + k) else old(buf[k])
      {
        var pageId := PageId(slot, AsU32(p));
        if pageId in pages {
          var pageStart, pageEnd := p * 32, p * 32 + 32;
          var overlapStart := if startIndex > pageStart then startIndex else pageStart;
          var overlapEnd := if endIndex < pageEnd then endIndex else pageEnd;
          if overlapStart < overlapEnd {
            forall i | overlapStart <= i < overlapEnd {
              buf[i - startIndex] := pages[pageId][i - pageStart];
            }
          }
        }
        p := p + 1;
      }
    }

    /** What is asked for is the gap, so the read fails exactly if this request does. */
    lemma AskedIsGap(slot: SlotId, index: u32, len: nat, needStart: nat, needEnd: nat)
      requires index <= needStart < needEnd <= index + len <= TWO_32
      requires forall i :: index <= i < needStart || needEnd <= i < index + len ==> IsKnown(pages, slot, i)
      requires !IsKnown(pages, slot, needStart) && !IsKnown(pages, slot, needEnd - 1)
      ensures ReadFails(pages, host, slot, index, len) <==> host.fails(slot, needStart, needEnd - needStart)
    {
      assert IsGap(pages, slot, index, len, needStart, needEnd);
      assert HostFails(host, slot, needStart, needEnd) <==> host.fails(slot, needStart, needEnd - needStart);
      forall lo: nat, hi: nat | IsGap(pages, slot, index, len, lo, hi)
        ensures lo == needStart && hi == needEnd
      {
        GapIsUnique(pages, slot, index, len, lo, hi, needStart, needEnd);
      }
    }

    /** Fills `buf` with the slot's bytes from `index` on, asking the host at most once. */
    method Read(slot: SlotId, index: u32, buf: array<byte>) returns (r: Outcome)
      requires index + buf.Length <= TWO_32
      modifies buf
      ensures r.Ok? ==> ReadsAs(buf[..], pages, host, slot, index)
      // an error is the host's, on the request from the first byte unknown here to the last
      ensures r.Err? <==> ReadFails(pages, host, slot, index, buf.Length)
      ensures r.Err? ==> r.error == HostFailed
    {
      if buf.Length == 0 {
        return Ok(());
      }
      var startIndex, endIndex := index, index + buf.Length;
      var needStart := CutKnownPrefix(slot, startIndex, endIndex);
      var needEnd := CutKnownSuffix(slot, startIndex, endIndex);
      if needStart < needEnd {
        AskedIsGap(slot, index, buf.Length, needStart, needEnd);
        if host.fails(slot, AsU32(needStart), needEnd - needStart) {
          return Err(HostFailed);
        }
        forall k | needStart - startIndex <= k < needEnd - startIndex {
          buf[k] := host.content(slot, startIndex + k);
        }
      } else {
        assert forall i :: startIndex <= i < endIndex ==> IsKnown(pages, slot, i);
        NothingToAsk(pages, host, slot, index, buf.Length);
      }
      ApplyOverrides(slot, startIndex, buf);
      return Ok(());
    }

    ghost function State(): Overlay
      reads this`pages, limiter
    {
      Overlay(pages, limiter.remaining)
    }

    method WritePage(key: PageId, value: Page) returns (ok: bool)
      modifies this`pages, limiter
      ensures ok == (key in old(pages) || old(limiter.remaining) > 0)
      ensures pages == if ok then old(pages)[key := value] else old(pages)
      ensures limiter.remaining ==
              if ok && key !in old(pages) then old(limiter.remaining) - 1 else old(limiter.remaining)
    {
      if key !in pages {
        ok := limiter.Consume(1);
        if !ok {
          return;
        }
      }
      pages := pages[key := value];
      ok := true;
    }

    /** The page as it stands, from the overlay or from the host. */
    method ExistingPage(key: PageId) returns (r: Result<Page, StorageError>)
      requires key.index < TWO_32 / 32
      ensures r.Err? <==> key !in pages && host.fails(key.slot, key.index * 32, 32)
      ensures r.Err? ==> r.error == HostFailed
      ensures r.Ok? ==> forall off :: 0 <= off < 32 ==> r.value[off] == ByteAt(pages, host, key.slot, key.index, off)
    {
      if key in pages {
        return Ok(pages[key]);
      }
      var pageStart := AsU32(key.index * 32);
      if host.fails(key.slot, pageStart, 32) {
        return Err(HostFailed);
      }
      return Ok(seq(32, off requires 0 <= off < 32 => host.content(key.slot, pageStart + off)));
    }

    /** Splices `chunk` into the existing page and overrides it. */
    method WritePartialPage(key: PageId, offsetInPage: nat, chunk: seq<byte>) returns (r: Outcome)
      requires 0 < |chunk| < 32 && offsetInPage + |chunk| <= 32 && key.index < TWO_32 / 32
      modifies this`pages, limiter
      ensures (State(), r) == PutPage(old(State()), host, key, key.index * 32 + offsetInPage, chunk)
    {
      var existing := ExistingPage(key);
      if existing.Err? {
        return Err(existing.error);
      }
      var pageData: Page := existing.value[..offsetInPage] + chunk + existing.value[offsetInPage + |chunk|..];
      PatchedIsUnique(pageData, pages, host, key, key.index * 32 + offsetInPage, chunk);
      var ok := WritePage(key, pageData);
      return if ok then Ok(()) else Err(OutOfStorage);
    }

    /** A write inside one page: the whole page needs no old data, a part of it does. */
    method WriteSinglePage(key: PageId, offsetInPage: nat, buf: seq<byte>) returns (r: Outcome)
      requires 0 < |buf| && offsetInPage + |buf| <= 32 && key.index < TWO_32 / 32
      modifies this`pages, limiter
      ensures (State(), r) == PutPage(old(State()), host, key, key.index * 32 + offsetInPage, buf)
    {
      if offsetInPage == 0 && |buf| == 32 {
        PatchedIsUnique(buf, pages, host, key, key.index * 32, buf);
        var ok := WritePage(key, buf);
        r := if ok then Ok(()) else Err(OutOfStorage);
      } else {
        r := WritePartialPage(key, offsetInPage, buf);
      }
    }

    /** One page that the write covers whole. */
    method WriteWholePage(key: PageId, index: u32, buf: seq<byte>) returns (r: Outcome)
      requires IsWhole(key, index, |buf|)
      modifies this`pages, limiter
      ensures (State(), r) == PutPage(old(State()), host, key, index, buf)
    {
      var srcOffset := key.index * 32 - index;
      var pageData: Page := buf[srcOffset..srcOffset + 32];
      PatchedIsUnique(pageData, pages, host, key, index, buf);
      var ok := WritePage(key, pageData);
      r := if ok then Ok(()) else Err(OutOfStorage);
    }

    /** The pages of the write that are covered whole, in order; the partial ones are skipped. */
    method WriteWholePages(slot: SlotId, index: u32, buf: seq<byte>, startPage: u32, endPage: u32) returns (r: Outcome)
      requires startPage * 32 <= index < startPage * 32 + 32 && startPage < endPage
      requires endPage * 32 < index + |buf| <= endPage * 32 + 32 <= TWO_32
      modifies this`pages, limiter
      ensures (State(), r) ==
              PutPages(old(State()), host, WholePages(slot, index, |buf|, startPage, endPage + 1), index, buf)
    {
      var startIndex, endIndex := index, index + |buf|;
      ghost var all := PutPages(State(), host, WholePages(slot, index, |buf|, startPage, endPage + 1), index, buf);
      var p := startPage;
      while p <= endPage
        invariant startPage <= p <= endPage + 1
        invariant all == PutPages(State(), host, WholePages(slot, index, |buf|, p, endPage + 1), index, buf)
      {
        var pageStart, pageEnd := p * 32, p * 32 + 32;
        PutWholeStep(State(), host, slot, index, buf, p, endPage + 1);
        if (p == startPage && startIndex > pageStart) || (p == endPage && endIndex < pageEnd) {
          p := p + 1;
          continue;
        }
        r := WriteWholePage(PageId(slot, AsU32(p)), index, buf);
        if r.Err? {
          return;
        }
        p := p + 1;
      }
      r := Ok(());
    }

    /** A write over several pages: the partial first page, the partial last page, then the whole pages in order. */
    method WriteManyPages(slot: SlotId, index: u32, buf: seq<byte>, startPage: u32, endPage: u32) returns (r: Outcome)
      requires startPage * 32 <= index < startPage * 32 + 32 && startPage < endPage
      requires endPage * 32 < index + |buf| <= endPage * 32 + 32 <= TWO_32
      modifies this`pages, limiter
      ensures (State(), r) ==
              PutPages(old(State()), host, OrderOfMany(slot, index, |buf|, startPage, endPage), index, buf)
    {
      var startIndex, endIndex := index, index + |buf|;
      var firstPageStart, lastPageStart := startPage * 32, endPage * 32;
      ghost var o := State();
      ghost var front: seq<PageId> := if startIndex > firstPageStart then [PageId(slot, startPage)] else [];
      ghost var back: seq<PageId> := if endIndex < lastPageStart + 32 then [PageId(slot, endPage)] else [];
      ghost var middle := WholePages(slot, index, |buf|, startPage, endPage + 1);
      assert OrderOfMany(slot, index, |buf|, startPage, endPage) == front + back + middle;
      PutPagesConcat(o, host, front + back, middle, index, buf);
      PutPagesConcat(o, host, front, back, index, buf);
      if startIndex > firstPageStart {
        var offsetInPage := startIndex - firstPageStart;
        r := WriteEdgePage(PageId(slot, startPage), offsetInPage, buf[..32 - offsetInPage], index, buf);
        if r.Err? {
          return;
        }
      }
      if endIndex < lastPageStart + 32 {
        var endOffsetInPage := endIndex - lastPageStart;
        r := WriteEdgePage(PageId(slot, endPage), 0, buf[|buf| - endOffsetInPage..], index, buf);
        if r.Err? {
          return;
        }
      }
      r := WriteWholePages(slot, index, buf, startPage, endPage);
    }

    /** One partial edge page of a longer write. */
    method WriteEdgePage(key: PageId, offsetInPage: nat, chunk: seq<byte>, ghost index: u32, ghost buf: seq<byte>)
      returns (r: Outcome)
      requires key.index < TWO_32 / 32 && 0 < |chunk| < 32 && offsetInPage + |chunk| <= 32
      requires IsChunk(key, index, buf, key.index * 32 + offsetInPage, chunk)
      modifies this`pages, limiter
      ensures (State(), r) == PutPages(old(State()), host, [key], index, buf)
    {
      PutChunk(State(), host, key, index, buf, key.index * 32 + offsetInPage, chunk);
      PutPagesOne(State(), host, key, index, buf);
      r := WritePartialPage(key, offsetInPage, chunk);
    }

    /** Writes `buf` into the slot from `index` on. */
    method Write(slot: SlotId, index: u32, buf: seq<byte>) returns (r: Outcome)
      requires index + |buf| <= TWO_32
      modifies this`pages, limiter
      // the exact effect, also of a write that fails half-way
      ensures (State(), r) == Written(old(State()), host, slot, index, buf)
      // the budget pays for exactly the pages newly overridden, whether the write succeeds or not
      ensures limiter.remaining + |pages| == old(limiter.remaining) + |old(pages)|
      ensures |pages| >= |old(pages)|
      ensures NoTornPage(old(pages), pages, host, index, buf, Touched(slot, index, |buf|))
      ensures r.Ok? ==> AllNew(old(pages), pages, host, index, buf, Touched(slot, index, |buf|))
      ensures r.Ok? ==> FlatWrite(old(pages), pages, host, slot, index, buf)
      // a failure is the host's, or the budget does not cover the write
      ensures r.Err? && r.error == HostFailed ==> !NeverFails(host)
      ensures r.Ok? ==> PagesNeeded(old(pages), Touched(slot, index, |buf|)) <= old(limiter.remaining)
      ensures r.Err? && r.error == OutOfStorage ==>
                PagesNeeded(old(pages), Touched(slot, index, |buf|)) > old(limiter.remaining)
    {
      WrittenIsFlat(State(), host, slot, index, buf);
      r := WriteExactly(slot, index, buf);
    }

    method WriteExactly(slot: SlotId, index: u32, buf: seq<byte>) returns (r: Outcome)
      requires index + |buf| <= TWO_32
      modifies this`pages, limiter
      ensures (State(), r) == Written(old(State()), host, slot, index, buf)
    {
      if buf == [] {
        return Ok(());
      }
      var startIndex, endIndex := index, index + |buf|;
      var startPage, endPage := startIndex / 32, (endIndex - 1) / 32;
      if startPage == endPage {
        var key := PageId(slot, AsU32(startPage));
        PutPagesOne(State(), host, key, index, buf);
        r := WriteSinglePage(key, startIndex % 32, buf);
      } else {
        r := WriteManyPages(slot, index, buf, AsU32(startPage), AsU32(endPage));
      }
    }

    /** Stores the contract's code as a length and the bytes behind it. */
    method WriteCode(codeSlot: SlotId, code: seq<byte>) returns (r: Outcome)
      modifies this`pages, limiter
      ensures limiter.remaining + |pages| == old(limiter.remaining) + |old(pages)|
      ensures r.Ok? ==> HoldsCode(pages, host, codeSlot, code)
      ensures |code| > U32_MAX - 4 ==> r == Err(OutOfStorage) && pages == old(pages)
      ensures (State(), r) == WrittenCode(old(State()), host, codeSlot, code)
    {
      if |code| > U32_MAX - 4 {
        return Err(OutOfStorage);
      }
      ghost var was := pages;
      r := Write(codeSlot, 0, U32ToLe(|code|));
      if r.Ok? {
        ghost var middle := pages;
        r := Write(codeSlot, 4, code);
        if r.Ok? {
          CodeWritten(was, middle, pages, host, codeSlot, code);
        }
      }
    }

    /** Reads the code back; `memoryLeft` is what the memory limiter would still grant. */
    method ReadCode(codeSlot: SlotId, memoryLeft: nat) returns (r: Result<seq<byte>, CodeError>)
      // a stored code comes back as it was written
      ensures forall code :: HoldsCode(pages, host, codeSlot, code) && r.Ok? ==> r.value == code
      ensures forall code :: HoldsCode(pages, host, codeSlot, code) && NeverFails(host) ==>
                (r.Ok? <==> |code| <= memoryLeft)
    {
      var lenBuf := new byte[4];
      var header := Read(codeSlot, 0, lenBuf);
      if header.Err? {
        return Err(CodeUnreadable);
      }
      var codeSize := U32FromLe(lenBuf[..]);
      forall code | HoldsCode(pages, host, codeSlot, code)
        ensures codeSize == |code|
      {
        HeaderRead(pages, host, codeSlot, code, lenBuf[..]);
      }
      if codeSize > memoryLeft {
        return Err(CodeOutOfMemory);
      }
      if codeSize > U32_MAX - 3 {
        return Err(CodeUnreadable);
      }
      var res := new byte[codeSize];
      var body := Read(codeSlot, 4, res);
      if body.Err? {
        return Err(CodeUnreadable);
      }
      forall code | HoldsCode(pages, host, codeSlot, code)
        ensures res[..] == code
      {
        BodyRead(pages, host, codeSlot, code, res[..]);
      }
      return Ok(res[..]);
    }
  }
}
