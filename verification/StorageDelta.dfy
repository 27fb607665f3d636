/** The summary of an overlay that is sent to the host: maximal runs of adjacent overridden pages, in order. */
module StorageDelta {
  import opened Prelude
  import opened Order
  import opened PagedStorage

  /** The position of the first page as 36 bytes, and the bytes of the run. */
  datatype Delta = Delta(start: seq<byte>, data: seq<byte>)

  function U32ToBe(n: u32): (b: seq<byte>)
    ensures |b| == 4
  {
    [n / 16777216, n / 65536 % 256, n / 256 % 256, n % 256]
  }

  function U32FromBe(b: seq<byte>): u32
    requires |b| == 4
  {
    b[0] as int * 16777216 + b[1] as int * 65536 + b[2] as int * 256 + b[3] as int
  }

  function ToBytes(k: PageId): (b: seq<byte>)
    ensures |b| == 36
  {
    k.slot + U32ToBe(k.index)
  }

  function FromBytes(b: seq<byte>): PageId
    requires |b| == 36
  {
    PageId(b[..32], U32FromBe(b[32..]))
  }

  lemma BeRoundTrip(n: u32)
    ensures U32FromBe(U32ToBe(n)) == n
  {
    assert n / 256 == n / 65536 * 256 + n / 256 % 256;
    assert n / 65536 == n / 16777216 * 256 + n / 65536 % 256;
  }

  lemma FromBytesInverts(k: PageId)
    ensures FromBytes(ToBytes(k)) == k
  {
    assert ToBytes(k)[..32] == k.slot && ToBytes(k)[32..] == U32ToBe(k.index);
    BeRoundTrip(k.index);
  }

  predicate PageLess(a: PageId, b: PageId) {
    Less(a.slot, b.slot) || (a.slot == b.slot && a.index < b.index)
  }

  lemma LessOfFour(a: seq<byte>, b: seq<byte>)
    requires |a| == |b| == 4
    ensures Less(a, b) <==> U32FromBe(a) < U32FromBe(b)
  {
    assert Less(a, b) <==> a[0] < b[0] || (a[0] == b[0] && Less(a[1..], b[1..]));
    assert a[1..][1..] == a[2..] && b[1..][1..] == b[2..];
    assert Less(a[1..], b[1..]) <==> a[1] < b[1] || (a[1] == b[1] && Less(a[2..], b[2..]));
    assert a[2..][1..] == a[3..] && b[2..][1..] == b[3..];
    assert Less(a[2..], b[2..]) <==> a[2] < b[2] || (a[2] == b[2] && Less(a[3..], b[3..]));
    assert a[3..][1..] == [] && b[3..][1..] == [];
    assert Less(a[3..], b[3..]) <==> a[3] < b[3];
  }

  /** The byte form orders pages as the pages themselves are ordered. */
  lemma ToBytesKeepsOrder(a: PageId, b: PageId)
    ensures Less(ToBytes(a), ToBytes(b)) <==> PageLess(a, b)
  {
    LessOfConcat(a.slot, b.slot, U32ToBe(a.index), U32ToBe(b.index));
    LessOfFour(U32ToBe(a.index), U32ToBe(b.index));
    BeRoundTrip(a.index);
    BeRoundTrip(b.index);
  }

  // ----- the runs a delta list stands for

  /** Adjacent pages of one slot with their contents; what one `Delta` spells out in bytes. */
  datatype Run = Run(first: PageId, body: seq<Page>)

  predicate HasPrev(pages: map<PageId, Page>, k: PageId) {
    k.index != 0 && PageId(k.slot, k.index - 1) in pages
  }

  ghost predicate Sorted(ks: seq<PageId>) {
    forall i, j :: 0 <= i < j < |ks| ==> PageLess(ks[i], ks[j])
  }

  ghost predicate Enumerates(ks: seq<PageId>, pages: map<PageId, Page>) {
    Sorted(ks) && forall k :: k in pages <==> k in ks
  }

  ghost predicate ValidRun(pages: map<PageId, Page>, r: Run) {
    && r.body != [] && r.first.index + |r.body| <= TWO_32
    && (forall j :: 0 <= j < |r.body| ==> Overridden(pages, r.first.slot, r.first.index + j, r.body[j]))
  }

  predicate Overridden(pages: map<PageId, Page>, slot: SlotId, index: nat, page: Page) {
    index < TWO_32 && PageId(slot, index) in pages && pages[PageId(slot, index)] == page
  }

  ghost predicate ValidRuns(pages: map<PageId, Page>, runs: seq<Run>) {
    forall i :: 0 <= i < |runs| ==> ValidRun(pages, runs[i])
  }

  /** No run could be extended downwards, so no two runs of a slot are adjacent. */
  ghost predicate Maximal(pages: map<PageId, Page>, runs: seq<Run>) {
    forall i :: 0 <= i < |runs| ==> !HasPrev(pages, runs[i].first)
  }

  ghost function KeysOfRun(r: Run): (ks: seq<PageId>)
    requires r.first.index + |r.body| <= TWO_32
    ensures |ks| == |r.body|
  {
    seq(|r.body|, j requires 0 <= j < |r.body| => PageId(r.first.slot, r.first.index + j))
  }

  /** The pages of the runs, run after run. */
  ghost function KeysOf(pages: map<PageId, Page>, runs: seq<Run>): seq<PageId>
    requires ValidRuns(pages, runs)
  {
    if runs == [] then [] else KeysOf(pages, runs[..|runs| - 1]) + KeysOfRun(runs[|runs| - 1])
  }

  function Concat(body: seq<Page>): (b: seq<byte>)
    ensures |b| == 32 * |body|
  {
    if body == [] then [] else Concat(body[..|body| - 1]) + body[|body| - 1]
  }

  ghost predicate Spells(d: Delta, r: Run) {
    d.start == ToBytes(r.first) && d.data == Concat(r.body)
  }

  /** `ds` spells out the maximal runs of the overlay, each overridden page exactly once and in order. */
  ghost predicate Summarises(ds: seq<Delta>, runs: seq<Run>, ks: seq<PageId>, pages: map<PageId, Page>) {
    && SpellsAll(ds, runs)
    && ValidRuns(pages, runs) && Maximal(pages, runs) && KeysOf(pages, runs) == ks
  }

  // ----- producing the deltas

  lemma LeastExists(rest: set<PageId>)
    requires rest != {}
    ensures exists k :: k in rest && forall l :: l in rest && l != k ==> PageLess(k, l)
  {
    var k :| k in rest;
    if rest != {k} {
      LeastExists(rest - {k});
      var m :| m in rest - {k} && forall l :: l in rest - {k} && l != m ==> PageLess(m, l);
      Trichotomy(k.slot, m.slot);
      if PageLess(k, m) {
        forall l | l in rest && l != k
          ensures PageLess(k, l)
        {
          if l != m { PageLessTransitive(k, m, l); }
        }
      } else {
        assert forall l :: l in rest && l != m ==> PageLess(m, l);
      }
    }
  }

  lemma PageLessTransitive(a: PageId, b: PageId, c: PageId)
    requires PageLess(a, b) && PageLess(b, c)
    ensures PageLess(a, c)
  {
    if Less(a.slot, b.slot) && Less(b.slot, c.slot) {
      Transitive(a.slot, b.slot, c.slot);
    }
  }

  /** The order in which the page map is iterated. */
  method SortedKeys(pages: map<PageId, Page>) returns (ks: seq<PageId>)
    ensures Enumerates(ks, pages)
  {
    ks := [];
    var rest := pages.Keys;
    while rest != {}
      invariant Sorted(ks)
      invariant forall k :: k in pages <==> k in ks || k in rest
      invariant forall i, k :: 0 <= i < |ks| && k in rest ==> PageLess(ks[i], k)
      decreases |rest|
    {
      LeastExists(rest);
      var k :| k in rest && forall l :: l in rest && l != k ==> PageLess(k, l);
      rest := rest - {k};
      ks := ks + [k];
    }
  }

  /** In a sorted enumeration a page comes right after its predecessor. */
  lemma PrevIsAdjacent(pages: map<PageId, Page>, ks: seq<PageId>, n: nat)
    requires Enumerates(ks, pages) && n < |ks| && HasPrev(pages, ks[n])
    ensures n > 0 && ks[n - 1] == PageId(ks[n].slot, ks[n].index - 1)
  {
    var prev := PageId(ks[n].slot, ks[n].index - 1);
    var m :| 0 <= m < |ks| && ks[m] == prev;
    Irreflexive(prev.slot);
    if m > n {
      assert false;
    } else if m < n - 1 {
      var between := ks[n - 1];
      assert PageLess(prev, between) && PageLess(between, ks[n]);
      Trichotomy(prev.slot, between.slot);
      assert false;
    }
  }

  lemma KeysOfSnoc(pages: map<PageId, Page>, runs: seq<Run>, r: Run)
    requires ValidRuns(pages, runs) && ValidRun(pages, r)
    ensures ValidRuns(pages, runs + [r])
    ensures KeysOf(pages, runs + [r]) == KeysOf(pages, runs) + KeysOfRun(r)
  {
    assert (runs + [r])[..|runs|] == runs;
  }

  lemma ConcatSnoc(body: seq<Page>, p: Page)
    ensures Concat(body + [p]) == Concat(body) + p
  {
    assert (body + [p])[..|body|] == body;
  }

  /** The last page of the last run is the last page enumerated. */
  lemma LastKey(pages: map<PageId, Page>, runs: seq<Run>)
    requires ValidRuns(pages, runs) && KeysOf(pages, runs) != []
    ensures runs != []
    ensures var last, ks := runs[|runs| - 1], KeysOf(pages, runs);
            ks[|ks| - 1] == PageId(last.first.slot, last.first.index + |last.body| - 1)
  {
    assert ValidRun(pages, runs[|runs| - 1]);
  }

  /** A summary stays one when a maximal run is added to it. */
  lemma SummarySnoc(ds: seq<Delta>, runs: seq<Run>, ks: seq<PageId>, pages: map<PageId, Page>, d: Delta, r: Run)
    requires Summarises(ds, runs, ks, pages)
    requires ValidRun(pages, r) && Spells(d, r) && !HasPrev(pages, r.first)
    ensures Summarises(ds + [d], runs + [r], ks + KeysOfRun(r), pages)
  {
    KeysOfSnoc(pages, runs, r);
  }

  /** What is left of a summary without its last run. */
  lemma SummaryInit(ds: seq<Delta>, runs: seq<Run>, ks: seq<PageId>, pages: map<PageId, Page>)
    requires Summarises(ds, runs, ks, pages) && runs != []
    ensures var init, last := runs[..|runs| - 1], runs[|runs| - 1];
            && ValidRun(pages, last) && !HasPrev(pages, last.first) && Spells(ds[|ds| - 1], last)
            && ValidRuns(pages, init) && ks == KeysOf(pages, init) + KeysOfRun(last)
            && Summarises(ds[..|ds| - 1], init, KeysOf(pages, init), pages)
  {
  }

  lemma LongerRun(pages: map<PageId, Page>, r: Run, k: PageId)
    requires ValidRun(pages, r) && k in pages && k.slot == r.first.slot && k.index == r.first.index + |r.body|
    ensures var longer := Run(r.first, r.body + [pages[k]]);
            ValidRun(pages, longer) && KeysOfRun(longer) == KeysOfRun(r) + [k]
  {
    var longer := Run(r.first, r.body + [pages[k]]);
    forall j | 0 <= j < |longer.body|
      ensures Overridden(pages, r.first.slot, r.first.index + j, longer.body[j])
    {
      if j < |r.body| {
        assert Overridden(pages, r.first.slot, r.first.index + j, r.body[j]);
      }
    }
  }

  /** A page right after the last one joins the last run. */
  lemma RunExtended(ds: seq<Delta>, runs: seq<Run>, ks: seq<PageId>, pages: map<PageId, Page>, k: PageId)
      returns (runs': seq<Run>)
    requires Summarises(ds, runs, ks, pages) && k in pages
    requires ks != [] && k.index != 0 && ks[|ks| - 1] == PageId(k.slot, k.index - 1)
    ensures ds != []
    ensures Summarises(ds[..|ds| - 1] + [Delta(ds[|ds| - 1].start, ds[|ds| - 1].data + pages[k])], runs', ks + [k],
                       pages)
  {
    LastKey(pages, runs);
    SummaryInit(ds, runs, ks, pages);
    var init, last, d := runs[..|runs| - 1], runs[|runs| - 1], ds[|ds| - 1];
    LongerRun(pages, last, k);
    ConcatSnoc(last.body, pages[k]);
    var longer := Run(last.first, last.body + [pages[k]]);
    SummarySnoc(ds[..|ds| - 1], init, KeysOf(pages, init), pages, Delta(d.start, d.data + pages[k]), longer);
    assert KeysOf(pages, init) + KeysOfRun(longer) == ks + [k];
    runs' := init + [longer];
  }

  /** Any other page starts a run. */
  lemma RunStarted(ds: seq<Delta>, runs: seq<Run>, ks: seq<PageId>, pages: map<PageId, Page>, k: PageId)
      returns (runs': seq<Run>)
    requires Summarises(ds, runs, ks, pages) && k in pages && !HasPrev(pages, k)
    ensures Summarises(ds + [Delta(ToBytes(k), pages[k])], runs', ks + [k], pages)
  {
    var single := Run(k, [pages[k]]);
    ConcatSnoc([], pages[k]);
    assert [] + [pages[k]] == [pages[k]] && Concat([]) + pages[k] == pages[k];
    assert Overridden(pages, k.slot, k.index, pages[k]);
    assert KeysOfRun(single) == [k];
    SummarySnoc(ds, runs, ks, pages, Delta(ToBytes(k), pages[k]), single);
    runs' := runs + [single];
  }

  /** The deltas spell out the maximal runs of the overlay, each overridden page exactly once and in order. */
  ghost predicate IsSummary(ds: seq<Delta>, pages: map<PageId, Page>) {
    exists runs: seq<Run>, ks: seq<PageId> :: Enumerates(ks, pages) && Summarises(ds, runs, ks, pages)
  }

  method MakeDelta(storage: Storage) returns (res: seq<Delta>)
    ensures IsSummary(res, storage.pages)
  {
    var pages := storage.pages;
    var keys := SortedKeys(pages);
    res := [];
    ghost var runs: seq<Run> := [];
    for n := 0 to |keys|
      invariant Summarises(res, runs, keys[..n], pages)
    {
      var k := keys[n];
      assert keys[..n + 1] == keys[..n] + [k];
      if k.index != 0 && PageId(k.slot, k.index - 1) in pages {
        PrevIsAdjacent(pages, keys, n);
        runs := RunExtended(res, runs, keys[..n], pages, k);
        var last := res[|res| - 1];
        res := res[..|res| - 1] + [Delta(last.start, last.data + pages[k])];
      } else {
        runs := RunStarted(res, runs, keys[..n], pages, k);
        res := res + [Delta(ToBytes(k), pages[k])];
      }
    }
    assert keys[..|keys|] == keys;
  }

  // ----- what the summary promises

  predicate WellFormed(ds: seq<Delta>) {
    forall i :: 0 <= i < |ds| ==> |ds[i].start| == 36
  }

  /** Byte `i` of slot `s` once the deltas have been written over the host in order. */
  function Applied(host: Host, ds: seq<Delta>, s: SlotId, i: nat): byte
    requires WellFormed(ds)
  {
    if ds == [] then host.content(s, i) else
      var d := ds[|ds| - 1];
      var at := FromBytes(d.start);
      if s == at.slot && at.index * 32 <= i < at.index * 32 + |d.data| then d.data[i - at.index * 32]
      else Applied(host, ds[..|ds| - 1], s, i)
  }

  lemma {:induction false} ConcatAt(body: seq<Page>, j: nat, off: nat)
    requires j < |body| && off < 32
    ensures Concat(body)[32 * j + off] == body[j][off]
  {
    if j < |body| - 1 {
      ConcatAt(body[..|body| - 1], j, off);
    }
  }

  ghost predicate SpellsAll(ds: seq<Delta>, runs: seq<Run>) {
    |ds| == |runs| && forall i :: 0 <= i < |ds| ==> Spells(ds[i], runs[i])
  }

  lemma RunCovers(pages: map<PageId, Page>, host: Host, d: Delta, r: Run, s: SlotId, i: nat)
    requires i < TWO_32 && ValidRun(pages, r) && Spells(d, r)
    ensures FromBytes(d.start) == r.first
    ensures s == r.first.slot && r.first.index * 32 <= i < r.first.index * 32 + |d.data| <==>
              PageId(s, i / 32) in KeysOfRun(r)
    ensures PageId(s, i / 32) in KeysOfRun(r) ==> d.data[i - r.first.index * 32] == View(pages, host, s, i)
  {
    FromBytesInverts(r.first);
    var j := i / 32 - r.first.index;
    assert i == i / 32 * 32 + i % 32;
    if s == r.first.slot && 0 <= j < |r.body| {
      assert KeysOfRun(r)[j] == PageId(s, i / 32);
      assert Overridden(pages, s, r.first.index + j, r.body[j]);
      ConcatAt(r.body, j, i % 32);
    }
  }

  lemma SpelledIsWellFormed(ds: seq<Delta>, runs: seq<Run>)
    requires SpellsAll(ds, runs)
    ensures WellFormed(ds)
  {
    forall i | 0 <= i < |ds|
      ensures |ds[i].start| == 36
    {
      assert Spells(ds[i], runs[i]);
    }
  }

  /** Writing runs over the host shows the overlay wherever some run reaches, and the host elsewhere. */
  lemma {:induction false} AppliedRuns(pages: map<PageId, Page>, host: Host, ds: seq<Delta>, runs: seq<Run>, s: SlotId,
                                       i: nat)
    requires i < TWO_32 && ValidRuns(pages, runs) && SpellsAll(ds, runs) && WellFormed(ds)
    ensures PageId(s, i / 32) in KeysOf(pages, runs) ==> Applied(host, ds, s, i) == View(pages, host, s, i)
    ensures PageId(s, i / 32) !in KeysOf(pages, runs) ==> Applied(host, ds, s, i) == host.content(s, i)
  {
    if ds != [] {
      var n := |ds| - 1;
      AppliedRuns(pages, host, ds[..n], runs[..n], s, i);
      assert ValidRun(pages, runs[n]) && Spells(ds[n], runs[n]);
      RunCovers(pages, host, ds[n], runs[n], s, i);
    }
  }

  /** Faithful: over the host's contents the deltas give exactly what the overlay shows. */
  lemma DeltasReproduceOverlay(pages: map<PageId, Page>, host: Host, ds: seq<Delta>, s: SlotId, i: nat)
    requires IsSummary(ds, pages) && i < TWO_32
    ensures WellFormed(ds) && Applied(host, ds, s, i) == View(pages, host, s, i)
  {
    var runs: seq<Run>, ks: seq<PageId> :| Enumerates(ks, pages) && Summarises(ds, runs, ks, pages);
    SpelledIsWellFormed(ds, runs);
    AppliedRuns(pages, host, ds, runs, s, i);
    HostWhereNotOverridden(pages, host, s, i);
    assert PageId(s, i / 32) in pages <==> PageId(s, i / 32) in ks;
  }

  lemma HostWhereNotOverridden(pages: map<PageId, Page>, host: Host, s: SlotId, i: nat)
    requires i < TWO_32
    ensures PageId(s, i / 32) !in pages ==> View(pages, host, s, i) == host.content(s, i)
  {
    assert i == i / 32 * 32 + i % 32;
  }

  /** Every delta is one or more whole pages. */
  lemma DeltasAreWholePages(pages: map<PageId, Page>, ds: seq<Delta>, n: nat)
    requires IsSummary(ds, pages) && n < |ds|
    ensures |ds[n].start| == 36 && 0 < |ds[n].data| && |ds[n].data| % 32 == 0
  {
    var runs: seq<Run>, ks: seq<PageId> :| Enumerates(ks, pages) && Summarises(ds, runs, ks, pages);
    assert ValidRun(pages, runs[n]) && Spells(ds[n], runs[n]);
    SpelledIsWholePages(ds[n], runs[n]);
  }

  lemma SpelledIsWholePages(d: Delta, r: Run)
    requires Spells(d, r) && r.body != []
    ensures |d.start| == 36 && 0 < |d.data| && |d.data| % 32 == 0
  {
  }

  /** The deltas are in the order of their starts. */
  lemma DeltasAreSorted(pages: map<PageId, Page>, ds: seq<Delta>, m: nat, n: nat)
    requires IsSummary(ds, pages) && m < n < |ds|
    ensures Less(ds[m].start, ds[n].start)
  {
    var runs: seq<Run>, ks: seq<PageId> :| Enumerates(ks, pages) && Summarises(ds, runs, ks, pages);
    assert ValidRun(pages, runs[m]) && Spells(ds[m], runs[m]) && Spells(ds[n], runs[n]);
    RunsInOrder(pages, runs, ks, m, n);
    SpelledInOrder(ds[m], runs[m], ds[n], runs[n]);
  }

  lemma SpelledInOrder(d: Delta, r: Run, e: Delta, q: Run)
    requires Spells(d, r) && Spells(e, q) && PageLess(r.first, q.first)
    ensures Less(d.start, e.start)
  {
    ToBytesKeepsOrder(r.first, q.first);
  }

  /** Minimal: two deltas of one slot leave a gap of at least one page. */
  lemma DeltasAreApart(pages: map<PageId, Page>, ds: seq<Delta>, m: nat, n: nat)
    requires IsSummary(ds, pages) && m < n < |ds| && WellFormed(ds)
    ensures var a, b := FromBytes(ds[m].start), FromBytes(ds[n].start);
            a.slot == b.slot ==> a.index * 32 + |ds[m].data| < b.index * 32
  {
    var runs: seq<Run>, ks: seq<PageId> :| Enumerates(ks, pages) && Summarises(ds, runs, ks, pages);
    var r, q := runs[m], runs[n];
    assert ValidRun(pages, r) && Spells(ds[m], r) && Spells(ds[n], q);
    RunsInOrder(pages, runs, ks, m, n);
    FromBytesInverts(r.first);
    FromBytesInverts(q.first);
    Irreflexive(r.first.slot);
    NotAdjacent(pages, r, q.first);
  }

  lemma {:induction false} EnumerationIsUnique(pages: map<PageId, Page>, ks: seq<PageId>, ls: seq<PageId>)
    requires Enumerates(ks, pages) && Enumerates(ls, pages)
    ensures ks == ls
    decreases |ks|
  {
    assert ls != [] ==> ls[0] in pages;
    if ks != [] {
      var k := ks[|ks| - 1];
      assert k in ls;
      var l := ls[|ls| - 1];
      assert l in ks;
      Irreflexive(k.slot);
      Trichotomy(k.slot, l.slot);
      assert k == l;
      WithoutLast(pages, ks);
      WithoutLast(pages, ls);
      EnumerationIsUnique(pages - {k}, ks[..|ks| - 1], ls[..|ls| - 1]);
    }
  }

  lemma WithoutLast(pages: map<PageId, Page>, ks: seq<PageId>)
    requires Enumerates(ks, pages) && ks != []
    ensures Enumerates(ks[..|ks| - 1], pages - {ks[|ks| - 1]})
  {
    var init, k := ks[..|ks| - 1], ks[|ks| - 1];
    assert ks == init + [k];
    Irreflexive(k.slot);
    forall i | 0 <= i < |init|
      ensures init[i] != k
    {
      assert PageLess(ks[i], ks[|ks| - 1]);
    }
  }

  /** Maximal runs of the same pages are the same. */
  lemma {:induction false} RunsAreUnique(pages: map<PageId, Page>, rs: seq<Run>, qs: seq<Run>)
    requires ValidRuns(pages, rs) && ValidRuns(pages, qs) && Maximal(pages, rs) && Maximal(pages, qs)
    requires KeysOf(pages, rs) == KeysOf(pages, qs)
    ensures rs == qs
    decreases |rs|
  {
    RunsHaveKeys(pages, rs);
    RunsHaveKeys(pages, qs);
    if rs != [] {
      var r, q := rs[|rs| - 1], qs[|qs| - 1];
      LastKey(pages, rs);
      LastKey(pages, qs);
      assert ValidRun(pages, r) && ValidRun(pages, q);
      SameLastRun(pages, r, q);
      var m := |KeysOf(pages, rs)| - |r.body|;
      assert KeysOf(pages, rs[..|rs| - 1]) == KeysOf(pages, rs)[..m];
      assert KeysOf(pages, qs[..|qs| - 1]) == KeysOf(pages, qs)[..m];
      RunsAreUnique(pages, rs[..|rs| - 1], qs[..|qs| - 1]);
    }
  }

  lemma RunsHaveKeys(pages: map<PageId, Page>, rs: seq<Run>)
    requires ValidRuns(pages, rs)
    ensures rs != [] <==> KeysOf(pages, rs) != []
  {
    assert rs != [] ==> ValidRun(pages, rs[|rs| - 1]);
  }

  /** A page inside a run, or right after it, comes after an overridden page. */
  lemma InsideHasPrev(pages: map<PageId, Page>, q: Run, k: PageId)
    requires ValidRun(pages, q) && k.slot == q.first.slot && q.first.index < k.index <= q.first.index + |q.body|
    ensures HasPrev(pages, k)
  {
    var j := k.index - 1 - q.first.index;
    assert Overridden(pages, q.first.slot, q.first.index + j, q.body[j]);
  }

  lemma SameLastRun(pages: map<PageId, Page>, r: Run, q: Run)
    requires ValidRun(pages, r) && ValidRun(pages, q) && !HasPrev(pages, r.first) && !HasPrev(pages, q.first)
    requires r.first.slot == q.first.slot && r.first.index + |r.body| == q.first.index + |q.body|
    ensures r == q
  {
    if q.first.index < r.first.index {
      InsideHasPrev(pages, q, r.first);
    } else if r.first.index < q.first.index {
      InsideHasPrev(pages, r, q.first);
    } else {
      forall j | 0 <= j < |r.body|
        ensures r.body[j] == q.body[j]
      {
        assert Overridden(pages, r.first.slot, r.first.index + j, r.body[j]);
        assert Overridden(pages, q.first.slot, q.first.index + j, q.body[j]);
      }
    }
  }

  /** An overlay has one summary: nodes with the same pages send the same bytes. */
  lemma SummaryIsUnique(pages: map<PageId, Page>, ds: seq<Delta>, es: seq<Delta>)
    requires IsSummary(ds, pages) && IsSummary(es, pages)
    ensures ds == es
  {
    var rs: seq<Run>, ks: seq<PageId> :| Enumerates(ks, pages) && Summarises(ds, rs, ks, pages);
    var qs: seq<Run>, ls: seq<PageId> :| Enumerates(ls, pages) && Summarises(es, qs, ls, pages);
    EnumerationIsUnique(pages, ks, ls);
    RunsAreUnique(pages, rs, qs);
    SameSpelling(ds, es, rs);
  }

  lemma SameSpelling(ds: seq<Delta>, es: seq<Delta>, rs: seq<Run>)
    requires SpellsAll(ds, rs) && SpellsAll(es, rs)
    ensures ds == es
  {
    forall i | 0 <= i < |ds|
      ensures ds[i] == es[i]
    {
      assert Spells(ds[i], rs[i]) && Spells(es[i], rs[i]);
    }
  }

  /** The delta holds the page. */
  predicate Covers(d: Delta, k: PageId) {
    |d.start| == 36 && FromBytes(d.start).slot == k.slot
    && FromBytes(d.start).index <= k.index < FromBytes(d.start).index + |d.data| / 32
  }

  ghost predicate InSome(ds: seq<Delta>, k: PageId) {
    exists n :: 0 <= n < |ds| && Covers(ds[n], k)
  }

  /** Complete: exactly the overridden pages are in some delta. */
  lemma DeltasCoverThePages(pages: map<PageId, Page>, ds: seq<Delta>, k: PageId)
    requires IsSummary(ds, pages)
    ensures k in pages <==> InSome(ds, k)
  {
    var runs: seq<Run>, ks: seq<PageId> :| Enumerates(ks, pages) && Summarises(ds, runs, ks, pages);
    assert k in pages <==> k in ks;
    RunOfKey(pages, ds, runs, k);
  }

  lemma {:induction false} RunOfKey(pages: map<PageId, Page>, ds: seq<Delta>, runs: seq<Run>, k: PageId)
    requires SpellsAll(ds, runs) && ValidRuns(pages, runs)
    ensures k in KeysOf(pages, runs) <==> InSome(ds, k)
  {
    if runs != [] {
      var m := |runs| - 1;
      RunOfKey(pages, ds[..m], runs[..m], k);
      assert ValidRun(pages, runs[m]) && Spells(ds[m], runs[m]);
      KeyOfRun(ds[m], runs[m], k);
      InSomeSnoc(ds, k);
    }
  }

  lemma InSomeSnoc(ds: seq<Delta>, k: PageId)
    requires ds != []
    ensures InSome(ds, k) <==> InSome(ds[..|ds| - 1], k) || Covers(ds[|ds| - 1], k)
  {
    assert forall n :: 0 <= n < |ds| - 1 ==> ds[..|ds| - 1][n] == ds[n];
  }

  lemma KeyOfRun(d: Delta, r: Run, k: PageId)
    requires r.first.index + |r.body| <= TWO_32 && Spells(d, r)
    ensures k in KeysOfRun(r) <==> Covers(d, k)
  {
    FromBytesInverts(r.first);
    if Covers(d, k) {
      assert KeysOfRun(r)[k.index - r.first.index] == k;
    }
  }

  /** A page whose predecessor is not overridden does not follow a run. */
  lemma NotAdjacent(pages: map<PageId, Page>, r: Run, k: PageId)
    requires ValidRun(pages, r) && !HasPrev(pages, k)
    ensures !(k.slot == r.first.slot && k.index == r.first.index + |r.body|)
  {
    if k.slot == r.first.slot && k.index == r.first.index + |r.body| {
      InsideHasPrev(pages, r, k);
    }
  }

  /** Every page of an earlier run is below every page of a later one. */
  lemma {:induction false} RunsInOrder(pages: map<PageId, Page>, runs: seq<Run>, ks: seq<PageId>, m: nat, n: nat)
    requires ValidRuns(pages, runs) && KeysOf(pages, runs) == ks && Sorted(ks) && m < n < |runs|
    ensures var r := runs[m]; ValidRun(pages, r) && ValidRun(pages, runs[n])
                              && PageLess(PageId(r.first.slot, r.first.index + |r.body| - 1), runs[n].first)
                              && PageLess(r.first, runs[n].first)
  {
    var init, q := runs[..|runs| - 1], runs[|runs| - 1];
    var front := KeysOf(pages, init);
    if n < |runs| - 1 {
      forall i, j | 0 <= i < j < |front|
        ensures PageLess(front[i], front[j])
      {
        assert front[i] == ks[i] && front[j] == ks[j];
      }
      RunsInOrder(pages, init, front, m, n);
    } else {
      var a := KeyInRuns(pages, init, m, 0);
      var b := KeyInRuns(pages, init, m, |runs[m].body| - 1);
      assert KeysOfRun(q)[0] == q.first;
      assert ks[|front|] == q.first && ks[a] == front[a] && ks[b] == front[b];
    }
  }

  lemma {:induction false} KeyInRuns(pages: map<PageId, Page>, runs: seq<Run>, m: nat, j: nat) returns (at: nat)
    requires ValidRuns(pages, runs) && m < |runs| && j < |runs[m].body|
    ensures ValidRun(pages, runs[m])
    ensures at < |KeysOf(pages, runs)| && KeysOf(pages, runs)[at] == PageId(runs[m].first.slot, runs[m].first.index + j)
  {
    assert ValidRun(pages, runs[m]);
    var init := runs[..|runs| - 1];
    if m < |runs| - 1 {
      at := KeyInRuns(pages, init, m, j);
    } else {
      at := |KeysOf(pages, init)| + j;
    }
  }
}
