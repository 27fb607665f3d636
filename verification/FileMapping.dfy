/** The tree of files a contract sees, and how archives are mapped into it. */
module FileMapping {
  import opened Prelude
  import opened Order

  type Name = seq<byte>
  type Path = seq<Name>
  type Contents = seq<byte>

  const SLASH: byte := 0x2F
  const DOT: Name := [0x2E]
  const DOT_DOT: Name := [0x2E, 0x2E]

  // ----- locations

  /** The repeated and the leading slashes are dropped; `last` says that the text before ends in a slash or is empty. */
  function Collapse(s: Name, last: bool): Name {
    if s == [] then []
    else if s[0] == SLASH then (if last then [] else [SLASH]) + Collapse(s[1..], true)
    else [s[0]] + Collapse(s[1..], false)
  }

  /** `split("/")`. */
  function Split(s: Name): (p: Path)
    ensures p != []
  {
    if s == [] then [[]]
    else if s[0] == SLASH then [[]] + Split(s[1..])
    else Pushed(s[0], Split(s[1..]))
  }

  /** One more character at the front of the first piece. */
  function Pushed(c: byte, p: Path): (q: Path)
    requires p != []
    ensures q != []
  {
    [[c] + p[0]] + p[1..]
  }

  function Join(p: Path): Name {
    if p == [] then [] else if |p| == 1 then p[0] else p[0] + [0x2F] + Join(p[1..])
  }

  ghost predicate SlashFree(p: Path) {
    forall i :: 0 <= i < |p| ==> 0x2F !in p[i]
  }

  /** The pieces have no slash in them, and give the text back with slashes between them. */
  lemma {:induction false} SplitAtSlashes(s: Name)
    ensures Join(Split(s)) == s && SlashFree(Split(s))
  {
    if s != [] {
      SplitAtSlashes(s[1..]);
      assert s == [s[0]] + s[1..];
      if s[0] == SLASH {
        JoinSlash(Split(s[1..]));
      } else {
        JoinPushed(s[0], Split(s[1..]));
      }
    }
  }

  lemma JoinSlash(p: Path)
    requires p != [] && SlashFree(p)
    ensures Join([[]] + p) == [SLASH] + Join(p) && SlashFree([[]] + p)
  {
    assert ([[]] + p)[1..] == p && [] + [SLASH] == [SLASH];
  }

  lemma JoinPushed(c: byte, p: Path)
    requires p != [] && SlashFree(p) && c != SLASH
    ensures Join(Pushed(c, p)) == [c] + Join(p) && SlashFree(Pushed(c, p))
  {
    var q := Pushed(c, p);
    assert q[0] == [c] + p[0] && q[1..] == p[1..];
    Regrouped(c, p[0], [SLASH], Join(p[1..]));
    forall i | 0 <= i < |q|
      ensures 0x2F !in q[i]
    {
      assert i > 0 ==> q[i] == p[i];
    }
  }

  lemma Regrouped(c: byte, x: Name, y: Name, z: Name)
    ensures [c] + x + y + z == [c] + (x + y + z)
  {
  }

  function Components(location: Name): (p: Path)
    ensures p != []
  {
    Split(Collapse(location, true))
  }

  function NonEmpty(p: Path): Path {
    if p == [] then [] else (if p[0] == [] then [] else [p[0]]) + NonEmpty(p[1..])
  }

  /** The pieces without the empty ones, except that the last piece, and the first if asked for, always stay. */
  function Kept(pieces: Path, first: bool): (p: Path)
    requires pieces != []
    ensures p != []
  {
    if |pieces| == 1 then pieces
    else (if first || pieces[0] != [] then [pieces[0]] else []) + Kept(pieces[1..], false)
  }

  lemma {:induction false} CollapsedPieces(s: Name, last: bool)
    ensures Split(Collapse(s, last)) == Kept(Split(s), !last)
  {
    if s != [] {
      var rest := Split(s[1..]);
      CollapsedPieces(s[1..], s[0] == SLASH);
      if s[0] == SLASH {
        assert Split(s)[1..] == rest;
        assert if last then Collapse(s, last) == Collapse(s[1..], true)
               else Collapse(s, last)[1..] == Collapse(s[1..], true);
      } else {
        assert Split(s)[1..] == rest[1..];
        assert Collapse(s, last)[1..] == Collapse(s[1..], false);
      }
    }
  }

  lemma {:induction false} KeptAreNonEmpty(pieces: Path)
    requires pieces != []
    ensures Kept(pieces, false) == NonEmpty(pieces[..|pieces| - 1]) + [pieces[|pieces| - 1]]
  {
    if |pieces| == 1 {
      assert pieces[..0] == [];
    } else {
      KeptAreNonEmpty(pieces[1..]);
      assert pieces[..|pieces| - 1][1..] == pieces[1..][..|pieces| - 2];
    }
  }

  /**
   * The components of a location are its pieces between slashes without the empty ones, except that the last piece
   * always stays.
   */
  lemma ComponentsAreThePieces(location: Name)
    ensures var pieces := Split(location);
            Components(location) == NonEmpty(pieces[..|pieces| - 1]) + [pieces[|pieces| - 1]]
  {
    CollapsedPieces(location, true);
    KeptAreNonEmpty(Split(location));
  }

  // ----- the tree

  datatype Trie = File(data: Contents) | Dir(children: map<Name, Trie>)

  const EMPTY := Dir(map[])

  function Child(t: Trie, name: Name): Option<Trie> {
    if t.Dir? && name in t.children then Some(t.children[name]) else None
  }

  function Node(t: Trie, p: Path): Option<Trie>
    decreases |p|
  {
    if p == [] then Some(t)
    else
      var c := Child(t, p[0]);
      if c.None? then None else Node(c.value, p[1..])
  }

  /** The file at a path. */
  function Lookup(t: Trie, p: Path): Option<Contents> {
    var n := Node(t, p);
    if n.Some? && n.value.File? then Some(n.value.data) else None
  }

  /**
   * The walk of `map_file`, which creates missing directories on its way: the tree it leaves, and whether it succeeds.
   */
  function MapInto(t: Trie, p: Path, data: Contents): (Trie, bool)
    requires p != []
    decreases |p|
  {
    if t.File? then (t, false)
    else if |p| == 1 then
      if p[0] in t.children then (t, false) else (Dir(t.children[p[0] := File(data)]), true)
    else
      var child := if p[0] in t.children then t.children[p[0]] else EMPTY;
      var (mapped, ok) := MapInto(child, p[1..], data);
      (Dir(t.children[p[0] := mapped]), ok)
  }

  /** A path is a file and a directory at once only if the two paths are the same: no mapped path continues another. */
  lemma {:induction false} MappedPathsArePrefixFree(t: Trie, p: Path, q: Path)
    requires Lookup(t, p).Some? && Lookup(t, q).Some? && p <= q
    ensures p == q
    decreases |p|
  {
    if p != [] {
      MappedPathsArePrefixFree(t.children[p[0]], p[1..], q[1..]);
      assert p == [p[0]] + p[1..] && q == [q[0]] + q[1..];
    }
  }

  /** The walk meets a file before its last component, or finds the path taken. */
  predicate Obstructed(t: Trie, p: Path)
    requires p != []
    decreases |p|
  {
    t.File? || (if |p| == 1 then p[0] in t.children else p[0] in t.children && Obstructed(t.children[p[0]], p[1..]))
  }

  /** A failing walk leaves the tree as it was: whatever obstructs it lies on old directories only. */
  lemma {:induction false} FailureChangesNothing(t: Trie, p: Path, data: Contents)
    requires p != []
    ensures MapInto(t, p, data).1 <==> !Obstructed(t, p)
    ensures !MapInto(t, p, data).1 ==> MapInto(t, p, data).0 == t
    decreases |p|
  {
    if t.Dir? && |p| > 1 {
      var child := if p[0] in t.children then t.children[p[0]] else EMPTY;
      FailureChangesNothing(child, p[1..], data);
      if p[0] !in t.children {
        assert !Obstructed(EMPTY, p[1..]);
      }
    }
  }

  /** A successful walk adds one file, and no nodes but those on the way to it. */
  lemma {:induction false} SuccessAddsOne(t: Trie, p: Path, data: Contents, q: Path)
    requires p != [] && MapInto(t, p, data).1
    ensures Lookup(MapInto(t, p, data).0, q) == if q == p then Some(data) else Lookup(t, q)
    ensures Node(MapInto(t, p, data).0, q).Some? <==> Node(t, q).Some? || q <= p
    decreases |p|
  {
    var r := MapInto(t, p, data).0;
    if q != [] {
      assert q == [q[0]] + q[1..] && p == [p[0]] + p[1..];
      if |p| == 1 {
        assert q[0] != p[0] ==> Child(r, q[0]) == Child(t, q[0]);
        assert q[0] == p[0] ==> Node(r, q) == Node(File(data), q[1..]) && Child(t, q[0]).None?;
        assert q[0] == p[0] && q[1..] != [] ==> Child(File(data), q[1..][0]).None?;
      } else if q[0] == p[0] {
        var child := if p[0] in t.children then t.children[p[0]] else EMPTY;
        SuccessAddsOne(child, p[1..], data, q[1..]);
        if p[0] !in t.children && q[1..] != [] {
          assert Child(EMPTY, q[1..][0]).None?;
        }
      }
    }
  }

  // ----- the tree as a map from paths to files

  /** There are no empty directories below the root. */
  ghost predicate Grown(t: Trie) {
    forall p: Path :: p != [] && Node(t, p).Some? ==> Leads(t, p)
  }

  ghost predicate Leads(t: Trie, p: Path) {
    exists q: Path :: p <= q && Lookup(t, q).Some?
  }

  predicate Related(p: Path, q: Path) {
    p <= q || q <= p
  }

  lemma {:induction false} NodeOfPrefix(t: Trie, p: Path, q: Path)
    requires p <= q && Node(t, q).Some?
    ensures Node(t, p).Some?
    ensures p != q ==> Node(t, p).value.Dir?
    decreases |p|
  {
    if p == [] {
      assert q != [] ==> Child(t, q[0]).Some?;
    } else {
      NodeOfPrefix(t.children[p[0]], p[1..], q[1..]);
      assert p == [p[0]] + p[1..] && q == [q[0]] + q[1..];
    }
  }

  /** What obstructs a walk is a node at its path, or a file on the way. */
  lemma {:induction false} ObstructedBy(t: Trie, p: Path)
    requires p != []
    ensures Obstructed(t, p) <==> Node(t, p).Some? || exists k: nat :: k < |p| && Lookup(t, p[..k]).Some?
    decreases |p|
  {
    if t.File? {
      assert Lookup(t, p[..0]).Some?;
    } else {
      if |p| > 1 && p[0] in t.children {
        var child := t.children[p[0]];
        ObstructedBy(child, p[1..]);
        forall k: nat | 0 < k < |p|
          ensures Lookup(t, p[..k]) == Lookup(child, p[1..][..k - 1])
        {
          assert p[..k][1..] == p[1..][..k - 1] && p[..k][0] == p[0];
        }
        if k: nat :| k < |p[1..]| && Lookup(child, p[1..][..k]).Some? {
          assert Lookup(t, p[..k + 1]) == Lookup(child, p[1..][..k + 1 - 1]);
        }
      } else {
        forall k: nat | k < |p|
          ensures Lookup(t, p[..k]).None?
        {
          assert k > 0 ==> p[..k][0] == p[0];
        }
      }
    }
  }

  /**
   * In a tree without empty directories, a walk succeeds exactly when its path is unrelated to every path mapped
   * before.
   */
  lemma SuccessIffUnrelated(t: Trie, p: Path, data: Contents)
    requires p != [] && Grown(t)
    ensures MapInto(t, p, data).1 <==> forall q: Path :: Lookup(t, q).Some? ==> !Related(p, q)
  {
    FailureChangesNothing(t, p, data);
    ObstructedBy(t, p);
    if Node(t, p).Some? {
      assert Leads(t, p);
    } else if k: nat :| k < |p| && Lookup(t, p[..k]).Some? {
      assert Related(p, p[..k]);
    } else {
      forall q: Path | Lookup(t, q).Some?
        ensures !Related(p, q)
      {
        if Related(p, q) {
          RelatedObstructs(t, p, q);
          assert false;
        }
      }
    }
  }

  lemma RelatedObstructs(t: Trie, p: Path, q: Path)
    requires Lookup(t, q).Some? && Related(p, q)
    ensures Node(t, p).Some? || exists k: nat :: k < |p| && Lookup(t, p[..k]).Some?
  {
    if p <= q {
      NodeOfPrefix(t, p, q);
    } else {
      assert q == p[..|q|] && |q| < |p|;
    }
  }

  lemma StaysGrown(t: Trie, p: Path, data: Contents)
    requires p != [] && Grown(t)
    ensures Grown(MapInto(t, p, data).0)
  {
    FailureChangesNothing(t, p, data);
    var (r, ok) := MapInto(t, p, data);
    if ok {
      forall q: Path | q != [] && Node(r, q).Some?
        ensures Leads(r, q)
      {
        SuccessAddsOne(t, p, data, q);
        SuccessAddsOne(t, p, data, p);
        if !(q <= p) {
          assert Leads(t, q);
          var f: Path :| q <= f && Lookup(t, f).Some?;
          SuccessAddsOne(t, p, data, f);
          assert Lookup(r, f).Some?;
        }
      }
    }
  }

  // ----- looking files up

  datatype Errno = BadF | NoEnt

  /** `dir_fd_follow_trie` on paths without "..". */
  function Follow(t: Trie, p: Path): Result<Trie, Errno>
    requires DOT_DOT !in p
    decreases |p|
  {
    if p == [] then Ok(t)
    else if p[0] == DOT || p[0] == [] then Follow(t, p[1..])
    else if t.File? then Err(BadF)
    else if p[0] !in t.children then Err(NoEnt)
    else Follow(t.children[p[0]], p[1..])
  }

  function Plain(p: Path): Path {
    if p == [] then [] else (if p[0] == DOT || p[0] == [] then [] else [p[0]]) + Plain(p[1..])
  }

  lemma {:induction false} PlainConcat(p: Path, q: Path)
    ensures Plain(p + q) == Plain(p) + Plain(q)
  {
    if p == [] {
      assert p + q == q;
    } else {
      assert (p + q)[1..] == p[1..] + q;
      PlainConcat(p[1..], q);
    }
  }

  /** The plain path keeps every component but "." and the empty one. */
  lemma PlainDropsDots(p: Path, name: Name, q: Path)
    ensures Plain([]) == [] && (DOT_DOT in p <==> [0x2E, 0x2E] in p)
    ensures Plain(p + [name] + q) == Plain(p) + (if name == [] || name == [0x2E] then [] else [name]) + Plain(q)
  {
    PlainConcat(p + [name], q);
    PlainConcat(p, [name]);
    assert [name][1..] == [];
  }

  /** The first `k` components of the path lead to a node, and one more does not. */
  predicate EndsAt(t: Trie, p: Path, k: nat) {
    k < |p| && Node(t, p[..k]).Some? && Node(t, p[..k + 1]).None?
  }

  /** The longest prefix of the path that exists leads to a directory in the one case, and to a file in the other. */
  ghost predicate FailsWith(t: Trie, p: Path, e: Errno) {
    exists k: nat :: EndsAt(t, p, k) && (Node(t, p[..k]).value.Dir? <==> e == NoEnt)
  }

  /**
   * A lookup finds the node at the path without its "." and empty components. It fails exactly when there is none, and
   * its error says what the longest prefix that exists leads to.
   */
  lemma {:induction false} FollowFinds(t: Trie, p: Path)
    requires DOT_DOT !in p
    ensures match Follow(t, p)
            case Ok(n) => Node(t, Plain(p)) == Some(n)
            case Err(e) => Node(t, Plain(p)).None? && FailsWith(t, Plain(p), e)
    decreases |p|
  {
    if p != [] {
      if p[0] == DOT || p[0] == [] {
        FollowFinds(t, p[1..]);
        assert Plain(p) == Plain(p[1..]);
      } else {
        assert Plain(p)[0] == p[0] && Plain(p)[1..] == Plain(p[1..]);
        if Child(t, p[0]).Some? {
          FollowFinds(t.children[p[0]], p[1..]);
          if Follow(t, p).Err? {
            FailsBelow(t, Plain(p), Follow(t, p).error);
          }
        } else {
          assert EndsAt(t, Plain(p), 0);
        }
      }
    }
  }

  lemma FailsBelow(t: Trie, p: Path, e: Errno)
    requires p != [] && Child(t, p[0]).Some? && FailsWith(t.children[p[0]], p[1..], e)
    ensures FailsWith(t, p, e)
  {
    var child := t.children[p[0]];
    var k: nat :| EndsAt(child, p[1..], k) && (Node(child, p[1..][..k]).value.Dir? <==> e == NoEnt);
    assert p[..k + 1][1..] == p[1..][..k] && p[..k + 2][1..] == p[1..][..k + 1];
    assert EndsAt(t, p, k + 1);
  }

  // ----- mapping a directory of an archive

  const FILE_MAPPING := 256

  /** What a mapping is charged: a 32-bit sum of a constant and the length of the location. */
  function Cost(location: Name): nat {
    AsU32(FILE_MAPPING + AsU32(|location|))
  }

  lemma CostIs(location: Name)
    ensures Cost(location) == (256 + |location|) % 0x1_0000_0000
  {
  }

  datatype Outcome = Done | OutOfMemory | Clash

  datatype Fs = Fs(root: Trie, memory: nat)

  function MapOne(fs: Fs, location: Name, data: Contents): (Fs, Outcome) {
    if fs.memory < Cost(location) then (fs, OutOfMemory)
    else
      var (t, ok) := MapInto(fs.root, Components(location), data);
      (Fs(t, fs.memory - Cost(location)), if ok then Done else Clash)
  }

  datatype Entry = Entry(name: Name, data: Contents)

  /** The files are mapped in order up to the first that cannot be. */
  function MapAll(fs: Fs, items: seq<Entry>): (Fs, Outcome)
    decreases |items|
  {
    if items == [] then (fs, Done)
    else
      var (after, outcome) := MapOne(fs, items[0].name, items[0].data);
      if outcome != Done then (after, outcome) else MapAll(after, items[1..])
  }

  predicate EndsWithSlash(name: Name) {
    name != [] && name[|name| - 1] == SLASH
  }

  predicate Sorted(archive: seq<Entry>) {
    forall i, j :: 0 <= i < j < |archive| ==> Less(archive[i].name, archive[j].name)
  }

  /** An entry of the archive is mapped if it is a file below the directory. */
  predicate Wanted(directory: Name, name: Name) {
    IsPrefix(directory, name) && !EndsWithSlash(name)
  }

  function Target(to: Name, directory: Name, name: Name): Name
    requires |directory| <= |name|
  {
    (if EndsWithSlash(to) then to else to + [SLASH]) + name[|directory|..]
  }

  lemma SplitCons(c: byte, s: Name)
    ensures Split([c] + s) == if c == SLASH then [[]] + Split(s) else Pushed(c, Split(s))
  {
    assert ([c] + s)[1..] == s;
  }

  lemma PushedConcat(c: byte, p: Path, q: Path)
    requires p != []
    ensures Pushed(c, p + q) == Pushed(c, p) + q
  {
    assert (p + q)[1..] == p[1..] + q;
  }

  lemma {:induction false} SplitAtSlash(a: Name, b: Name)
    ensures Split(a + [SLASH] + b) == Split(a) + Split(b)
  {
    if a == [] {
      assert a + [SLASH] + b == [SLASH] + b;
      SplitCons(SLASH, b);
    } else {
      var rest := a[1..] + [SLASH] + b;
      assert a + [SLASH] + b == [a[0]] + rest;
      SplitCons(a[0], rest);
      SplitAtSlash(a[1..], b);
      if a[0] == SLASH {
        assert [[]] + (Split(a[1..]) + Split(b)) == [[]] + Split(a[1..]) + Split(b);
      } else {
        PushedConcat(a[0], Split(a[1..]), Split(b));
      }
    }
  }

  lemma {:induction false} KeptAfter(p: Path, q: Path)
    requires q != []
    ensures Kept(p + q, false) == NonEmpty(p) + Kept(q, false)
  {
    if p == [] {
      assert p + q == q && [] + Kept(q, false) == Kept(q, false);
    } else {
      assert (p + q)[1..] == p[1..] + q;
      KeptAfter(p[1..], q);
    }
  }

  lemma {:induction false} NonEmptyAppend(p: Path)
    ensures NonEmpty(p + [[]]) == NonEmpty(p)
  {
    if p != [] {
      assert (p + [[]])[1..] == p[1..] + [[]];
      NonEmptyAppend(p[1..]);
    }
  }

  lemma ComponentsBelow(a: Name, rest: Name)
    ensures Components(a + [SLASH] + rest) == NonEmpty(Split(a)) + Components(rest)
  {
    CollapsedPieces(a + [SLASH] + rest, true);
    CollapsedPieces(rest, true);
    SplitAtSlash(a, rest);
    KeptAfter(Split(a), Split(rest));
  }

  lemma EmptyAfterSlash(a: Name)
    ensures NonEmpty(Split(a + [SLASH])) == NonEmpty(Split(a))
  {
    assert a + [SLASH] == a + [SLASH] + [];
    SplitAtSlash(a, []);
    NonEmptyAppend(Split(a));
  }

  /**
   * A file is mapped below the target at the path it has below the directory, whether or not the target ends in a
   * slash.
   */
  lemma TargetKeepsRelativePath(to: Name, directory: Name, name: Name)
    requires |directory| <= |name|
    ensures Components(Target(to, directory, name)) == NonEmpty(Split(to)) + Components(name[|directory|..])
  {
    var rest := name[|directory|..];
    if EndsWithSlash(to) {
      var init := to[..|to| - 1];
      assert to == init + [SLASH];
      ComponentsBelow(init, rest);
      EmptyAfterSlash(init);
    } else {
      ComponentsBelow(to, rest);
    }
  }

  /** The wanted entries of an archive, under their new names. */
  function Items(to: Name, directory: Name, archive: seq<Entry>): seq<Entry> {
    if archive == [] then []
    else
      (if Wanted(directory, archive[0].name)
       then [Entry(Target(to, directory, archive[0].name), archive[0].data)] else [])
      + Items(to, directory, archive[1..])
  }

  lemma {:induction false} NothingWanted(to: Name, directory: Name, archive: seq<Entry>)
    requires forall i :: 0 <= i < |archive| ==> !Wanted(directory, archive[i].name)
    ensures Items(to, directory, archive) == []
  {
    if archive != [] {
      assert !Wanted(directory, archive[0].name);
      NothingWanted(to, directory, archive[1..]);
    }
  }

  /** After a name above the directory that does not start with it, no name does. */
  lemma NothingAfter(directory: Name, archive: seq<Entry>, i: nat, j: nat)
    requires Sorted(archive) && i <= j < |archive|
    requires !Less(archive[i].name, directory) && !IsPrefix(directory, archive[i].name)
    ensures !IsPrefix(directory, archive[j].name)
  {
    if i < j && IsPrefix(directory, archive[j].name) {
      PrefixedComeFirst(directory, archive[j].name, archive[i].name);
      Trichotomy(archive[i].name, archive[j].name);
    }
  }

  function Costs(items: seq<Entry>): nat {
    if items == [] then 0 else Cost(items[0].name) + Costs(items[1..])
  }

  function IndexOf(items: seq<Entry>, p: Path): Option<Contents> {
    if items == [] then None
    else
      var later := IndexOf(items[1..], p);
      if later.Some? then later else if Components(items[0].name) == p then Some(items[0].data) else None
  }

  /** A mapping that succeeds adds exactly its items, and is charged for each of them. */
  lemma {:induction false} MapAllAddsItems(fs: Fs, items: seq<Entry>, p: Path)
    requires MapAll(fs, items).1 == Done
    ensures var after := MapAll(fs, items).0;
            && after.memory + Costs(items) == fs.memory
            && Lookup(after.root, p) == if IndexOf(items, p).Some? then IndexOf(items, p) else Lookup(fs.root, p)
    decreases |items|
  {
    if items != [] {
      var (after, _) := MapOne(fs, items[0].name, items[0].data);
      SuccessAddsOne(fs.root, Components(items[0].name), items[0].data, p);
      MapAllAddsItems(after, items[1..], p);
    }
  }

  /** The first `k` files are mapped, and the memory does not cover the next. */
  ghost predicate RunsOut(fs: Fs, items: seq<Entry>, after: Fs, k: nat) {
    && k < |items| && MapAll(fs, items[..k]) == (after, Done)
    && after.memory < (256 + |items[k].name|) % 0x1_0000_0000
  }

  /** The first `k` files are mapped, and the next is paid for but its path is related to one that is mapped. */
  ghost predicate RunsInto(fs: Fs, items: seq<Entry>, after: Fs, k: nat) {
    && k < |items|
    && var cost := (256 + |items[k].name|) % 0x1_0000_0000;
       && MapAll(fs, items[..k]) == (after.(memory := after.memory + cost), Done)
       && exists q: Path :: Lookup(after.root, q).Some? && Related(Components(items[k].name), q)
  }

  /** A mapping that fails leaves the files before the one that could not be mapped. */
  lemma {:induction false} MapAllStops(fs: Fs, items: seq<Entry>)
    requires Grown(fs.root)
    ensures var (after, outcome) := MapAll(fs, items);
            && (outcome == OutOfMemory ==> exists k: nat :: RunsOut(fs, items, after, k))
            && (outcome == Clash ==> exists k: nat :: RunsInto(fs, items, after, k))
    decreases |items|
  {
    if items != [] {
      var (first, started) := MapOne(fs, items[0].name, items[0].data);
      CostIs(items[0].name);
      assert items[..0] == [] && MapAll(fs, items[..0]) == (fs, Done);
      if started == OutOfMemory {
        assert RunsOut(fs, items, fs, 0);
      } else if started == Clash {
        SuccessIffUnrelated(fs.root, Components(items[0].name), items[0].data);
        FailureChangesNothing(fs.root, Components(items[0].name), items[0].data);
        assert RunsInto(fs, items, first, 0);
      } else {
        StaysGrown(fs.root, Components(items[0].name), items[0].data);
        MapAllStops(first, items[1..]);
        var (after, outcome) := MapAll(first, items[1..]);
        if outcome == OutOfMemory {
          var k: nat :| RunsOut(first, items[1..], after, k);
          StopsLater(fs, items, after, k);
        } else if outcome == Clash {
          var k: nat :| RunsInto(first, items[1..], after, k);
          StopsLater(fs, items, after, k);
        }
      }
    }
  }

  lemma StopsLater(fs: Fs, items: seq<Entry>, after: Fs, k: nat)
    requires items != [] && MapOne(fs, items[0].name, items[0].data).1 == Done
    ensures var first := MapOne(fs, items[0].name, items[0].data).0;
            && (RunsOut(first, items[1..], after, k) ==> RunsOut(fs, items, after, k + 1))
            && (RunsInto(first, items[1..], after, k) ==> RunsInto(fs, items, after, k + 1))
  {
    if k < |items[1..]| {
      assert items[..k + 1][0] == items[0] && items[..k + 1][1..] == items[1..][..k];
    }
  }

  lemma {:induction false} ItemsConcat(to: Name, directory: Name, xs: seq<Entry>, ys: seq<Entry>)
    ensures Items(to, directory, xs + ys) == Items(to, directory, xs) + Items(to, directory, ys)
  {
    if xs == [] {
      assert xs + ys == ys;
    } else {
      assert (xs + ys)[1..] == xs[1..] + ys;
      ItemsConcat(to, directory, xs[1..], ys);
    }
  }

  /**
   * An entry whose name starts with the directory's and does not end in a slash is mapped in its place, under the rest
   * of its name after the target and one slash; no other entry is.
   */
  lemma ItemsAre(to: Name, directory: Name, xs: seq<Entry>, entry: Entry, ys: seq<Entry>)
    ensures Items(to, directory, []) == []
    ensures Items(to, directory, xs + [entry] + ys) ==
            Items(to, directory, xs) + Items(to, directory, [entry]) + Items(to, directory, ys)
    ensures var n := |directory|;
            Items(to, directory, [entry]) ==
            if n <= |entry.name| && entry.name[..n] == directory
               && (entry.name == [] || entry.name[|entry.name| - 1] != 0x2F)
            then [Entry((if to != [] && to[|to| - 1] == 0x2F then to else to + [0x2F]) + entry.name[n..], entry.data)]
            else []
  {
    ItemsConcat(to, directory, xs + [entry], ys);
    ItemsConcat(to, directory, xs, [entry]);
    OneItem(to, directory, entry);
  }

  lemma OneItem(to: Name, directory: Name, entry: Entry)
    ensures Items(to, directory, [entry]) ==
            if Wanted(directory, entry.name) then [Entry(Target(to, directory, entry.name), entry.data)] else []
  {
    assert [entry][1..] == [];
  }

  /** One character of a location. */
  lemma CollapseStep(location: Name, i: nat, last: bool)
    requires i < |location|
    ensures Collapse(location[i..], last) ==
            (if location[i] == SLASH && last then [] else [location[i]])
            + Collapse(location[i + 1..], location[i] == SLASH)
  {
    assert location[i..][1..] == location[i + 1..];
  }

  /** The loop of `map_file` over the characters of a location. */
  method Patched(location: Name) returns (patched: Name)
    ensures patched == Collapse(location, true)
  {
    patched := [];
    var lastSlash := true;
    for i := 0 to |location|
      invariant Collapse(location, true) == patched + Collapse(location[i..], lastSlash)
    {
      CollapseStep(location, i, lastSlash);
      if location[i] == SLASH {
        if !lastSlash {
          patched := patched + [SLASH];
        }
        lastSlash := true;
      } else {
        lastSlash := false;
        patched := patched + [location[i]];
      }
    }
  }

  class FileSystem {
    var root: Trie
    var memory: nat
    ghost var files: map<Path, Contents>

    /** The tree is a map from paths to contents in which no path continues another. */
    ghost predicate Valid()
      reads this
    {
      && root.Dir? && Grown(root)
      && forall p: Path :: Lookup(root, p) == if p in files then Some(files[p]) else None
    }

    constructor (memory: nat)
      ensures Valid() && files == map[] && this.memory == memory
    {
      root, files := EMPTY, map[];
      this.memory := memory;
      new;
      forall p: Path
        ensures p != [] ==> Node(root, p).None?
      {
        assert p != [] ==> Child(root, p[0]).None?;
      }
    }

    /** Maps one file: it succeeds exactly when the location is unrelated to all others, and then adds that one file. */
    method MapFile(location: Name, data: Contents) returns (ok: bool)
      requires Valid()
      modifies this`root, this`files
      ensures Valid()
      ensures (root, ok) == MapInto(old(root), Components(location), data)
      ensures ok <==> forall q :: q in old(files) ==> !Related(Components(location), q)
      ensures files == if ok then old(files)[Components(location) := data] else old(files)
      ensures !ok ==> root == old(root)
    {
      var patched := Patched(location);
      var p := Split(patched);
      var (t, success) := MapInto(root, p, data);
      SuccessIffUnrelated(root, p, data);
      FailureChangesNothing(root, p, data);
      StaysGrown(root, p, data);
      assert forall q :: q in files ==> Lookup(root, q).Some?;
      if success {
        forall q: Path
          ensures Lookup(t, q) == if q == p then Some(data) else Lookup(root, q)
        {
          SuccessAddsOne(root, p, data, q);
        }
        files := files[p := data];
      }
      root := t;
      return success;
    }

    method MapOneFile(location: Name, data: Contents) returns (outcome: Outcome)
      requires Valid()
      modifies this
      ensures Valid() && (Fs(root, memory), outcome) == MapOne(Fs(old(root), old(memory)), location, data)
    {
      if memory < Cost(location) {
        return OutOfMemory;
      }
      memory := memory - Cost(location);
      var ok := MapFile(location, data);
      outcome := if ok then Done else Clash;
    }

    /**
     * `MapFile` of a directory: the scan starts at the first name not below the directory and stops at the first file
     * outside it. It maps every file of the archive below the directory, and no other.
     */
    method MapDirectory(archive: seq<Entry>, to: Name, file: Name) returns (outcome: Outcome)
      requires Valid() && Sorted(archive) && EndsWithSlash(file)
      modifies this
      ensures Valid()
      ensures (Fs(root, memory), outcome) ==
              MapAll(Fs(old(root), old(memory)), Items(to, if file == [SLASH] then [] else file, archive))
    {
      var directory := if file == [SLASH] then [] else file;
      ghost var all := MapAll(Fs(root, memory), Items(to, directory, archive));
      var i := RangeStart(to, directory, archive);
      while i < |archive|
        invariant i <= |archive| && Valid()
        invariant i < |archive| ==> !Less(archive[i].name, directory)
        invariant all == MapAll(Fs(root, memory), Items(to, directory, archive[i..]))
      {
        var Entry(name, data) := archive[i];
        ScanStep(Fs(root, memory), to, directory, archive, i);
        NextIsNotBelow(directory, archive, i);
        if EndsWithSlash(name) {
          i := i + 1;
          continue;
        }
        if !IsPrefix(directory, name) {
          NothingLeft(to, directory, archive, i);
          return Done;
        }
        outcome := MapOneFile(Target(to, directory, name), data);
        if outcome != Done {
          return;
        }
        i := i + 1;
      }
      outcome := Done;
    }
  }

  /** `BTreeMap::range`: the first name that is not below the directory. */
  method RangeStart(to: Name, directory: Name, archive: seq<Entry>) returns (i: nat)
    ensures i <= |archive| && (i < |archive| ==> !Less(archive[i].name, directory))
    ensures Items(to, directory, archive) == Items(to, directory, archive[i..])
  {
    i := 0;
    while i < |archive| && Less(archive[i].name, directory)
      invariant i <= |archive| && Items(to, directory, archive) == Items(to, directory, archive[i..])
    {
      NotYet(to, directory, archive, i);
      i := i + 1;
    }
  }

  lemma ScanStep(fs: Fs, to: Name, directory: Name, archive: seq<Entry>, i: nat)
    requires i < |archive|
    ensures var Entry(name, data) := archive[i];
            var all := MapAll(fs, Items(to, directory, archive[i..]));
            var next := Items(to, directory, archive[i + 1..]);
            if Wanted(directory, name) then
              var (after, outcome) := MapOne(fs, Target(to, directory, name), data);
              all == if outcome != Done then (after, outcome) else MapAll(after, next)
            else all == MapAll(fs, next)
  {
    var Entry(name, data) := archive[i];
    assert archive[i..][0] == archive[i] && archive[i..][1..] == archive[i + 1..];
    var next := Items(to, directory, archive[i + 1..]);
    if Wanted(directory, name) {
      assert ([Entry(Target(to, directory, name), data)] + next)[1..] == next;
    } else {
      assert [] + next == next;
    }
  }

  lemma NotYet(to: Name, directory: Name, archive: seq<Entry>, i: nat)
    requires i < |archive| && Less(archive[i].name, directory)
    ensures Items(to, directory, archive[i..]) == Items(to, directory, archive[i + 1..])
  {
    if IsPrefix(directory, archive[i].name) {
      PrefixedNotBelow(directory, archive[i].name);
    }
    assert archive[i..][0] == archive[i] && archive[i..][1..] == archive[i + 1..];
  }

  lemma NothingLeft(to: Name, directory: Name, archive: seq<Entry>, i: nat)
    requires Sorted(archive) && i < |archive|
    requires !Less(archive[i].name, directory) && !IsPrefix(directory, archive[i].name)
    ensures Items(to, directory, archive[i..]) == []
  {
    forall k | 0 <= k < |archive[i..]|
      ensures !Wanted(directory, archive[i..][k].name)
    {
      NothingAfter(directory, archive, i, i + k);
    }
    NothingWanted(to, directory, archive[i..]);
  }

  lemma NextIsNotBelow(directory: Name, archive: seq<Entry>, i: nat)
    requires Sorted(archive) && i < |archive| && !Less(archive[i].name, directory)
    ensures i + 1 < |archive| ==> !Less(archive[i + 1].name, directory)
  {
    if i + 1 < |archive| && Less(archive[i + 1].name, directory) {
      Transitive(archive[i].name, archive[i + 1].name, directory);
    }
  }
}
