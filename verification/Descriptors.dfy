/** The descriptor table of a virtual machine, and the WASI calls that open, read, seek and close. */
module Descriptors {
  import opened Prelude
  import Files = FileMapping

  type Contents = Files.Contents
  type Path = Files.Path

  type i64 = n: int | -0x8000_0000_0000_0000 <= n < 0x8000_0000_0000_0000

  datatype Descriptor =
    | Stdin | Stdout | Stderr
    | Opened(contents: Contents, pos: nat, releaseMemory: bool)
    | Directory(path: Path)

  /** `NoMemory` ends the contract; `Overflow` is the assertion of the limiter that a release overflows 32 bits. */
  datatype Error = Errno(errno: WasiErrno) | NoMemory | Overflow

  datatype WasiErrno = BadF | NoEnt | Acces | IsDir | NotSup | SPipe

  datatype Whence = Set | Cur | End

  const FD_ALLOCATION := 96

  /** `len_u32`. */
  function Len(contents: Contents): (n: nat)
    ensures n <= |contents| && n == |contents| % 0x1_0000_0000
  {
    AsU32(|contents|)
  }

  /** What closing a descriptor releases. */
  function Size(d: Descriptor): nat {
    if d.Opened? && d.releaseMemory then Len(d.contents) else 0
  }

  /** What the descriptors below `n` hold. */
  function Held(fds: map<nat, Descriptor>, n: nat): nat {
    if n == 0 then 0 else Held(fds, n - 1) + (if n - 1 in fds then Size(fds[n - 1]) else 0)
  }

  lemma {:induction false} HeldUpdate(fds: map<nat, Descriptor>, k: nat, d: Descriptor, n: nat)
    ensures Held(fds[k := d], n) ==
            Held(fds, n) + if k < n then Size(d) - (if k in fds then Size(fds[k]) else 0) else 0
  {
    if n > 0 {
      HeldUpdate(fds, k, d, n - 1);
    }
  }

  lemma {:induction false} HeldRemove(fds: map<nat, Descriptor>, k: nat, n: nat)
    ensures Held(fds - {k}, n) == Held(fds, n) - if k < n && k in fds then Size(fds[k]) else 0
  {
    if n > 0 {
      HeldRemove(fds, k, n - 1);
    }
  }

  predicate Distinct(s: seq<nat>) {
    forall i, j :: 0 <= i < j < |s| ==> s[i] != s[j]
  }

  predicate PositionOk(d: Descriptor) {
    d.Opened? ==> d.pos <= Len(d.contents)
  }

  /** A number forced into an interval. */
  function Clamp(n: int, high: nat): (r: nat)
    ensures r <= high && (n < 0 ==> r == 0) && (0 <= n <= high ==> r == n) && (n > high ==> r == high)
  {
    if n < 0 then 0 else if n > high then high else n
  }

  function Sum(lens: seq<u32>): nat {
    if lens == [] then 0 else Sum(lens[..|lens| - 1]) + lens[|lens| - 1] as nat
  }

  /** A path that can be followed without going up. */
  predicate GoesDown(p: Path) {
    Files.DOT_DOT !in p
  }

  /** Following a path and then another is following both. */
  lemma {:induction false} FollowBoth(t: Files.Trie, p: Path, q: Path)
    requires GoesDown(p) && GoesDown(q)
    ensures Files.Follow(t, p + q) == (var r := Files.Follow(t, p); if r.Ok? then Files.Follow(r.value, q) else r)
    decreases |p|
  {
    if p == [] {
      assert p + q == q;
    } else {
      assert (p + q)[1..] == p[1..] + q;
      if p[0] == Files.DOT || p[0] == [] {
        FollowBoth(t, p[1..], q);
      } else if Files.Child(t, p[0]).Some? {
        FollowBoth(t.children[p[0]], p[1..], q);
      }
    }
  }

  lemma {:induction false} PlainGoesDown(p: Path)
    requires GoesDown(p)
    ensures GoesDown(Files.Plain(p))
  {
    if p != [] {
      PlainGoesDown(p[1..]);
    }
  }

  /** Adding to a wrapped counter is wrapping the sum. */
  lemma SumWraps(n: int, d: int)
    ensures (n % TWO_32 + d) % TWO_32 == (n + d) % TWO_32
  {
  }

  class Vfs {
    var fds: map<nat, Descriptor>
    var freeDescriptors: seq<nat>
    var nextFree: nat
    var remaining: nat            // `remaining_memory` of the limiter
    var consumed: nat             // its `consumed_memory`, a 32-bit counter that wraps
    ghost const budget: nat       // what the limiter had when the table was made
    ghost const stdinLen: nat
    ghost var lost: set<nat>      // descriptors that are neither open nor free
    ghost var leaked: nat         // bytes charged for contents that were never placed

    /** Every descriptor ever given out is open, free or lost, and only one of these. */
    ghost predicate Partitioned()
      reads this
    {
      && Distinct(freeDescriptors)
      && (forall fd: nat :: fd <= nextFree <==> fd in fds || fd in freeDescriptors || fd in lost)
      && (forall fd :: fd in fds ==> fd !in freeDescriptors && fd !in lost)
      && (forall fd :: fd in freeDescriptors ==> fd !in lost)
    }

    /**
     * Memory is charged for every descriptor minted and every open file that releases its bytes, standard input
     * excepted.
     */
    ghost predicate Balanced()
      reads this
    {
      && nextFree >= 3 && remaining <= U32_MAX && budget <= U32_MAX && stdinLen <= U32_MAX
      && remaining + FD_ALLOCATION * (nextFree - 3) + Held(fds, nextFree + 1) + leaked == budget + stdinLen
    }

    /** The counter is what the budget has lost, in 32 bits. */
    ghost predicate Counted()
      reads this
    {
      consumed == (budget - remaining) % TWO_32
    }

    ghost predicate Valid()
      reads this
    {
      && Partitioned() && Balanced() && Counted()
      && (forall fd :: fd in fds ==> PositionOk(fds[fd]))
      && (forall fd :: fd in fds && fds[fd].Directory? ==> GoesDown(fds[fd].path))
    }

    constructor (stdin: Contents, memory: u32)
      ensures Valid() && budget == remaining == memory && stdinLen == Len(stdin)
      ensures fds == map[0 := Opened(stdin, 0, true), 1 := Stdout, 2 := Stderr, 3 := Directory([])]
      ensures nextFree == 3 && freeDescriptors == [] && lost == {} && leaked == 0
    {
      fds := map[0 := Opened(stdin, 0, true), 1 := Stdout, 2 := Stderr, 3 := Directory([])];
      freeDescriptors, nextFree, remaining, consumed := [], 3, memory, 0;
      budget, stdinLen, lost, leaked := memory, Len(stdin), {}, 0;
      new;
      assert Held(fds, 1) == Len(stdin) && Held(fds, 2) == Held(fds, 3) == Held(fds, 4) == Held(fds, 1);
    }

    /** The number of descriptors cannot overflow 32 bits: each costs memory. */
    lemma DescriptorsFit()
      requires Valid()
      ensures 96 * (nextFree - 3) <= budget + stdinLen && nextFree <= U32_MAX
    {
    }

    method Consume(amount: nat) returns (ok: bool)
      requires Counted()
      modifies this`remaining, this`consumed
      ensures Counted() && ok == (amount <= old(remaining))
      ensures remaining == if ok then old(remaining) - amount else old(remaining)
    {
      if amount > remaining {
        return false;
      }
      SumWraps(budget - remaining, amount);
      remaining := remaining - amount;
      consumed := (consumed + amount) % TWO_32;
      ok := true;
    }

    /** Gives memory back; the code asserts that the budget does not overflow. */
    method Release(amount: nat) returns (ok: bool)
      requires Counted()
      modifies this`remaining, this`consumed
      ensures Counted() && ok == (old(remaining) + amount <= U32_MAX)
      ensures remaining == if ok then old(remaining) + amount else old(remaining)
    {
      if remaining + amount > U32_MAX {
        return false;
      }
      SumWraps(budget - remaining, -(amount as int));
      remaining := remaining + amount;
      consumed := (consumed - amount) % TWO_32;
      ok := true;
    }

    /**
     * `Drop` of the limiter: what its counter says is given back, with the same assertion. It fails exactly if the
     * budget is above where it started: if standard input was closed and less than its length is charged for anything
     * else.
     */
    method DropLimiter() returns (r: Result<nat, Error>)
      requires Valid()
      ensures r == if remaining > budget then Err(Overflow) else Ok(budget)
      ensures remaining > budget <==> 96 * (nextFree - 3) + Held(fds, nextFree + 1) + leaked < stdinLen
    {
      if remaining + consumed > U32_MAX {
        return Err(Overflow);
      }
      r := Ok(remaining + consumed);
    }

    /** A vacant descriptor: one that is not open. Until it is used or freed it counts as lost. */
    method AllocFd() returns (r: Result<nat, Error>)
      requires Valid()
      modifies this`freeDescriptors, this`nextFree, this`remaining, this`consumed, this`lost
      ensures Valid()
      ensures r.Err? <==> old(freeDescriptors) == [] && old(remaining) < 96
      ensures r.Err? ==>
                r.error == NoMemory && lost == old(lost) && nextFree == old(nextFree) && remaining == old(remaining)
                && freeDescriptors == old(freeDescriptors)
      ensures r.Ok? ==> r.value !in fds && r.value !in old(lost) && lost == old(lost) + {r.value}
      ensures r.Ok? ==> remaining == old(remaining) - 96 * (nextFree - old(nextFree))
      ensures r.Ok? ==> if old(freeDescriptors) != []
                        then nextFree == old(nextFree) && freeDescriptors + [r.value] == old(freeDescriptors)
                        else nextFree == old(nextFree) + 1 == r.value && freeDescriptors == []
    {
      if freeDescriptors != [] {
        var last := |freeDescriptors| - 1;
        var fd := freeDescriptors[last];
        assert freeDescriptors == freeDescriptors[..last] + [fd];
        freeDescriptors := freeDescriptors[..last];
        assert forall f :: f in old(freeDescriptors) <==> f in freeDescriptors || f == fd;
        lost := lost + {fd};
        return Ok(fd);
      }
      var ok := Consume(FD_ALLOCATION);
      if !ok {
        return Err(NoMemory);
      }
      assert nextFree + 1 !in fds;
      nextFree := nextFree + 1;
      lost := lost + {nextFree};
      r := Ok(nextFree);
    }

    /** `free_fd`, on a descriptor that is no longer open. */
    method FreeFd(fd: nat)
      requires Valid() && fd in lost
      modifies this`freeDescriptors, this`lost
      ensures Valid() && freeDescriptors == old(freeDescriptors) + [fd] && lost == old(lost) - {fd}
    {
      freeDescriptors := freeDescriptors + [fd];
      lost := lost - {fd};
    }

    /**
     * `pop_fd`: closes a descriptor, gives its memory back, and makes it free.
     * A release overflows only if standard input, which was never charged, is given back to a budget that is too full.
     */
    method PopFd(fd: nat) returns (r: Result<Option<Descriptor>, Error>)
      requires Valid()
      modifies this`fds, this`freeDescriptors, this`remaining, this`consumed, this`lost
      ensures Valid() && lost == old(lost)
      ensures fd !in old(fds) ==>
                r == Ok(None) && freeDescriptors == old(freeDescriptors) && remaining == old(remaining)
      ensures fds == if r.Ok? then old(fds) - {fd} else old(fds)
      ensures fd in old(fds) && r.Ok? ==>
                && r == Ok(Some(old(fds)[fd])) && freeDescriptors == old(freeDescriptors) + [fd]
                && remaining == old(remaining) + Size(old(fds)[fd])
      ensures r.Err? <==> fd in old(fds) && old(remaining) + Size(old(fds)[fd]) > U32_MAX
      ensures r.Err? ==> r.error == Overflow && budget + stdinLen > U32_MAX
                         && freeDescriptors == old(freeDescriptors) && remaining == old(remaining)
    {
      if fd !in fds {
        assert fds - {fd} == fds;
        return Ok(None);
      }
      var d := fds[fd];
      HeldRemove(fds, fd, nextFree + 1);
      var ok := Release(Size(d));
      if !ok {
        return Err(Overflow);
      }
      fds := fds - {fd};
      lost := lost + {fd};
      FreeFd(fd);
      r := Ok(Some(d));
    }

    /** Puts a descriptor, whose memory is charged, under a number that is given out but not open. */
    method Insert(fd: nat, d: Descriptor)
      requires Valid() && fd in lost && Size(d) <= leaked
      requires PositionOk(d) && (d.Directory? ==> GoesDown(d.path))
      modifies this`fds, this`lost, this`leaked
      ensures Valid() && fds == old(fds)[fd := d]
      ensures lost == old(lost) - {fd} && leaked == old(leaked) - Size(d)
    {
      HeldUpdate(fds, fd, d, nextFree + 1);
      fds := fds[fd := d];
      lost := lost - {fd};
      leaked := leaked - Size(d);
    }

    /**
     * `place_content`: opens contents of which the machine owns the memory.
     * When the memory suffices for the contents but not for a new descriptor, the contents stay charged until the
     * limiter is dropped.
     */
    method PlaceContent(contents: Contents, releaseMemory: bool) returns (r: Result<nat, Error>)
      requires Valid()
      modifies this
      ensures Valid() && lost == old(lost)
      ensures r.Ok? ==> r.value !in old(fds) && fds == old(fds)[r.value := Opened(contents, 0, releaseMemory)]
      ensures r.Ok? ==> leaked == old(leaked)
      ensures r.Err? ==> r.error == NoMemory && fds == old(fds) && nextFree == old(nextFree)
      ensures var charge := if releaseMemory then Len(contents) else 0;
              && (r.Err? <==> old(remaining) < charge + if old(freeDescriptors) == [] then 96 else 0)
              && (r.Err? ==> leaked - old(leaked) == old(remaining) - remaining
                             == if old(remaining) < charge then 0 else charge)
    {
      var charge := if releaseMemory then Len(contents) else 0;
      var ok := Consume(charge);
      if !ok {
        return Err(NoMemory);
      }
      leaked := leaked + charge;
      r := AllocFd();
      if r.Err? {
        return;
      }
      Insert(r.value, Opened(contents, 0, releaseMemory));
    }

    /**
     * `path_open`, on paths that do not go up. Every failure after the descriptor is given out loses it.
     * The path of an opened directory repeats the path of the directory it was opened from.
     */
    method PathOpen(root: Files.Trie, dirfd: nat, filePath: Files.Name) returns (r: Result<nat, Error>)
      requires Valid() && GoesDown(Files.Split(filePath))
      modifies this
      ensures Valid() && leaked == old(leaked)
      ensures r.Ok? ==> r.value !in old(fds) && lost == old(lost) && dirfd in old(fds) && old(fds)[dirfd].Directory?
      ensures r.Ok? ==>
                var from := old(fds)[dirfd].path;
                var found := Files.Follow(root, from + Files.Split(filePath));
                && found.Ok?
                && fds == old(fds)[r.value := match found.value
                                              case File(data) => Opened(data, 0, false)
                                              case Dir(_) => Directory(Recorded(from, Files.Split(filePath)))]
      ensures r.Err? ==> fds == old(fds)
      ensures r == Err(NoMemory) <==> old(freeDescriptors) == [] && old(remaining) < 96
      ensures r == Err(NoMemory) ==> lost == old(lost)
      ensures r.Err? && r != Err(NoMemory) ==>
                && (exists fd :: fd !in old(fds) && fd !in old(lost) && lost == old(lost) + {fd})
                && if dirfd !in old(fds) || !old(fds)[dirfd].Directory? then r.error == Errno(BadF)
                   else
                     var found := Files.Follow(root, old(fds)[dirfd].path + Files.Split(filePath));
                     found.Err? && r.error == Errno(ErrnoOf(found.error))
      ensures r.Err? && r != Err(NoMemory) && dirfd in old(fds) && old(fds)[dirfd].Directory? ==>
                var path := Files.Plain(old(fds)[dirfd].path + Files.Split(filePath));
                exists k: nat :: Files.EndsAt(root, path, k)
                                 && r.error == Errno(if Files.Node(root, path[..k]).value.Dir? then NoEnt else BadF)
    {
      var fd := AllocFd();
      if fd.Err? {
        return fd;
      }
      if dirfd !in fds || !fds[dirfd].Directory? {
        return Err(Errno(BadF));
      }
      var from, pieces := fds[dirfd].path, Files.Split(filePath);
      FollowBoth(root, from, pieces);
      Files.FollowFinds(root, from + pieces);
      var directory := Files.Follow(root, from);
      if directory.Err? {
        return Err(Errno(ErrnoOf(directory.error)));
      }
      var found := Files.Follow(directory.value, pieces);
      if found.Err? {
        return Err(Errno(ErrnoOf(found.error)));
      }
      PlainGoesDown(from);
      PlainGoesDown(pieces);
      match found.value {
        case File(data) => Insert(fd.value, Opened(data, 0, false));
        case Dir(_) => Insert(fd.value, Directory(Recorded(from, pieces)));
      }
      r := fd;
    }

    method FdClose(fd: nat) returns (r: Result<(), Error>)
      requires Valid()
      modifies this`fds, this`freeDescriptors, this`remaining, this`consumed, this`lost
      ensures Valid() && lost == old(lost)
      ensures r == Err(Errno(BadF)) <==> fd !in old(fds)
      ensures r.Ok? ==> fds == old(fds) - {fd} && freeDescriptors == old(freeDescriptors) + [fd]
                        && remaining == old(remaining) + Size(old(fds)[fd])
      ensures r.Err? ==> fds == old(fds) && freeDescriptors == old(freeDescriptors) && remaining == old(remaining)
      ensures r == Err(Overflow) <==> fd in old(fds) && old(remaining) + Size(old(fds)[fd]) > U32_MAX
      ensures r == Err(Overflow) ==> budget + stdinLen > U32_MAX
    {
      var popped := PopFd(fd);
      if popped.Err? {
        return Err(popped.error);
      }
      if popped.value.None? {
        assert fds == old(fds);
        return Err(Errno(BadF));
      }
      r := Ok(());
    }

    /** Moves the position of an open file. */
    method MoveTo(fd: nat, pos: nat)
      requires Valid() && fd in fds && fds[fd].Opened? && pos <= Len(fds[fd].contents)
      modifies this`fds
      ensures Valid() && fds == old(fds)[fd := old(fds)[fd].(pos := pos)]
    {
      HeldUpdate(fds, fd, fds[fd].(pos := pos), nextFree + 1);
      fds := fds[fd := fds[fd].(pos := pos)];
    }

    /** `fd_read` into buffers of the given lengths: the bytes from the position on, as many as fit and as there are. */
    method FdRead(fd: nat, lens: seq<u32>) returns (r: Result<Contents, Error>)
      requires Valid()
      modifies this`fds
      ensures Valid()
      ensures fd !in old(fds) ==> r == Err(Errno(BadF))
      ensures r.Err? || !old(fds)[fd].Opened? ==> fds == old(fds)
      ensures fd in old(fds) ==>
                match old(fds)[fd]
                case Stdin => r == Ok([])
                case Directory(_) => r == Err(Errno(IsDir))
                case Opened(contents, pos, _) =>
                  var n := Clamp(Sum(lens), Len(contents) - pos);
                  && r == Ok(contents[pos..pos + n])
                  && fds == old(fds)[fd := old(fds)[fd].(pos := pos + n)]
                case _ => r == Err(Errno(Acces))
    {
      if fd !in fds {
        return Err(Errno(BadF));
      }
      match fds[fd] {
        case Stdin => return Ok([]);
        case Stdout => return Err(Errno(Acces));
        case Stderr => return Err(Errno(Acces));
        case Directory(_) => return Err(Errno(IsDir));
        case Opened(contents, start, _) =>
          var pos, written := start, [];
          for i := 0 to |lens|
            invariant start <= pos <= Len(contents) && written == contents[start..pos]
            invariant pos - start == Clamp(Sum(lens[..i]), Len(contents) - start)
          {
            assert lens[..i + 1][..i] == lens[..i];
            var left := Len(contents) - pos;
            var len := if lens[i] < left then lens[i] else left;
            written := written + contents[pos..pos + len];
            pos := pos + len;
          }
          assert lens[..|lens|] == lens;
          MoveTo(fd, pos);
          r := Ok(written);
      }
    }

    /** `fd_seek`: the position moves by the offset, or to it, but stays within the file. */
    method FdSeek(fd: nat, offset: i64, whence: Whence) returns (r: Result<nat, Error>)
      requires Valid()
      modifies this`fds
      ensures Valid()
      ensures r.Err? ==> fds == old(fds)
      ensures fd !in old(fds) ==> r == Err(Errno(BadF))
      ensures fd in old(fds) ==>
                match old(fds)[fd]
                case Opened(contents, pos, _) =>
                  if whence == End then r == Err(Errno(NotSup))
                  else
                    var target := Clamp(if whence == Cur then pos + offset else offset, Len(contents));
                    r == Ok(target) && fds == old(fds)[fd := old(fds)[fd].(pos := target)]
                case Directory(_) => r == Err(Errno(NotSup))
                case _ => r == Err(Errno(SPipe))
    {
      if fd !in fds {
        return Err(Errno(BadF));
      }
      match fds[fd] {
        case Stdin => return Err(Errno(SPipe));
        case Stdout => return Err(Errno(SPipe));
        case Stderr => return Err(Errno(SPipe));
        case Directory(_) => return Err(Errno(NotSup));
        case Opened(contents, start, _) =>
          var pos := start;
          match whence {
            case End => return Err(Errno(NotSup));
            case Cur =>
              if offset < 0 {
                // `-offset as u64`, which wraps to this number even for the least `i64`
                var back: nat := -(offset as int);
                pos := if back > pos then 0 else pos - back;
              } else {
                var left := Len(contents) - pos;
                pos := if offset > left then Len(contents) else pos + offset;
              }
            case Set =>
              var to := if offset < 0 then 0 else offset;
              pos := if to > Len(contents) then Len(contents) else to;
          }
          MoveTo(fd, pos);
          r := Ok(pos);
      }
    }
  }

  /**
   * Closing standard input at once: the release overflows if the input does not fit beside the memory there is, and
   * otherwise dropping the limiter overflows, unless the input is empty.
   */
  method CloseStdinAndDrop(stdin: Contents, memory: u32) returns (closed: bool, r: Result<nat, Error>)
    ensures closed <==> memory + Len(stdin) <= U32_MAX
    ensures r == if !closed || Len(stdin) > 0 then Err(Overflow) else Ok(memory)
  {
    var vfs := new Vfs(stdin, memory);
    var popped := vfs.PopFd(0);
    closed := popped.Ok?;
    if closed {
      r := vfs.DropLimiter();
    } else {
      r := Err(popped.error);
    }
  }

  function ErrnoOf(e: Files.Errno): WasiErrno {
    match e
    case BadF => BadF
    case NoEnt => NoEnt
  }

  lemma {:induction false} FollowPlain(t: Files.Trie, p: Path)
    requires GoesDown(p)
    ensures GoesDown(Files.Plain(p)) && Files.Follow(t, Files.Plain(p)) == Files.Follow(t, p)
    decreases |p|
  {
    PlainGoesDown(p);
    if p != [] {
      if p[0] == Files.DOT || p[0] == [] {
        assert Files.Plain(p) == Files.Plain(p[1..]);
        FollowPlain(t, p[1..]);
      } else {
        assert Files.Plain(p)[0] == p[0] && Files.Plain(p)[1..] == Files.Plain(p[1..]);
        if Files.Child(t, p[0]).Some? {
          FollowPlain(t.children[p[0]], p[1..]);
        }
      }
    }
  }

  /** The path `path_open` records for a directory opened by `pieces` from a directory at `from`. */
  function Recorded(from: Path, pieces: Path): Path {
    from + Files.Plain(from) + Files.Plain(pieces)
  }

  /** Every directory opened by `pieces` from a directory at `from` is recorded under a path that leads to it. */
  ghost predicate RecordedRightly(from: Path, pieces: Path)
    requires GoesDown(from) && GoesDown(pieces) && GoesDown(Recorded(from, pieces))
  {
    forall root: Files.Trie :: OpensDirectory(root, from + pieces) ==>
                                 Files.Follow(root, Recorded(from, pieces)) == Files.Follow(root, from + pieces)
  }

  predicate OpensDirectory(root: Files.Trie, p: Path)
    requires GoesDown(p)
  {
    var found := Files.Follow(root, p);
    found.Ok? && found.value.Dir?
  }

  /** The tree of one directory in another, and nothing else. */
  function Chain(p: Path): Files.Trie {
    if p == [] then Files.EMPTY else Files.Dir(map[p[0] := Chain(p[1..])])
  }

  lemma {:induction false} ChainHasPrefixes(p: Path, q: Path)
    ensures Files.Node(Chain(p), q).Some? <==> q <= p
    ensures Files.Node(Chain(p), p) == Some(Files.EMPTY)
  {
    if p != [] {
      ChainHasPrefixes(p[1..], if q == [] then [] else q[1..]);
      assert p == [p[0]] + p[1..] && (q != [] ==> q == [q[0]] + q[1..]);
    }
  }

  lemma {:induction false} PlainTwice(p: Path)
    ensures Files.Plain(Files.Plain(p)) == Files.Plain(p)
  {
    if p != [] {
      var rest := Files.Plain(p[1..]);
      PlainTwice(p[1..]);
      if p[0] == Files.DOT || p[0] == [] {
        assert Files.Plain(p) == [] + rest == rest;
      } else {
        assert Files.Plain(p) == [p[0]] + rest && ([p[0]] + rest)[1..] == rest;
      }
    }
  }

  lemma RecordedGoesDown(from: Path, pieces: Path)
    requires GoesDown(from) && GoesDown(pieces)
    ensures GoesDown(Recorded(from, pieces))
  {
    PlainGoesDown(from);
    PlainGoesDown(pieces);
  }

  lemma PlainOfThree(p: Path, q: Path, r: Path)
    ensures Files.Plain(p + q + r) == Files.Plain(p) + (Files.Plain(q) + Files.Plain(r))
  {
    Files.PlainConcat(p + q, r);
    Files.PlainConcat(p, q);
    Regroup(Files.Plain(p), Files.Plain(q), Files.Plain(r));
  }

  lemma Regroup(p: Path, q: Path, r: Path)
    ensures p + q + r == p + (q + r)
  {
  }

  lemma PlainRecorded(from: Path, pieces: Path)
    ensures Files.Plain(Recorded(from, pieces)) == Files.Plain(from) + Files.Plain(from + pieces)
  {
    PlainOfThree(from, Files.Plain(from), Files.Plain(pieces));
    PlainTwice(from);
    PlainTwice(pieces);
    Files.PlainConcat(from, pieces);
  }

  /**
   * The recorded path repeats the way to the first directory, so it leads on only if that way is empty: from the root.
   */
  lemma RecordedRightlyIffFromRoot(from: Path, pieces: Path)
    requires GoesDown(from) && GoesDown(pieces)
    ensures GoesDown(Recorded(from, pieces))
    ensures RecordedRightly(from, pieces) <==> Files.Plain(from) == []
  {
    RecordedGoesDown(from, pieces);
    PlainRecorded(from, pieces);
    var way := Files.Plain(from + pieces);
    if Files.Plain(from) == [] {
      assert Files.Plain(from) + way == way;
      forall root: Files.Trie | OpensDirectory(root, from + pieces)
        ensures Files.Follow(root, Recorded(from, pieces)) == Files.Follow(root, from + pieces)
      {
        FollowPlain(root, Recorded(from, pieces));
        FollowPlain(root, from + pieces);
      }
    } else {
      var root := Chain(way);
      ChainHasPrefixes(way, Files.Plain(from) + way);
      Files.FollowFinds(root, from + pieces);
      Files.FollowFinds(root, Recorded(from, pieces));
      assert OpensDirectory(root, from + pieces);
    }
  }

  /** An instance: the directory "a/b", opened as "b" from "a", is recorded as "a/a/b". */
  lemma RecordedBelowRoot()
    ensures var a: Files.Name, b: Files.Name := [0x61], [0x62];
            var root := Files.Dir(map[a := Files.Dir(map[b := Files.EMPTY])]);
            && Files.Follow(root, [a] + [b]) == Ok(Files.EMPTY)
            && Recorded([a], [b]) == [a, a, b]
            && Files.Follow(root, Recorded([a], [b])) == Err(Files.NoEnt)
  {
    var a: Files.Name, b: Files.Name := [0x61], [0x62];
    var inner := Files.Dir(map[b := Files.EMPTY]);
    var root := Files.Dir(map[a := inner]);
    assert a[0] != b[0] && |a| == |b| == 1 && |Files.DOT_DOT| == 2 && a[0] != Files.DOT[0] && b[0] != Files.DOT[0];
    assert Files.Plain([b]) == [b] && Files.Plain([a]) == [a];
    assert Recorded([a], [b]) == [a, a, b];
    assert ([a] + [b])[1..] == [b] && |[b][1..]| == 0 && [a, a, b][1..] == [a, b];
    assert Files.Follow(inner, [b]) == Ok(Files.EMPTY);
    assert Files.Follow(inner, [a, b]) == Err(Files.NoEnt);
  }
}
