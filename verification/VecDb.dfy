/** The vector database: insertion into and removal from the node tree, and exact nearest-neighbour search. */
module VecDb {
  import opened Prelude
  import opened VecTree

  // ----- sorting candidates by distance

  type Candidate = (real, nat)

  ghost predicate ByDistance(s: seq<Candidate>) {
    forall i, j :: 0 <= i < j < |s| ==> s[i].0 <= s[j].0
  }

  function InsertByDistance(x: Candidate, s: seq<Candidate>): seq<Candidate> {
    if s == [] || x.0 < s[0].0 then [x] + s else [s[0]] + InsertByDistance(x, s[1..])
  }

  /** The stable sort: later candidates go behind equal ones. */
  function SortByDistance(s: seq<Candidate>): seq<Candidate> {
    if s == [] then [] else InsertByDistance(s[|s| - 1], SortByDistance(s[..|s| - 1]))
  }

  lemma {:induction false} InsertedIsPermutation(x: Candidate, s: seq<Candidate>)
    ensures multiset(InsertByDistance(x, s)) == multiset([x]) + multiset(s)
  {
    if s != [] && !(x.0 < s[0].0) {
      InsertedIsPermutation(x, s[1..]);
      assert s == [s[0]] + s[1..];
    }
  }

  lemma {:induction false} InsertedByDistance(x: Candidate, s: seq<Candidate>)
    requires ByDistance(s)
    ensures ByDistance(InsertByDistance(x, s))
    ensures forall y :: y in InsertByDistance(x, s) ==> y == x || y in s
  {
    if s != [] && !(x.0 < s[0].0) {
      InsertedByDistance(x, s[1..]);
      var r := InsertByDistance(x, s[1..]);
      assert forall j :: 0 < j < |s| ==> s[1..][j - 1] == s[j];
      forall j | 0 <= j < |r|
        ensures s[0].0 <= r[j].0
      {
        assert r[j] in r;
      }
    }
  }

  lemma {:induction false} SortedIsOrdered(s: seq<Candidate>)
    ensures ByDistance(SortByDistance(s))
  {
    if s != [] {
      SortedIsOrdered(s[..|s| - 1]);
      InsertedByDistance(s[|s| - 1], SortByDistance(s[..|s| - 1]));
    }
  }

  lemma {:induction false} SortedIsPermutation(s: seq<Candidate>)
    ensures multiset(SortByDistance(s)) == multiset(s)
  {
    if s != [] {
      var init, x := s[..|s| - 1], s[|s| - 1];
      SortedIsPermutation(init);
      InsertedIsPermutation(x, SortByDistance(init));
      assert s == init + [x];
    }
  }

  lemma SortedByDistance(s: seq<Candidate>)
    ensures ByDistance(SortByDistance(s)) && multiset(SortByDistance(s)) == multiset(s)
  {
    SortedIsOrdered(s);
    SortedIsPermutation(s);
  }

  /** The candidates at one distance, in their order. */
  function OfDistance(s: seq<Candidate>, d: real): seq<Candidate> {
    if s == [] then [] else (if s[0].0 == d then [s[0]] else []) + OfDistance(s[1..], d)
  }

  lemma {:induction false} NoneOfDistance(s: seq<Candidate>, d: real)
    requires forall i :: 0 <= i < |s| ==> d < s[i].0
    ensures OfDistance(s, d) == []
  {
    if s != [] {
      NoneOfDistance(s[1..], d);
    }
  }

  lemma {:induction false} OfDistanceConcat(s: seq<Candidate>, t: seq<Candidate>, d: real)
    ensures OfDistance(s + t, d) == OfDistance(s, d) + OfDistance(t, d)
  {
    if s == [] {
      assert s + t == t;
    } else {
      assert (s + t)[1..] == s[1..] + t;
      OfDistanceConcat(s[1..], t, d);
    }
  }

  lemma {:induction false} InsertedBehindEquals(x: Candidate, s: seq<Candidate>, d: real)
    requires ByDistance(s)
    ensures OfDistance(InsertByDistance(x, s), d) == OfDistance(s, d) + OfDistance([x], d)
  {
    if s == [] || x.0 < s[0].0 {
      OfDistanceConcat([x], s, d);
      if x.0 == d {
        NoneOfDistance(s, d);
      }
    } else {
      InsertedBehindEquals(x, s[1..], d);
      var r := InsertByDistance(x, s[1..]);
      assert ([s[0]] + r)[1..] == r;
    }
  }

  /** The sort is stable: candidates at the same distance keep their order. */
  lemma {:induction false} SortIsStable(s: seq<Candidate>, d: real)
    ensures OfDistance(SortByDistance(s), d) == OfDistance(s, d)
  {
    if s != [] {
      var init, x := s[..|s| - 1], s[|s| - 1];
      SortIsStable(init, d);
      SortedIsOrdered(init);
      InsertedBehindEquals(x, SortByDistance(init), d);
      OfDistanceConcat(init, [x], d);
      assert s == init + [x];
    }
  }

  ghost predicate DistinctIds(s: seq<Candidate>) {
    forall i, j :: 0 <= i < j < |s| ==> s[i].1 != s[j].1
  }

  lemma {:induction false} InsertedKeepsDistinct(x: Candidate, s: seq<Candidate>)
    requires DistinctIds(s) && forall y :: y in s ==> y.1 != x.1
    ensures DistinctIds(InsertByDistance(x, s))
    ensures forall y :: y in InsertByDistance(x, s) <==> y == x || y in s
  {
    if s != [] && !(x.0 < s[0].0) {
      assert forall j :: 0 < j < |s| ==> s[1..][j - 1] == s[j];
      InsertedKeepsDistinct(x, s[1..]);
      var r := InsertByDistance(x, s[1..]);
      assert s == [s[0]] + s[1..];
      forall j | 0 <= j < |r|
        ensures s[0].1 != r[j].1
      {
        assert r[j] in r;
      }
    }
  }

  lemma {:induction false} SortKeepsDistinct(s: seq<Candidate>)
    requires DistinctIds(s)
    ensures DistinctIds(SortByDistance(s)) && |SortByDistance(s)| == |s|
    ensures forall y :: y in SortByDistance(s) <==> y in s
  {
    if s != [] {
      var init, x := s[..|s| - 1], s[|s| - 1];
      SortKeepsDistinct(init);
      forall y | y in SortByDistance(init)
        ensures y.1 != x.1
      {
        assert y in init;
      }
      InsertedKeepsDistinct(x, SortByDistance(init));
      InsertedIsPermutation(x, SortByDistance(init));
      assert |multiset(SortByDistance(s))| == |multiset([x])| + |multiset(SortByDistance(init))|;
      assert s == init + [x];
    }
  }

  /** The candidates are the elements, each once, with its distance. */
  ghost predicate Lists(s: seq<Candidate>, elements: set<nat>, distance: nat -> real) {
    && DistinctIds(s)
    && (forall i :: 0 <= i < |s| ==> s[i].1 in elements && s[i].0 == distance(s[i].1))
    && (forall e :: e in elements ==> (distance(e), e) in s)
  }

  lemma {:induction false} ListedOnce(s: seq<Candidate>, elements: set<nat>, distance: nat -> real)
    requires Lists(s, elements, distance)
    ensures |s| == |elements|
  {
    if s == [] {
      assert elements == {};
    } else {
      var init, e := s[..|s| - 1], s[|s| - 1].1;
      forall d | d in elements - {e}
        ensures (distance(d), d) in init
      {
        var i :| 0 <= i < |s| && s[i] == (distance(d), d);
        assert init[i] == s[i];
      }
      ListedOnce(init, elements - {e}, distance);
    }
  }

  /**
   * `result` is, in order of distance, `k` of the elements than which no other is nearer, or all of them if there are
   * fewer.
   */
  ghost predicate Nearest(result: seq<Candidate>, k: int, elements: set<nat>, distance: nat -> real) {
    && |result| == (if k <= 0 then 0 else if k < |elements| then k else |elements|)
    && ByDistance(result) && DistinctIds(result)
    && (forall i :: 0 <= i < |result| ==> result[i].1 in elements && result[i].0 == distance(result[i].1))
    && (forall e, i :: e in elements && (distance(e), e) !in result && 0 <= i < |result| ==> result[i].0 <= distance(e))
  }

  /** Sorting all candidates and keeping the first `k` is exact. */
  lemma FirstOfSortedAreNearest(s: seq<Candidate>, k: nat, elements: set<nat>, distance: nat -> real)
    requires Lists(s, elements, distance)
    ensures var sorted := SortByDistance(s);
            Nearest(sorted[..if k < |sorted| then k else |sorted|], k, elements, distance)
  {
    SortedByDistance(s);
    SortKeepsDistinct(s);
    ListedOnce(s, elements, distance);
    var sorted := SortByDistance(s);
    var result := sorted[..if k < |sorted| then k else |sorted|];
    FirstAreSorted(sorted, |result|);
    forall i | 0 <= i < |result|
      ensures result[i].1 in elements && result[i].0 == distance(result[i].1)
    {
      assert sorted[i] in s;
    }
    forall e, i | e in elements && (distance(e), e) !in result && 0 <= i < |result|
      ensures result[i].0 <= distance(e)
    {
      assert (distance(e), e) in sorted;
      LeftOutIsFarther(sorted, |result|, i, (distance(e), e));
    }
  }

  lemma FirstAreSorted(sorted: seq<Candidate>, n: nat)
    requires n <= |sorted| && ByDistance(sorted) && DistinctIds(sorted)
    ensures ByDistance(sorted[..n]) && DistinctIds(sorted[..n])
  {
  }

  lemma LeftOutIsFarther(sorted: seq<Candidate>, n: nat, i: nat, c: Candidate)
    requires ByDistance(sorted) && i < n <= |sorted| && c in sorted && c !in sorted[..n]
    ensures sorted[..n][i].0 <= c.0
  {
    var j :| 0 <= j < |sorted| && sorted[j] == c;
    forall m | 0 <= m < n
      ensures sorted[m] in sorted[..n]
    {
      assert sorted[..n][m] == sorted[m];
    }
  }

  // ----- the database

  /** Every node is at level 0, right under the root. */
  ghost predicate FlatTree(t: Tree) {
    forall i: nat :: Live(t, i) ==> t.nodes[i].level == 0 && (i != t.root ==> t.nodes[i].parent == t.root)
  }

  lemma AttachedIsFlat(t: Tree, t': Tree, n: nat, e: nat)
    requires FlatTree(t) && Attaches(t, t', n, t.root, e) && t'.nodes[n].level == 0
    ensures FlatTree(t')
  {
    assert forall i: nat :: Live(t', i) && i != n ==> Live(t, i);
  }

  lemma SplicedIsFlat(t: Tree, t': Tree, elements: set<nat>, n: nat)
    requires SplicedOut(t, t', elements, n)
    ensures FlatTree(t) ==> FlatTree(t')
  {
    forall i: nat | FlatTree(t) && Live(t', i)
      ensures t'.nodes[i].level == 0 && (i != t'.root ==> t'.nodes[i].parent == t'.root)
    {
      assert Live(t, i);
    }
  }

  lemma PromotedIsFlat(t: Tree, t': Tree, elements: set<nat>, b: nat)
    requires PromotedOut(t, t', elements, b)
    ensures FlatTree(t) ==> FlatTree(t')
  {
    var n := t.root;
    assert NodeOk(t, n);
    RemovedFirst(t.nodes[n].children, b);
    forall i: nat | FlatTree(t) && Live(t', i)
      ensures t'.nodes[i].level == 0 && (i != t'.root ==> t'.nodes[i].parent == t'.root)
    {
      assert Live(t, i) && NodeOk(t, i);
      assert ParentOk(t, i);
    }
  }

  class VecDb<K(0), V(0)> {
    const distance: (K, K) -> real
    /** `int(log(d) / log(base))` for a positive distance. */
    const logLevel: real -> int

    var keys: seq<K>
    var values: seq<V>
    var freeIdx: set<nat>
    var nodes: seq<Node>
    var freeNodes: set<nat>
    var rootIdx: nat
    var maxLevel: nat
    ghost var rank: map<nat, int>
    ghost var nodeOf: map<nat, nat>

    ghost function Shape(): Tree
      reads this
    {
      Tree(nodes, freeNodes, rootIdx, rank, nodeOf)
    }

    /** The ids in use. */
    ghost function Elements(): set<nat>
      reads this`keys, this`freeIdx
    {
      set e: nat | e < |keys| && e !in freeIdx
    }

    ghost predicate Valid()
      reads this
    {
      && |values| == |keys| && (forall e :: e in freeIdx ==> e < |keys|)
      && ValidTree(Shape(), Elements())
    }

    /** Every node sits directly under the root, at level 0. */
    ghost predicate Flat()
      reads this
    {
      maxLevel == 0 && FlatTree(Shape())
    }

    constructor (distance: (K, K) -> real, logLevel: real -> int)
      ensures Valid() && Flat() && Elements() == {} && keys == []
      ensures this.distance == distance && this.logLevel == logLevel
    {
      this.distance, this.logLevel := distance, logLevel;
      keys, values, freeIdx, nodes, freeNodes := [], [], {}, [], {};
      rootIdx, maxLevel := NO_PARENT, 0;
      rank, nodeOf := map[], map[];
    }

    // ----- inserting

    /** A slot for a new node: any freed one, or a new one at the end. */
    method AllocateNode(element: nat, level: nat) returns (n: nat)
      requires forall i :: i in freeNodes ==> i < |nodes|
      modifies this`nodes, this`freeNodes
      ensures if n in old(freeNodes) then |nodes| == old(|nodes|) else n == old(|nodes|) && |nodes| == n + 1
      ensures n < |nodes| && freeNodes == old(freeNodes) - {n}
      ensures nodes[n].element == element && nodes[n].level == level && nodes[n].children == []
      ensures forall i :: 0 <= i < old(|nodes|) && i != n ==> nodes[i] == old(nodes[i])
    {
      if |freeNodes| > 0 {
        n :| n in freeNodes;
        freeNodes := freeNodes - {n};
        nodes := nodes[n := Node(element, level, [], 0)];
      } else {
        nodes := nodes + [Node(element, level, [], 0)];
        n := |nodes| - 1;
      }
    }

    /** The nodes of one level that are reached through higher levels only: all of them, and no other. */
    method FindNodesAtLevel(targetLevel: nat, ghost t: Tree, ghost elements: set<nat>) returns (found: seq<nat>)
      requires ValidTree(t, elements) && rootIdx == t.root
      requires forall i: nat :: Live(t, i) ==> i < |nodes| && nodes[i] == t.nodes[i]
      ensures forall i: nat :: i in found <==> IsExposed(t, targetLevel, i)
      ensures forall i :: i in found ==> Live(t, i)
    {
      found := [];
      if rootIdx == NO_PARENT {
        forall i: nat ensures !IsExposed(t, targetLevel, i) {
          NoneExposed(t, elements, targetLevel, i);
        }
        return;
      }
      var stack: seq<nat> := [rootIdx];
      ghost var visited: set<nat> := {};
      RootIsReached(t, targetLevel);
      while |stack| > 0
        invariant Traversing(t, visited, stack)
        invariant Followed(t, targetLevel, visited, stack) && AllReached(t, targetLevel, stack)
        invariant Found(t, targetLevel, visited, found)
        decreases Unvisited(t, visited)
      {
        var n: nat := stack[|stack| - 1];
        ghost var waiting := stack;
        assert n in waiting;
        stack := stack[..|stack| - 1];
        assert waiting == stack + [n];
        var node := nodes[n];
        TraversalStep(t, elements, visited, stack, n, Pushed(t, targetLevel, n));
        FollowedStep(t, targetLevel, visited, stack, n);
        ReachedStep(t, targetLevel, stack, n);
        FoundStep(t, targetLevel, visited, found, n);
        assert stack + [] == stack;
        if node.level == targetLevel {
          found := found + [n];
        } else if node.level > targetLevel {
          stack := stack + node.children;
        }
        assert n in Unvisited(t, visited);
        visited := visited + {n};
      }
      forall i: nat ensures i in found <==> IsExposed(t, targetLevel, i) {
        SearchFindsAll(t, targetLevel, visited, found, i);
      }
    }

    /** `t` is the tree as it was before the slot `n` was taken for `element`. */
    ghost predicate Allocated(t: Tree, n: nat, element: nat)
      reads this
    {
      && (if n in t.free then |nodes| == |t.nodes| else n == |t.nodes| && |nodes| == n + 1 <= NO_PARENT)
      && n < |nodes| && freeNodes == t.free - {n} && rootIdx == t.root && rank == t.rank && nodeOf == t.nodeOf
      && nodes[n].element == element && nodes[n].children == []
      && forall i :: 0 <= i < |t.nodes| && i != n ==> nodes[i] == t.nodes[i]
    }

    /** Makes the new node the root, one level above its own. */
    method PlantOverRoot(n: nat, level: nat, ghost t: Tree, ghost elements: set<nat>, ghost element: nat)
      requires ValidTree(t, elements) && t.root != NO_PARENT && element !in elements && Allocated(t, n, element)
      modifies this`nodes, this`rootIdx, this`maxLevel, this`rank, this`nodeOf
      ensures ValidTree(Shape(), elements + {element}) && rootIdx == n && maxLevel == level + 1 == nodes[n].level
    {
      var oldRoot := rootIdx;
      assert NodeOk(t, oldRoot);
      nodes := nodes[n := nodes[n].(level := level + 1, parent := NO_PARENT)];
      rootIdx := n;
      nodes := nodes[n := nodes[n].(children := nodes[n].children + [oldRoot])];
      nodes := nodes[oldRoot := nodes[oldRoot].(parent := n)];
      maxLevel := level + 1;
      rank := rank[n := rank[oldRoot] - 1];
      nodeOf := nodeOf[element := n];
      RerootedIsValid(t, Shape(), elements, n, element);
    }

    /**
     * No node of the level that higher levels lead to is nearer to the element, or there is none and `p` is the root.
     */
    ghost predicate IsBestParent(t: Tree, level: nat, p: nat, element: nat)
      reads this`keys
    {
      && Live(t, p) && (IsExposed(t, level, p) || p == t.root)
      && forall c: nat :: IsExposed(t, level, c) ==>
           IsExposed(t, level, p)
           && DistanceBetween(t.nodes[p].element, element) <= DistanceBetween(t.nodes[c].element, element)
    }

    /** The candidate parent whose element is nearest to that of `n`. */
    method NearestCandidate(candidates: seq<nat>, n: nat) returns (p: nat)
      requires candidates != [] && n < |nodes| && forall k :: 0 <= k < |candidates| ==> candidates[k] < |nodes|
      ensures p in candidates && p < |nodes|
      ensures forall k :: 0 <= k < |candidates| ==>
                DistanceBetween(nodes[p].element, nodes[n].element)
                <= DistanceBetween(nodes[candidates[k]].element, nodes[n].element)
      ensures exists k :: 0 <= k < |candidates| && candidates[k] == p
                          && forall j :: 0 <= j < k ==>
                               DistanceBetween(nodes[p].element, nodes[n].element)
                               < DistanceBetween(nodes[candidates[j]].element, nodes[n].element)
    {
      var best: Option<(real, nat)> := None;
      ghost var at := 0;
      for k := 0 to |candidates|
        invariant best.Some? ==> 0 <= at < k && candidates[at] == best.value.1
        invariant forall j :: best.Some? && 0 <= j < at ==>
                    best.value.0 < DistanceBetween(nodes[candidates[j]].element, nodes[n].element)
        invariant best.None? <==> k == 0
        invariant best.Some? ==> best.value.1 in candidates && best.value.1 < |nodes|
                                 && best.value.0 == DistanceBetween(nodes[best.value.1].element, nodes[n].element)
        invariant forall j :: 0 <= j < k ==>
                    best.value.0 <= DistanceBetween(nodes[candidates[j]].element, nodes[n].element)
      {
        var dist := DistanceBetween(nodes[candidates[k]].element, nodes[n].element);
        if best.None? || dist < best.value.0 {
          best := Some((dist, candidates[k]));
          at := k;
        }
      }
      p := best.value.1;
    }

    method AttachUnder(n: nat, p: nat, ghost t: Tree, ghost elements: set<nat>, ghost element: nat)
      requires ValidTree(t, elements) && element !in elements && Allocated(t, n, element) && Live(t, p)
      modifies this`nodes, this`rank, this`nodeOf
      ensures ValidTree(Shape(), elements + {element})
      ensures Attaches(t, Shape(), n, p, element) && nodes[n].level == old(nodes[n].level)
    {
      assert NodeOk(t, p);
      var linked := nodes[n := nodes[n].(parent := p)];
      linked := linked[p := linked[p].(children := linked[p].children + [n])];
      nodes, rank, nodeOf := linked, rank[n := rank[p] + 1], nodeOf[element := n];
      AttachedIsValid(t, Shape(), elements, n, p, element);
    }

    /** Links a new node under the nearest node one level up, or under the root if none is found there. */
    method AttachToNearest(n: nat, level: nat, ghost t: Tree, ghost elements: set<nat>, ghost element: nat)
      requires ValidTree(t, elements) && t.root != NO_PARENT && element !in elements && Allocated(t, n, element)
      modifies this`nodes, this`rank, this`nodeOf
      ensures ValidTree(Shape(), elements + {element})
      ensures exists p :: IsBestParent(t, level + 1, p, element) && Attaches(t, Shape(), n, p, element)
      ensures nodes[n].level == old(nodes[n].level)
    {
      forall i: nat | Live(t, i)
        ensures i < |nodes| && nodes[i] == t.nodes[i]
      {
      }
      var candidates := FindNodesAtLevel(level + 1, t, elements);
      if |candidates| == 0 && rootIdx != NO_PARENT {
        candidates := candidates + [rootIdx];
      }
      assert forall k :: 0 <= k < |candidates| ==> Live(t, candidates[k]);
      var p := NearestCandidate(candidates, n);
      assert IsBestParent(t, level + 1, p, element);
      AttachUnder(n, p, t, elements, element);
    }

    /**
     * Links a new node: over the root if its level is above all, else under the nearest node one level up, or the root.
     */
    method InsertNodeAtLevel(n: nat, level: nat, ghost t: Tree, ghost elements: set<nat>, ghost element: nat)
      requires ValidTree(t, elements) && t.root != NO_PARENT && element !in elements && Allocated(t, n, element)
      modifies this`nodes, this`rootIdx, this`maxLevel, this`rank, this`nodeOf
      ensures ValidTree(Shape(), elements + {element}) && rootIdx != NO_PARENT
      ensures level > old(maxLevel) ==> rootIdx == n && maxLevel == level + 1 == nodes[n].level
      ensures level <= old(maxLevel) ==>
                && maxLevel == old(maxLevel)
                && exists p :: IsBestParent(t, level + 1, p, element) && Attaches(t, Shape(), n, p, element)
      // a flat tree stays flat
      ensures level == old(maxLevel) == old(nodes[n].level) == 0 && FlatTree(t) ==> Flat()
    {
      if level > maxLevel {
        PlantOverRoot(n, level, t, elements, element);
      } else {
        AttachToNearest(n, level, t, elements, element);
        if FlatTree(t) && level == maxLevel == nodes[n].level == 0 {
          ghost var p :| IsBestParent(t, level + 1, p, element) && Attaches(t, Shape(), n, p, element);
          assert p == t.root;
          AttachedIsFlat(t, Shape(), n, element);
        }
      }
    }

    function DistanceBetween(a: nat, b: nat): (d: real)
      reads this`keys
      ensures a < |keys| && b < |keys| ==> d == distance(keys[a], keys[b])
    {
      if a < |keys| && b < |keys| then distance(keys[a], keys[b]) else 0.0
    }

    ghost predicate IsNearestDistance(newIdx: nat, d: real)
      reads this`keys, this`freeIdx
    {
      && (exists e :: e in Elements() && e != newIdx && d == DistanceBetween(newIdx, e))
      && (forall e :: e in Elements() && e != newIdx ==> d <= DistanceBetween(newIdx, e))
    }

    /** The distance to the nearest other element. */
    method NearestDistance(newIdx: nat) returns (nearest: real)
      requires newIdx in Elements() && Elements() != {newIdx}
      ensures IsNearestDistance(newIdx, nearest)
    {
      var best: Option<real> := None;
      for i := 0 to |keys|
        invariant forall j: nat :: j < i && j !in freeIdx && j != newIdx ==>
                    best.Some? && best.value <= DistanceBetween(newIdx, j)
        invariant best.Some? ==>
                    exists e :: e in Elements() && e != newIdx && best.value == DistanceBetween(newIdx, e)
      {
        if i in freeIdx || i == newIdx {
          continue;
        }
        var dist := DistanceBetween(newIdx, i);
        if best.None? || dist < best.value {
          best := Some(dist);
        }
      }
      assert best.Some? by {
        assert Elements() == (Elements() - {newIdx}) + {newIdx};
        var e :| e in Elements() - {newIdx};
      }
      nearest := best.value;
    }

    /**
     * The level of a new node: 0 beside an equal key, else the logarithm of the nearest distance, kept within the
     * levels.
     */
    method LevelFor(newIdx: nat) returns (level: nat)
      requires newIdx in Elements() && Elements() != {newIdx}
      ensures level <= maxLevel
      ensures exists d :: IsNearestDistance(newIdx, d)
                          && (d == 0.0 || logLevel(d) <= 0 ==> level == 0)
                          && (d != 0.0 && 0 <= logLevel(d) <= maxLevel ==> level == logLevel(d))
                          && (d != 0.0 && logLevel(d) > maxLevel ==> level == maxLevel)
    {
      var nearest := NearestDistance(newIdx);
      var l: int := 0;
      if nearest != 0.0 {
        l := if maxLevel < logLevel(nearest) then maxLevel else logLevel(nearest);
      }
      level := if l < 0 then 0 else l;
    }

    /** The first element of an empty tree. */
    method PlantFirst(newIdx: nat)
      requires newIdx in Elements() && ValidTree(Shape(), Elements() - {newIdx}) && |nodes| < NO_PARENT
               && rootIdx == NO_PARENT
      modifies this`nodes, this`freeNodes, this`rootIdx, this`maxLevel, this`rank, this`nodeOf
      ensures ValidTree(Shape(), Elements()) && Flat()
    {
      ghost var t := Shape();
      RootIffElements(t, Elements() - {newIdx});
      assert Elements() == {newIdx};
      rootIdx := AllocateNode(newIdx, 0);
      nodes := nodes[rootIdx := nodes[rootIdx].(parent := NO_PARENT)];
      maxLevel := 0;
      rank, nodeOf := map[rootIdx := 0], map[newIdx := rootIdx];
      FirstIsValid(t, Shape(), rootIdx, newIdx);
      assert forall i: nat :: Live(Shape(), i) ==> i == rootIdx || Live(t, i);
    }

    /** A node for the element joins a tree that is not empty. */
    method AddNode(newIdx: nat, level: nat, ghost elements: set<nat>)
      requires ValidTree(Shape(), elements) && newIdx !in elements && |nodes| < NO_PARENT && rootIdx != NO_PARENT
      modifies this`nodes, this`freeNodes, this`rootIdx, this`maxLevel, this`rank, this`nodeOf
      ensures ValidTree(Shape(), elements + {newIdx})
      ensures level == old(maxLevel) == 0 && old(FlatTree(Shape())) ==> Flat()
    {
      ghost var t := Shape();
      var n := AllocateNode(newIdx, level);
      assert Allocated(t, n, newIdx);
      InsertNodeAtLevel(n, level, t, elements, newIdx);
    }

    /** Puts the element `newIdx`, already stored, into the tree. */
    method InsertIntoTree(newIdx: nat)
      requires newIdx in Elements() && ValidTree(Shape(), Elements() - {newIdx}) && |nodes| < NO_PARENT
      modifies this`nodes, this`freeNodes, this`rootIdx, this`maxLevel, this`rank, this`nodeOf
      ensures ValidTree(Shape(), Elements())
      ensures old(Flat()) ==> Flat()
    {
      ghost var elements, all := Elements() - {newIdx}, Elements();
      assert elements + {newIdx} == all;
      RootIffElements(Shape(), elements);
      if rootIdx == NO_PARENT {
        PlantFirst(newIdx);
      } else {
        var level := LevelFor(newIdx);
        AddNode(newIdx, level, elements);
        assert Elements() == all;
      }
    }

    /** Stores the pair under a freed or new id. */
    method Insert(key: K, val: V) returns (id: nat)
      requires Valid() && |nodes| < NO_PARENT
      modifies this
      ensures Valid() && (old(Flat()) ==> Flat())
      ensures id !in old(Elements()) && Elements() == old(Elements()) + {id}
      ensures keys[id] == key && values[id] == val
      ensures forall e :: e in old(Elements()) ==> keys[e] == old(keys)[e] && values[e] == old(values)[e]
    {
      ghost var elements := Elements();
      if |freeIdx| > 0 {
        id :| id in freeIdx;
        freeIdx := freeIdx - {id};
        keys := keys[id := key];
        values := values[id := val];
      } else {
        keys := keys + [key];
        values := values + [val];
        id := |keys| - 1;
      }
      assert Elements() - {id} == elements;
      InsertIntoTree(id);
    }

    // ----- removing

    /** The node of an element, or `NO_PARENT` if the element is not in the tree. */
    method FindNodeById(element: nat) returns (n: nat)
      requires ValidTree(Shape(), Elements())
      ensures n == NO_PARENT <==> element !in Elements()
      ensures n != NO_PARENT ==> Live(Shape(), n) && nodes[n].element == element
    {
      ghost var t, elements := Shape(), Elements();
      RootIffElements(t, elements);
      if rootIdx == NO_PARENT {
        return NO_PARENT;
      }
      var stack := [rootIdx];
      ghost var visited: set<nat> := {};
      while |stack| > 0
        invariant Traversing(t, visited, stack) && NoneSkipped(t, visited, stack)
        invariant forall i :: i in visited ==> t.nodes[i].element != element
        decreases Unvisited(t, visited)
      {
        n := stack[|stack| - 1];
        assert n in stack;
        ghost var waiting := stack;
        stack := stack[..|stack| - 1];
        assert waiting == stack + [n];
        if n !in freeNodes {
          var node := nodes[n];
          if node.element == element {
            assert NodeOk(t, n);
            return n;
          }
          TraversalStep(t, elements, visited, stack, n, node.children);
          NoneSkippedStep(t, visited, stack, n);
          stack := stack + node.children;
        }
        assert n in Unvisited(t, visited);
        visited := visited + {n};
      }
      TraversalVisitsAll(t, elements, visited);
      assert element in elements ==> ElementOk(t, element);
      n := NO_PARENT;
    }

    /** Gives the nodes `moved` the parent `q`, appending them to its children. */
    method Reattach(moved: seq<nat>, q: nat)
      requires q < |nodes| && q !in moved
      requires forall k :: 0 <= k < |moved| ==> moved[k] < |nodes|
      modifies this`nodes
      ensures |nodes| == old(|nodes|)
      ensures nodes[q] == old(nodes[q]).(children := old(nodes[q].children) + moved)
      ensures forall i: nat :: i < |nodes| && i in moved ==> nodes[i] == old(nodes[i]).(parent := q)
      ensures forall i: nat :: i < |nodes| && i !in moved && i != q ==> nodes[i] == old(nodes[i])
    {
      for k := 0 to |moved|
        invariant |nodes| == old(|nodes|)
        invariant nodes[q] == old(nodes[q]).(children := old(nodes[q].children) + moved[..k])
        invariant forall i: nat :: i < |nodes| && i in moved[..k] ==> nodes[i] == old(nodes[i]).(parent := q)
        invariant forall i: nat :: i < |nodes| && i !in moved[..k] && i != q ==> nodes[i] == old(nodes[i])
      {
        assert moved[..k + 1] == moved[..k] + [moved[k]];
        nodes := nodes[moved[k] := nodes[moved[k]].(parent := q)];
        nodes := nodes[q := nodes[q].(children := nodes[q].children + [moved[k]])];
      }
      assert moved[..|moved|] == moved;
    }

    /** Takes a node below the root out of the tree; its children go to its parent. */
    method SpliceOut(n: nat)
      requires ValidTree(Shape(), Elements()) && Live(Shape(), n) && n != rootIdx
      modifies this`nodes, this`freeNodes, this`rank, this`nodeOf
      ensures ValidTree(Shape(), Elements() - {old(nodes[n].element)})
      ensures old(FlatTree(Shape())) ==> FlatTree(Shape())
    {
      ghost var t := Shape();
      var p, children := nodes[n].parent, nodes[n].children;
      ParentOf(t, Elements(), n);
      nodes := nodes[p := nodes[p].(children := RemoveFirst(nodes[p].children, n))];
      Reattach(children, p);
      freeNodes := freeNodes + {n};
      nodeOf := nodeOf - {t.nodes[n].element};
      SplicedIsValid(t, Shape(), Elements(), n);
      SplicedIsFlat(t, Shape(), Elements(), n);
    }

    /** The first child with the highest level. */
    method HighestChild(children: seq<nat>) returns (b: nat)
      requires children != [] && forall k :: 0 <= k < |children| ==> children[k] < |nodes|
      ensures b in children && b < |nodes|
      ensures forall k :: 0 <= k < |children| ==> nodes[children[k]].level <= nodes[b].level
      ensures exists k :: 0 <= k < |children| && children[k] == b
                          && forall j :: 0 <= j < k ==> nodes[children[j]].level < nodes[b].level
    {
      b := children[0];
      ghost var at := 0;
      for k := 1 to |children|
        invariant 0 <= at < k && children[at] == b
        invariant forall j :: 0 <= j < at ==> nodes[children[j]].level < nodes[b].level
        invariant b in children && b < |nodes|
        invariant forall j :: 0 <= j < k ==> nodes[children[j]].level <= nodes[b].level
      {
        if nodes[children[k]].level > nodes[b].level {
          b := children[k];
          at := k;
        }
      }
    }

    /** Takes out a root that has children: one of them becomes the root and takes the others. */
    method PromoteChild()
      requires ValidTree(Shape(), Elements()) && rootIdx != NO_PARENT && nodes[rootIdx].children != []
      modifies this`nodes, this`freeNodes, this`rootIdx, this`rank, this`nodeOf
      ensures ValidTree(Shape(), Elements() - {old(nodes[rootIdx].element)}) && rootIdx != NO_PARENT
      ensures old(FlatTree(Shape())) ==> FlatTree(Shape())
    {
      ghost var t := Shape();
      var n, children := rootIdx, nodes[rootIdx].children;
      ParentOf(t, Elements(), n);
      var b := HighestChild(children);
      assert NodeOk(t, n);
      RemovedFirst(children, b);
      ghost var others := RemoveFirst(children, b);
      assert forall k :: 0 <= k < |others| ==> others[k] in children;
      rootIdx := b;
      nodes := nodes[b := nodes[b].(parent := NO_PARENT)];
      Reattach(RemoveFirst(children, b), b);
      freeNodes := freeNodes + {n};
      rank := rank[b := rank[n]];
      nodeOf := nodeOf - {t.nodes[n].element};
      PromotedIsValid(t, Shape(), Elements(), b);
      PromotedIsFlat(t, Shape(), Elements(), b);
    }

    method RemoveFromTree(element: nat)
      requires ValidTree(Shape(), Elements())
      modifies this`nodes, this`freeNodes, this`rootIdx, this`maxLevel, this`rank, this`nodeOf
      ensures ValidTree(Shape(), Elements() - {element})
      ensures old(Flat()) ==> Flat()
    {
      var n := FindNodeById(element);
      if n == NO_PARENT {
        assert Elements() - {element} == Elements();
        return;
      }
      ghost var t := Shape();
      ParentOf(t, Elements(), n);
      if nodes[n].parent != NO_PARENT {
        SpliceOut(n);
      } else {
        if nodes[n].children != [] {
          PromoteChild();
        } else {
          EmptiedIsValid(t, t.(root := NO_PARENT, free := freeNodes + {n}), Elements());
          rootIdx, maxLevel := NO_PARENT, 0;
          freeNodes := freeNodes + {n};
          assert Elements() - {element} == {};
        }
      }
    }

    /** Removes an id. Its slot is reused; a second removal changes nothing. */
    method Remove(id: nat)
      requires Valid()
      modifies this
      ensures keys == old(keys) && values == old(values)
      ensures Elements() == old(Elements()) - {id}
      ensures old(Flat()) ==> Flat()
      // an id that was never handed out is not refused, and leaves the database unusable
      ensures Valid() <==> id < |keys|
    {
      ghost var elements := Elements();
      RemoveFromTree(id);
      freeIdx := freeIdx + {id};
      assert Elements() == elements - {id};
    }

    // ----- searching

    ghost function DistanceFrom(v: K): nat -> real
      reads this`keys
    {
      var keys, distance := keys, distance;
      (e: nat) => if e < |keys| then distance(keys[e], v) else 0.0
    }

    /** Visits every node, and lists its element with its distance. */
    method ListCandidates(v: K, ghost d: nat -> real) returns (candidates: seq<Candidate>)
      requires Valid() && rootIdx != NO_PARENT
      requires forall e: nat :: e < |keys| ==> d(e) == distance(keys[e], v)
      ensures Lists(candidates, Elements(), d)
    {
      ghost var t, elements := Shape(), Elements();
      RootIffElements(t, elements);
      candidates := [];
      var stack := [rootIdx];
      ghost var visited: set<nat> := {};
      while |stack| > 0
        invariant Traversing(t, visited, stack) && NoneSkipped(t, visited, stack)
                  && Collected(t, candidates, visited, d)
        decreases Unvisited(t, visited)
      {
        var n := stack[|stack| - 1];
        ghost var waiting := stack;
        stack := stack[..|stack| - 1];
        assert waiting == stack + [n];
        VisitStep(t, elements, candidates, visited, stack, d, n);
        if n !in freeNodes {
          var node := nodes[n];
          if node.element !in freeIdx {
            candidates := candidates + [(distance(keys[node.element], v), node.element)];
          }
          stack := stack + node.children;
        }
        visited := visited + {n};
      }
      TraversalVisitsAll(t, elements, visited);
      CollectedAll(t, elements, candidates, visited, d);
    }

    /** The elements nearest to `v`, by visiting every node. */
    method Knn(v: K, k: int) returns (result: seq<Candidate>)
      requires Valid()
      ensures Nearest(result, k, Elements(), DistanceFrom(v))
    {
      RootIffElements(Shape(), Elements());
      if rootIdx == NO_PARENT || k <= 0 {
        return [];
      }
      var candidates := ListCandidates(v, DistanceFrom(v));
      var sorted := SortByDistance(candidates);
      FirstOfSortedAreNearest(candidates, k, Elements(), DistanceFrom(v));
      result := sorted[..if k < |sorted| then k else |sorted|];
    }
  }

  /** Visiting the top of the stack keeps everything the traversal needs, and comes closer to its end. */
  lemma VisitStep(t: Tree, elements: set<nat>, candidates: seq<Candidate>, visited: set<nat>, stack: seq<nat>,
                  distance: nat -> real, n: nat)
    requires ValidTree(t, elements) && Collected(t, candidates, visited, distance)
    requires Traversing(t, visited, stack + [n]) && NoneSkipped(t, visited, stack + [n])
    ensures Live(t, n) && t.nodes[n].element in elements && n in Unvisited(t, visited)
    ensures var e := t.nodes[n].element; Collected(t, candidates + [(distance(e), e)], visited + {n}, distance)
    ensures Traversing(t, visited + {n}, stack + t.nodes[n].children)
            && NoneSkipped(t, visited + {n}, stack + t.nodes[n].children)
  {
    assert n in stack + [n];
    assert NodeOk(t, n);
    CollectedMore(t, elements, candidates, visited, distance, n);
    TraversalStep(t, elements, visited, stack, n, t.nodes[n].children);
    NoneSkippedStep(t, visited, stack, n);
  }

  /** The candidates are the elements of the visited nodes. */
  ghost predicate Collected(t: Tree, candidates: seq<Candidate>, visited: set<nat>, distance: nat -> real) {
    && DistinctIds(candidates)
    && (forall i :: 0 <= i < |candidates| ==>
         IsElementOf(t, candidates[i].1, visited) && candidates[i].0 == distance(candidates[i].1))
    && (forall x :: x in visited ==> x < |t.nodes| && (distance(t.nodes[x].element), t.nodes[x].element) in candidates)
  }

  ghost predicate IsElementOf(t: Tree, e: nat, visited: set<nat>) {
    e in t.nodeOf && t.nodeOf[e] in visited && t.nodeOf[e] < |t.nodes| && t.nodes[t.nodeOf[e]].element == e
  }

  lemma CollectedMore(t: Tree, elements: set<nat>, candidates: seq<Candidate>, visited: set<nat>, distance: nat -> real,
                      n: nat)
    requires ValidTree(t, elements) && Collected(t, candidates, visited, distance)
    requires Live(t, n) && n !in visited
    ensures var e := t.nodes[n].element; Collected(t, candidates + [(distance(e), e)], visited + {n}, distance)
  {
    assert NodeOk(t, n);
    var e := t.nodes[n].element;
    forall i | 0 <= i < |candidates|
      ensures candidates[i].1 != e && IsElementOf(t, candidates[i].1, visited + {n})
    {
      assert IsElementOf(t, candidates[i].1, visited);
    }
  }

  lemma CollectedAll(t: Tree, elements: set<nat>, candidates: seq<Candidate>, visited: set<nat>, distance: nat -> real)
    requires ValidTree(t, elements) && Collected(t, candidates, visited, distance)
    requires forall i: nat :: Live(t, i) <==> i in visited
    ensures Lists(candidates, elements, distance)
  {
    forall e | e in elements
      ensures (distance(e), e) in candidates
    {
      assert ElementOk(t, e);
    }
    forall i | 0 <= i < |candidates|
      ensures candidates[i].1 in elements
    {
      assert IsElementOf(t, candidates[i].1, visited);
      assert Live(t, t.nodeOf[candidates[i].1]) && NodeOk(t, t.nodeOf[candidates[i].1]);
    }
  }
}
