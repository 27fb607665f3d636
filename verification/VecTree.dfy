/** The node table behind the vector database: parent and child links over indices, with freed slots. */
module VecTree {
  import opened Prelude

  const NO_PARENT: nat := 0xFFFF_FFFF

  datatype Node = Node(element: nat, level: nat, children: seq<nat>, parent: nat)

  /**
   * The node table as it stands, with two witnesses: a rank that grows from parent to child,
   * and the node of each element.
   */
  datatype Tree = Tree(nodes: seq<Node>, free: set<nat>, root: nat, rank: map<nat, int>, nodeOf: map<nat, nat>)

  predicate Live(t: Tree, i: nat) {
    i < |t.nodes| && i !in t.free
  }

  /** The children of `i` are live, name `i` as their parent, and occur once. */
  ghost predicate ChildrenOk(t: Tree, i: nat)
    requires i < |t.nodes|
  {
    var ch := t.nodes[i].children;
    && (forall k :: 0 <= k < |ch| ==> ChildOk(t, i, ch[k]))
    && (forall k, l :: 0 <= k < l < |ch| ==> ch[k] != ch[l])
  }

  ghost predicate ChildOk(t: Tree, i: nat, c: nat) {
    Live(t, c) && t.nodes[c].parent == i && c in t.rank && i in t.rank && t.rank[i] < t.rank[c]
  }

  ghost predicate ParentOk(t: Tree, i: nat)
    requires i < |t.nodes|
  {
    var p := t.nodes[i].parent;
    Live(t, p) && i in t.nodes[p].children
  }

  ghost predicate NodeOk(t: Tree, i: nat) {
    && i < |t.nodes| && i in t.rank
    && t.nodes[i].element in t.nodeOf && t.nodeOf[t.nodes[i].element] == i
    && ChildrenOk(t, i)
    && (i != t.root ==> ParentOk(t, i))
  }

  ghost predicate ElementOk(t: Tree, e: nat) {
    e in t.nodeOf && Live(t, t.nodeOf[e]) && t.nodes[t.nodeOf[e]].element == e
  }

  /** The live nodes form a tree under the root that holds each element of `elements` once and no other element. */
  ghost predicate ValidTree(t: Tree, elements: set<nat>) {
    && |t.nodes| <= NO_PARENT
    && (forall i :: i in t.free ==> i < |t.nodes|)
    && (t.root == NO_PARENT ==> forall i: nat :: !Live(t, i))
    && (t.root != NO_PARENT ==> Live(t, t.root) && t.nodes[t.root].parent == NO_PARENT)
    && (forall i: nat :: Live(t, i) ==> NodeOk(t, i) && t.nodes[i].element in elements)
    && (forall e :: e in elements ==> ElementOk(t, e))
  }

  // ----- inserting

  /** `t'` is `t` with the free or appended slot `n` made a childless node under `p`. */
  ghost predicate Attaches(t: Tree, t': Tree, n: nat, p: nat, e: nat) {
    && (if n in t.free then |t'.nodes| == |t.nodes| else n == |t.nodes| && |t'.nodes| == n + 1 <= NO_PARENT)
    && n < |t'.nodes| && t'.free == t.free - {n}
    && t'.root == t.root && Live(t, p) && p in t.rank
    && t'.nodes[n].element == e && t'.nodes[n].children == [] && t'.nodes[n].parent == p
    && (forall i: nat :: i < |t.nodes| && i != n && i != p ==> t'.nodes[i] == t.nodes[i])
    && t'.nodes[p] == t.nodes[p].(children := t.nodes[p].children + [n])
    && t'.rank == t.rank[n := t.rank[p] + 1] && t'.nodeOf == t.nodeOf[e := n]
  }

  lemma AttachedIsValid(t: Tree, t': Tree, elements: set<nat>, n: nat, p: nat, e: nat)
    requires ValidTree(t, elements) && e !in elements && Attaches(t, t', n, p, e)
    ensures ValidTree(t', elements + {e})
  {
    forall i: nat | Live(t', i)
      ensures NodeOk(t', i) && t'.nodes[i].element in elements + {e}
    {
      if i == n {
        assert t'.nodes[p].children[|t.nodes[p].children|] == n;
      } else {
        assert Live(t, i) && NodeOk(t, i);
        AttachedNodeOk(t, t', elements, n, p, e, i);
      }
    }
    forall d | d in elements + {e}
      ensures ElementOk(t', d)
    {
      if d != e { assert ElementOk(t, d); }
    }
  }

  lemma AttachedNodeOk(t: Tree, t': Tree, elements: set<nat>, n: nat, p: nat, e: nat, i: nat)
    requires ValidTree(t, elements) && e !in elements && Attaches(t, t', n, p, e)
    requires Live(t, i)
    ensures NodeOk(t', i)
  {
    assert NodeOk(t, i);
    var ch, ch' := t.nodes[i].children, t'.nodes[i].children;
    forall k | 0 <= k < |ch'|
      ensures ChildOk(t', i, ch'[k])
    {
      if k < |ch| { assert ChildOk(t, i, ch[k]); }
    }
    if i != t.root {
      var q := t.nodes[i].parent;
      assert ParentOk(t, i);
      assert t.nodes[q].children <= t'.nodes[q].children;
    }
  }

  /** `t'` is `t` with the free or appended slot `n` made the root over the old root. */
  ghost predicate Reroots(t: Tree, t': Tree, n: nat, e: nat) {
    && (if n in t.free then |t'.nodes| == |t.nodes| else n == |t.nodes| && |t'.nodes| == n + 1 <= NO_PARENT)
    && n < |t'.nodes| && t'.free == t.free - {n}
    && t'.root == n && Live(t, t.root) && t.root in t.rank
    && t'.nodes[n].element == e && t'.nodes[n].children == [t.root] && t'.nodes[n].parent == NO_PARENT
    && (forall i: nat :: i < |t.nodes| && i != n && i != t.root ==> t'.nodes[i] == t.nodes[i])
    && t'.nodes[t.root] == t.nodes[t.root].(parent := n)
    && t'.rank == t.rank[n := t.rank[t.root] - 1] && t'.nodeOf == t.nodeOf[e := n]
  }

  lemma RerootedIsValid(t: Tree, t': Tree, elements: set<nat>, n: nat, e: nat)
    requires ValidTree(t, elements) && e !in elements && Reroots(t, t', n, e)
    ensures ValidTree(t', elements + {e})
  {
    forall i: nat | Live(t', i)
      ensures NodeOk(t', i) && t'.nodes[i].element in elements + {e}
    {
      if i == n {
        assert NodeOk(t, t.root);
        assert ChildOk(t', n, t.root);
      } else {
        assert Live(t, i) && NodeOk(t, i);
        RerootedNodeOk(t, t', elements, n, e, i);
      }
    }
    forall d | d in elements + {e}
      ensures ElementOk(t', d)
    {
      if d != e { assert ElementOk(t, d); }
    }
  }

  lemma RerootedNodeOk(t: Tree, t': Tree, elements: set<nat>, n: nat, e: nat, i: nat)
    requires ValidTree(t, elements) && e !in elements && Reroots(t, t', n, e)
    requires Live(t, i)
    ensures NodeOk(t', i)
  {
    assert NodeOk(t, i);
    var ch := t.nodes[i].children;
    forall k | 0 <= k < |ch|
      ensures ChildOk(t', i, ch[k])
    {
      assert ChildOk(t, i, ch[k]);
    }
    if i == t.root {
      assert t'.nodes[n].children[0] == i;
    } else {
      assert ParentOk(t, i);
      assert t'.nodes[t.nodes[i].parent].children == t.nodes[t.nodes[i].parent].children;
    }
  }

  /** The first node of an empty tree. */
  lemma FirstIsValid(t: Tree, t': Tree, n: nat, e: nat)
    requires ValidTree(t, {}) && t.root == NO_PARENT
    requires if n in t.free then |t'.nodes| == |t.nodes| else n == |t.nodes| && |t'.nodes| == n + 1 <= NO_PARENT
    requires n < |t'.nodes| && t'.free == t.free - {n} && t'.root == n
    requires t'.nodes[n].element == e && t'.nodes[n].children == [] && t'.nodes[n].parent == NO_PARENT
    requires t'.rank == map[n := 0] && t'.nodeOf == map[e := n]
    ensures ValidTree(t', {e})
  {
    forall i: nat | Live(t', i)
      ensures i == n
    {
      assert !Live(t, i);
    }
  }

  /** An empty element set belongs to the empty tree only, and any other set to a tree with a root. */
  lemma RootIffElements(t: Tree, elements: set<nat>)
    requires ValidTree(t, elements)
    ensures t.root == NO_PARENT <==> elements == {}
  {
    if elements != {} {
      var e :| e in elements;
      assert ElementOk(t, e) && Live(t, t.nodeOf[e]);
    }
    if t.root != NO_PARENT {
      assert NodeOk(t, t.root) && t.nodes[t.root].element in elements;
    }
  }

  /** The root is the one live node without a parent; any other's parent is a live node, and no child of it. */
  lemma ParentOf(t: Tree, elements: set<nat>, n: nat)
    requires ValidTree(t, elements) && Live(t, n)
    ensures t.nodes[n].parent == NO_PARENT <==> n == t.root
    ensures n != t.root ==>
              var p := t.nodes[n].parent; Live(t, p) && p != n && p !in t.nodes[n].children && n in t.nodes[p].children
    ensures forall k :: 0 <= k < |t.nodes[n].children| ==> Live(t, t.nodes[n].children[k])
    ensures n !in t.nodes[n].children
  {
    assert NodeOk(t, n);
    assert forall k :: 0 <= k < |t.nodes[n].children| ==> ChildOk(t, n, t.nodes[n].children[k]);
    if n != t.root {
      var p := t.nodes[n].parent;
      assert ParentOk(t, n) && NodeOk(t, p);
      assert ChildOk(t, p, n);
    }
  }

  // ----- removing

  predicate Distinct(s: seq<nat>) {
    forall k, l :: 0 <= k < l < |s| ==> s[k] != s[l]
  }

  function RemoveFirst(s: seq<nat>, x: nat): seq<nat> {
    if s == [] then [] else if s[0] == x then s[1..] else [s[0]] + RemoveFirst(s[1..], x)
  }

  lemma {:induction false} RemovedFirst(s: seq<nat>, x: nat)
    requires Distinct(s)
    ensures Distinct(RemoveFirst(s, x))
    ensures forall y :: y in RemoveFirst(s, x) <==> y in s && y != x
  {
    if s != [] {
      assert Distinct(s[1..]);
      assert s[0] !in s[1..];
      RemovedFirst(s[1..], x);
      assert s == [s[0]] + s[1..];
      assert forall y :: y in s <==> y == s[0] || y in s[1..];
      var r := RemoveFirst(s[1..], x);
      if s[0] != x {
        assert forall k :: 0 <= k < |r| ==> r[k] in s[1..];
        assert forall k :: 0 < k < |RemoveFirst(s, x)| ==> RemoveFirst(s, x)[k] == r[k - 1];
      }
    }
  }

  lemma DistinctConcat(a: seq<nat>, b: seq<nat>)
    requires Distinct(a) && Distinct(b) && forall y :: y in a ==> y !in b
    ensures Distinct(a + b)
  {
    forall k, l | 0 <= k < l < |a + b|
      ensures (a + b)[k] != (a + b)[l]
    {
      if k < |a| <= l {
        assert a[k] in a && b[l - |a|] in b;
      }
    }
  }

  /**
   * `t'` is `t` without `n`, whose children `moved` have been given to `q`; `kept` are the other children of `q`
   * afterwards.
   */
  ghost predicate Splices(t: Tree, t': Tree, n: nat, q: nat, kept: seq<nat>, moved: seq<nat>) {
    && Live(t, n) && Live(t, q) && q != n
    && |t'.nodes| == |t.nodes| && t'.free == t.free + {n}
    && t'.nodes[q].children == kept + moved && t'.nodes[q].element == t.nodes[q].element
       && t'.nodes[q].level == t.nodes[q].level
    && (forall i: nat :: i < |t.nodes| && i in moved && i != q ==> t'.nodes[i] == t.nodes[i].(parent := q))
    && (forall i: nat :: i < |t.nodes| && i !in moved && i != q ==> t'.nodes[i] == t.nodes[i])
    && t'.nodeOf == t.nodeOf - {t.nodes[n].element}
  }

  /** Removing a node below the root: its children move up to its parent. */
  lemma SplicedIsValid(t: Tree, t': Tree, elements: set<nat>, n: nat)
    requires ValidTree(t, elements) && Live(t, n) && n != t.root
    requires Live(t, t.nodes[n].parent)
    requires var p := t.nodes[n].parent;
             Splices(t, t', n, p, RemoveFirst(t.nodes[p].children, n), t.nodes[n].children)
             && t'.nodes[p].parent == t.nodes[p].parent && t'.root == t.root && t'.rank == t.rank
    ensures ValidTree(t', elements - {t.nodes[n].element})
  {
    var p, e := t.nodes[n].parent, t.nodes[n].element;
    assert NodeOk(t, n) && NodeOk(t, p);
    RemovedFirst(t.nodes[p].children, n);
    forall c | c in t.nodes[n].children
      ensures ChildOk(t, n, c) && c !in t.nodes[p].children && c != p
    {
      assert ChildrenOk(t, n) && ChildrenOk(t, p);
    }
    DistinctConcat(RemoveFirst(t.nodes[p].children, n), t.nodes[n].children);
    forall i: nat | Live(t', i)
      ensures NodeOk(t', i) && t'.nodes[i].element in elements - {e}
    {
      assert Live(t, i) && NodeOk(t, i);
      SplicedNodeOk(t, t', elements, n, i);
    }
    forall d | d in elements - {e}
      ensures ElementOk(t', d)
    {
      assert ElementOk(t, d);
    }
  }

  /** The situation after a node below the root has been spliced out. */
  ghost predicate SplicedOut(t: Tree, t': Tree, elements: set<nat>, n: nat) {
    && ValidTree(t, elements) && Live(t, n) && n != t.root && Live(t, t.nodes[n].parent)
    && var p := t.nodes[n].parent;
       && Splices(t, t', n, p, RemoveFirst(t.nodes[p].children, n), t.nodes[n].children)
       && p !in t.nodes[n].children
       && t'.nodes[p].parent == t.nodes[p].parent && t'.root == t.root && t'.rank == t.rank
  }

  lemma SplicedChildOk(t: Tree, t': Tree, elements: set<nat>, n: nat, i: nat, c: nat)
    requires SplicedOut(t, t', elements, n) && Live(t', i) && c in t'.nodes[i].children
    ensures ChildOk(t', i, c)
  {
    var p := t.nodes[n].parent;
    assert NodeOk(t, n) && NodeOk(t, p) && NodeOk(t, i);
    RemovedFirst(t.nodes[p].children, n);
    if i == p && c in t.nodes[n].children {
      assert ParentOk(t, n);
      assert ChildOk(t, n, c) && ChildOk(t, p, n);
    } else {
      assert c in t.nodes[i].children && ChildOk(t, i, c);
    }
  }

  lemma SplicedParentOk(t: Tree, t': Tree, elements: set<nat>, n: nat, i: nat)
    requires SplicedOut(t, t', elements, n) && Live(t', i) && i != t.root
    ensures ParentOk(t', i)
  {
    var p := t.nodes[n].parent;
    assert NodeOk(t, n) && NodeOk(t, p) && NodeOk(t, i);
    RemovedFirst(t.nodes[p].children, n);
    assert ParentOk(t, i);
    if i !in t.nodes[n].children {
      assert t'.nodes[i].parent == t.nodes[i].parent;
    }
  }

  lemma SplicedNodeOk(t: Tree, t': Tree, elements: set<nat>, n: nat, i: nat)
    requires SplicedOut(t, t', elements, n) && Live(t', i)
    requires Distinct(t'.nodes[t.nodes[n].parent].children)
    ensures NodeOk(t', i)
  {
    assert NodeOk(t, i);
    forall k | 0 <= k < |t'.nodes[i].children|
      ensures ChildOk(t', i, t'.nodes[i].children[k])
    {
      SplicedChildOk(t, t', elements, n, i, t'.nodes[i].children[k]);
    }
    if i != t.root {
      SplicedParentOk(t, t', elements, n, i);
    }
  }

  /** The situation after the root has been removed and its child `b` promoted, taking the other children. */
  ghost predicate PromotedOut(t: Tree, t': Tree, elements: set<nat>, b: nat) {
    && ValidTree(t, elements) && t.root != NO_PARENT && Live(t, b) && b in t.nodes[t.root].children
    && Splices(t, t', t.root, b, t.nodes[b].children, RemoveFirst(t.nodes[t.root].children, b))
    && t'.nodes[b].parent == NO_PARENT && t'.root == b && t.root in t.rank && t'.rank == t.rank[b := t.rank[t.root]]
  }

  lemma PromotedIsValid(t: Tree, t': Tree, elements: set<nat>, b: nat)
    requires PromotedOut(t, t', elements, b)
    ensures ValidTree(t', elements - {t.nodes[t.root].element})
  {
    var n, e := t.root, t.nodes[t.root].element;
    assert NodeOk(t, n) && NodeOk(t, b);
    RemovedFirst(t.nodes[n].children, b);
    forall c | c in t.nodes[n].children
      ensures ChildOk(t, n, c) && c !in t.nodes[b].children
    {
      assert ChildrenOk(t, n) && ChildrenOk(t, b);
    }
    DistinctConcat(t.nodes[b].children, RemoveFirst(t.nodes[n].children, b));
    forall i: nat | Live(t', i)
      ensures NodeOk(t', i) && t'.nodes[i].element in elements - {e}
    {
      assert Live(t, i) && NodeOk(t, i);
      forall k | 0 <= k < |t'.nodes[i].children|
        ensures ChildOk(t', i, t'.nodes[i].children[k])
      {
        PromotedChildOk(t, t', elements, b, i, t'.nodes[i].children[k]);
      }
      if i != b {
        PromotedParentOk(t, t', elements, b, i);
      }
    }
    forall d | d in elements - {e}
      ensures ElementOk(t', d)
    {
      assert ElementOk(t, d);
    }
  }

  lemma PromotedChildOk(t: Tree, t': Tree, elements: set<nat>, b: nat, i: nat, c: nat)
    requires PromotedOut(t, t', elements, b) && Live(t', i) && c in t'.nodes[i].children
    ensures ChildOk(t', i, c)
  {
    var n := t.root;
    assert NodeOk(t, n) && NodeOk(t, b) && NodeOk(t, i);
    RemovedFirst(t.nodes[n].children, b);
    assert ChildOk(t, n, b);
    if i == b && c in t.nodes[n].children {
      assert ChildOk(t, n, c);
    } else {
      assert c in t.nodes[i].children && ChildOk(t, i, c);
    }
  }

  lemma PromotedParentOk(t: Tree, t': Tree, elements: set<nat>, b: nat, i: nat)
    requires PromotedOut(t, t', elements, b) && Live(t', i) && i != b
    ensures ParentOk(t', i)
  {
    var n := t.root;
    assert NodeOk(t, n) && NodeOk(t, b) && NodeOk(t, i);
    RemovedFirst(t.nodes[n].children, b);
    assert ParentOk(t, i);
    if i !in t.nodes[n].children {
      assert t'.nodes[i].parent == t.nodes[i].parent;
    }
  }

  // ----- reachability

  /**
   * A set of nodes that has the root and, with each live node, its children, has every live node: the nodes hang
   * together.
   */
  lemma {:induction false} ClosedSetHasAll(t: Tree, elements: set<nat>, reached: set<nat>, i: nat)
    requires ValidTree(t, elements) && Live(t, i)
    requires t.root in reached
    requires forall x, c :: x in reached && Live(t, x) && c in t.nodes[x].children ==> c in reached
    ensures i in reached
    decreases Below(t, i)
  {
    if i != t.root {
      var p := t.nodes[i].parent;
      assert NodeOk(t, i) && ParentOk(t, i) && NodeOk(t, p);
      assert ChildOk(t, p, i);
      assert p in Below(t, i) && p !in Below(t, p);
      assert forall j :: j in Below(t, p) ==> j in Below(t, i);
      ClosedSetHasAll(t, elements, reached, p);
    }
  }

  /** The live nodes of lower rank. */
  ghost function Below(t: Tree, i: nat): set<nat> {
    set j: nat | j < |t.nodes| && Live(t, j) && i in t.rank && j in t.rank && t.rank[j] < t.rank[i]
  }

  /** Removing the only node. */
  lemma EmptiedIsValid(t: Tree, t': Tree, elements: set<nat>)
    requires ValidTree(t, elements) && t.root != NO_PARENT && t.nodes[t.root].children == []
    requires t'.nodes == t.nodes && t'.free == t.free + {t.root} && t'.root == NO_PARENT
    ensures elements == {t.nodes[t.root].element} && ValidTree(t', {})
  {
    forall i: nat | Live(t, i)
      ensures i == t.root
    {
      ClosedSetHasAll(t, elements, {t.root}, i);
    }
    assert forall i: nat :: Live(t', i) ==> Live(t, i) && i != t.root;
    assert NodeOk(t, t.root);
    forall e | e in elements
      ensures e == t.nodes[t.root].element
    {
      assert ElementOk(t, e);
    }
  }

  // ----- stack-driven traversal

  /** Where a traversal stands: nodes visited and nodes waiting, each live node at most once, parents first. */
  ghost predicate Traversing(t: Tree, visited: set<nat>, stack: seq<nat>) {
    && Distinct(stack)
    && (forall x :: x in stack ==> Live(t, x) && x !in visited)
    && (forall x :: x in visited ==> Live(t, x))
    && (forall x: nat :: x in visited || x in stack ==> x == t.root || (Live(t, x) && t.nodes[x].parent in visited))
  }

  /** No child of a visited node has been left out. */
  ghost predicate NoneSkipped(t: Tree, visited: set<nat>, stack: seq<nat>) {
    && (t.root in visited || t.root in stack)
    && (forall x, c :: x in visited && Live(t, x) && c in t.nodes[x].children ==> c in visited || c in stack)
  }

  lemma DistinctInit(s: seq<nat>, x: nat)
    requires Distinct(s + [x])
    ensures Distinct(s) && x !in s
  {
    var all := s + [x];
    assert forall k :: 0 <= k < |s| ==> all[k] == s[k];
    assert all[|s|] == x;
  }

  /** Visiting the top of the stack, its children pushed or not. */
  lemma TraversalStep(t: Tree, elements: set<nat>, visited: set<nat>, stack: seq<nat>, n: nat, pushed: seq<nat>)
    requires ValidTree(t, elements) && Traversing(t, visited, stack + [n])
    requires Live(t, n) && (pushed == t.nodes[n].children || pushed == [])
    ensures Traversing(t, visited + {n}, stack + pushed)
  {
    var waiting := stack + [n];
    assert NodeOk(t, n) && n in waiting;
    assert forall x :: x in stack ==> x in waiting;
    DistinctInit(stack, n);
    forall c | c in pushed
      ensures ChildOk(t, n, c) && c !in visited && c !in waiting && c != t.root
    {
      assert ChildrenOk(t, n);
    }
    DistinctConcat(stack, pushed);
  }

  lemma NoneSkippedStep(t: Tree, visited: set<nat>, stack: seq<nat>, n: nat)
    requires Live(t, n) && NoneSkipped(t, visited, stack + [n])
    ensures NoneSkipped(t, visited + {n}, stack + t.nodes[n].children)
  {
    assert forall x :: x in stack + [n] <==> x in stack || x == n;
  }

  /** At its end a traversal that skipped nothing has visited every live node. */
  lemma TraversalVisitsAll(t: Tree, elements: set<nat>, visited: set<nat>)
    requires ValidTree(t, elements) && Traversing(t, visited, []) && NoneSkipped(t, visited, [])
    ensures forall i: nat :: Live(t, i) <==> i in visited
  {
    forall i: nat | Live(t, i)
      ensures i in visited
    {
      ClosedSetHasAll(t, elements, visited, i);
    }
  }

  /** What is left to visit; it shrinks with every node visited. */
  ghost function Unvisited(t: Tree, visited: set<nat>): set<nat> {
    set j: nat | j < |t.nodes| && Live(t, j) && j !in visited
  }

  // ----- the nodes of a level

  /** `path` leads from the root down to `i`, from child to child, through nodes above the level only. */
  ghost predicate Descends(t: Tree, level: nat, path: seq<nat>, i: nat)
    decreases |path|
  {
    if path == [] then i == t.root else
      var p := path[|path| - 1];
      p < |t.nodes| && t.nodes[p].level > level && i in t.nodes[p].children
      && Descends(t, level, path[..|path| - 1], p)
  }

  ghost predicate IsReached(t: Tree, level: nat, i: nat) {
    exists path :: Descends(t, level, path, i)
  }

  /** The nodes of the level that are reached through higher levels only. */
  ghost predicate IsExposed(t: Tree, level: nat, i: nat) {
    i < |t.nodes| && t.nodes[i].level == level && IsReached(t, level, i)
  }

  lemma RootIsReached(t: Tree, level: nat)
    ensures IsReached(t, level, t.root)
  {
    assert Descends(t, level, [], t.root);
  }

  lemma ChildIsReached(t: Tree, level: nat, i: nat, c: nat)
    requires IsReached(t, level, i) && i < |t.nodes| && t.nodes[i].level > level && c in t.nodes[i].children
    ensures IsReached(t, level, c)
  {
    var path :| Descends(t, level, path, i);
    assert (path + [i])[..|path|] == path;
    assert Descends(t, level, path + [i], c);
  }

  lemma {:induction false} RootIsLive(t: Tree, level: nat, path: seq<nat>, i: nat)
    requires Descends(t, level, path, i) && i < |t.nodes|
    ensures t.root < |t.nodes|
    decreases |path|
  {
    if path != [] {
      RootIsLive(t, level, path[..|path| - 1], path[|path| - 1]);
    }
  }

  lemma NoneExposed(t: Tree, elements: set<nat>, level: nat, i: nat)
    requires ValidTree(t, elements) && t.root == NO_PARENT
    ensures !IsExposed(t, level, i)
  {
    if IsExposed(t, level, i) {
      var path :| Descends(t, level, path, i);
      RootIsLive(t, level, path, i);
    }
  }

  /** The children of visited nodes above the level are visited or wait. */
  ghost predicate Followed(t: Tree, level: nat, visited: set<nat>, stack: seq<nat>) {
    && (t.root in visited || t.root in stack)
    && forall x, c :: x in visited && x < |t.nodes| && t.nodes[x].level > level && c in t.nodes[x].children ==>
         c in visited || c in stack
  }

  ghost predicate AllReached(t: Tree, level: nat, stack: seq<nat>) {
    forall x :: x in stack ==> IsReached(t, level, x)
  }

  /** The visited nodes of the level are those found. */
  ghost predicate Found(t: Tree, level: nat, visited: set<nat>, found: seq<nat>) {
    && (forall x: nat :: x in found <==> x in visited && x < |t.nodes| && t.nodes[x].level == level)
    && AllReached(t, level, found)
  }

  ghost function Pushed(t: Tree, level: nat, n: nat): seq<nat>
    requires n < |t.nodes|
  {
    if t.nodes[n].level > level then t.nodes[n].children else []
  }

  lemma FollowedStep(t: Tree, level: nat, visited: set<nat>, stack: seq<nat>, n: nat)
    requires n < |t.nodes| && Followed(t, level, visited, stack + [n])
    ensures Followed(t, level, visited + {n}, stack + Pushed(t, level, n))
  {
    assert forall x :: x in stack + [n] <==> x in stack || x == n;
  }

  lemma ReachedStep(t: Tree, level: nat, stack: seq<nat>, n: nat)
    requires n < |t.nodes| && AllReached(t, level, stack + [n])
    ensures AllReached(t, level, stack + Pushed(t, level, n)) && IsReached(t, level, n)
  {
    assert n in stack + [n];
    forall c | c in stack + Pushed(t, level, n)
      ensures IsReached(t, level, c)
    {
      if c in stack {
        assert c in stack + [n];
      } else {
        ChildIsReached(t, level, n, c);
      }
    }
  }

  lemma FoundStep(t: Tree, level: nat, visited: set<nat>, found: seq<nat>, n: nat)
    requires n < |t.nodes| && Found(t, level, visited, found) && IsReached(t, level, n)
    ensures Found(t, level, visited + {n}, if t.nodes[n].level == level then found + [n] else found)
  {
  }

  lemma {:induction false} DescentIsVisited(t: Tree, level: nat, visited: set<nat>, path: seq<nat>, i: nat)
    requires Followed(t, level, visited, []) && Descends(t, level, path, i)
    ensures i in visited
    decreases |path|
  {
    if path != [] {
      DescentIsVisited(t, level, visited, path[..|path| - 1], path[|path| - 1]);
    }
  }

  /** At its end the search has found exactly the nodes of the level that higher levels lead to. */
  lemma SearchFindsAll(t: Tree, level: nat, visited: set<nat>, found: seq<nat>, i: nat)
    requires Followed(t, level, visited, []) && Found(t, level, visited, found)
    ensures i in found <==> IsExposed(t, level, i)
  {
    if IsExposed(t, level, i) {
      var path :| Descends(t, level, path, i);
      DescentIsVisited(t, level, visited, path, i);
    }
  }
}
