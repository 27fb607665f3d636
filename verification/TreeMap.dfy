/** The storage `TreeMap`: an AVL tree in an array of slots with a list of free ones. */
module TreeMap {
  import opened Prelude
  import opened AvlTree
  import opened TreeItems
  import opened TreeSlots

  /** The slots on the way to a subtree, its own last. */
  ghost predicate IsPath<V>(path: seq<nat>, ctx: seq<Frame<V>>, t: Tree<V>) {
    && |path| == |ctx| + 1 && path[|ctx|] == Idx(t)
    && forall i :: 0 <= i < |ctx| ==> path[i] == ctx[i].item.at
  }

  lemma Whole<V>(slots: seq<Node<V>>, ctx: seq<Frame<V>>, t: Tree<V>)
    ensures Lays(slots, ctx, t) <==> Lays(slots, [], PlugAll(ctx, t))
  {
    LaysWhole(slots, ctx, t);
    LaysWhole(slots, [], PlugAll(ctx, t));
  }

  lemma Settled<V>(slots: seq<Node<V>>, path: seq<nat>, ctx: seq<Frame<V>>, t: Tree<V>)
    requires Lays(slots, ctx, t) && IsPath(path, ctx, t)
    ensures Lays(slots, [], PlugAll(ctx, t)) && path[0] == Idx(PlugAll(ctx, t))
  {
    Whole(slots, ctx, t);
    RootAtIs(ctx, t);
  }

  /** Each of the slots 1 to `n` is either used or on the free list, and on it once. */
  ghost predicate Accounted(n: nat, used: set<nat>, free: seq<nat>)
    decreases |free|
  {
    if free == [] then AllUsed(n, used)
    else
      var slot := free[|free| - 1];
      slot < n && slot + 1 !in used && Accounted(n, used + {slot + 1}, free[..|free| - 1])
  }

  ghost predicate AllUsed(n: nat, used: set<nat>) {
    forall at :: at in used <==> 0 < at <= n
  }

  lemma {:induction false} AppendedIsAccounted(n: nat, used: set<nat>, free: seq<nat>)
    requires Accounted(n, used, free)
    ensures Accounted(n + 1, used + {n + 1}, free) && n + 1 !in used
    decreases |free|
  {
    if free != [] {
      var slot := free[|free| - 1];
      AppendedIsAccounted(n, used + {slot + 1}, free[..|free| - 1]);
      assert used + {slot + 1} + {n + 1} == used + {n + 1} + {slot + 1};
    }
  }

  lemma {:induction false} PoppedIsAccounted(n: nat, used: set<nat>, free: seq<nat>)
    requires Accounted(n, used, free) && n in used
    ensures n > 0 && Accounted(n - 1, used - {n}, free)
    decreases |free|
  {
    if free != [] {
      var slot := free[|free| - 1];
      PoppedIsAccounted(n, used + {slot + 1}, free[..|free| - 1]);
      assert slot + 1 != n;
      assert used + {slot + 1} - {n} == used - {n} + {slot + 1};
    }
  }

  lemma {:induction false} UsedIsWithin(n: nat, used: set<nat>, free: seq<nat>, at: nat)
    requires Accounted(n, used, free) && at in used
    ensures 0 < at <= n
    decreases |free|
  {
    if free != [] {
      UsedIsWithin(n, used + {free[|free| - 1] + 1}, free[..|free| - 1], at);
    }
  }

  lemma FreedIsAccounted(n: nat, used: set<nat>, free: seq<nat>, slot: nat)
    requires Accounted(n, used, free) && slot + 1 in used
    ensures Accounted(n, used - {slot + 1}, free + [slot]) && slot < n
  {
    var now := free + [slot];
    UsedIsWithin(n, used, free, slot + 1);
    assert now[..|now| - 1] == free && now[|now| - 1] == slot;
    assert used - {slot + 1} + {slot + 1} == used;
  }

  lemma AroundLeaf<V>(ctx: seq<Frame<V>>)
    ensures Ats(Flat(PlugAll(ctx, Leaf))) == Ats(Before(ctx)) + Ats(After(ctx))
    ensures ctx != [] ==> ctx[|ctx| - 1].item.at in Ats(Flat(PlugAll(ctx, Leaf)))
  {
    FlatPlugAll(ctx, Leaf);
    assert Before(ctx) + Flat<V>(Leaf) == Before(ctx);
    ApartParts(Before(ctx), After(ctx));
    if ctx != [] {
      var f := ctx[|ctx| - 1];
      assert f.item in if f.goesLeft then After(ctx) else Before(ctx);
    }
  }

  /** A new leaf in a slot that was not used, named by the innermost frame. */
  lemma LeafLays<V(!new)>(was: seq<Node<V>>, now: seq<Node<V>>, ctx: seq<Frame<V>>, leaf: Tree<V>)
    requires Lays(was, ctx, Leaf) && leaf.Fork? && leaf.left.Leaf? && leaf.right.Leaf?
    requires leaf.item.at !in Ats(Before(ctx)) && leaf.item.at !in Ats(After(ctx))
    requires IsAt(now, leaf.item.at, RootOf(leaf))
    requires ctx != [] ==>
               var f := ctx[|ctx| - 1];
               ChangedIn(was, now, {leaf.item.at} + {f.item.at}) && IsAt(now, f.item.at, NodeOf(f, leaf.item.at))
    ensures Lays(now, ctx, leaf)
  {
    LaysApart(ctx, Leaf);
    assert Flat<V>(Leaf) == [];
    Patched(was, now, {leaf.item.at}, ctx, 0, leaf.item.at);
    MiddleApart(Before(ctx), leaf.item, After(ctx));
    ApartParts(Before(ctx), After(ctx));
    assert Flat(leaf) == [leaf.item];
  }

  lemma AboveIsNot<V>(ctx: seq<Frame<V>>, at: nat)
    requires ctx != [] && at !in Ats(Before(ctx)) && at !in Ats(After(ctx))
    ensures ctx[|ctx| - 1].item.at != at
  {
    AroundLeaf(ctx);
  }

  lemma LinkedLeafLays<V(!new)>(was: seq<Node<V>>, grown: seq<Node<V>>, ctx: seq<Frame<V>>, leaf: Tree<V>)
    requires Lays(was, ctx, Leaf) && ChangedIn(was, grown, {}) && leaf.Fork? && leaf.left.Leaf? && leaf.right.Leaf?
    requires Within(grown, leaf.item.at) && leaf.item.at !in Ats(Before(ctx)) && leaf.item.at !in Ats(After(ctx))
    ensures ctx != [] ==> Within(grown, Above(ctx))
    ensures var at := leaf.item.at; var hooked := Hooked(grown, ctx, at);
            hooked[at - 1] == grown[at - 1] && Lays(hooked[at - 1 := RootOf(leaf)], ctx, leaf)
  {
    var at := leaf.item.at;
    if ctx == [] {
      LeafLays(was, grown[at - 1 := RootOf(leaf)], ctx, leaf);
    } else {
      var f := ctx[|ctx| - 1];
      AboveIsNot(ctx, at);
      assert IsAt(was, f.item.at, NodeOf(f, 0));
      LinkedNames(grown, f, 0, at);
      var linked := Linked(grown, f.item.at, f.goesLeft, at);
      PutOne(linked, at, RootOf(leaf));
      ChangedTwice(was, grown, linked, {}, {f.item.at});
      ChangedTwice(was, linked, linked[at - 1 := RootOf(leaf)], {} + {f.item.at}, {at});
      assert {} + {f.item.at} + {at} == {at} + {f.item.at};
      LeafLays(was, linked[at - 1 := RootOf(leaf)], ctx, leaf);
    }
  }

  /** The balances fit a new leaf. */
  lemma GrowsFrom<V>(ctx: seq<Frame<V>>, leaf: Tree<V>)
    requires Exact(PlugAll(ctx, Leaf)) && leaf.Fork? && leaf.left.Leaf? && leaf.right.Leaf? && leaf.balance == 0
    ensures Exact(leaf) && Leans(leaf) && Height(leaf) == 1 && AllFit(ctx, 0)
    ensures Exact(Grow(ctx, leaf)) && Flat(Grow(ctx, leaf)) == Before(ctx) + [leaf.item] + After(ctx)
  {
    ExactPlugAll(ctx, Leaf);
    GrowIsExact(ctx, leaf, Grow(ctx, leaf));
    assert Flat(leaf) == [leaf.item];
  }

  lemma AtsOfGrown<V>(ctx: seq<Frame<V>>, x: Item<V>)
    ensures Ats(Before(ctx) + [x] + After(ctx)) == Ats(Flat(PlugAll(ctx, Leaf))) + {x.at}
  {
    AroundLeaf(ctx);
    MiddleApart(Before(ctx), x, After(ctx));
  }

  lemma LeafGrows<V>(ctx: seq<Frame<V>>, leaf: Tree<V>, was: Tree<V>) returns (goal: Tree<V>)
    requires leaf.Fork? && leaf.left.Leaf? && leaf.right.Leaf? && leaf.balance == 0
    requires was == PlugAll(ctx, Leaf) && Exact(was) && Sorted(Flat(was)) && Brackets(ctx, leaf.item.key)
    ensures Growing(ctx, leaf, goal) && Exact(goal) && Sorted(Flat(goal)) && leaf.item in Flat(goal)
    ensures AsMap(Flat(goal)) == AsMap(Flat(was))[leaf.item.key := leaf.item.value]
    ensures |Flat(goal)| == |Flat(was)| + 1 && Ats(Flat(goal)) == Ats(Flat(was)) + {leaf.item.at}
  {
    GrowsFrom(ctx, leaf);
    Added(ctx, leaf.item);
    AtsOfGrown(ctx, leaf.item);
    goal := Grow(ctx, leaf);
  }

  lemma {:induction false} ItemIsHeld<V>(slots: seq<Node<V>>, t: Tree<V>, x: Item<V>)
    requires Holds(slots, t) && x in Flat(t)
    ensures 0 < x.at <= |slots| && slots[x.at - 1].key == x.key && slots[x.at - 1].value == x.value
  {
    if x in Flat(t.left) {
      ItemIsHeld(slots, t.left, x);
    } else if x in Flat(t.right) {
      ItemIsHeld(slots, t.right, x);
    }
  }

  lemma RevaluedApart<V>(ctx: seq<Frame<V>>, t: Tree<V>, u: Tree<V>)
    requires t.Fork? && u.Fork? && u == t.(item := t.item.(value := u.item.value))
    requires Apart(Before(ctx) + Flat(t) + After(ctx))
    ensures Apart(Before(ctx) + Flat(u) + After(ctx))
  {
    ForkApart(t);
    ForkApart(u);
    ThreeApart(Before(ctx), Flat(t), After(ctx));
    ThreeApart(Before(ctx), Flat(u), After(ctx));
  }

  /** Another value in a node. */
  lemma RevaluedLays<V(!new)>(slots: seq<Node<V>>, ctx: seq<Frame<V>>, t: Tree<V>, u: Tree<V>)
    requires Lays(slots, ctx, t) && t.Fork? && u.Fork? && u == t.(item := t.item.(value := u.item.value))
    ensures IsAt(slots, t.item.at, RootOf(t))
    ensures Lays(slots[t.item.at - 1 := RootOf(u)], ctx, u)
  {
    var now := slots[t.item.at - 1 := RootOf(u)];
    LaysApart(ctx, t);
    RevaluedApart(ctx, t, u);
    ForkApart(t);
    PutOne(slots, t.item.at, RootOf(u));
    HoldsStill(slots, now, {t.item.at}, t.left);
    HoldsStill(slots, now, {t.item.at}, t.right);
    AllHoldStill(slots, now, {t.item.at}, ctx, Idx(t));
  }

  lemma RevaluedIsExact<V>(ctx: seq<Frame<V>>, t: Tree<V>, u: Tree<V>)
    requires t.Fork? && u.Fork? && u == t.(item := t.item.(value := u.item.value)) && Exact(PlugAll(ctx, t))
    ensures Exact(PlugAll(ctx, u)) && Idx(PlugAll(ctx, u)) == Idx(PlugAll(ctx, t))
  {
    RootAtIs(ctx, t);
    RootAtIs(ctx, u);
    SameShape(t, u);
    ExactSwap(ctx, t, u);
  }

  lemma RevaluedKeepsAts<V>(ctx: seq<Frame<V>>, t: Tree<V>, u: Tree<V>)
    requires t.Fork? && u.Fork? && u == t.(item := t.item.(value := u.item.value))
    ensures Ats(Flat(PlugAll(ctx, u))) == Ats(Flat(PlugAll(ctx, t)))
  {
    ForkApart(t);
    ForkApart(u);
    AtsOfPlugged(ctx, t);
    AtsOfPlugged(ctx, u);
  }

  /** The tree `hole` in `inner` has the items of `d` in `ctx` but its own, and is one lower than fits. */
  ghost predicate Opens<V>(ctx: seq<Frame<V>>, d: Tree<V>, inner: seq<Frame<V>>, hole: Tree<V>) {
    && d.Fork? && Exact(hole) && AllFit(inner, Height(hole) + 1)
    && Before(inner) + Flat(hole) + After(inner) == Before(ctx) + Flat(d.left) + (Flat(d.right) + After(ctx))
  }

  lemma ChildIsOut<V>(ctx: seq<Frame<V>>, d: Tree<V>, child: Tree<V>)
    requires d.Fork? && Exact(PlugAll(ctx, d))
    requires (d.left.Leaf? && child == d.right) || (d.right.Leaf? && child == d.left)
    ensures Opens(ctx, d, ctx, child) && (child.Fork? ==> child.balance == 0)
  {
    OnlyChildFits(ctx, d, child);
    OnlyChildKeeps(ctx, d, child);
  }

  /** Which child of the innermost node the hole is can be told by its number. */
  ghost predicate Sided<V>(ctx: seq<Frame<V>>, t: Tree<V>) {
    ctx != [] ==>
      var f := ctx[|ctx| - 1];
      NodeOf(f, Idx(t)).left == Idx(t) <==> f.goesLeft
  }

  lemma WidePath<V>(path: seq<nat>, ctx: seq<Frame<V>>, d: Tree<V>, lefts: seq<Frame<V>>, s: Tree<V>)
    requires d.Fork? && s.Fork? && |path| == |ctx| + 2 + |lefts| && path[|ctx|] == Idx(s)
    requires forall i :: 0 <= i < |ctx| ==> path[i] == ctx[i].item.at
    requires forall i :: 0 <= i < |lefts| ==> path[|ctx| + 1 + i] == lefts[i].item.at
    requires path[|path| - 1] == Idx(s.right)
    ensures IsPath(path, LeastCtx(ctx, d, lefts, s), s.right)
  {
    var all := LeastCtx(ctx, d, lefts, s);
    forall i | 0 <= i < |all|
      ensures path[i] == all[i].item.at
    {
      if i > |ctx| {
        assert all[i] == lefts[i - |ctx| - 1];
        assert path[|ctx| + 1 + (i - |ctx| - 1)] == lefts[i - |ctx| - 1].item.at;
      }
    }
  }

  /** The walk down to the leftmost node, with that node's number and its right child's put in. */
  lemma WalkIsPath<V>(path: seq<nat>, walk: seq<nat>, ctx: seq<Frame<V>>, d: Tree<V>, lefts: seq<Frame<V>>, s: Tree<V>)
    requires d.Fork? && s.Fork? && IsPath(path, ctx, d) && |walk| == |path| + 1 + |lefts|
    requires walk[..|path|] == path && IsPath(walk[|path|..], lefts, s)
    ensures walk[|walk| - 1] == Idx(s) && (lefts != [] ==> walk[|walk| - 2] == Above(lefts))
    ensures var now := walk[|path| - 1 := Idx(s)][|walk| - 1 := Idx(s.right)];
            IsPath(now, LeastCtx(ctx, d, lefts, s), s.right)
  {
    var n := |path| - 1;
    var now := walk[n := Idx(s)][|walk| - 1 := Idx(s.right)];
    forall i | 0 <= i < |ctx|
      ensures now[i] == ctx[i].item.at
    {
      assert walk[i] == walk[..|path|][i];
    }
    forall i | 0 <= i < |lefts|
      ensures walk[|path| + i] == lefts[i].item.at
    {
      assert walk[|path| + i] == walk[|path|..][i];
    }
    assert walk[|path| + |lefts|] == walk[|path|..][|lefts|];
    WidePath(now, ctx, d, lefts, s);
  }

  /** The hole that the leftmost node leaves is a left child, or the right child of a node that has a left one. */
  lemma WideIsSided<V>(slots: seq<Node<V>>, ctx: seq<Frame<V>>, d: Tree<V>, lefts: seq<Frame<V>>, s: Tree<V>)
    requires d.Fork? && s.Fork? && d.left.Fork? && AllLeft(lefts)
    requires Lays(slots, LeastCtx(ctx, d, lefts, s), s.right)
    ensures Sided(LeastCtx(ctx, d, lefts, s), s.right)
  {
    var all := LeastCtx(ctx, d, lefts, s);
    if lefts == [] {
      var f := all[|all| - 1];
      if s.right.Fork? {
        AboveIsAt(slots, all, s.right);
      }
      assert Holds(slots, f.other);
    } else {
      assert all[|all| - 1] == lefts[|lefts| - 1];
    }
  }

  lemma RightStillHolds<V(!new)>(was: seq<Node<V>>, slots: seq<Node<V>>, ctx: seq<Frame<V>>, d: Tree<V>)
    requires Lays(was, ctx, d) && d.Fork? && ChangedIn(was, slots, {d.item.at})
    ensures Holds(slots, d.right)
  {
    LaysApart(ctx, d);
    ChildIsClear(d, d.right);
    HoldsStill(was, slots, {d.item.at}, d.right);
  }

  lemma LeastIsOut<V>(slots: seq<Node<V>>, ctx: seq<Frame<V>>, d: Tree<V>, lefts: seq<Frame<V>>, s: Tree<V>)
    requires d.Fork? && s.Fork? && d.left.Fork? && AllLeft(lefts) && s.left.Leaf? && d.right == PlugAll(lefts, s)
    requires Lays(slots, LeastCtx(ctx, d, lefts, s), s.right) && Exact(PlugAll(ctx, d))
    ensures var inner, hole := LeastCtx(ctx, d, lefts, s), s.right;
            Sided(inner, hole) && Opens(ctx, d, inner, hole)
  {
    WideIsSided(slots, ctx, d, lefts, s);
    LeastFits(ctx, d, lefts, s);
    LeastItems(ctx, d, lefts, s);
  }

  lemma SidedAgain<V>(slots: seq<Node<V>>, ctx: seq<Frame<V>>, t: Tree<V>)
    requires Lays(slots, ctx, t) && t.Fork?
    ensures Sided(ctx, t)
  {
    if ctx != [] {
      AboveIsAt(slots, ctx, t);
    }
  }

  lemma ShrinksTo<V>(ctx: seq<Frame<V>>, d: Tree<V>, inner: seq<Frame<V>>, hole: Tree<V>, was: Tree<V>)
    returns (goal: Tree<V>)
    requires d.Fork? && was == PlugAll(ctx, d) && Sorted(Flat(was)) && Apart(Flat(was))
    requires Opens(ctx, d, inner, hole)
    ensures Shrinking(inner, hole, goal) && Exact(goal) && Sorted(Flat(goal))
    ensures AsMap(Flat(goal)) == AsMap(Flat(was)) - {d.item.key}
    ensures |Flat(goal)| == |Flat(was)| - 1 && Ats(Flat(goal)) == Ats(Flat(was)) - {d.item.at}
  {
    goal := Shrink(inner, hole);
    ShrinkIsExact(inner, hole, goal);
    Removed(ctx, d);
    Around(ctx, d);
    AtsWithout(Before(ctx) + Flat(d.left), d.item, Flat(d.right) + After(ctx));
  }

  lemma AtsWithout<V>(a: seq<Item<V>>, x: Item<V>, b: seq<Item<V>>)
    requires Apart(a + [x] + b)
    ensures Ats(a + b) == Ats(a + [x] + b) - {x.at}
  {
    MiddleApart(a, x, b);
    ApartParts(a, b);
  }

  function Pairs<V>(items: seq<Item<V>>): seq<(int, V)> {
    seq(|items|, i requires 0 <= i < |items| => (items[i].key, items[i].value))
  }

  /** The only slot is the last one, and then none is free. */
  lemma OnlySlot<V>(ctx: seq<Frame<V>>, d: Tree<V>, n: nat, free: seq<nat>)
    requires d.Fork? && Accounted(n, Ats(Flat(PlugAll(ctx, d))), free)
    ensures n == 1 ==> d.item.at == 1 && free == []
  {
    RootIn(d);
    AtsOfPlugged(ctx, d);
    UsedIsWithin(n, Ats(Flat(PlugAll(ctx, d))), free, d.item.at);
  }

  /** The search for `k` has come to `t` through `path`. */
  ghost predicate Searching<V>(path: seq<nat>, ctx: seq<Frame<V>>, t: Tree<V>, all: Tree<V>, k: int) {
    && |path| == |ctx| && (forall i :: 0 <= i < |ctx| ==> path[i] == ctx[i].item.at)
    && PlugAll(ctx, t) == all && Decided(ctx, k)
  }

  lemma SearchGoesOn<V>(path: seq<nat>, ctx: seq<Frame<V>>, t: Tree<V>, all: Tree<V>, k: int, goesLeft: bool)
    requires Searching(path, ctx, t, all, k) && t.Fork?
    requires if goesLeft then k < t.item.key else t.item.key < k
    ensures Searching(path + [Idx(t)], ctx + [FrameOf(t, goesLeft)], if goesLeft then t.left else t.right, all, k)
  {
    Descend(ctx, t, k, goesLeft);
  }

  lemma RevaluedAll<V>(slots: seq<Node<V>>, ctx: seq<Frame<V>>, t: Tree<V>, u: Tree<V>, was: Tree<V>)
    returns (goal: Tree<V>)
    requires t.Fork? && u.Fork? && u == t.(item := t.item.(value := u.item.value)) && Lays(slots, ctx, u)
    requires was == PlugAll(ctx, t) && Exact(was) && Sorted(Flat(was))
    ensures Lays(slots, [], goal) && Idx(goal) == Idx(was) && Exact(goal) && Sorted(Flat(goal))
    ensures AsMap(Flat(goal)) == AsMap(Flat(was))[t.item.key := u.item.value]
    ensures Ats(Flat(goal)) == Ats(Flat(was)) && |Flat(goal)| == |Flat(was)|
  {
    goal := PlugAll(ctx, u);
    Whole(slots, ctx, u);
    Revalued(ctx, t, u.item.value);
    RevaluedIsExact(ctx, t, u);
    RevaluedKeepsAts(ctx, t, u);
  }

  lemma FoundAt<V>(slots: seq<Node<V>>, ctx: seq<Frame<V>>, t: Tree<V>, all: Tree<V>, k: int)
    requires PlugAll(ctx, t) == all && Lays(slots, [], all) && Sorted(Flat(all))
    requires Decided(ctx, k) && (t.Fork? ==> t.item.key == k)
    ensures Lays(slots, ctx, t) && Brackets(ctx, k) && (k in AsMap(Flat(all)) <==> t.Fork?)
    ensures t.Fork? ==> AsMap(Flat(all))[k] == t.item.value
  {
    Whole(slots, ctx, t);
    DecidedBrackets(ctx, t, k);
    SearchDecides(ctx, t, k);
  }
  class TreeMap<V(!new)> {
    /** The value that memory never written holds. */
    const zero: V
    var root: nat
    var slots: seq<Node<V>>
    /** The free slots, counted from zero. */
    var freeSlots: seq<nat>
    /** What the memory behind the last slot still holds. */
    var stale: seq<Node<V>>
    ghost var tree: Tree<V>

    /** The slots hold a search tree with exact balances, and each slot is in it or free, and once. */
    ghost predicate Valid()
      reads this
    {
      && root == Idx(tree) && Lays(slots, [], tree)
      && Exact(tree) && Sorted(Flat(tree))
      && Accounted(|slots|, Ats(Flat(tree)), freeSlots) && |slots| == |Flat(tree)| + |freeSlots|
    }

    ghost function Contents(): map<int, V>
      reads this
    {
      AsMap(Flat(tree))
    }

    constructor (zero: V)
      ensures Valid() && Contents() == map[] && this.zero == zero && slots == [] && stale == []
    {
      this.zero := zero;
      root, slots, freeSlots, stale := 0, [], [], [];
      tree := Leaf;
    }

    /** The cell that the next new key gets, as it is before it is written. */
    function NextCell(): Node<V>
      requires freeSlots != [] ==> freeSlots[|freeSlots| - 1] < |slots|
      reads this
    {
      if freeSlots != [] then slots[freeSlots[|freeSlots| - 1]]
      else if stale != [] then stale[0]
      else Node(0, zero, 0, 0, 0)
    }

    method AllocSlot(ghost used: set<nat>) returns (idx: nat)
      requires Accounted(|slots|, used, freeSlots)
      modifies this`slots, this`freeSlots, this`stale
      ensures ChangedIn(old(slots), slots, {}) && idx + 1 !in used && IsAt(slots, idx + 1, old(NextCell()))
      ensures Accounted(|slots|, used + {idx + 1}, freeSlots)
      ensures |slots| - |freeSlots| == old(|slots| - |freeSlots|) + 1
      ensures old(freeSlots) != [] ==>
                slots == old(slots) && freeSlots == old(freeSlots)[..|old(freeSlots)| - 1] && stale == old(stale)
      ensures old(freeSlots) == [] ==> slots == old(slots) + [old(NextCell())] && freeSlots == []
      ensures old(freeSlots) == [] ==> stale == if old(stale) == [] then [] else old(stale)[1..]
    {
      if |freeSlots| > 0 {
        idx := freeSlots[|freeSlots| - 1];
        freeSlots := freeSlots[..|freeSlots| - 1];
      } else {
        idx := |slots|;
        AppendedIsAccounted(|slots|, used, freeSlots);
        slots := slots + [NextCell()];
        stale := if stale == [] then [] else stale[1..];
      }
    }

    method FreeSlot(slot: nat, ghost used: set<nat>)
      requires Accounted(|slots|, used, freeSlots) && slot + 1 in used
      modifies this`slots, this`freeSlots, this`stale
      ensures ChangedIn(old(slots), slots, {slot + 1})
      ensures Accounted(|slots|, used - {slot + 1}, freeSlots)
      ensures |slots| - |freeSlots| == old(|slots| - |freeSlots|) - 1
      ensures slot + 1 == old(|slots|) ==>
                slots == old(slots)[..slot] && freeSlots == old(freeSlots) && stale == [old(slots)[slot]] + old(stale)
      ensures slot + 1 != old(|slots|) ==>
                slots == old(slots) && freeSlots == old(freeSlots) + [slot] && stale == old(stale)
    {
      if slot + 1 == |slots| {
        PoppedIsAccounted(|slots|, used, freeSlots);
        stale := [slots[slot]] + stale;
        slots := slots[..slot];
      } else {
        FreedIsAccounted(|slots|, used, freeSlots, slot);
        freeSlots := freeSlots + [slot];
      }
    }

    method RotLeft(par: nat, cur: nat)
      requires Within(slots, par) && Within(slots, cur) && par != cur
      modifies this`slots
      ensures slots == RotatedLeft(old(slots), par, cur)
    {
      var left := slots[cur - 1].left;
      slots := slots[cur - 1 := slots[cur - 1].(left := par)];
      slots := slots[par - 1 := slots[par - 1].(right := left)];
      if slots[cur - 1].balance == 0 {
        slots := slots[par - 1 := slots[par - 1].(balance := 1)];
        slots := slots[cur - 1 := slots[cur - 1].(balance := -1)];
      } else {
        slots := slots[par - 1 := slots[par - 1].(balance := 0)];
        slots := slots[cur - 1 := slots[cur - 1].(balance := 0)];
      }
    }

    method RotRight(par: nat, cur: nat)
      requires Within(slots, par) && Within(slots, cur) && par != cur
      modifies this`slots
      ensures slots == RotatedRight(old(slots), par, cur)
    {
      var right := slots[cur - 1].right;
      slots := slots[cur - 1 := slots[cur - 1].(right := par)];
      slots := slots[par - 1 := slots[par - 1].(left := right)];
      if slots[cur - 1].balance == 0 {
        slots := slots[par - 1 := slots[par - 1].(balance := -1)];
        slots := slots[cur - 1 := slots[cur - 1].(balance := 1)];
      } else {
        slots := slots[par - 1 := slots[par - 1].(balance := 0)];
        slots := slots[cur - 1 := slots[cur - 1].(balance := 0)];
      }
    }
  
    method RotRightLeft(gpar: nat, par: nat, cur: nat)
      requires Within(slots, gpar) && Within(slots, par) && Within(slots, cur)
      requires gpar != par && gpar != cur && par != cur
      modifies this`slots
      ensures slots == RotatedRightLeft(old(slots), gpar, par, cur)
    {
      var c := slots[cur - 1];
      var parBalance, gparBalance := 0, 0;
      if c.balance > 0 {
        gparBalance := -1;
      } else if c.balance < 0 {
        parBalance := 1;
      }
      slots := slots[gpar - 1 := slots[gpar - 1].(right := c.left, balance := gparBalance)];
      slots := slots[par - 1 := slots[par - 1].(left := c.right, balance := parBalance)];
      slots := slots[cur - 1 := slots[cur - 1].(left := gpar, right := par, balance := 0)];
    }

    method RotLeftRight(gpar: nat, par: nat, cur: nat)
      requires Within(slots, gpar) && Within(slots, par) && Within(slots, cur)
      requires gpar != par && gpar != cur && par != cur
      modifies this`slots
      ensures slots == RotatedLeftRight(old(slots), gpar, par, cur)
    {
      var c := slots[cur - 1];
      var parBalance, gparBalance := 0, 0;
      if c.balance > 0 {
        parBalance := -1;
      } else if c.balance < 0 {
        gparBalance := 1;
      }
      slots := slots[gpar - 1 := slots[gpar - 1].(left := c.right, balance := gparBalance)];
      slots := slots[par - 1 := slots[par - 1].(right := c.left, balance := parBalance)];
      slots := slots[cur - 1 := slots[cur - 1].(left := par, right := gpar, balance := 0)];
    }

    method Relink(gp: nat, par: nat, top: nat)
      requires gp != 0 ==> Within(slots, gp)
      modifies this`slots
      ensures slots == Relinked(old(slots), gp, par, top)
    {
      if gp != 0 {
        if slots[gp - 1].left == par {
          slots := slots[gp - 1 := slots[gp - 1].(left := top)];
        } else {
          slots := slots[gp - 1 := slots[gp - 1].(right := top)];
        }
      }
    }

    /** Follows the keys down from the root, and stops at `k` or at the place where it would be. */
    method FindSeq(k: int) returns (path: seq<nat>, isLess: bool, ghost ctx: seq<Frame<V>>, ghost t: Tree<V>)
      requires root == Idx(tree) && Lays(slots, [], tree) && Sorted(Flat(tree))
      ensures PlugAll(ctx, t) == tree && Lays(slots, ctx, t) && IsPath(path, ctx, t)
      ensures Brackets(ctx, k) && (t.Fork? ==> t.item.key == k)
      ensures ctx != [] ==> isLess == ctx[|ctx| - 1].goesLeft
      ensures k in Contents() <==> t.Fork?
    {
      path, isLess := [], true;
      var cur := root;
      ctx, t := [], tree;
      while true
        invariant Searching(path, ctx, t, tree, k) && cur == Idx(t) && Holds(slots, t)
        invariant ctx != [] ==> isLess == ctx[|ctx| - 1].goesLeft
        decreases t
      {
        ghost var before := path;
        path := path + [cur];
        if cur == 0 {
          break;
        }
        var node := slots[cur - 1];
        if k < node.key {
          SearchGoesOn(before, ctx, t, tree, k, true);
          cur, isLess := node.left, true;
          ctx, t := ctx + [FrameOf(t, true)], t.left;
        } else if node.key < k {
          SearchGoesOn(before, ctx, t, tree, k, false);
          cur, isLess := node.right, false;
          ctx, t := ctx + [FrameOf(t, false)], t.right;
        } else {
          break;
        }
      }
      FoundAt(slots, ctx, t, tree, k);
    }
  
    /** The rotation of a subtree that leans to the left, and the link to its new root. */
    method LeanRight(par: nat, cur: nat, gp: nat, ghost ctx: seq<Frame<V>>, ghost p: Tree<V>) returns (top: nat)
      requires Lays(slots, ctx, p) && p.Fork? && p.left.Fork? && (p.left.balance > 0 ==> p.left.right.Fork?)
      requires par == Idx(p) && cur == Idx(p.left) && gp == Above(ctx)
      modifies this`slots
      ensures Lays(slots, ctx, AvlTree.LeanRight(p)) && top == Idx(AvlTree.LeanRight(p)) && |slots| == old(|slots|)
    {
      LaysApart(ctx, p);
      LeanRightIsApart(p);
      LeanedRightHolds(slots, p);
      if slots[cur - 1].balance > 0 {
        top := slots[cur - 1].right;
        RotLeftRight(par, cur, top);
      } else {
        top := cur;
        RotRight(par, cur);
      }
      RelinkedLays(old(slots), slots, ctx, p, AvlTree.LeanRight(p));
      Relink(gp, par, top);
    }

    method LeanLeft(par: nat, cur: nat, gp: nat, ghost ctx: seq<Frame<V>>, ghost p: Tree<V>) returns (top: nat)
      requires Lays(slots, ctx, p) && p.Fork? && p.right.Fork? && (p.right.balance < 0 ==> p.right.left.Fork?)
      requires par == Idx(p) && cur == Idx(p.right) && gp == Above(ctx)
      modifies this`slots
      ensures Lays(slots, ctx, AvlTree.LeanLeft(p)) && top == Idx(AvlTree.LeanLeft(p)) && |slots| == old(|slots|)
    {
      LaysApart(ctx, p);
      LeanLeftIsApart(p);
      LeanedLeftHolds(slots, p);
      if slots[cur - 1].balance < 0 {
        top := slots[cur - 1].left;
        RotRightLeft(par, cur, top);
      } else {
        top := cur;
        RotLeft(par, cur);
      }
      RelinkedLays(old(slots), slots, ctx, p, AvlTree.LeanLeft(p));
      Relink(gp, par, top);
    }

    /** The rotation at the parent in a path, and the path to the new root of that subtree. */
    method TiltRight(path: seq<nat>, par: nat, cur: nat, ghost ctx: seq<Frame<V>>, ghost p: Tree<V>)
      returns (next: seq<nat>, ghost u: Tree<V>)
      requires Lays(slots, ctx, p) && p.Fork? && p.left.Fork? && (p.left.balance > 0 ==> p.left.right.Fork?)
      requires par == Idx(p) && cur == Idx(p.left)
      requires |path| == |ctx| + 2 && forall i :: 0 <= i < |ctx| ==> path[i] == ctx[i].item.at
      modifies this`slots
      ensures u == AvlTree.LeanRight(p) && Lays(slots, ctx, u) && IsPath(next, ctx, u) && |slots| == old(|slots|)
    {
      var gp := if |path| == 2 then 0 else path[|path| - 3];
      var top := LeanRight(par, cur, gp, ctx, p);
      next, u := path[..|path| - 2] + [top], AvlTree.LeanRight(p);
    }

    method TiltLeft(path: seq<nat>, par: nat, cur: nat, ghost ctx: seq<Frame<V>>, ghost p: Tree<V>)
      returns (next: seq<nat>, ghost u: Tree<V>)
      requires Lays(slots, ctx, p) && p.Fork? && p.right.Fork? && (p.right.balance < 0 ==> p.right.left.Fork?)
      requires par == Idx(p) && cur == Idx(p.right)
      requires |path| == |ctx| + 2 && forall i :: 0 <= i < |ctx| ==> path[i] == ctx[i].item.at
      modifies this`slots
      ensures u == AvlTree.LeanLeft(p) && Lays(slots, ctx, u) && IsPath(next, ctx, u) && |slots| == old(|slots|)
    {
      var gp := if |path| == 2 then 0 else path[|path| - 3];
      var top := LeanLeft(par, cur, gp, ctx, p);
      next, u := path[..|path| - 2] + [top], AvlTree.LeanLeft(p);
    }

    method SetBalance(at: nat, balance: int)
      requires Within(slots, at)
      modifies this`slots
      ensures slots == old(slots)[at - 1 := old(slots)[at - 1].(balance := balance)]
    {
      slots := slots[at - 1 := slots[at - 1].(balance := balance)];
    }

    /** One round on the way up from a subtree that has grown: the parent's new balance, or a rotation. */
    method GrowRound(path: seq<nat>, ghost ctx: seq<Frame<V>>, ghost t: Tree<V>)
      returns (next: seq<nat>, again: bool, ghost u: Tree<V>)
      requires ctx != [] && Lays(slots, ctx, t) && IsPath(path, ctx, t)
      requires Exact(t) && t.Fork? && GrowForm(ctx[|ctx| - 1], t)
      modifies this`slots
      ensures Lays(slots, ctx[..|ctx| - 1], u) && IsPath(next, ctx[..|ctx| - 1], u)
      ensures (u, again) == GrowStep(ctx[|ctx| - 1], t)
      ensures |slots| == old(|slots|)
    {
      ghost var f, init := ctx[|ctx| - 1], ctx[..|ctx| - 1];
      ParentLays(slots, ctx, t);
      var cur, par := path[|path| - 1], path[|path| - 2];
      var isLeft := cur == slots[par - 1].left;
      var newBalance := slots[par - 1].balance + if isLeft then -1 else 1;
      if newBalance == -2 {
        again := false;
        next, u := TiltRight(path, par, cur, init, Plug(f, t));
      } else if newBalance == 2 {
        again := false;
        next, u := TiltLeft(path, par, cur, init, Plug(f, t));
      } else {
        RebalancedLays(slots, ctx, t, newBalance);
        SetBalance(par, newBalance);
        next, again, u := path[..|path| - 1], newBalance != 0, Plug(f.(balance := newBalance), t);
      }
    }
  
    /** The way up after an insertion. */
    method RebalanceGrown(path0: seq<nat>, ghost ctx0: seq<Frame<V>>, ghost t0: Tree<V>, ghost goal: Tree<V>)
      returns (path: seq<nat>)
      requires Lays(slots, ctx0, t0) && IsPath(path0, ctx0, t0) && Growing(ctx0, t0, goal)
      modifies this`slots
      ensures Lays(slots, [], goal) && path != [] && path[0] == Idx(goal) && |slots| == old(|slots|)
    {
      path := path0;
      ghost var ctx, t := ctx0, t0;
      while |path| >= 2
        invariant Lays(slots, ctx, t) && IsPath(path, ctx, t) && |slots| == old(|slots|) && Growing(ctx, t, goal)
        decreases |ctx|
      {
        GrowGoesOn(ctx, t, goal);
        GrowCases(ctx[|ctx| - 1], t);
        ghost var init, u := ctx[..|ctx| - 1], t;
        var again;
        path, again, u := GrowRound(path, ctx, t);
        if !again {
          Settled(slots, path, init, u);
          return;
        }
        ctx, t := init, u;
      }
    }

    /** Writes what `_Node.__init__` writes; no value leaves the old one in place. */
    method InitNode(idx: nat, k: int, value: Option<V>)
      requires idx < |slots|
      modifies this`slots
      ensures slots == old(slots)[idx := Node(k, value.GetOr(old(slots)[idx].value), 0, 0, 0)]
    {
      slots := slots[idx := slots[idx].(key := k)];
      if value.Some? {
        slots := slots[idx := slots[idx].(value := value.value)];
      }
      slots := slots[idx := slots[idx].(left := 0)];
      slots := slots[idx := slots[idx].(right := 0)];
      slots := slots[idx := slots[idx].(balance := 0)];
    }

    method Link(par: nat, isLess: bool, child: nat)
      requires Within(slots, par)
      modifies this`slots
      ensures slots == Linked(old(slots), par, isLess, child)
    {
      if isLess {
        slots := slots[par - 1 := slots[par - 1].(left := child)];
      } else {
        slots := slots[par - 1 := slots[par - 1].(right := child)];
      }
    }

    /** The parent names a new child, or the root is another one. */
    method LinkChild(path: seq<nat>, at: nat, isLess: bool, child: nat, ghost ctx: seq<Frame<V>>)
      requires at == |ctx| < |path| && (forall i :: 0 <= i < |ctx| ==> path[i] == ctx[i].item.at)
      requires ctx != [] ==> Within(slots, Above(ctx)) && isLess == ctx[|ctx| - 1].goesLeft
      modifies this`slots, this`root
      ensures slots == Hooked(old(slots), ctx, child)
    {
      if at > 0 {
        Link(path[at - 1], isLess, child);
      } else {
        root := child;
      }
    }

    /** Writes a new leaf to a slot, and hangs it where the search for its key has ended. */
    method HangLeaf(idx: nat, k: int, value: Option<V>, path: seq<nat>, isLess: bool,
                    ghost was: seq<Node<V>>, ghost ctx: seq<Frame<V>>, ghost leaf: Tree<V>) returns (longer: seq<nat>)
      requires Lays(was, ctx, Leaf) && ChangedIn(was, slots, {}) && IsPath(path, ctx, Leaf)
      requires idx < |slots| && idx + 1 !in Ats(Before(ctx)) && idx + 1 !in Ats(After(ctx))
      requires leaf == Fork(Leaf, Item(idx + 1, k, value.GetOr(slots[idx].value)), 0, Leaf)
      requires ctx != [] ==> isLess == ctx[|ctx| - 1].goesLeft
      modifies this`slots, this`root
      ensures Lays(slots, ctx, leaf) && IsPath(longer, ctx, leaf) && |slots| == old(|slots|)
    {
      longer := path[..|path| - 1] + [idx + 1];
      assert IsPath(longer, ctx, leaf);
      LinkedLeafLays(was, slots, ctx, leaf);
      LinkChild(path, |path| - 1, isLess, idx + 1, ctx);
      InitNode(idx, k, value);
    }

    method AddLeaf(k: int, value: Option<V>, path: seq<nat>, isLess: bool,
                   ghost ctx: seq<Frame<V>>, ghost used: set<nat>)
      returns (idx: nat, longer: seq<nat>, ghost leaf: Tree<V>)
      requires Accounted(|slots|, used, freeSlots) && used == Ats(Before(ctx)) + Ats(After(ctx))
      requires Lays(slots, ctx, Leaf) && IsPath(path, ctx, Leaf)
      requires ctx != [] ==> isLess == ctx[|ctx| - 1].goesLeft
      modifies this`slots, this`freeSlots, this`stale, this`root
      ensures leaf == Fork(Leaf, Item(idx + 1, k, value.GetOr(old(NextCell()).value)), 0, Leaf)
      ensures Lays(slots, ctx, leaf) && IsPath(longer, ctx, leaf)
      ensures Accounted(|slots|, used + {idx + 1}, freeSlots)
      ensures |slots| - |freeSlots| == old(|slots| - |freeSlots|) + 1
      ensures |slots| == old(|slots|) + if old(freeSlots) == [] then 1 else 0
    {
      idx := AllocSlot(used);
      leaf := Fork(Leaf, Item(idx + 1, k, value.GetOr(old(NextCell()).value)), 0, Leaf);
      longer := HangLeaf(idx, k, value, path, isLess, old(slots), ctx, leaf);
    }

    method SetValue(idx: nat, value: V, ghost ctx: seq<Frame<V>>, ghost t: Tree<V>)
      requires Valid() && PlugAll(ctx, t) == tree && Lays(slots, ctx, t) && t.Fork? && idx + 1 == t.item.at
      modifies this`slots, this`tree
      ensures Valid() && Contents() == old(Contents())[t.item.key := value]
      ensures |slots| == old(|slots|) && idx < |slots| && slots[idx].value == value
    {
      ghost var u, was := t.(item := t.item.(value := value)), tree;
      RevaluedLays(slots, ctx, t, u);
      slots := slots[idx := slots[idx].(value := value)];
      tree := RevaluedAll(slots, ctx, t, u, was);
    }

    method SetRoot(top: nat)
      modifies this`root
      ensures root == top
    {
      if root != top {
        root := top;
      }
    }

    ghost predicate Holding(goal: Tree<V>)
      reads this
    {
      root == Idx(goal) && Lays(slots, [], goal) && Exact(goal) && Sorted(Flat(goal))
    }

    /** The new item's value, in the tree that is now in the slots. */
    method Inserted(idx: nat, ghost was: Tree<V>, ghost item: Item<V>, ghost goal: Tree<V>) returns (r: V)
      requires Holding(goal) && AsMap(Flat(goal)) == AsMap(Flat(was))[item.key := item.value]
      requires Accounted(|slots|, Ats(Flat(was)) + {idx + 1}, freeSlots) && |slots| == |Flat(was)| + 1 + |freeSlots|
      requires |Flat(goal)| == |Flat(was)| + 1 && Ats(Flat(goal)) == Ats(Flat(was)) + {item.at}
      requires idx + 1 == item.at && item in Flat(goal)
      modifies this`tree
      ensures Valid() && Contents() == AsMap(Flat(was))[item.key := item.value] && r == item.value
    {
      tree := goal;
      ItemIsHeld(slots, goal, item);
      r := slots[idx].value;
    }

    method Insert(k: int, value: Option<V>, path: seq<nat>, isLess: bool, ghost ctx: seq<Frame<V>>) returns (r: V)
      requires Valid() && PlugAll(ctx, Leaf) == tree && Lays(slots, ctx, Leaf) && IsPath(path, ctx, Leaf)
      requires Brackets(ctx, k) && (ctx != [] ==> isLess == ctx[|ctx| - 1].goesLeft)
      modifies this
      ensures Valid() && Contents() == old(Contents())[k := r] && r == value.GetOr(old(NextCell()).value)
      ensures |slots| == old(|slots|) + if old(freeSlots) == [] then 1 else 0
    {
      ghost var was := tree;
      AroundLeaf(ctx);
      var idx, longer, leaf := AddLeaf(k, value, path, isLess, ctx, Ats(Flat(was)));
      ghost var goal := LeafGrows(ctx, leaf, was);
      longer := RebalanceGrown(longer, ctx, leaf, goal);
      SetRoot(longer[0]);
      r := Inserted(idx, was, leaf.item, goal);
    }

    /** What is done at `k`: the value to put there if the key is present, and the one to start with if it is not. */
    method GetSet(k: int, present: Option<V>, absent: Option<V>) returns (r: V)
      requires Valid() && (freeSlots != [] || |slots| < U32_MAX)
      modifies this
      ensures Valid()
      ensures k in old(Contents()) && present.Some? ==> Contents() == old(Contents())[k := present.value]
      ensures k in old(Contents()) && present.None? ==> Contents() == old(Contents())
      ensures k in old(Contents()) ==> r == Contents()[k]
      ensures k !in old(Contents()) ==> Contents() == old(Contents())[k := r]
      ensures k !in old(Contents()) ==> r == absent.GetOr(old(NextCell()).value)
      ensures |slots| == old(|slots|) + if k !in old(Contents()) && old(freeSlots) == [] then 1 else 0
    {
      var path, isLess, ctx, t := FindSeq(k);
      if path[|path| - 1] != 0 {
        SearchDecides(ctx, t, k);
        var idx := path[|path| - 1] - 1;
        if present.Some? {
          SetValue(idx, present.value, ctx, t);
        }
        return slots[idx].value;
      }
      r := Insert(k, absent, path, isLess, ctx);
    }
  
    /** Goes on from `path` to the leftmost node of `r`. */
    method FindLeast(path: seq<nat>, at: nat, ghost r: Tree<V>)
      returns (walk: seq<nat>, ghost lefts: seq<Frame<V>>, ghost s: Tree<V>)
      requires Holds(slots, r) && r.Fork? && at == Idx(r)
      ensures PlugAll(lefts, s) == r && AllLeft(lefts) && s.Fork? && s.left.Leaf?
      ensures |walk| == |path| + 1 + |lefts| && walk[..|path|] == path && IsPath(walk[|path|..], lefts, s)
    {
      walk, lefts, s := path + [at], [], r;
      while true
        invariant PlugAll(lefts, s) == r && AllLeft(lefts) && s.Fork? && Holds(slots, s)
        invariant |walk| == |path| + 1 + |lefts| && walk[..|path|] == path && walk[|walk| - 1] == Idx(s)
        invariant forall i :: 0 <= i < |lefts| ==> walk[|path| + i] == lefts[i].item.at
        decreases s
      {
        var left := slots[walk[|walk| - 1] - 1].left;
        if left == 0 {
          assert s.left.Leaf?;
          break;
        }
        walk := walk + [left];
        assert (lefts + [FrameOf(s, true)])[..|lefts|] == lefts;
        lefts, s := lefts + [FrameOf(s, true)], s.left;
      }
    }

    method MoveNode(m: nat, par: nat, left: nat, right: nat) returns (child: nat)
      requires Within(slots, m) && (par != 0 ==> Within(slots, par)) && m != par
      modifies this`slots
      ensures slots == Moved(old(slots), m, par, left, right) && child == old(slots)[m - 1].right
    {
      slots := slots[m - 1 := slots[m - 1].(left := left)];
      child := slots[m - 1].right;
      if par != 0 {
        slots := slots[par - 1 := slots[par - 1].(left := child)];
        slots := slots[m - 1 := slots[m - 1].(right := right)];
      }
    }

  
    /** A node without a left or without a right child gives way to the other one. */
    method PutChild(path: seq<nat>, isLess: bool, left: nat, right: nat,
                    ghost was: seq<Node<V>>, ghost ctx: seq<Frame<V>>, ghost d: Tree<V>)
      returns (next: seq<nat>, ghost hole: Tree<V>)
      requires Lays(was, ctx, d) && d.Fork? && ChangedIn(was, slots, {d.item.at}) && Exact(PlugAll(ctx, d))
      requires left == Idx(d.left) && right == Idx(d.right) && (left == 0 || right == 0) && IsPath(path, ctx, d)
      requires ctx != [] ==> isLess == ctx[|ctx| - 1].goesLeft
      modifies this`slots, this`root
      ensures Lays(slots, ctx, hole) && IsPath(next, ctx, hole) && |slots| == old(|slots|)
      ensures Opens(ctx, d, ctx, hole)
    {
      assert Holds(was, d.left) && Holds(was, d.right);
      hole := if left == 0 then d.right else d.left;
      var child := if left == 0 then right else left;
      NarrowLays(was, slots, ctx, d, hole);
      ChildIsOut(ctx, d, hole);
      next := path[..|path| - 1] + [child];
      LinkChild(next, |next| - 1, isLess, child, ctx);
      if child != 0 {
        RootBalanced(slots, ctx, hole, 0);
        SetBalance(child, 0);
      }
    }

    /** The path to the hole that the leftmost node leaves, but for the last entry; and that node and its parent. */
    method WalkToLeast(path: seq<nat>, right: nat, ghost ctx: seq<Frame<V>>, ghost d: Tree<V>)
      returns (walk: seq<nat>, m: nat, par: nat, ghost lefts: seq<Frame<V>>, ghost s: Tree<V>)
      requires d.Fork? && Holds(slots, d.right) && d.right.Fork? && right == Idx(d.right) && IsPath(path, ctx, d)
      ensures d.right == PlugAll(lefts, s) && AllLeft(lefts) && s.Fork? && s.left.Leaf?
      ensures m == Idx(s) && par == Above(lefts) && walk != []
      ensures IsPath(walk[|walk| - 1 := Idx(s.right)], LeastCtx(ctx, d, lefts, s), s.right)
    {
      var n := |path| - 1;
      walk, lefts, s := FindLeast(path, right, d.right);
      WalkIsPath(path, walk, ctx, d, lefts, s);
      m := walk[|walk| - 1];
      par := if n + 2 == |walk| then 0 else walk[|walk| - 2];
      walk := walk[n := m];
    }

    /** The leftmost node takes over the links and the balance of `d`, and its parent takes its right child. */
    method PromoteLeast(m: nat, par: nat, left: nat, right: nat, balance: int, path: seq<nat>, isLess: bool,
                        ghost was: seq<Node<V>>, ghost ctx: seq<Frame<V>>, ghost d: Tree<V>,
                        ghost lefts: seq<Frame<V>>, ghost s: Tree<V>) returns (child: nat)
      requires Lays(was, ctx, d) && d.Fork? && ChangedIn(was, slots, {d.item.at})
      requires d.right == PlugAll(lefts, s) && AllLeft(lefts) && s.Fork? && s.left.Leaf?
      requires m == Idx(s) && par == Above(lefts)
      requires left == Idx(d.left) && right == Idx(d.right) && balance == d.balance
      requires IsPath(path, ctx, d) && (ctx != [] ==> isLess == ctx[|ctx| - 1].goesLeft)
      modifies this`slots, this`root
      ensures Lays(slots, LeastCtx(ctx, d, lefts, s), s.right) && child == Idx(s.right) && |slots| == old(|slots|)
    {
      LiftedLays(was, slots, ctx, d, lefts, s);
      child := MoveNode(m, par, left, right);
      LinkChild(path, |path| - 1, isLess, m, ctx);
      WideLays(slots, ctx, d, lefts, s);
      SetBalance(m, balance);
    }

    /** A node with two children gives way to the leftmost node of its right subtree. */
    method PutLeast(path: seq<nat>, isLess: bool, left: nat, right: nat, balance: int,
                    ghost was: seq<Node<V>>, ghost ctx: seq<Frame<V>>, ghost d: Tree<V>)
      returns (next: seq<nat>, ghost inner: seq<Frame<V>>, ghost hole: Tree<V>)
      requires Lays(was, ctx, d) && d.Fork? && ChangedIn(was, slots, {d.item.at}) && Exact(PlugAll(ctx, d))
      requires left == Idx(d.left) && right == Idx(d.right) && left != 0 && right != 0 && balance == d.balance
      requires IsPath(path, ctx, d) && (ctx != [] ==> isLess == ctx[|ctx| - 1].goesLeft)
      modifies this`slots, this`root
      ensures Lays(slots, inner, hole) && IsPath(next, inner, hole) && Sided(inner, hole) && |slots| == old(|slots|)
      ensures Opens(ctx, d, inner, hole)
    {
      RightStillHolds(was, slots, ctx, d);
      var walk, m, par, lefts, s := WalkToLeast(path, right, ctx, d);
      var child := PromoteLeast(m, par, left, right, balance, path, isLess, was, ctx, d, lefts, s);
      next := walk[|walk| - 1 := child];
      inner, hole := LeastCtx(ctx, d, lefts, s), s.right;
      LeastIsOut(slots, ctx, d, lefts, s);
    }
  
    /** The rotation over a subtree that has shrunk, and whether the tree is lower now: not if the sibling was even. */
    method TiltSiblingRight(path: seq<nat>, par: nat, ghost ctx: seq<Frame<V>>, ghost p: Tree<V>)
      returns (next: seq<nat>, lower: bool, ghost u: Tree<V>)
      requires Lays(slots, ctx, p) && p.Fork? && p.left.Fork? && (p.left.balance > 0 ==> p.left.right.Fork?)
      requires par == Idx(p) && |path| == |ctx| + 2 && forall i :: 0 <= i < |ctx| ==> path[i] == ctx[i].item.at
      modifies this`slots
      ensures u == AvlTree.LeanRight(p) && Lays(slots, ctx, u) && IsPath(next, ctx, u) && |slots| == old(|slots|)
      ensures lower == (p.left.balance != 0)
    {
      assert Holds(slots, p.left);
      var sib := slots[par - 1].left;
      lower := slots[sib - 1].balance != 0;
      next, u := TiltRight(path, par, sib, ctx, p);
    }

    method TiltSiblingLeft(path: seq<nat>, par: nat, ghost ctx: seq<Frame<V>>, ghost p: Tree<V>)
      returns (next: seq<nat>, lower: bool, ghost u: Tree<V>)
      requires Lays(slots, ctx, p) && p.Fork? && p.right.Fork? && (p.right.balance < 0 ==> p.right.left.Fork?)
      requires par == Idx(p) && |path| == |ctx| + 2 && forall i :: 0 <= i < |ctx| ==> path[i] == ctx[i].item.at
      modifies this`slots
      ensures u == AvlTree.LeanLeft(p) && Lays(slots, ctx, u) && IsPath(next, ctx, u) && |slots| == old(|slots|)
      ensures lower == (p.right.balance != 0)
    {
      assert Holds(slots, p.right);
      var sib := slots[par - 1].right;
      lower := slots[sib - 1].balance != 0;
      next, u := TiltLeft(path, par, sib, ctx, p);
    }

    /** One round on the way up from a subtree that has shrunk. */
    method ShrinkRound(path: seq<nat>, isLeft: bool, ghost ctx: seq<Frame<V>>, ghost t: Tree<V>)
      returns (next: seq<nat>, again: bool, ghost u: Tree<V>)
      requires ctx != [] && Lays(slots, ctx, t) && IsPath(path, ctx, t)
      requires ShrinkForm(ctx[|ctx| - 1], t) && isLeft == ctx[|ctx| - 1].goesLeft
      modifies this`slots
      ensures Lays(slots, ctx[..|ctx| - 1], u) && IsPath(next, ctx[..|ctx| - 1], u)
      ensures (u, again) == ShrinkStep(ctx[|ctx| - 1], t)
      ensures |slots| == old(|slots|)
    {
      ghost var f, init := ctx[|ctx| - 1], ctx[..|ctx| - 1];
      ParentLays(slots, ctx, t);
      var par := path[|path| - 2];
      var newBalance := slots[par - 1].balance + if isLeft then 1 else -1;
      if newBalance == -2 {
        next, again, u := TiltSiblingRight(path, par, init, Plug(f, t));
      } else if newBalance == 2 {
        next, again, u := TiltSiblingLeft(path, par, init, Plug(f, t));
      } else {
        RebalancedLays(slots, ctx, t, newBalance);
        SetBalance(par, newBalance);
        next, again, u := path[..|path| - 1], newBalance == 0, Plug(f.(balance := newBalance), t);
      }
    }

    /** The way up after a removal. */
    method RebalanceShrunk(path0: seq<nat>, isLess: bool, special0: bool,
                           ghost ctx0: seq<Frame<V>>, ghost t0: Tree<V>, ghost goal: Tree<V>)
      returns (path: seq<nat>)
      requires Lays(slots, ctx0, t0) && IsPath(path0, ctx0, t0) && Shrinking(ctx0, t0, goal)
      requires ctx0 != [] ==> if special0 then isLess == ctx0[|ctx0| - 1].goesLeft else Sided(ctx0, t0)
      modifies this`slots
      ensures Lays(slots, [], goal) && path != [] && path[0] == Idx(goal) && |slots| == old(|slots|)
    {
      path := path0;
      var special := special0;
      ghost var ctx, t := ctx0, t0;
      while |path| >= 2
        invariant Lays(slots, ctx, t) && IsPath(path, ctx, t) && |slots| == old(|slots|) && Shrinking(ctx, t, goal)
        invariant ctx != [] ==> if special then isLess == ctx[|ctx| - 1].goesLeft else Sided(ctx, t)
        decreases |ctx|
      {
        ShrinkFits(ctx, t, goal);
        ShrinkGoesOn(ctx, t, goal);
        ShrinkCases(ctx[|ctx| - 1], t);
        ghost var init, u := ctx[..|ctx| - 1], t;
        ParentLays(slots, ctx, t);
        var isLeft := if special then isLess else path[|path| - 1] == slots[path[|path| - 2] - 1].left;
        var again;
        path, again, u := ShrinkRound(path, isLeft, ctx, t);
        special := false;
        if !again {
          Settled(slots, path, init, u);
          return;
        }
        SidedAgain(slots, init, u);
        ctx, t := init, u;
      }
    }
  
    /** Frees the slot of `d` and puts another node, or none, in its place. */
    method Unhook(path: seq<nat>, isLess: bool, ghost ctx: seq<Frame<V>>, ghost d: Tree<V>, ghost used: set<nat>)
      returns (next: seq<nat>, special: bool, ghost inner: seq<Frame<V>>, ghost hole: Tree<V>)
      requires Lays(slots, ctx, d) && d.Fork? && IsPath(path, ctx, d) && Exact(PlugAll(ctx, d))
      requires ctx != [] ==> isLess == ctx[|ctx| - 1].goesLeft
      requires Accounted(|slots|, used, freeSlots) && d.item.at in used
      modifies this`slots, this`freeSlots, this`stale, this`root
      ensures Lays(slots, inner, hole) && IsPath(next, inner, hole)
      ensures inner != [] ==> if special then isLess == inner[|inner| - 1].goesLeft else Sided(inner, hole)
      ensures Opens(ctx, d, inner, hole)
      ensures Accounted(|slots|, used - {d.item.at}, freeSlots)
      ensures |slots| - |freeSlots| == old(|slots| - |freeSlots|) - 1 && |slots| <= old(|slots|)
      ensures d.item.at == old(|slots|) ==>
                freeSlots == old(freeSlots) && stale != [] && stale[0].value == d.item.value
    {
      var at := path[|path| - 1];
      var node := slots[at - 1];
      FreeSlot(at - 1, used);
      if node.left == 0 || node.right == 0 {
        special, inner := true, ctx;
        next, hole := PutChild(path, isLess, node.left, node.right, old(slots), ctx, d);
      } else {
        special := false;
        next, inner, hole := PutLeast(path, isLess, node.left, node.right, node.balance, old(slots), ctx, d);
      }
    }

    ghost method Taken(was: Tree<V>, item: Item<V>, goal: Tree<V>)
      requires Holding(goal) && AsMap(Flat(goal)) == AsMap(Flat(was)) - {item.key}
      requires Accounted(|slots|, Ats(Flat(was)) - {item.at}, freeSlots) && |slots| == |Flat(was)| - 1 + |freeSlots|
      requires |Flat(goal)| == |Flat(was)| - 1 && Ats(Flat(goal)) == Ats(Flat(was)) - {item.at}
      modifies this`tree
      ensures Valid() && Contents() == AsMap(Flat(was)) - {item.key}
    {
      tree := goal;
    }

    method Take(path: seq<nat>, isLess: bool, ghost ctx: seq<Frame<V>>, ghost d: Tree<V>)
      requires Valid() && PlugAll(ctx, d) == tree && Lays(slots, ctx, d) && d.Fork? && IsPath(path, ctx, d)
      requires ctx != [] ==> isLess == ctx[|ctx| - 1].goesLeft
      modifies this
      ensures Valid() && Contents() == old(Contents()) - {d.item.key} && |slots| <= old(|slots|)
      ensures d.item.at == old(|slots|) ==>
                freeSlots == old(freeSlots) && stale != [] && stale[0].value == d.item.value
    {
      ghost var was := tree;
      RootIn(d);
      AtsOfPlugged(ctx, d);
      LaysApart([], was);
      var next, special, inner, hole := Unhook(path, isLess, ctx, d, Ats(Flat(was)));
      ghost var goal := ShrinksTo(ctx, d, inner, hole, was);
      next := RebalanceShrunk(next, isLess, special, inner, hole, goal);
      SetRoot(next[0]);
      Taken(was, d.item, goal);
    }

    /** Removes the entry of `k`; false is the `KeyError`. */
    method Del(k: int) returns (found: bool)
      requires Valid()
      modifies this
      ensures Valid() && found == (k in old(Contents())) && Contents() == old(Contents()) - {k}
      ensures |slots| <= old(|slots|)
      ensures found && old(|slots|) == 1 ==> NextCell().value == old(Contents())[k]
    {
      var path, isLess, ctx, d := FindSeq(k);
      if path[|path| - 1] == 0 {
        return false;
      }
      found := true;
      SearchDecides(ctx, d, k);
      OnlySlot(ctx, d, |slots|, freeSlots);
      Take(path, isLess, ctx, d);
    }

  
    method SetItem(k: int, v: V)
      requires Valid() && (freeSlots != [] || |slots| < U32_MAX)
      modifies this
      ensures Valid() && Contents() == old(Contents())[k := v]
      ensures |slots| == old(|slots|) + if k !in old(Contents()) && old(freeSlots) == [] then 1 else 0
    {
      var _ := GetSet(k, Some(v), Some(v));
    }

    /** The list that the value is read from is only filled if the key was there; none is the `IndexError`. */
    method ComputeIfAbsent(k: int, supplied: V) returns (r: Option<V>)
      requires Valid() && (freeSlots != [] || |slots| < U32_MAX)
      modifies this
      ensures Valid() && (r.None? <==> k !in old(Contents())) && (r.Some? ==> r.value == old(Contents())[k])
      ensures Contents() == if k in old(Contents()) then old(Contents()) else old(Contents())[k := supplied]
    {
      var present := Contains(k);
      var value := GetSet(k, None, Some(supplied));
      r := if present then Some(value) else None;
    }

    /** A new key starts with what its cell holds, which need not be the default. */
    method GetOrInsertDefault(k: int) returns (r: V)
      requires Valid() && (freeSlots != [] || |slots| < U32_MAX)
      modifies this
      ensures Valid() && Contents() == old(Contents())[k := r]
      ensures r == if k in old(Contents()) then old(Contents())[k] else old(NextCell()).value
    {
      r := GetSet(k, None, None);
      assert k in old(Contents()) ==> Contents() == old(Contents())[k := r];
    }

    method Get(k: int) returns (r: Option<V>)
      requires Valid()
      ensures r == if k in Contents() then Some(Contents()[k]) else None
    {
      var idx := root;
      ghost var ctx: seq<Frame<V>>, t := [], tree;
      while idx != 0
        invariant idx == Idx(t) && PlugAll(ctx, t) == tree && Holds(slots, t) && Decided(ctx, k)
        decreases t
      {
        var node := slots[idx - 1];
        if k < node.key {
          Descend(ctx, t, k, true);
          idx := node.left;
          ctx, t := ctx + [FrameOf(t, true)], t.left;
        } else if node.key < k {
          Descend(ctx, t, k, false);
          idx := node.right;
          ctx, t := ctx + [FrameOf(t, false)], t.right;
        } else {
          FoundAt(slots, ctx, t, tree, k);
          return Some(node.value);
        }
      }
      FoundAt(slots, ctx, t, tree, k);
      r := None;
    }

    method Contains(k: int) returns (r: bool)
      requires Valid()
      ensures r == (k in Contents())
    {
      var value := Get(k);
      r := value.Some?;
    }

    /** `MutableMapping.pop` with no default. */
    method Pop(k: int) returns (r: Option<V>)
      requires Valid()
      modifies this
      ensures Valid() && Contents() == old(Contents()) - {k} && |slots| <= old(|slots|)
      ensures r == if k in old(Contents()) then Some(old(Contents())[k]) else None
    {
      r := Get(k);
      if r.Some? {
        var _ := Del(k);
      }
    }

    method Len() returns (n: nat)
      requires Valid()
      ensures n == |Contents()|
    {
      AsMapSize(Flat(tree));
      n := |slots| - |freeSlots|;
    }

    /** Forgets the entries; the memory they are in is not written. */
    method Clear()
      requires Valid()
      modifies this
      ensures Valid() && Contents() == map[] && stale == old(slots) + old(stale)
    {
      root := 0;
      stale := slots + stale;
      slots, freeSlots := [], [];
      tree := Leaf;
    }

    /** The entries from the least key to the greatest. */
    method Items() returns (r: seq<(int, V)>)
      requires Valid()
      ensures |r| == |Contents()| && (forall i, j :: 0 <= i < j < |r| ==> r[i].0 < r[j].0)
      ensures forall i :: 0 <= i < |r| ==> r[i].0 in Contents() && Contents()[r[i].0] == r[i].1
    {
      r := Visit(root, tree);
      AsMapSize(Flat(tree));
      AsMapHas(Flat(tree));
    }

    method Visit(idx: nat, ghost t: Tree<V>) returns (r: seq<(int, V)>)
      requires Holds(slots, t) && idx == Idx(t)
      ensures r == Pairs(Flat(t))
      decreases t
    {
      if idx == 0 {
        return [];
      }
      var node := slots[idx - 1];
      var less := Visit(node.left, t.left);
      var more := Visit(node.right, t.right);
      r := less + [(node.key, node.value)] + more;
    }
  }

  datatype Op<V> = Put(key: int, value: V) | Take(key: int)

  /** What a dictionary holds after the operations, and what it has returned for each that takes an entry out. */
  function DictAfter<V>(ops: seq<Op<V>>): map<int, V> {
    if ops == [] then map[]
    else
      var was := DictAfter(ops[..|ops| - 1]);
      match ops[|ops| - 1]
      case Put(k, v) => was[k := v]
      case Take(k) => was - {k}
  }

  function TakenBy<V>(ops: seq<Op<V>>): seq<Option<V>> {
    if ops == [] then []
    else
      var was := DictAfter(ops[..|ops| - 1]);
      TakenBy(ops[..|ops| - 1]) +
      match ops[|ops| - 1]
      case Put(_, _) => []
      case Take(k) => [if k in was then Some(was[k]) else None]
  }

  /** Any operations on a new map: what is taken out and what is there in the end are those of a dictionary. */
  method AgreesWithDict<V(!new)>(zero: V, ops: seq<Op<V>>) returns (m: TreeMap<V>, taken: seq<Option<V>>)
    requires |ops| <= U32_MAX
    ensures fresh(m) && m.Valid() && m.Contents() == DictAfter(ops) && taken == TakenBy(ops)
  {
    m := new TreeMap<V>(zero);
    taken := [];
    for i := 0 to |ops|
      invariant fresh(m) && m.Valid() && |m.slots| <= i
      invariant m.Contents() == DictAfter(ops[..i]) && taken == TakenBy(ops[..i])
    {
      assert ops[..i + 1][..i] == ops[..i] && ops[..i + 1][i] == ops[i];
      ghost var was := DictAfter(ops[..i]);
      assert DictAfter(ops[..i + 1]) == if ops[i].Put? then was[ops[i].key := ops[i].value] else was - {ops[i].key};
      match ops[i] {
        case Put(k, v) =>
          m.SetItem(k, v);
        case Take(k) =>
          var r := m.Pop(k);
          taken := taken + [r];
      }
    }
    assert ops[..|ops|] == ops;
  }

  /** A removed value comes back: the cell is taken again as it was left. */
  method ForgottenValueReturns<V(!new)>(zero: V, value: V) returns (r: V)
    ensures r == value
  {
    var m := new TreeMap<V>(zero);
    m.SetItem(1, value);
    var _ := m.Del(1);
    r := m.GetOrInsertDefault(1);
  }
}
