/** The slots of a tree map: which tree they hold, and what the assignments of a rotation do to it. */
module TreeSlots {
  import opened AvlTree

  /** A child is named by its slot's number plus one, and none by zero. */
  datatype Node<V> = Node(key: int, value: V, left: nat, right: nat, balance: int)

  function Idx<V>(t: Tree<V>): nat {
    if t.Leaf? then 0 else t.item.at
  }

  ghost predicate IsAt<V>(slots: seq<Node<V>>, at: nat, node: Node<V>) {
    0 < at <= |slots| && slots[at - 1] == node
  }

  function RootOf<V>(t: Tree<V>): Node<V>
    requires t.Fork?
  {
    Node(t.item.key, t.item.value, Idx(t.left), Idx(t.right), t.balance)
  }

  ghost predicate Holds<V>(slots: seq<Node<V>>, t: Tree<V>) {
    t.Fork? ==>
      && IsAt(slots, t.item.at, RootOf(t))
      && Holds(slots, t.left) && Holds(slots, t.right)
  }

  function NodeOf<V>(f: Frame<V>, hole: nat): Node<V> {
    if f.goesLeft then Node(f.item.key, f.item.value, hole, Idx(f.other), f.balance)
    else Node(f.item.key, f.item.value, Idx(f.other), hole, f.balance)
  }

  /** The nodes around a hole, the innermost of which names `hole` as its child there. */
  ghost predicate HoldsAll<V>(slots: seq<Node<V>>, ctx: seq<Frame<V>>, hole: nat)
    decreases |ctx|
  {
    ctx != [] ==>
      var f := ctx[|ctx| - 1];
      IsAt(slots, f.item.at, NodeOf(f, hole)) && Holds(slots, f.other) && HoldsAll(slots, ctx[..|ctx| - 1], f.item.at)
  }

  lemma {:induction false} HoldsPlugAll<V>(slots: seq<Node<V>>, ctx: seq<Frame<V>>, t: Tree<V>)
    ensures Holds(slots, PlugAll(ctx, t)) <==> Holds(slots, t) && HoldsAll(slots, ctx, Idx(t))
    decreases |ctx|
  {
    if ctx != [] {
      HoldsPlugAll(slots, ctx[..|ctx| - 1], Plug(ctx[|ctx| - 1], t));
    }
  }

  // ----- no slot twice

  ghost function Ats<V>(items: seq<Item<V>>): set<nat> {
    set item | item in items :: item.at
  }

  ghost predicate Apart<V>(items: seq<Item<V>>) {
    forall i, j :: 0 <= i < j < |items| ==> items[i].at != items[j].at
  }

  lemma ApartParts<V>(a: seq<Item<V>>, b: seq<Item<V>>)
    ensures Ats(a + b) == Ats(a) + Ats(b)
    ensures Apart(a + b) <==> Apart(a) && Apart(b) && Ats(a) !! Ats(b)
  {
    var all := a + b;
    assert forall i :: 0 <= i < |a| ==> all[i] == a[i];
    assert forall i :: 0 <= i < |b| ==> all[|a| + i] == b[i];
    if Apart(a) && Apart(b) && Ats(a) !! Ats(b) {
      forall i, j | 0 <= i < j < |all|
        ensures all[i].at != all[j].at
      {
        if i < |a| && j >= |a| {
          assert a[i].at in Ats(a) && b[j - |a|].at in Ats(b);
        }
      }
    }
    if Apart(all) {
      forall i, j | 0 <= i < |a| && 0 <= j < |b|
        ensures a[i].at != b[j].at
      {
        assert all[i] == a[i] && all[|a| + j] == b[j];
      }
    }
  }

  /** Only slots of `ats` have changed. */
  ghost predicate ChangedIn<V(!new)>(was: seq<Node<V>>, now: seq<Node<V>>, ats: set<nat>) {
    forall at: nat, node :: at !in ats && IsAt(was, at, node) ==> IsAt(now, at, node)
  }

  lemma ChangedTwice<V(!new)>(a: seq<Node<V>>, b: seq<Node<V>>, c: seq<Node<V>>, first: set<nat>, second: set<nat>)
    requires ChangedIn(a, b, first) && ChangedIn(b, c, second)
    ensures ChangedIn(a, c, first + second)
  {
    forall at: nat, node | at !in first + second && IsAt(a, at, node)
      ensures IsAt(c, at, node)
    {
      assert IsAt(b, at, node);
    }
  }

  lemma PutOne<V(!new)>(slots: seq<Node<V>>, at: nat, node: Node<V>)
    requires 0 < at <= |slots|
    ensures IsAt(slots[at - 1 := node], at, node) && ChangedIn(slots, slots[at - 1 := node], {at})
  {
  }

  lemma {:induction false} HoldsStill<V(!new)>(was: seq<Node<V>>, now: seq<Node<V>>, ats: set<nat>, t: Tree<V>)
    requires Holds(was, t) && ChangedIn(was, now, ats) && Ats(Flat(t)) !! ats
    ensures Holds(now, t)
  {
    if t.Fork? {
      ApartParts(Flat(t.left) + [t.item], Flat(t.right));
      ApartParts(Flat(t.left), [t.item]);
      assert t.item in [t.item];
      HoldsStill(was, now, ats, t.left);
      HoldsStill(was, now, ats, t.right);
    }
  }

  lemma {:induction false} AllHoldStill<V(!new)>(was: seq<Node<V>>, now: seq<Node<V>>, ats: set<nat>,
                                                 ctx: seq<Frame<V>>, hole: nat)
    requires HoldsAll(was, ctx, hole) && ChangedIn(was, now, ats)
    requires Ats(Before(ctx)) !! ats && Ats(After(ctx)) !! ats
    ensures HoldsAll(now, ctx, hole)
    decreases |ctx|
  {
    if ctx != [] {
      var f, init := ctx[|ctx| - 1], ctx[..|ctx| - 1];
      assert f.item in [f.item];
      if f.goesLeft {
        ApartParts([f.item] + Flat(f.other), After(init));
        ApartParts([f.item], Flat(f.other));
      } else {
        ApartParts(Before(init), Flat(f.other) + [f.item]);
        ApartParts(Flat(f.other), [f.item]);
      }
      HoldsStill(was, now, ats, f.other);
      AllHoldStill(was, now, ats, init, f.item.at);
    }
  }

  // ----- rotations

  function RotatedRight<V>(slots: seq<Node<V>>, par: nat, cur: nat): seq<Node<V>>
    requires 0 < par <= |slots| && 0 < cur <= |slots|
  {
    var p, c := slots[par - 1], slots[cur - 1];
    var even := c.balance == 0;
    slots[par - 1 := p.(left := c.right, balance := if even then -1 else 0)]
         [cur - 1 := c.(right := par, balance := if even then 1 else 0)]
  }

  function RotatedLeft<V>(slots: seq<Node<V>>, par: nat, cur: nat): seq<Node<V>>
    requires 0 < par <= |slots| && 0 < cur <= |slots|
  {
    var p, c := slots[par - 1], slots[cur - 1];
    var even := c.balance == 0;
    slots[par - 1 := p.(right := c.left, balance := if even then 1 else 0)]
         [cur - 1 := c.(left := par, balance := if even then -1 else 0)]
  }

  function RotatedLeftRight<V>(slots: seq<Node<V>>, gpar: nat, par: nat, cur: nat): seq<Node<V>>
    requires 0 < gpar <= |slots| && 0 < par <= |slots| && 0 < cur <= |slots|
  {
    var g, p, c := slots[gpar - 1], slots[par - 1], slots[cur - 1];
    slots[gpar - 1 := g.(left := c.right, balance := if c.balance < 0 then 1 else 0)]
         [par - 1 := p.(right := c.left, balance := if c.balance > 0 then -1 else 0)]
         [cur - 1 := c.(left := par, right := gpar, balance := 0)]
  }

  function RotatedRightLeft<V>(slots: seq<Node<V>>, gpar: nat, par: nat, cur: nat): seq<Node<V>>
    requires 0 < gpar <= |slots| && 0 < par <= |slots| && 0 < cur <= |slots|
  {
    var g, p, c := slots[gpar - 1], slots[par - 1], slots[cur - 1];
    slots[gpar - 1 := g.(right := c.left, balance := if c.balance > 0 then -1 else 0)]
         [par - 1 := p.(left := c.right, balance := if c.balance < 0 then 1 else 0)]
         [cur - 1 := c.(left := gpar, right := par, balance := 0)]
  }

  lemma MiddleApart<V>(a: seq<Item<V>>, x: Item<V>, b: seq<Item<V>>)
    ensures Ats(a + [x] + b) == Ats(a) + {x.at} + Ats(b)
    ensures Apart(a + [x] + b) <==> Apart(a) && Apart(b) && Ats(a) !! Ats(b) && x.at !in Ats(a) && x.at !in Ats(b)
  {
    assert Ats([x]) == {x.at};
    ApartParts(a, [x]);
    ApartParts(a + [x], b);
  }

  lemma ForkApart<V>(t: Tree<V>)
    requires t.Fork?
    ensures Ats(Flat(t)) == Ats(Flat(t.left)) + {t.item.at} + Ats(Flat(t.right))
    ensures Apart(Flat(t)) <==>
            && Apart(Flat(t.left)) && Apart(Flat(t.right)) && Ats(Flat(t.left)) !! Ats(Flat(t.right))
            && t.item.at !in Ats(Flat(t.left)) && t.item.at !in Ats(Flat(t.right))
  {
    MiddleApart(Flat(t.left), t.item, Flat(t.right));
  }

  /** The parts of a tree are apart. */
  lemma ForkIsApart<V>(t: Tree<V>)
    requires t.Fork? && Apart(Flat(t))
    ensures Apart(Flat(t.left)) && Apart(Flat(t.right)) && Ats(Flat(t.left)) !! Ats(Flat(t.right))
    ensures t.item.at !in Ats(Flat(t.left)) && t.item.at !in Ats(Flat(t.right))
    ensures Ats(Flat(t)) == Ats(Flat(t.left)) + {t.item.at} + Ats(Flat(t.right))
  {
    ForkApart(t);
  }

  lemma RotatedRightWrites<V(!new)>(slots: seq<Node<V>>, par: nat, cur: nat, p: Node<V>, c: Node<V>)
    requires IsAt(slots, par, p) && IsAt(slots, cur, c) && par != cur
    ensures var now, even := RotatedRight(slots, par, cur), c.balance == 0;
            && IsAt(now, par, Node(p.key, p.value, c.right, p.right, if even then -1 else 0))
            && IsAt(now, cur, Node(c.key, c.value, c.left, par, if even then 1 else 0))
            && ChangedIn(slots, now, {par, cur})
  {
  }

  lemma RotatedLeftWrites<V(!new)>(slots: seq<Node<V>>, par: nat, cur: nat, p: Node<V>, c: Node<V>)
    requires IsAt(slots, par, p) && IsAt(slots, cur, c) && par != cur
    ensures var now, even := RotatedLeft(slots, par, cur), c.balance == 0;
            && IsAt(now, par, Node(p.key, p.value, p.left, c.left, if even then 1 else 0))
            && IsAt(now, cur, Node(c.key, c.value, par, c.right, if even then -1 else 0))
            && ChangedIn(slots, now, {par, cur})
  {
  }

  lemma RotatedLeftRightWrites<V(!new)>(slots: seq<Node<V>>, gpar: nat, par: nat, cur: nat,
                                        g: Node<V>, p: Node<V>, c: Node<V>)
    requires IsAt(slots, gpar, g) && IsAt(slots, par, p) && IsAt(slots, cur, c)
    requires gpar != par && gpar != cur && par != cur
    ensures var now := RotatedLeftRight(slots, gpar, par, cur);
            && IsAt(now, gpar, Node(g.key, g.value, c.right, g.right, if c.balance < 0 then 1 else 0))
            && IsAt(now, par, Node(p.key, p.value, p.left, c.left, if c.balance > 0 then -1 else 0))
            && IsAt(now, cur, Node(c.key, c.value, par, gpar, 0))
            && ChangedIn(slots, now, {gpar, par, cur})
  {
  }

  lemma RotatedRightLeftWrites<V(!new)>(slots: seq<Node<V>>, gpar: nat, par: nat, cur: nat,
                                        g: Node<V>, p: Node<V>, c: Node<V>)
    requires IsAt(slots, gpar, g) && IsAt(slots, par, p) && IsAt(slots, cur, c)
    requires gpar != par && gpar != cur && par != cur
    ensures var now := RotatedRightLeft(slots, gpar, par, cur);
            && IsAt(now, gpar, Node(g.key, g.value, g.left, c.left, if c.balance > 0 then -1 else 0))
            && IsAt(now, par, Node(p.key, p.value, c.right, p.right, if c.balance < 0 then 1 else 0))
            && IsAt(now, cur, Node(c.key, c.value, gpar, par, 0))
            && ChangedIn(slots, now, {gpar, par, cur})
  {
  }

  ghost predicate Clear<V>(t: Tree<V>, ats: set<nat>) {
    Ats(Flat(t)) !! ats
  }

  lemma LeftIsApart<V>(p: Tree<V>)
    requires Apart(Flat(p)) && p.Fork? && p.left.Fork?
    ensures var c := p.left; var ats := {p.item.at, c.item.at};
            && p.item.at != c.item.at && ats <= Ats(Flat(p)) && Apart(Flat(c))
            && Clear(c.left, ats) && Clear(c.right, ats) && Clear(p.right, ats)
  {
    ForkIsApart(p);
    ForkIsApart(p.left);
  }

  lemma RightIsApart<V>(p: Tree<V>)
    requires Apart(Flat(p)) && p.Fork? && p.right.Fork?
    ensures var c := p.right; var ats := {p.item.at, c.item.at};
            && p.item.at != c.item.at && ats <= Ats(Flat(p)) && Apart(Flat(c))
            && Clear(p.left, ats) && Clear(c.left, ats) && Clear(c.right, ats)
  {
    ForkIsApart(p);
    ForkIsApart(p.right);
  }

  lemma RotatedRightHolds<V(!new)>(slots: seq<Node<V>>, p: Tree<V>)
    requires Holds(slots, p) && Apart(Flat(p)) && p.Fork? && p.left.Fork?
    ensures 0 < Idx(p) <= |slots| && 0 < Idx(p.left) <= |slots|
    ensures var now := RotatedRight(slots, Idx(p), Idx(p.left));
            Holds(now, RotRight(p)) && ChangedIn(slots, now, Ats(Flat(p)))
  {
    var c := p.left;
    var ats := {p.item.at, c.item.at};
    LeftIsApart(p);
    assert Holds(slots, c);
    RotatedRightWrites(slots, Idx(p), Idx(c), RootOf(p), RootOf(c));
    var now := RotatedRight(slots, Idx(p), Idx(c));
    HoldsStill(slots, now, ats, c.left);
    HoldsStill(slots, now, ats, c.right);
    HoldsStill(slots, now, ats, p.right);
    assert Holds(now, RotRight(p).right);
  }

  lemma RotatedLeftHolds<V(!new)>(slots: seq<Node<V>>, p: Tree<V>)
    requires Holds(slots, p) && Apart(Flat(p)) && p.Fork? && p.right.Fork?
    ensures 0 < Idx(p) <= |slots| && 0 < Idx(p.right) <= |slots|
    ensures var now := RotatedLeft(slots, Idx(p), Idx(p.right));
            Holds(now, RotLeft(p)) && ChangedIn(slots, now, Ats(Flat(p)))
  {
    var c := p.right;
    var ats := {p.item.at, c.item.at};
    RightIsApart(p);
    assert Holds(slots, c);
    RotatedLeftWrites(slots, Idx(p), Idx(c), RootOf(p), RootOf(c));
    var now := RotatedLeft(slots, Idx(p), Idx(c));
    HoldsStill(slots, now, ats, c.left);
    HoldsStill(slots, now, ats, c.right);
    HoldsStill(slots, now, ats, p.left);
    assert Holds(now, RotLeft(p).left);
  }

  lemma LeftRightIsApart<V>(g: Tree<V>)
    requires Apart(Flat(g)) && g.Fork? && g.left.Fork? && g.left.right.Fork?
    ensures var p, c := g.left, g.left.right; var ats := {g.item.at, p.item.at, c.item.at};
            && g.item.at != p.item.at && g.item.at != c.item.at && p.item.at != c.item.at && ats <= Ats(Flat(g))
            && Clear(p.left, ats) && Clear(c.left, ats) && Clear(c.right, ats) && Clear(g.right, ats)
  {
    ForkIsApart(g);
    RightIsApart(g.left);
    ForkIsApart(g.left);
    ForkIsApart(g.left.right);
  }

  lemma RightLeftIsApart<V>(g: Tree<V>)
    requires Apart(Flat(g)) && g.Fork? && g.right.Fork? && g.right.left.Fork?
    ensures var p, c := g.right, g.right.left; var ats := {g.item.at, p.item.at, c.item.at};
            && g.item.at != p.item.at && g.item.at != c.item.at && p.item.at != c.item.at && ats <= Ats(Flat(g))
            && Clear(g.left, ats) && Clear(c.left, ats) && Clear(c.right, ats) && Clear(p.right, ats)
  {
    ForkIsApart(g);
    LeftIsApart(g.right);
    ForkIsApart(g.right);
    ForkIsApart(g.right.left);
  }

  /** Three rewritten nodes over four subtrees that stay as they are. */
  lemma ThreeHold<V(!new)>(was: seq<Node<V>>, now: seq<Node<V>>, ats: set<nat>, u: Tree<V>)
    requires u.Fork? && u.left.Fork? && u.right.Fork? && ChangedIn(was, now, ats)
    requires IsAt(now, u.item.at, RootOf(u))
    requires IsAt(now, u.left.item.at, RootOf(u.left)) && IsAt(now, u.right.item.at, RootOf(u.right))
    requires Holds(was, u.left.left) && Clear(u.left.left, ats) && Holds(was, u.left.right) && Clear(u.left.right, ats)
    requires Holds(was, u.right.left) && Clear(u.right.left, ats)
    requires Holds(was, u.right.right) && Clear(u.right.right, ats)
    ensures Holds(now, u)
  {
    HoldsStill(was, now, ats, u.left.left);
    HoldsStill(was, now, ats, u.left.right);
    HoldsStill(was, now, ats, u.right.left);
    HoldsStill(was, now, ats, u.right.right);
    assert Holds(now, u.left) && Holds(now, u.right);
  }

  lemma RotatedLeftRightHolds<V(!new)>(slots: seq<Node<V>>, g: Tree<V>)
    requires Holds(slots, g) && Apart(Flat(g)) && g.Fork? && g.left.Fork? && g.left.right.Fork?
    ensures 0 < Idx(g) <= |slots| && 0 < Idx(g.left) <= |slots| && 0 < Idx(g.left.right) <= |slots|
    ensures var now := RotatedLeftRight(slots, Idx(g), Idx(g.left), Idx(g.left.right));
            Holds(now, RotLeftRight(g)) && ChangedIn(slots, now, Ats(Flat(g)))
  {
    var p, c := g.left, g.left.right;
    LeftRightIsApart(g);
    assert Holds(slots, p) && Holds(slots, c);
    RotatedLeftRightWrites(slots, Idx(g), Idx(p), Idx(c), RootOf(g), RootOf(p), RootOf(c));
    var now := RotatedLeftRight(slots, Idx(g), Idx(p), Idx(c));
    ThreeHold(slots, now, {g.item.at, p.item.at, c.item.at}, RotLeftRight(g));
  }

  lemma RotatedRightLeftHolds<V(!new)>(slots: seq<Node<V>>, g: Tree<V>)
    requires Holds(slots, g) && Apart(Flat(g)) && g.Fork? && g.right.Fork? && g.right.left.Fork?
    ensures 0 < Idx(g) <= |slots| && 0 < Idx(g.right) <= |slots| && 0 < Idx(g.right.left) <= |slots|
    ensures var now := RotatedRightLeft(slots, Idx(g), Idx(g.right), Idx(g.right.left));
            Holds(now, RotRightLeft(g)) && ChangedIn(slots, now, Ats(Flat(g)))
  {
    var p, c := g.right, g.right.left;
    RightLeftIsApart(g);
    assert Holds(slots, p) && Holds(slots, c);
    RotatedRightLeftWrites(slots, Idx(g), Idx(p), Idx(c), RootOf(g), RootOf(p), RootOf(c));
    var now := RotatedRightLeft(slots, Idx(g), Idx(p), Idx(c));
    ThreeHold(slots, now, {g.item.at, p.item.at, c.item.at}, RotRightLeft(g));
  }

  // ----- a subtree in its place

  /** The slots hold the tree `t` in the hole of `ctx`, and no slot is used twice. */
  ghost predicate Lays<V>(slots: seq<Node<V>>, ctx: seq<Frame<V>>, t: Tree<V>) {
    Holds(slots, t) && HoldsAll(slots, ctx, Idx(t)) && Apart(Before(ctx) + Flat(t) + After(ctx))
  }

  lemma ThreeApart<V>(a: seq<Item<V>>, b: seq<Item<V>>, c: seq<Item<V>>)
    ensures Ats(a + b + c) == Ats(a) + Ats(b) + Ats(c)
    ensures Apart(a + b + c) <==>
            && Apart(a) && Apart(b) && Apart(c)
            && Ats(a) !! Ats(b) && Ats(a) !! Ats(c) && Ats(b) !! Ats(c)
  {
    ApartParts(a + b, c);
    ApartParts(a, b);
  }

  lemma LaysApart<V>(ctx: seq<Frame<V>>, t: Tree<V>)
    requires Apart(Before(ctx) + Flat(t) + After(ctx))
    ensures Apart(Flat(t)) && Apart(Before(ctx) + After(ctx))
    ensures Ats(Before(ctx)) !! Ats(Flat(t)) && Ats(After(ctx)) !! Ats(Flat(t))
  {
    ThreeApart(Before(ctx), Flat(t), After(ctx));
    ApartParts(Before(ctx), After(ctx));
  }

  lemma LaysWhole<V>(slots: seq<Node<V>>, ctx: seq<Frame<V>>, t: Tree<V>)
    ensures Lays(slots, ctx, t) <==> Holds(slots, PlugAll(ctx, t)) && Apart(Flat(PlugAll(ctx, t)))
  {
    HoldsPlugAll(slots, ctx, t);
    FlatPlugAll(ctx, t);
  }

  /** Moving a frame between the context and the tree does not matter. */
  lemma LaysPlugged<V>(slots: seq<Node<V>>, ctx: seq<Frame<V>>, t: Tree<V>)
    requires ctx != []
    ensures Lays(slots, ctx, t) <==> Lays(slots, ctx[..|ctx| - 1], Plug(ctx[|ctx| - 1], t))
  {
    LaysWhole(slots, ctx, t);
    LaysWhole(slots, ctx[..|ctx| - 1], Plug(ctx[|ctx| - 1], t));
  }

  /** Another tree on the slots of the old one, with the innermost frame naming its root. */
  lemma Replaced<V(!new)>(was: seq<Node<V>>, now: seq<Node<V>>, ctx: seq<Frame<V>>, t: Tree<V>, u: Tree<V>)
    requires Lays(was, ctx, t) && ChangedIn(was, now, Ats(Flat(t))) && Holds(now, u) && Flat(u) == Flat(t)
    requires Idx(u) == Idx(t)
    ensures Lays(now, ctx, u)
  {
    LaysApart(ctx, t);
    AllHoldStill(was, now, Ats(Flat(t)), ctx, Idx(t));
  }

  /** The innermost frame names another child; `ats` may have changed too. */
  lemma Patched<V(!new)>(was: seq<Node<V>>, now: seq<Node<V>>, ats: set<nat>, ctx: seq<Frame<V>>, from: nat, to: nat)
    requires HoldsAll(was, ctx, from) && Apart(Before(ctx) + After(ctx))
    requires Ats(Before(ctx)) !! ats && Ats(After(ctx)) !! ats
    requires ctx != [] ==>
               var f := ctx[|ctx| - 1];
               ChangedIn(was, now, ats + {f.item.at}) && IsAt(now, f.item.at, NodeOf(f, to))
    ensures HoldsAll(now, ctx, to)
  {
    if ctx != [] {
      var f, init := ctx[|ctx| - 1], ctx[..|ctx| - 1];
      InnermostIsApart(ctx);
      HoldsStill(was, now, ats + {f.item.at}, f.other);
      AllHoldStill(was, now, ats + {f.item.at}, init, f.item.at);
    }
  }

  lemma InnermostIsApart<V>(ctx: seq<Frame<V>>)
    requires ctx != [] && Apart(Before(ctx) + After(ctx))
    ensures var f, init := ctx[|ctx| - 1], ctx[..|ctx| - 1];
            && f.item.at !in Ats(Flat(f.other)) && f.item.at !in Ats(Before(init)) && f.item.at !in Ats(After(init))
            && Ats(Flat(f.other)) <= Ats(Before(ctx)) + Ats(After(ctx))
            && Ats(Before(init)) <= Ats(Before(ctx)) && Ats(After(init)) <= Ats(After(ctx))
  {
    var f, init := ctx[|ctx| - 1], ctx[..|ctx| - 1];
    ApartParts(Before(ctx), After(ctx));
    if f.goesLeft {
      FirstIsApart(f.item, Flat(f.other), After(init));
      assert Before(ctx) == Before(init);
    } else {
      LastIsApart(Before(init), Flat(f.other), f.item);
      assert After(ctx) == After(init);
    }
  }

  lemma FirstIsApart<V>(x: Item<V>, a: seq<Item<V>>, b: seq<Item<V>>)
    ensures Ats([x] + a + b) == {x.at} + Ats(a) + Ats(b)
    ensures Apart([x] + a + b) ==> x.at !in Ats(a) && x.at !in Ats(b)
  {
    assert Ats([x]) == {x.at};
    ApartParts([x] + a, b);
    ApartParts([x], a);
  }

  lemma LastIsApart<V>(a: seq<Item<V>>, b: seq<Item<V>>, x: Item<V>)
    ensures Ats(a + (b + [x])) == Ats(a) + Ats(b) + {x.at}
    ensures Apart(a + (b + [x])) ==> x.at !in Ats(a) && x.at !in Ats(b)
  {
    assert Ats([x]) == {x.at};
    ApartParts(a, b + [x]);
    ApartParts(b, [x]);
  }

  // ----- one round of rebalancing

  function RootAt<V>(ctx: seq<Frame<V>>, t: Tree<V>): nat {
    if ctx == [] then Idx(t) else ctx[0].item.at
  }

  lemma {:induction false} RootAtIs<V>(ctx: seq<Frame<V>>, t: Tree<V>)
    ensures RootAt(ctx, t) == Idx(PlugAll(ctx, t))
    decreases |ctx|
  {
    if ctx != [] {
      RootAtIs(ctx[..|ctx| - 1], Plug(ctx[|ctx| - 1], t));
    }
  }

  /** The parent named by the innermost frame, or none. */
  function Above<V>(ctx: seq<Frame<V>>): nat {
    if ctx == [] then 0 else ctx[|ctx| - 1].item.at
  }

  predicate Within<V>(slots: seq<Node<V>>, at: nat) {
    0 < at <= |slots|
  }

  /** The slots after the rotation of a tree that leans to the left, and its new root. */
  function LeanedRight<V>(slots: seq<Node<V>>, par: nat, cur: nat): (seq<Node<V>>, nat)
    requires Within(slots, par) && Within(slots, cur)
    requires slots[cur - 1].balance > 0 ==> Within(slots, slots[cur - 1].right)
  {
    var c := slots[cur - 1];
    if c.balance > 0 then (RotatedLeftRight(slots, par, cur, c.right), c.right)
    else (RotatedRight(slots, par, cur), cur)
  }

  function LeanedLeft<V>(slots: seq<Node<V>>, par: nat, cur: nat): (seq<Node<V>>, nat)
    requires Within(slots, par) && Within(slots, cur)
    requires slots[cur - 1].balance < 0 ==> Within(slots, slots[cur - 1].left)
  {
    var c := slots[cur - 1];
    if c.balance < 0 then (RotatedRightLeft(slots, par, cur, c.left), c.left)
    else (RotatedLeft(slots, par, cur), cur)
  }

  /** The grandparent names `top` where it named `par`. */
  function Relinked<V>(slots: seq<Node<V>>, gp: nat, par: nat, top: nat): (now: seq<Node<V>>)
    requires gp != 0 ==> Within(slots, gp)
    ensures |now| == |slots|
  {
    if gp == 0 then slots
    else
      var g := slots[gp - 1];
      slots[gp - 1 := if g.left == par then g.(left := top) else g.(right := top)]
  }

  /** The innermost frame's node, and on which side it names its child. */
  lemma AboveIsAt<V>(slots: seq<Node<V>>, ctx: seq<Frame<V>>, t: Tree<V>)
    requires ctx != [] && Lays(slots, ctx, t)
    ensures var f := ctx[|ctx| - 1];
            && IsAt(slots, f.item.at, NodeOf(f, Idx(t)))
            && (t.Fork? ==> (NodeOf(f, Idx(t)).left == Idx(t) <==> f.goesLeft))
            && f.item.at !in Ats(Flat(t))
  {
    var f, init := ctx[|ctx| - 1], ctx[..|ctx| - 1];
    FlatTop(ctx, t);
    LaysApart(init, Plug(f, t));
    ForkIsApart(Plug(f, t));
    RootIn(t);
    RootIn(f.other);
  }

  lemma RootIn<V>(t: Tree<V>)
    ensures t.Fork? ==> t.item.at in Ats(Flat(t))
  {
    if t.Fork? {
      assert t.item in Flat(t);
    }
  }

  lemma RelinkedNames<V(!new)>(slots: seq<Node<V>>, f: Frame<V>, par: nat, top: nat)
    requires IsAt(slots, f.item.at, NodeOf(f, par)) && (NodeOf(f, par).left == par <==> f.goesLeft)
    ensures var now := Relinked(slots, f.item.at, par, top);
            IsAt(now, f.item.at, NodeOf(f, top)) && ChangedIn(slots, now, {f.item.at})
  {
  }

  lemma RelinkedLays<V(!new)>(was: seq<Node<V>>, slots: seq<Node<V>>, ctx: seq<Frame<V>>, p: Tree<V>, u: Tree<V>)
    requires Lays(was, ctx, p) && p.Fork? && Flat(u) == Flat(p)
    requires Holds(slots, u) && ChangedIn(was, slots, Ats(Flat(p)))
    ensures Above(ctx) != 0 ==> Within(slots, Above(ctx))
    ensures Lays(Relinked(slots, Above(ctx), Idx(p), Idx(u)), ctx, u)
  {
    LaysApart(ctx, p);
    if ctx != [] {
      var f := ctx[|ctx| - 1];
      AboveIsAt(was, ctx, p);
      AllHoldStill(was, slots, Ats(Flat(p)), ctx, Idx(p));
      RelinkedNames(slots, f, Idx(p), Idx(u));
      var now := Relinked(slots, f.item.at, Idx(p), Idx(u));
      Patched(slots, now, {}, ctx, Idx(p), Idx(u));
      HoldsStill(slots, now, {f.item.at}, u);
    }
  }

  lemma LeanRightIsApart<V>(p: Tree<V>)
    requires Apart(Flat(p)) && p.Fork? && p.left.Fork? && (p.left.balance > 0 ==> p.left.right.Fork?)
    ensures Idx(p) != Idx(p.left)
    ensures p.left.balance > 0 ==> Idx(p) != Idx(p.left.right) && Idx(p.left) != Idx(p.left.right)
  {
    LeftIsApart(p);
    if p.left.balance > 0 {
      LeftRightIsApart(p);
    }
  }

  lemma LeanedRightHolds<V(!new)>(slots: seq<Node<V>>, p: Tree<V>)
    requires Holds(slots, p) && Apart(Flat(p)) && p.Fork? && p.left.Fork?
    requires p.left.balance > 0 ==> p.left.right.Fork?
    ensures IsAt(slots, Idx(p.left), RootOf(p.left)) && Within(slots, Idx(p))
    ensures p.left.balance > 0 ==> Within(slots, Idx(p.left.right))
    ensures var (now, top) := LeanedRight(slots, Idx(p), Idx(p.left));
            && |now| == |slots| && top == Idx(LeanRight(p))
            && Holds(now, LeanRight(p)) && ChangedIn(slots, now, Ats(Flat(p)))
    ensures Flat(LeanRight(p)) == Flat(p)
  {
    assert Holds(slots, p.left);
    if p.left.balance > 0 {
      RotatedLeftRightHolds(slots, p);
      RotLeftRightKeepsFlat(p);
    } else {
      RotatedRightHolds(slots, p);
      RotRightKeepsFlat(p);
    }
  }

  lemma LeanLeftIsApart<V>(p: Tree<V>)
    requires Apart(Flat(p)) && p.Fork? && p.right.Fork? && (p.right.balance < 0 ==> p.right.left.Fork?)
    ensures Idx(p) != Idx(p.right)
    ensures p.right.balance < 0 ==> Idx(p) != Idx(p.right.left) && Idx(p.right) != Idx(p.right.left)
  {
    RightIsApart(p);
    if p.right.balance < 0 {
      RightLeftIsApart(p);
    }
  }

  lemma LeanedLeftHolds<V(!new)>(slots: seq<Node<V>>, p: Tree<V>)
    requires Holds(slots, p) && Apart(Flat(p)) && p.Fork? && p.right.Fork?
    requires p.right.balance < 0 ==> p.right.left.Fork?
    ensures IsAt(slots, Idx(p.right), RootOf(p.right)) && Within(slots, Idx(p))
    ensures p.right.balance < 0 ==> Within(slots, Idx(p.right.left))
    ensures var (now, top) := LeanedLeft(slots, Idx(p), Idx(p.right));
            && |now| == |slots| && top == Idx(LeanLeft(p))
            && Holds(now, LeanLeft(p)) && ChangedIn(slots, now, Ats(Flat(p)))
    ensures Flat(LeanLeft(p)) == Flat(p)
  {
    assert Holds(slots, p.right);
    if p.right.balance < 0 {
      RotatedRightLeftHolds(slots, p);
      RotRightLeftKeepsFlat(p);
    } else {
      RotatedLeftHolds(slots, p);
      RotLeftKeepsFlat(p);
    }
  }

  lemma RebalancedHolds<V(!new)>(slots: seq<Node<V>>, f: Frame<V>, t: Tree<V>, balance: int)
    requires Holds(slots, Plug(f, t)) && Apart(Flat(Plug(f, t)))
    ensures IsAt(slots, f.item.at, NodeOf(f, Idx(t)))
    ensures var now := slots[f.item.at - 1 := NodeOf(f, Idx(t)).(balance := balance)];
            Holds(now, Plug(f.(balance := balance), t)) && ChangedIn(slots, now, Ats(Flat(Plug(f, t))))
  {
    var at, node := f.item.at, NodeOf(f, Idx(t)).(balance := balance);
    var now := slots[at - 1 := node];
    ForkIsApart(Plug(f, t));
    PutOne(slots, at, node);
    HoldsStill(slots, now, {at}, t);
    HoldsStill(slots, now, {at}, f.other);
  }

  /** A new balance in the innermost frame. */
  lemma RebalancedLays<V(!new)>(slots: seq<Node<V>>, ctx: seq<Frame<V>>, t: Tree<V>, balance: int)
    requires ctx != [] && Lays(slots, ctx, t)
    ensures Within(slots, Above(ctx))
    ensures var f, at := ctx[|ctx| - 1], Above(ctx);
            Lays(slots[at - 1 := slots[at - 1].(balance := balance)], ctx[..|ctx| - 1],
                 Plug(f.(balance := balance), t))
  {
    var f, init, at := ctx[|ctx| - 1], ctx[..|ctx| - 1], Above(ctx);
    LaysPlugged(slots, ctx, t);
    LaysApart(init, Plug(f, t));
    RebalancedHolds(slots, f, t, balance);
    Replaced(slots, slots[at - 1 := NodeOf(f, Idx(t)).(balance := balance)], init, Plug(f, t),
             Plug(f.(balance := balance), t));
  }

  // ----- taking a node out

  function Linked<V>(slots: seq<Node<V>>, par: nat, isLess: bool, child: nat): (now: seq<Node<V>>)
    requires Within(slots, par)
    ensures |now| == |slots|
  {
    var p := slots[par - 1];
    slots[par - 1 := if isLess then p.(left := child) else p.(right := child)]
  }

  lemma LinkedNames<V(!new)>(slots: seq<Node<V>>, f: Frame<V>, from: nat, to: nat)
    requires IsAt(slots, f.item.at, NodeOf(f, from))
    ensures var now := Linked(slots, f.item.at, f.goesLeft, to);
            IsAt(now, f.item.at, NodeOf(f, to)) && ChangedIn(slots, now, {f.item.at})
  {
  }

  /** The parent of a hole names another child. */
  function Hooked<V>(slots: seq<Node<V>>, ctx: seq<Frame<V>>, child: nat): (now: seq<Node<V>>)
    requires ctx != [] ==> Within(slots, Above(ctx))
    ensures |now| == |slots|
  {
    if ctx == [] then slots else Linked(slots, Above(ctx), ctx[|ctx| - 1].goesLeft, child)
  }

  lemma {:induction false} ZeroIsNone<V>(slots: seq<Node<V>>, t: Tree<V>)
    requires Holds(slots, t)
    ensures 0 !in Ats(Flat(t))
  {
    if t.Fork? {
      ZeroIsNone(slots, t.left);
      ZeroIsNone(slots, t.right);
      ForkApart(t);
    }
  }

  lemma HookedHolds<V(!new)>(was: seq<Node<V>>, freed: seq<Node<V>>, ctx: seq<Frame<V>>, d: Tree<V>, child: nat)
    requires Lays(was, ctx, d) && d.Fork? && ChangedIn(was, freed, Ats(Flat(d)))
    ensures Above(ctx) !in Ats(Flat(d)) && (ctx != [] ==> Within(freed, Above(ctx)))
    ensures HoldsAll(Hooked(freed, ctx, child), ctx, child)
    ensures ChangedIn(freed, Hooked(freed, ctx, child), {Above(ctx)})
  {
    LaysApart(ctx, d);
    ZeroIsNone(was, d);
    if ctx != [] {
      var f := ctx[|ctx| - 1];
      AboveIsAt(was, ctx, d);
      assert IsAt(was, f.item.at, NodeOf(f, Idx(d)));
      LinkedNames(freed, f, Idx(d), child);
      ChangedTwice(was, freed, Hooked(freed, ctx, child), Ats(Flat(d)), {f.item.at});
      Patched(was, Hooked(freed, ctx, child), Ats(Flat(d)), ctx, Idx(d), child);
    }
  }

  lemma ChildIsClear<V>(d: Tree<V>, child: Tree<V>)
    requires d.Fork? && Apart(Flat(d)) && (child == d.left || child == d.right)
    ensures d.item.at !in Ats(Flat(child)) && Ats(Flat(child)) <= Ats(Flat(d)) && d.item.at in Ats(Flat(d))
  {
    ForkIsApart(d);
  }

  lemma WithoutIsApart<V>(a: seq<Item<V>>, x: Item<V>, b: seq<Item<V>>)
    requires Apart(a + [x] + b)
    ensures Apart(a + b)
  {
    MiddleApart(a, x, b);
    ApartParts(a, b);
  }

  /** A node without a left or without a right child is out, and its parent names the other child. */
  lemma NarrowLays<V(!new)>(was: seq<Node<V>>, freed: seq<Node<V>>, ctx: seq<Frame<V>>, d: Tree<V>, child: Tree<V>)
    requires Lays(was, ctx, d) && d.Fork? && ChangedIn(was, freed, {d.item.at})
    requires (d.left.Leaf? && child == d.right) || (d.right.Leaf? && child == d.left)
    ensures ctx != [] ==> Within(freed, Above(ctx))
    ensures Lays(Hooked(freed, ctx, Idx(child)), ctx, child)
  {
    LaysApart(ctx, d);
    ChildIsClear(d, child);
    HookedHolds(was, freed, ctx, d, Idx(child));
    var now := Hooked(freed, ctx, Idx(child));
    ChangedTwice(was, freed, now, {d.item.at}, {Above(ctx)});
    HoldsStill(was, now, {d.item.at} + {Above(ctx)}, child);
    OnlyChildKeeps(ctx, d, child);
    Regroup5(Before(ctx), Flat(d.left), d.item, Flat(d.right), After(ctx));
    WithoutIsApart(Before(ctx) + Flat(d.left), d.item, Flat(d.right) + After(ctx));
  }

  /** The node `m` takes the children of another one, and its old parent takes its own right child. */
  function Moved<V>(slots: seq<Node<V>>, m: nat, par: nat, left: nat, right: nat): (now: seq<Node<V>>)
    requires Within(slots, m) && (par != 0 ==> Within(slots, par))
    ensures |now| == |slots|
  {
    var node := slots[m - 1];
    if par == 0 then slots[m - 1 := node.(left := left)]
    else slots[m - 1 := node.(left := left, right := right)][par - 1 := slots[par - 1].(left := node.right)]
  }

  lemma MovedWrites<V(!new)>(slots: seq<Node<V>>, m: nat, node: Node<V>, par: nat, parent: Node<V>,
                             left: nat, right: nat)
    requires IsAt(slots, m, node) && m != par && (par != 0 ==> IsAt(slots, par, parent))
    ensures var now := Moved(slots, m, par, left, right);
            && IsAt(now, m, node.(left := left, right := if par == 0 then node.right else right))
            && (par != 0 ==> IsAt(now, par, parent.(left := node.right)))
            && ChangedIn(slots, now, {m, par})
  {
  }

  /** What is left of the right subtree when its leftmost node is out. */
  lemma RestHolds<V(!new)>(was: seq<Node<V>>, now: seq<Node<V>>, out: nat, lefts: seq<Frame<V>>, s: Tree<V>)
    requires Lays(was, lefts, s) && s.Fork? && s.left.Leaf? && out !in Ats(Flat(PlugAll(lefts, s)))
    requires ChangedIn(was, now, {out, s.item.at, Above(lefts)})
    requires lefts != [] ==> IsAt(now, Above(lefts), NodeOf(lefts[|lefts| - 1], Idx(s.right)))
    ensures Holds(now, PlugAll(lefts, s.right))
  {
    var ats := {out, s.item.at};
    AtsOfPlugged(lefts, s);
    LaysApart(lefts, s);
    ChildIsClear(s, s.right);
    AboveIsOutside(was, lefts, s);
    HoldsStill(was, now, {out, s.item.at, Above(lefts)}, s.right);
    assert ats + {Above(lefts)} == {out, s.item.at, Above(lefts)};
    Patched(was, now, ats, lefts, Idx(s), Idx(s.right));
    HoldsPlugAll(now, lefts, s.right);
  }

  lemma AtsOfPlugged<V>(ctx: seq<Frame<V>>, t: Tree<V>)
    ensures Ats(Flat(PlugAll(ctx, t))) == Ats(Before(ctx)) + Ats(Flat(t)) + Ats(After(ctx))
  {
    FlatPlugAll(ctx, t);
    ThreeApart(Before(ctx), Flat(t), After(ctx));
  }

  lemma AboveIsOutside<V>(slots: seq<Node<V>>, ctx: seq<Frame<V>>, t: Tree<V>)
    requires Lays(slots, ctx, t)
    ensures Above(ctx) !in Ats(Flat(t))
  {
    ZeroIsNone(slots, t);
    if ctx != [] {
      AboveIsAt(slots, ctx, t);
    }
  }

  /** The leftmost node of the right subtree, put where `d` was but for its balance. */
  function Lifted<V>(d: Tree<V>, lefts: seq<Frame<V>>, s: Tree<V>): Tree<V>
    requires d.Fork? && s.Fork?
  {
    Fork(d.left, s.item, s.balance, PlugAll(lefts, s.right))
  }

  lemma MovedHolds<V(!new)>(was: seq<Node<V>>, freed: seq<Node<V>>, d: Tree<V>, lefts: seq<Frame<V>>, s: Tree<V>)
    requires Holds(was, d) && Apart(Flat(d)) && d.Fork? && ChangedIn(was, freed, {d.item.at})
    requires s.Fork? && s.left.Leaf? && d.right == PlugAll(lefts, s) && AllLeft(lefts)
    ensures IsAt(freed, Idx(s), RootOf(s)) && (lefts != [] ==> Within(freed, Above(lefts))) && Idx(s) != Above(lefts)
    ensures var moved := Moved(freed, Idx(s), Above(lefts), Idx(d.left), Idx(d.right));
            Holds(moved, Lifted(d, lefts, s)) && ChangedIn(was, moved, Ats(Flat(d)))
  {
    RightHolds(was, freed, d, lefts, s);
    var p := Above(lefts);
    var parent := if lefts == [] then RootOf(s) else NodeOf(lefts[|lefts| - 1], Idx(s));
    MovedWrites(freed, Idx(s), RootOf(s), p, parent, Idx(d.left), Idx(d.right));
    var moved := Moved(freed, Idx(s), p, Idx(d.left), Idx(d.right));
    ChangedTwice(was, freed, moved, {d.item.at}, {Idx(s), p});
    assert {d.item.at} + {Idx(s), p} == {d.item.at, Idx(s), p};
    RestHolds(was, moved, d.item.at, lefts, s);
    HoldsStill(was, moved, {d.item.at, Idx(s), p}, d.left);
    RestIdx(lefts, s);
  }

  lemma RestIdx<V>(lefts: seq<Frame<V>>, s: Tree<V>)
    requires s.Fork?
    ensures Idx(PlugAll(lefts, s.right)) == if lefts == [] then Idx(s.right) else Idx(PlugAll(lefts, s))
  {
    RootAtIs(lefts, s);
    RootAtIs(lefts, s.right);
  }

  /** What is known of the right subtree of `d` and of the two nodes there that will change. */
  lemma RightHolds<V(!new)>(was: seq<Node<V>>, freed: seq<Node<V>>, d: Tree<V>, lefts: seq<Frame<V>>, s: Tree<V>)
    requires Holds(was, d) && Apart(Flat(d)) && d.Fork? && ChangedIn(was, freed, {d.item.at})
    requires s.Fork? && d.right == PlugAll(lefts, s)
    ensures Lays(was, lefts, s) && IsAt(freed, Idx(s), RootOf(s)) && Idx(s) != Above(lefts)
    ensures lefts != [] ==> IsAt(freed, Above(lefts), NodeOf(lefts[|lefts| - 1], Idx(s)))
    ensures d.item.at !in Ats(Flat(d.right)) && d.item.at in Ats(Flat(d)) && Idx(s) in Ats(Flat(d))
    ensures Clear(d.left, {d.item.at, Idx(s), Above(lefts)})
    ensures lefts != [] ==> Above(lefts) in Ats(Flat(d))
  {
    ForkIsApart(d);
    LaysWhole(was, lefts, s);
    AtsOfPlugged(lefts, s);
    RootIn(s);
    ZeroIsNone(was, d.left);
    AboveIsOutside(was, lefts, s);
    if lefts != [] {
      AboveIn(lefts);
      AboveIsAt(was, lefts, s);
      assert IsAt(was, Above(lefts), NodeOf(lefts[|lefts| - 1], Idx(s)));
    }
    assert IsAt(was, Idx(s), RootOf(s));
  }

  lemma AboveIn<V>(ctx: seq<Frame<V>>)
    requires ctx != []
    ensures Above(ctx) in Ats(Before(ctx)) + Ats(After(ctx))
  {
    var f := ctx[|ctx| - 1];
    assert f.item in if f.goesLeft then After(ctx) else Before(ctx);
  }

  /** Another balance in the root of a subtree. */
  lemma RootBalanced<V(!new)>(slots: seq<Node<V>>, ctx: seq<Frame<V>>, t: Tree<V>, balance: int)
    requires Lays(slots, ctx, t) && t.Fork?
    ensures IsAt(slots, Idx(t), RootOf(t))
    ensures Lays(slots[Idx(t) - 1 := slots[Idx(t) - 1].(balance := balance)], ctx, t.(balance := balance))
  {
    var at, u := Idx(t), t.(balance := balance);
    LaysApart(ctx, t);
    ForkIsApart(t);
    var now := slots[at - 1 := RootOf(u)];
    PutOne(slots, at, RootOf(u));
    HoldsStill(slots, now, {at}, t.left);
    HoldsStill(slots, now, {at}, t.right);
    Replaced(slots, now, ctx, t, u);
  }

  /** Without its own item a node's items are still apart from those around. */
  lemma OutIsApart<V>(a: seq<Item<V>>, b: seq<Item<V>>, x: Item<V>, c: seq<Item<V>>, d: seq<Item<V>>)
    requires Apart(a + (b + [x] + c) + d)
    ensures Apart(a + (b + c) + d)
  {
    Regroup5(a, b, x, c, d);
    WithoutIsApart(a + b, x, c + d);
    assert a + (b + c) + d == a + b + (c + d);
  }

  lemma HookedLays<V(!new)>(was: seq<Node<V>>, moved: seq<Node<V>>, ctx: seq<Frame<V>>, d: Tree<V>, u: Tree<V>)
    requires Lays(was, ctx, d) && d.Fork? && ChangedIn(was, moved, Ats(Flat(d))) && Holds(moved, u)
    requires Flat(u) == Flat(d.left) + Flat(d.right)
    ensures ctx != [] ==> Within(moved, Above(ctx))
    ensures Lays(Hooked(moved, ctx, Idx(u)), ctx, u)
  {
    HookedHolds(was, moved, ctx, d, Idx(u));
    OutIsApart(Before(ctx), Flat(d.left), d.item, Flat(d.right), After(ctx));
    ForkApart(d);
    ApartParts(Flat(d.left), Flat(d.right));
    HoldsStill(moved, Hooked(moved, ctx, Idx(u)), {Above(ctx)}, u);
  }

  lemma HangsLeast<V>(slots: seq<Node<V>>, ctx: seq<Frame<V>>, d: Tree<V>, lefts: seq<Frame<V>>, s: Tree<V>)
    requires d.Fork? && s.Fork? && Lays(slots, ctx, WithLeast(d, lefts, s))
    ensures Lays(slots, LeastCtx(ctx, d, lefts, s), s.right)
  {
    LaysWhole(slots, ctx, WithLeast(d, lefts, s));
    LeastCtxPlugs(ctx, d, lefts, s, s.right);
    LaysWhole(slots, LeastCtx(ctx, d, lefts, s), s.right);
  }

  lemma LiftedLays<V(!new)>(was: seq<Node<V>>, freed: seq<Node<V>>, ctx: seq<Frame<V>>, d: Tree<V>,
                            lefts: seq<Frame<V>>, s: Tree<V>)
    requires Lays(was, ctx, d) && d.Fork? && ChangedIn(was, freed, {d.item.at})
    requires s.Fork? && s.left.Leaf? && d.right == PlugAll(lefts, s) && AllLeft(lefts)
    ensures IsAt(freed, Idx(s), RootOf(s)) && (lefts != [] ==> Within(freed, Above(lefts))) && Idx(s) != Above(lefts)
    ensures ctx != [] ==> Within(freed, Above(ctx))
    ensures Lays(Hooked(Moved(freed, Idx(s), Above(lefts), Idx(d.left), Idx(d.right)), ctx, Idx(s)), ctx,
                 Lifted(d, lefts, s))
  {
    LaysApart(ctx, d);
    MovedHolds(was, freed, d, lefts, s);
    LiftedItems(d, lefts, s);
    HookedLays(was, Moved(freed, Idx(s), Above(lefts), Idx(d.left), Idx(d.right)), ctx, d, Lifted(d, lefts, s));
  }

  /** The leftmost node of the right subtree has taken the place of `d`. */
  lemma WideLays<V(!new)>(slots: seq<Node<V>>, ctx: seq<Frame<V>>, d: Tree<V>, lefts: seq<Frame<V>>, s: Tree<V>)
    requires d.Fork? && s.Fork? && Lays(slots, ctx, Lifted(d, lefts, s))
    ensures Within(slots, Idx(s))
    ensures Lays(slots[Idx(s) - 1 := slots[Idx(s) - 1].(balance := d.balance)], LeastCtx(ctx, d, lefts, s), s.right)
  {
    RootBalanced(slots, ctx, Lifted(d, lefts, s), d.balance);
    HangsLeast(slots[Idx(s) - 1 := slots[Idx(s) - 1].(balance := d.balance)], ctx, d, lefts, s);
  }

  lemma LiftedItems<V>(d: Tree<V>, lefts: seq<Frame<V>>, s: Tree<V>)
    requires d.Fork? && s.Fork? && s.left.Leaf? && d.right == PlugAll(lefts, s) && AllLeft(lefts)
    ensures Flat(Lifted(d, lefts, s)) == Flat(d.left) + Flat(d.right)
  {
    LeastOut(lefts, s);
  }

  // ----- what a round finds in the slots

  /** The parent's node, and its number in the tree above. */
  lemma ParentLays<V>(slots: seq<Node<V>>, ctx: seq<Frame<V>>, t: Tree<V>)
    requires ctx != [] && Lays(slots, ctx, t)
    ensures var f := ctx[|ctx| - 1];
            && Lays(slots, ctx[..|ctx| - 1], Plug(f, t)) && IsAt(slots, f.item.at, NodeOf(f, Idx(t)))
            && (t.Fork? ==> (NodeOf(f, Idx(t)).left == Idx(t) <==> f.goesLeft))
            && (f.other.Fork? ==> IsAt(slots, Idx(f.other), RootOf(f.other)))
  {
    LaysPlugged(slots, ctx, t);
    AboveIsAt(slots, ctx, t);
    assert Holds(slots, ctx[|ctx| - 1].other);
  }
}
