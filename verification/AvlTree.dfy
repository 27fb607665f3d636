/** Search trees with balances, as values: contexts with a hole, rotations, and the two ways back to the root. */
module AvlTree {
  /** What a slot holds in the tree: its 1-based number, its key and its value. */
  datatype Item<V> = Item(at: nat, key: int, value: V)

  datatype Tree<V> = Leaf | Fork(left: Tree<V>, item: Item<V>, balance: int, right: Tree<V>)

  /** A node with a hole in place of one child. */
  datatype Frame<V> = Frame(goesLeft: bool, item: Item<V>, balance: int, other: Tree<V>)

  function Height<V>(t: Tree<V>): nat {
    match t
    case Leaf => 0
    case Fork(l, _, _, r) => 1 + Max(Height(l), Height(r))
  }

  function Max(a: nat, b: nat): nat {
    if a < b then b else a
  }

  /** Every balance is the right height less the left one, and within one of zero. */
  predicate Exact<V>(t: Tree<V>) {
    t.Fork? ==>
      && Exact(t.left) && Exact(t.right)
      && t.balance == Height(t.right) - Height(t.left) && -1 <= t.balance <= 1
  }

  /** The items from the least key to the greatest. */
  function Flat<V>(t: Tree<V>): seq<Item<V>> {
    match t
    case Leaf => []
    case Fork(l, item, _, r) => Flat(l) + [item] + Flat(r)
  }

  // ----- contexts

  function Plug<V>(f: Frame<V>, t: Tree<V>): Tree<V> {
    if f.goesLeft then Fork(t, f.item, f.balance, f.other) else Fork(f.other, f.item, f.balance, t)
  }

  /** The whole tree; the last frame is the innermost. */
  function PlugAll<V>(ctx: seq<Frame<V>>, t: Tree<V>): Tree<V>
    decreases |ctx|
  {
    if ctx == [] then t else PlugAll(ctx[..|ctx| - 1], Plug(ctx[|ctx| - 1], t))
  }

  function Before<V>(ctx: seq<Frame<V>>): seq<Item<V>> {
    if ctx == [] then []
    else
      var f := ctx[|ctx| - 1];
      Before(ctx[..|ctx| - 1]) + (if f.goesLeft then [] else Flat(f.other) + [f.item])
  }

  function After<V>(ctx: seq<Frame<V>>): seq<Item<V>> {
    if ctx == [] then []
    else
      var f := ctx[|ctx| - 1];
      (if f.goesLeft then [f.item] + Flat(f.other) else []) + After(ctx[..|ctx| - 1])
  }

  /** A tree of height `h` fits the hole. */
  predicate Fits<V>(f: Frame<V>, h: nat) {
    && Exact(f.other) && -1 <= f.balance <= 1
    && f.balance == if f.goesLeft then Height(f.other) - h else h - Height(f.other)
  }

  predicate AllFit<V>(ctx: seq<Frame<V>>, h: nat)
    decreases |ctx|
  {
    ctx != [] ==>
      var f := ctx[|ctx| - 1];
      Fits(f, h) && AllFit(ctx[..|ctx| - 1], 1 + Max(h, Height(f.other)))
  }

  /** The items around the hole, with the innermost frame's among those beside it or those in it. */
  lemma FlatTop<V>(ctx: seq<Frame<V>>, t: Tree<V>)
    requires ctx != []
    ensures var f, init := ctx[|ctx| - 1], ctx[..|ctx| - 1];
            Before(init) + Flat(Plug(f, t)) + After(init) == Before(ctx) + Flat(t) + After(ctx)
  {
    var f, init := ctx[|ctx| - 1], ctx[..|ctx| - 1];
    if f.goesLeft {
      Regroup3(Before(init), Flat(t), [f.item], Flat(f.other), After(init));
    } else {
      Regroup3(Before(init), Flat(f.other), [f.item], Flat(t), After(init));
    }
  }

  lemma Regroup3<T>(a: seq<T>, b: seq<T>, c: seq<T>, d: seq<T>, e: seq<T>)
    ensures a + (b + c + d) + e == (a + []) + b + (c + d + e) == (a + (b + c)) + d + ([] + e)
  {
  }

  lemma {:induction false} FlatPlugAll<V>(ctx: seq<Frame<V>>, t: Tree<V>)
    ensures Flat(PlugAll(ctx, t)) == Before(ctx) + Flat(t) + After(ctx)
    decreases |ctx|
  {
    if ctx != [] {
      FlatPlugAll(ctx[..|ctx| - 1], Plug(ctx[|ctx| - 1], t));
      FlatTop(ctx, t);
    }
  }

  lemma ExactPlug<V>(f: Frame<V>, t: Tree<V>)
    ensures Exact(Plug(f, t)) <==> Exact(t) && Fits(f, Height(t))
    ensures Height(Plug(f, t)) == 1 + Max(Height(t), Height(f.other))
  {
  }

  lemma {:induction false} ExactPlugAll<V>(ctx: seq<Frame<V>>, t: Tree<V>)
    ensures Exact(PlugAll(ctx, t)) <==> Exact(t) && AllFit(ctx, Height(t))
    decreases |ctx|
  {
    if ctx != [] {
      var f := ctx[|ctx| - 1];
      ExactPlug(f, t);
      ExactPlugAll(ctx[..|ctx| - 1], Plug(f, t));
    }
  }

  /** An exact tree of the same height in the hole. */
  lemma ExactSwap<V>(ctx: seq<Frame<V>>, t: Tree<V>, u: Tree<V>)
    requires Exact(PlugAll(ctx, t)) && Height(u) == Height(t) && (Exact(t) ==> Exact(u))
    ensures Exact(t) && AllFit(ctx, Height(t)) && Exact(PlugAll(ctx, u))
  {
    ExactPlugAll(ctx, t);
    ExactPlugAll(ctx, u);
  }

  // ----- rotations

  function RotRight<V>(p: Tree<V>): Tree<V>
    requires p.Fork? && p.left.Fork?
  {
    var c := p.left;
    var even := c.balance == 0;
    Fork(c.left, c.item, if even then 1 else 0, Fork(c.right, p.item, if even then -1 else 0, p.right))
  }

  function RotLeft<V>(p: Tree<V>): Tree<V>
    requires p.Fork? && p.right.Fork?
  {
    var c := p.right;
    var even := c.balance == 0;
    Fork(Fork(p.left, p.item, if even then 1 else 0, c.left), c.item, if even then -1 else 0, c.right)
  }

  function RotLeftRight<V>(g: Tree<V>): Tree<V>
    requires g.Fork? && g.left.Fork? && g.left.right.Fork?
  {
    var p, c := g.left, g.left.right;
    Fork(Fork(p.left, p.item, if c.balance > 0 then -1 else 0, c.left), c.item, 0,
         Fork(c.right, g.item, if c.balance < 0 then 1 else 0, g.right))
  }

  function RotRightLeft<V>(g: Tree<V>): Tree<V>
    requires g.Fork? && g.right.Fork? && g.right.left.Fork?
  {
    var p, c := g.right, g.right.left;
    Fork(Fork(g.left, g.item, if c.balance > 0 then -1 else 0, c.left), c.item, 0,
         Fork(c.right, p.item, if c.balance < 0 then 1 else 0, p.right))
  }

  lemma Regroup<T>(a: seq<T>, x: T, b: seq<T>, y: T, c: seq<T>)
    ensures a + [x] + (b + [y] + c) == a + [x] + b + [y] + c
  {
  }

  lemma RotRightKeepsFlat<V>(p: Tree<V>)
    requires p.Fork? && p.left.Fork?
    ensures Flat(RotRight(p)) == Flat(p)
  {
    var c := p.left;
    Regroup(Flat(c.left), c.item, Flat(c.right), p.item, Flat(p.right));
  }

  lemma RotLeftKeepsFlat<V>(p: Tree<V>)
    requires p.Fork? && p.right.Fork?
    ensures Flat(RotLeft(p)) == Flat(p)
  {
    var c := p.right;
    Regroup(Flat(p.left), p.item, Flat(c.left), c.item, Flat(c.right));
  }

  /** A double rotation is two single ones as far as the items go. */
  lemma RotLeftRightKeepsFlat<V>(g: Tree<V>)
    requires g.Fork? && g.left.Fork? && g.left.right.Fork?
    ensures Flat(RotLeftRight(g)) == Flat(g)
  {
    var once := Fork(RotLeft(g.left), g.item, g.balance, g.right);
    RotLeftKeepsFlat(g.left);
    RotRightKeepsFlat(once);
    assert Flat(RotLeftRight(g)) == Flat(RotRight(once));
  }

  lemma RotRightLeftKeepsFlat<V>(g: Tree<V>)
    requires g.Fork? && g.right.Fork? && g.right.left.Fork?
    ensures Flat(RotRightLeft(g)) == Flat(g)
  {
    var once := Fork(g.left, g.item, g.balance, RotRight(g.right));
    RotRightKeepsFlat(g.right);
    RotLeftKeepsFlat(once);
    assert Flat(RotRightLeft(g)) == Flat(RotLeft(once));
  }

  /** A tree that leans two to the left, put right: the double rotation if its left child leans to the right. */
  function LeanRight<V>(p: Tree<V>): Tree<V>
    requires p.Fork? && p.left.Fork? && (p.left.balance > 0 ==> p.left.right.Fork?)
  {
    if p.left.balance > 0 then RotLeftRight(p) else RotRight(p)
  }

  function LeanLeft<V>(p: Tree<V>): Tree<V>
    requires p.Fork? && p.right.Fork? && (p.right.balance < 0 ==> p.right.left.Fork?)
  {
    if p.right.balance < 0 then RotRightLeft(p) else RotLeft(p)
  }

  lemma RotRightIsExact<V>(p: Tree<V>)
    requires p.Fork? && Exact(p.left) && Exact(p.right) && Height(p.left) == Height(p.right) + 2
    requires p.left.Fork? && !(p.left.balance > 0)
    ensures Exact(RotRight(p))
    ensures Height(RotRight(p)) == if p.left.balance == 0 then Height(p.left) + 1 else Height(p.left)
  {
  }

  lemma RotLeftRightIsExact<V>(g: Tree<V>)
    requires g.Fork? && Exact(g.left) && Exact(g.right) && Height(g.left) == Height(g.right) + 2
    requires g.left.Fork? && g.left.balance > 0
    ensures g.left.right.Fork? && Exact(RotLeftRight(g)) && Height(RotLeftRight(g)) == Height(g.left)
  {
  }

  /** The rotation makes the balances exact again, and the tree is one lower than it was unless the child was even. */
  lemma LeanRightIsExact<V>(p: Tree<V>)
    requires p.Fork? && Exact(p.left) && Exact(p.right) && Height(p.left) == Height(p.right) + 2
    ensures p.left.Fork? && (p.left.balance > 0 ==> p.left.right.Fork?)
    ensures Exact(LeanRight(p)) && Flat(LeanRight(p)) == Flat(p)
    ensures Height(LeanRight(p)) == if p.left.balance == 0 then Height(p.left) + 1 else Height(p.left)
  {
    if p.left.balance > 0 {
      RotLeftRightIsExact(p);
      RotLeftRightKeepsFlat(p);
    } else {
      RotRightIsExact(p);
      RotRightKeepsFlat(p);
    }
  }

  lemma RotLeftIsExact<V>(p: Tree<V>)
    requires p.Fork? && Exact(p.right) && Exact(p.left) && Height(p.right) == Height(p.left) + 2
    requires p.right.Fork? && !(p.right.balance < 0)
    ensures Exact(RotLeft(p))
    ensures Height(RotLeft(p)) == if p.right.balance == 0 then Height(p.right) + 1 else Height(p.right)
  {
  }

  lemma RotRightLeftIsExact<V>(g: Tree<V>)
    requires g.Fork? && Exact(g.right) && Exact(g.left) && Height(g.right) == Height(g.left) + 2
    requires g.right.Fork? && g.right.balance < 0
    ensures g.right.left.Fork? && Exact(RotRightLeft(g)) && Height(RotRightLeft(g)) == Height(g.right)
  {
  }

  lemma LeanLeftIsExact<V>(p: Tree<V>)
    requires p.Fork? && Exact(p.left) && Exact(p.right) && Height(p.right) == Height(p.left) + 2
    ensures p.right.Fork? && (p.right.balance < 0 ==> p.right.left.Fork?)
    ensures Exact(LeanLeft(p)) && Flat(LeanLeft(p)) == Flat(p)
    ensures Height(LeanLeft(p)) == if p.right.balance == 0 then Height(p.right) + 1 else Height(p.right)
  {
    if p.right.balance < 0 {
      RotRightLeftIsExact(p);
      RotRightLeftKeepsFlat(p);
    } else {
      RotLeftIsExact(p);
      RotLeftKeepsFlat(p);
    }
  }

  // ----- back to the root after an insertion

  /** The balance of a frame whose hole has grown by one. */
  function Grown<V>(f: Frame<V>): int {
    f.balance + if f.goesLeft then -1 else 1
  }

  /** One round: the tree over the hole that has grown, and whether it has grown itself. */
  function GrowStep<V>(f: Frame<V>, t: Tree<V>): (r: (Tree<V>, bool))
    requires Exact(t) && t.Fork?
  {
    if Grown(f) == -2 && f.goesLeft then (LeanRight(Plug(f, t)), false)
    else if Grown(f) == 2 && !f.goesLeft then (LeanLeft(Plug(f, t)), false)
    else (Plug(f.(balance := Grown(f)), t), Grown(f) != 0)
  }

  /** A subtree that has grown leans to one side, unless it is a new leaf. */
  predicate Leans<V>(t: Tree<V>) {
    t.Fork? && (t.balance != 0 || Height(t) == 1)
  }

  /** What one round promises: `u` over the hole of height `h` is exact and has grown by one or not at all. */
  ghost predicate IsRaised<V>(p: Tree<V>, h: nat, u: Tree<V>, grew: bool) {
    && Exact(u) && u.Fork? && Flat(u) == Flat(p)
    && Height(u) == (if grew then h + 1 else h) && (grew ==> Leans(u))
  }

  lemma GrowPlain<V>(f: Frame<V>, t: Tree<V>)
    requires Exact(t) && Leans(t) && Fits(f, Height(t) - 1) && -1 <= Grown(f) <= 1
    ensures IsRaised(Plug(f, t), 1 + Max(Height(t) - 1, Height(f.other)), GrowStep(f, t).0, GrowStep(f, t).1)
  {
    ExactPlug(f.(balance := Grown(f)), t);
  }

  lemma GrowRotates<V>(f: Frame<V>, t: Tree<V>)
    requires Exact(t) && Leans(t) && Fits(f, Height(t) - 1) && !(-1 <= Grown(f) <= 1)
    ensures IsRaised(Plug(f, t), 1 + Max(Height(t) - 1, Height(f.other)), GrowStep(f, t).0, GrowStep(f, t).1)
  {
    if f.goesLeft {
      LeanRightIsExact(Plug(f, t));
    } else {
      LeanLeftIsExact(Plug(f, t));
    }
  }

  lemma GrowStepIsExact<V>(f: Frame<V>, t: Tree<V>)
    requires Exact(t) && Leans(t) && Fits(f, Height(t) - 1)
    ensures IsRaised(Plug(f, t), 1 + Max(Height(t) - 1, Height(f.other)), GrowStep(f, t).0, GrowStep(f, t).1)
  {
    if -1 <= Grown(f) <= 1 {
      GrowPlain(f, t);
    } else {
      GrowRotates(f, t);
    }
  }

  function Grow<V>(ctx: seq<Frame<V>>, t: Tree<V>): Tree<V>
    requires Exact(t) && Leans(t) && AllFit(ctx, Height(t) - 1)
    decreases |ctx|
  {
    if ctx == [] then t
    else
      var f, init := ctx[|ctx| - 1], ctx[..|ctx| - 1];
      var (u, grew) := GrowStep(f, t);
      GrowStepIsExact(f, t);
      if grew then Grow(init, u) else PlugAll(init, u)
  }

  /** What decides the round, by the parent's new balance. */
  ghost predicate GrowForm<V>(f: Frame<V>, t: Tree<V>)
    requires Exact(t) && t.Fork?
  {
    && (Grown(f) == -2 ==>
          && f.goesLeft && t.Fork? && (t.balance > 0 ==> t.right.Fork?)
          && GrowStep(f, t) == (LeanRight(Plug(f, t)), false))
    && (Grown(f) == 2 ==>
          && !f.goesLeft && t.Fork? && (t.balance < 0 ==> t.left.Fork?)
          && GrowStep(f, t) == (LeanLeft(Plug(f, t)), false))
    && (Grown(f) != -2 && Grown(f) != 2 ==> GrowStep(f, t) == (Plug(f.(balance := Grown(f)), t), Grown(f) != 0))
  }

  lemma GrowCases<V>(f: Frame<V>, t: Tree<V>)
    requires Exact(t) && Leans(t) && Fits(f, Height(t) - 1)
    ensures GrowForm(f, t)
  {
  }

  /** The way up from `t` in `ctx` ends in `goal`. */
  ghost predicate Growing<V>(ctx: seq<Frame<V>>, t: Tree<V>, goal: Tree<V>) {
    Exact(t) && Leans(t) && AllFit(ctx, Height(t) - 1) && Grow(ctx, t) == goal
  }

  lemma GrowGoesOn<V>(ctx: seq<Frame<V>>, t: Tree<V>, goal: Tree<V>)
    requires ctx != [] && Growing(ctx, t, goal)
    ensures var f, init := ctx[|ctx| - 1], ctx[..|ctx| - 1];
            && Fits(f, Height(t) - 1) && Flat(GrowStep(f, t).0) == Flat(Plug(f, t)) && GrowStep(f, t).0.Fork?
            && if GrowStep(f, t).1 then Growing(init, GrowStep(f, t).0, goal)
               else PlugAll(init, GrowStep(f, t).0) == goal
  {
    GrowStepIsExact(ctx[|ctx| - 1], t);
  }

  lemma GrowEnds<V>(ctx: seq<Frame<V>>, t: Tree<V>, goal: Tree<V>)
    requires ctx != [] && Growing(ctx, t, goal) && !GrowStep(ctx[|ctx| - 1], t).1
    ensures Exact(goal)
  {
    var f, init := ctx[|ctx| - 1], ctx[..|ctx| - 1];
    var h := 1 + Max(Height(t) - 1, Height(f.other));
    assert AllFit(init, h);
    GrowStepIsExact(f, t);
    ExactPlugAll(init, GrowStep(f, t).0);
  }

  /** On the way back up from a subtree that has grown, the balances become exact and the items stay in order. */
  lemma {:induction false} GrowIsExact<V>(ctx: seq<Frame<V>>, t: Tree<V>, goal: Tree<V>)
    requires Growing(ctx, t, goal)
    ensures Exact(goal) && Flat(goal) == Before(ctx) + Flat(t) + After(ctx)
    decreases |ctx|
  {
    if ctx != [] {
      var init := ctx[..|ctx| - 1];
      GrowGoesOn(ctx, t, goal);
      var (u, grew) := GrowStep(ctx[|ctx| - 1], t);
      FlatTop(ctx, t);
      if grew {
        GrowIsExact(init, u, goal);
      } else {
        FlatPlugAll(init, u);
        GrowEnds(ctx, t, goal);
      }
    }
  }

  // ----- back to the root after a removal

  /** The balance of a frame whose hole has shrunk by one. */
  function Shrunk<V>(f: Frame<V>): int {
    f.balance + if f.goesLeft then 1 else -1
  }

  /** The sibling can be rotated over the hole. */
  predicate Rotates<V>(f: Frame<V>) {
    var s := f.other;
    Shrunk(f) == (if f.goesLeft then 2 else -2) ==>
      s.Fork? && if f.goesLeft then s.balance < 0 ==> s.left.Fork? else s.balance > 0 ==> s.right.Fork?
  }

  function ShrinkStep<V>(f: Frame<V>, t: Tree<V>): (Tree<V>, bool)
    requires Rotates(f)
  {
    if Shrunk(f) == -2 && !f.goesLeft then (LeanRight(Plug(f, t)), f.other.balance != 0)
    else if Shrunk(f) == 2 && f.goesLeft then (LeanLeft(Plug(f, t)), f.other.balance != 0)
    else (Plug(f.(balance := Shrunk(f)), t), Shrunk(f) == 0)
  }

  ghost predicate IsLowered<V>(p: Tree<V>, h: nat, u: Tree<V>, shrank: bool) {
    Exact(u) && u.Fork? && Flat(u) == Flat(p) && Height(u) == if shrank then h - 1 else h
  }

  lemma BalanceIsNoItem<V>(f: Frame<V>, t: Tree<V>, balance: int)
    ensures Flat(Plug(f.(balance := balance), t)) == Flat(Plug(f, t))
  {
  }

  lemma ShrunkFits<V>(f: Frame<V>, h: nat)
    requires Fits(f, h + 1) && -1 <= Shrunk(f) <= 1
    ensures Fits(f.(balance := Shrunk(f)), h)
    ensures Max(h, Height(f.other)) == Max(h + 1, Height(f.other)) - if Shrunk(f) == 0 then 1 else 0
  {
  }

  lemma ShrinkPlain<V>(f: Frame<V>, t: Tree<V>)
    requires Exact(t) && Fits(f, Height(t) + 1) && -1 <= Shrunk(f) <= 1
    ensures Rotates(f)
    ensures IsLowered(Plug(f, t), 1 + Max(Height(t) + 1, Height(f.other)), ShrinkStep(f, t).0, ShrinkStep(f, t).1)
  {
    var u := Plug(f.(balance := Shrunk(f)), t);
    ShrunkFits(f, Height(t));
    ExactPlug(f.(balance := Shrunk(f)), t);
    BalanceIsNoItem(f, t, Shrunk(f));
    assert ShrinkStep(f, t) == (u, Shrunk(f) == 0);
  }

  lemma ShrinkRotates<V>(f: Frame<V>, t: Tree<V>)
    requires Exact(t) && Fits(f, Height(t) + 1) && !(-1 <= Shrunk(f) <= 1)
    ensures Rotates(f)
    ensures IsLowered(Plug(f, t), 1 + Max(Height(t) + 1, Height(f.other)), ShrinkStep(f, t).0, ShrinkStep(f, t).1)
  {
    if f.goesLeft {
      LeanLeftIsExact(Plug(f, t));
    } else {
      LeanRightIsExact(Plug(f, t));
    }
  }

  lemma ShrinkStepIsExact<V>(f: Frame<V>, t: Tree<V>)
    requires Exact(t) && Fits(f, Height(t) + 1)
    ensures Rotates(f)
    ensures IsLowered(Plug(f, t), 1 + Max(Height(t) + 1, Height(f.other)), ShrinkStep(f, t).0, ShrinkStep(f, t).1)
  {
    if -1 <= Shrunk(f) <= 1 {
      ShrinkPlain(f, t);
    } else {
      ShrinkRotates(f, t);
    }
  }

  function Shrink<V>(ctx: seq<Frame<V>>, t: Tree<V>): Tree<V>
    requires Exact(t) && AllFit(ctx, Height(t) + 1)
    decreases |ctx|
  {
    if ctx == [] then t
    else
      var f, init := ctx[|ctx| - 1], ctx[..|ctx| - 1];
      ShrinkStepIsExact(f, t);
      var (u, shrank) := ShrinkStep(f, t);
      if shrank then Shrink(init, u) else PlugAll(init, u)
  }

  /** What decides the round, by the parent's new balance. */
  ghost predicate ShrinkForm<V>(f: Frame<V>, t: Tree<V>) {
    && Rotates(f)
    && (Shrunk(f) == -2 ==>
          && !f.goesLeft && f.other.Fork? && (f.other.balance > 0 ==> f.other.right.Fork?)
          && ShrinkStep(f, t) == (LeanRight(Plug(f, t)), f.other.balance != 0))
    && (Shrunk(f) == 2 ==>
          && f.goesLeft && f.other.Fork? && (f.other.balance < 0 ==> f.other.left.Fork?)
          && ShrinkStep(f, t) == (LeanLeft(Plug(f, t)), f.other.balance != 0))
    && (Shrunk(f) != -2 && Shrunk(f) != 2 ==>
          ShrinkStep(f, t) == (Plug(f.(balance := Shrunk(f)), t), Shrunk(f) == 0))
  }

  lemma ShrinkCases<V>(f: Frame<V>, t: Tree<V>)
    requires Exact(t) && Fits(f, Height(t) + 1) && Rotates(f)
    ensures ShrinkForm(f, t)
  {
  }

  /** The way up from `t` in `ctx` ends in `goal`. */
  ghost predicate Shrinking<V>(ctx: seq<Frame<V>>, t: Tree<V>, goal: Tree<V>) {
    Exact(t) && AllFit(ctx, Height(t) + 1) && Shrink(ctx, t) == goal
  }

  lemma ShrinkFits<V>(ctx: seq<Frame<V>>, t: Tree<V>, goal: Tree<V>)
    requires ctx != [] && Shrinking(ctx, t, goal)
    ensures var f := ctx[|ctx| - 1];
            && Fits(f, Height(t) + 1) && Rotates(f)
            && Flat(ShrinkStep(f, t).0) == Flat(Plug(f, t)) && ShrinkStep(f, t).0.Fork?
  {
    ShrinkStepIsExact(ctx[|ctx| - 1], t);
  }

  lemma ShrinkGoesOn<V>(ctx: seq<Frame<V>>, t: Tree<V>, goal: Tree<V>)
    requires ctx != [] && Shrinking(ctx, t, goal) && Rotates(ctx[|ctx| - 1])
    ensures var f, init := ctx[|ctx| - 1], ctx[..|ctx| - 1];
            if ShrinkStep(f, t).1 then Shrinking(init, ShrinkStep(f, t).0, goal)
            else PlugAll(init, ShrinkStep(f, t).0) == goal
  {
    ShrinkStepIsExact(ctx[|ctx| - 1], t);
  }

  lemma ShrinkEnds<V>(ctx: seq<Frame<V>>, t: Tree<V>, goal: Tree<V>)
    requires ctx != [] && Shrinking(ctx, t, goal) && Rotates(ctx[|ctx| - 1]) && !ShrinkStep(ctx[|ctx| - 1], t).1
    ensures Exact(goal)
  {
    var f, init := ctx[|ctx| - 1], ctx[..|ctx| - 1];
    var h := 1 + Max(Height(t) + 1, Height(f.other));
    assert AllFit(init, h);
    ShrinkStepIsExact(f, t);
    ExactPlugAll(init, ShrinkStep(f, t).0);
  }

  /** On the way back up from a subtree that has shrunk, the balances become exact and the items stay in order. */
  lemma {:induction false} ShrinkIsExact<V>(ctx: seq<Frame<V>>, t: Tree<V>, goal: Tree<V>)
    requires Shrinking(ctx, t, goal)
    ensures Exact(goal) && Flat(goal) == Before(ctx) + Flat(t) + After(ctx)
    decreases |ctx|
  {
    if ctx != [] {
      var init := ctx[..|ctx| - 1];
      ShrinkFits(ctx, t, goal);
      ShrinkGoesOn(ctx, t, goal);
      var (u, shrank) := ShrinkStep(ctx[|ctx| - 1], t);
      FlatTop(ctx, t);
      if shrank {
        ShrinkIsExact(init, u, goal);
      } else {
        FlatPlugAll(init, u);
        ShrinkEnds(ctx, t, goal);
      }
    }
  }

  // ----- taking a node out

  lemma {:induction false} PlugJoin<V>(a: seq<Frame<V>>, b: seq<Frame<V>>, t: Tree<V>)
    ensures PlugAll(a + b, t) == PlugAll(a, PlugAll(b, t))
    decreases |b|
  {
    if b == [] {
      assert a + b == a;
    } else {
      assert (a + b)[..|a + b| - 1] == a + b[..|b| - 1];
      PlugJoin(a, b[..|b| - 1], Plug(b[|b| - 1], t));
    }
  }

  ghost predicate AllLeft<V>(ctx: seq<Frame<V>>) {
    forall i :: 0 <= i < |ctx| ==> ctx[i].goesLeft
  }

  lemma {:induction false} NothingBefore<V>(lefts: seq<Frame<V>>)
    requires AllLeft(lefts)
    ensures Before(lefts) == []
    decreases |lefts|
  {
    if lefts != [] {
      NothingBefore(lefts[..|lefts| - 1]);
    }
  }

  /** The leftmost node of a tree has its least item. */
  lemma LeastOut<V>(lefts: seq<Frame<V>>, s: Tree<V>)
    requires AllLeft(lefts) && s.Fork? && s.left.Leaf?
    ensures Flat(PlugAll(lefts, s)) == [s.item] + Flat(PlugAll(lefts, s.right))
  {
    NothingBefore(lefts);
    FlatPlugAll(lefts, s);
    FlatPlugAll(lefts, s.right);
    assert Flat(s.left) == [];
    FirstOut(s.item, Flat(s.right), After(lefts));
  }

  lemma FirstOut<T>(x: T, a: seq<T>, b: seq<T>)
    ensures [] + ([] + [x] + a) + b == [x] + ([] + a + b)
  {
  }

  /** The node `d` with the leftmost item of its right subtree in place of its own. */
  function WithLeast<V>(d: Tree<V>, lefts: seq<Frame<V>>, s: Tree<V>): (u: Tree<V>)
    requires d.Fork? && s.Fork?
  {
    Fork(d.left, s.item, d.balance, PlugAll(lefts, s.right))
  }

  /** The context of the hole that the leftmost node leaves. */
  function LeastCtx<V>(ctx: seq<Frame<V>>, d: Tree<V>, lefts: seq<Frame<V>>, s: Tree<V>): seq<Frame<V>>
    requires d.Fork? && s.Fork?
  {
    ctx + [Frame(false, s.item, d.balance, d.left)] + lefts
  }

  lemma LeastCtxPlugs<V>(ctx: seq<Frame<V>>, d: Tree<V>, lefts: seq<Frame<V>>, s: Tree<V>, t: Tree<V>)
    requires d.Fork? && s.Fork?
    ensures PlugAll(LeastCtx(ctx, d, lefts, s), t)
            == PlugAll(ctx, Fork(d.left, s.item, d.balance, PlugAll(lefts, t)))
  {
    var f := Frame(false, s.item, d.balance, d.left);
    PlugJoin(ctx + [f], lefts, t);
    assert (ctx + [f])[..|ctx + [f]| - 1] == ctx;
  }

  lemma LeastFits<V>(ctx: seq<Frame<V>>, d: Tree<V>, lefts: seq<Frame<V>>, s: Tree<V>)
    requires d.Fork? && s.Fork? && s.left.Leaf? && d.right == PlugAll(lefts, s) && Exact(PlugAll(ctx, d))
    ensures Exact(s.right) && AllFit(LeastCtx(ctx, d, lefts, s), Height(s.right) + 1)
  {
    SameShape(d, d.(item := s.item));
    ExactSwap(ctx, d, d.(item := s.item));
    LeastCtxPlugs(ctx, d, lefts, s, s);
    LowerFits(LeastCtx(ctx, d, lefts, s), s);
  }

  lemma LowerFits<V>(ctx: seq<Frame<V>>, s: Tree<V>)
    requires s.Fork? && s.left.Leaf? && Exact(PlugAll(ctx, s))
    ensures Exact(s.right) && AllFit(ctx, Height(s.right) + 1)
  {
    ExactPlugAll(ctx, s);
  }

  lemma SameShape<V>(t: Tree<V>, u: Tree<V>)
    requires t.Fork? && u.Fork? && u == t.(item := u.item)
    ensures Height(u) == Height(t) && (Exact(t) ==> Exact(u))
  {
  }

  /** Of the items only the node's own is gone. */
  lemma LeastItems<V>(ctx: seq<Frame<V>>, d: Tree<V>, lefts: seq<Frame<V>>, s: Tree<V>)
    requires d.Fork? && s.Fork? && s.left.Leaf? && AllLeft(lefts) && d.right == PlugAll(lefts, s)
    ensures var all := LeastCtx(ctx, d, lefts, s);
            Before(all) + Flat(s.right) + After(all) == Before(ctx) + Flat(d.left) + (Flat(d.right) + After(ctx))
  {
    var all := LeastCtx(ctx, d, lefts, s);
    LeastOut(lefts, s);
    LeastCtxPlugs(ctx, d, lefts, s, s.right);
    FlatPlugAll(all, s.right);
    FlatPlugAll(ctx, WithLeast(d, lefts, s));
    Regroup4(Before(ctx), Flat(d.left), s.item, Flat(PlugAll(lefts, s.right)), After(ctx));
  }

  lemma Regroup5<T>(a: seq<T>, b: seq<T>, x: T, c: seq<T>, d: seq<T>)
    ensures a + (b + [x] + c) + d == a + b + [x] + (c + d)
  {
  }

  lemma Regroup4<T>(a: seq<T>, b: seq<T>, x: T, c: seq<T>, d: seq<T>)
    ensures a + (b + [x] + c) + d == a + b + ([x] + c + d)
  {
  }

  lemma OnlyChildIsLow<V>(d: Tree<V>, child: Tree<V>)
    requires d.Fork? && Exact(d) && ((d.left.Leaf? && child == d.right) || (d.right.Leaf? && child == d.left))
    ensures Exact(child) && Height(d) == Height(child) + 1 && (child.Fork? ==> child.balance == 0)
  {
  }

  lemma NothingAt<T>(a: seq<T>, b: seq<T>, c: seq<T>, d: seq<T>)
    requires b == [] || c == []
    ensures a + (if b == [] then c else b) + d == a + b + (c + d)
  {
  }

  lemma OnlyChildItems<V>(d: Tree<V>, child: Tree<V>)
    requires d.Fork? && ((d.left.Leaf? && child == d.right) || (d.right.Leaf? && child == d.left))
    ensures Flat(d.left) == [] || Flat(d.right) == []
    ensures Flat(child) == if Flat(d.left) == [] then Flat(d.right) else Flat(d.left)
  {
    if child.Fork? {
      assert child.item in Flat(child);
    }
  }

  /** A node without a left or without a right child gives way to its other child. */
  lemma OnlyChildFits<V>(ctx: seq<Frame<V>>, d: Tree<V>, child: Tree<V>)
    requires d.Fork? && Exact(PlugAll(ctx, d))
    requires (d.left.Leaf? && child == d.right) || (d.right.Leaf? && child == d.left)
    ensures Exact(child) && AllFit(ctx, Height(child) + 1) && (child.Fork? ==> child.balance == 0)
  {
    ExactPlugAll(ctx, d);
    OnlyChildIsLow(d, child);
  }

  lemma OnlyChildKeeps<V>(ctx: seq<Frame<V>>, d: Tree<V>, child: Tree<V>)
    requires d.Fork? && ((d.left.Leaf? && child == d.right) || (d.right.Leaf? && child == d.left))
    ensures Before(ctx) + Flat(child) + After(ctx) == Before(ctx) + Flat(d.left) + (Flat(d.right) + After(ctx))
  {
    OnlyChildItems(d, child);
    NothingAt(Before(ctx), Flat(d.left), Flat(d.right), After(ctx));
  }
}
