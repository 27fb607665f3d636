/** The items of a search tree as a map, and what the search for a key tells about it. */
module TreeItems {
  import opened AvlTree

  // ----- the items of a tree as a map

  ghost predicate Sorted<V>(items: seq<Item<V>>) {
    forall i, j :: 0 <= i < j < |items| ==> items[i].key < items[j].key
  }

  ghost predicate Below<V>(items: seq<Item<V>>, k: int) {
    forall i :: 0 <= i < |items| ==> items[i].key < k
  }

  ghost predicate Over<V>(items: seq<Item<V>>, k: int) {
    forall i :: 0 <= i < |items| ==> k < items[i].key
  }

  function AsMap<V>(items: seq<Item<V>>): (m: map<int, V>)
    ensures forall i :: 0 <= i < |items| ==> items[i].key in m
  {
    if items == [] then map[]
    else
      var last := items[|items| - 1];
      AsMap(items[..|items| - 1])[last.key := last.value]
  }

  lemma {:induction false} AsMapJoin<V>(a: seq<Item<V>>, b: seq<Item<V>>)
    ensures AsMap(a + b) == AsMap(a) + AsMap(b)
    decreases |b|
  {
    if b == [] {
      assert a + b == a;
    } else {
      assert (a + b)[..|a + b| - 1] == a + b[..|b| - 1];
      AsMapJoin(a, b[..|b| - 1]);
    }
  }

  lemma {:induction false} NotAmong<V>(items: seq<Item<V>>, k: int)
    requires Below(items, k) || Over(items, k)
    ensures k !in AsMap(items)
    decreases |items|
  {
    if items != [] {
      NotAmong(items[..|items| - 1], k);
    }
  }

  lemma {:induction false} AsMapSize<V>(items: seq<Item<V>>)
    requires Sorted(items)
    ensures |AsMap(items)| == |items|
    decreases |items|
  {
    if items != [] {
      var init, last := items[..|items| - 1], items[|items| - 1];
      AsMapSize(init);
      assert Below(init, last.key);
      NotAmong(init, last.key);
      assert AsMap(items).Keys == AsMap(init).Keys + {last.key};
    }
  }

  lemma {:induction false} AsMapHas<V>(items: seq<Item<V>>)
    requires Sorted(items)
    ensures forall i :: 0 <= i < |items| ==> AsMap(items)[items[i].key] == items[i].value
    decreases |items|
  {
    if items != [] {
      AsMapHas(items[..|items| - 1]);
    }
  }

  ghost predicate Precede<V>(a: seq<Item<V>>, b: seq<Item<V>>) {
    forall i, j :: 0 <= i < |a| && 0 <= j < |b| ==> a[i].key < b[j].key
  }

  lemma SortedJoin<V>(a: seq<Item<V>>, b: seq<Item<V>>)
    ensures Sorted(a + b) <==> Sorted(a) && Sorted(b) && Precede(a, b)
  {
    var all := a + b;
    assert forall i :: 0 <= i < |a| ==> all[i] == a[i];
    assert forall i :: 0 <= i < |b| ==> all[|a| + i] == b[i];
    if Sorted(all) {
      forall i, j | 0 <= i < |a| && 0 <= j < |b|
        ensures a[i].key < b[j].key
      {
        assert all[i] == a[i] && all[|a| + j] == b[j];
      }
    }
  }

  lemma Bracketed<V>(a: seq<Item<V>>, x: Item<V>, b: seq<Item<V>>)
    ensures Sorted(a + [x] + b) <==> Sorted(a + b) && Below(a, x.key) && Over(b, x.key)
  {
    SortedJoin(a, b);
    SortedJoin(a + [x], b);
    SortedJoin(a, [x]);
    assert Precede(a, [x]) <==> Below(a, x.key) by {
      assert [x][0] == x;
    }
    assert Precede(a + [x], b) <==> Precede(a, b) && Over(b, x.key) by {
      PrecedeOne(a, x, b);
    }
    if Below(a, x.key) && Over(b, x.key) {
      assert Precede(a, b);
    }
  }

  lemma PrecedeOne<V>(a: seq<Item<V>>, x: Item<V>, b: seq<Item<V>>)
    ensures Precede(a + [x], b) <==> Precede(a, b) && Over(b, x.key)
  {
    assert (a + [x])[|a|] == x;
    assert forall i :: 0 <= i < |a| ==> (a + [x])[i] == a[i];
  }

  /** One item more is one entry more. */
  lemma OneMore<V>(a: seq<Item<V>>, x: Item<V>, b: seq<Item<V>>)
    requires Below(a, x.key) && Over(b, x.key)
    ensures AsMap(a + [x] + b) == AsMap(a + b)[x.key := x.value]
    ensures x.key !in AsMap(a + b)
    ensures AsMap(a + b) == AsMap(a + [x] + b) - {x.key}
  {
    NotAmong(a, x.key);
    NotAmong(b, x.key);
    AsMapJoin(a, b);
    AsMapJoin(a + [x], b);
    assert AsMap(a + [x]) == AsMap(a)[x.key := x.value] by {
      assert (a + [x])[..|a|] == a;
    }
  }

  // ----- the search for a key

  /** The hole of `ctx` is where `k` belongs. */
  ghost predicate Brackets<V>(ctx: seq<Frame<V>>, k: int) {
    Below(Before(ctx), k) && Over(After(ctx), k)
  }

  function FrameOf<V>(t: Tree<V>, goesLeft: bool): Frame<V>
    requires t.Fork?
  {
    Frame(goesLeft, t.item, t.balance, if goesLeft then t.right else t.left)
  }

  /** The items around a node's own. */
  lemma Around<V>(ctx: seq<Frame<V>>, t: Tree<V>)
    requires t.Fork?
    ensures Flat(PlugAll(ctx, t)) == Before(ctx) + Flat(t.left) + [t.item] + (Flat(t.right) + After(ctx))
  {
    FlatPlugAll(ctx, t);
    Regroup5(Before(ctx), Flat(t.left), t.item, Flat(t.right), After(ctx));
  }

  lemma BelowMore<V>(a: seq<Item<V>>, b: seq<Item<V>>, x: Item<V>, k: int)
    requires Below(a + b, x.key) && x.key < k
    ensures Below(a + (b + [x]), k)
  {
    assert a + (b + [x]) == a + b + [x];
  }

  lemma OverMore<V>(x: Item<V>, a: seq<Item<V>>, b: seq<Item<V>>, k: int)
    requires Over(a + b, x.key) && k < x.key
    ensures Over([x] + a + b, k)
  {
    assert [x] + a + b == [x] + (a + b);
  }

  /** Each node of `ctx` has been left on the side on which `k` belongs. */
  ghost predicate Decided<V>(ctx: seq<Frame<V>>, k: int)
    decreases |ctx|
  {
    ctx != [] ==>
      var f := ctx[|ctx| - 1];
      (if f.goesLeft then k < f.item.key else f.item.key < k) && Decided(ctx[..|ctx| - 1], k)
  }

  lemma Descend<V>(ctx: seq<Frame<V>>, t: Tree<V>, k: int, goesLeft: bool)
    requires t.Fork? && Decided(ctx, k) && if goesLeft then k < t.item.key else t.item.key < k
    ensures var inner := ctx + [FrameOf(t, goesLeft)];
            PlugAll(inner, if goesLeft then t.left else t.right) == PlugAll(ctx, t) && Decided(inner, k)
  {
    var inner := ctx + [FrameOf(t, goesLeft)];
    assert inner[..|inner| - 1] == ctx;
  }

  /** In a sorted tree that makes the hole the place where `k` belongs. */
  lemma {:induction false} DecidedBrackets<V>(ctx: seq<Frame<V>>, t: Tree<V>, k: int)
    requires Decided(ctx, k) && Sorted(Flat(PlugAll(ctx, t)))
    ensures Brackets(ctx, k)
    decreases |ctx|
  {
    if ctx != [] {
      var f, init := ctx[|ctx| - 1], ctx[..|ctx| - 1];
      var p := Plug(f, t);
      DecidedBrackets(init, p, k);
      Around(init, p);
      Bracketed(Before(init) + Flat(p.left), p.item, Flat(p.right) + After(init));
      if f.goesLeft {
        OverMore(f.item, Flat(f.other), After(init), k);
      } else {
        BelowMore(Before(init), Flat(f.other), f.item, k);
      }
    }
  }

  lemma SearchDecides<V>(ctx: seq<Frame<V>>, t: Tree<V>, k: int)
    requires Sorted(Flat(PlugAll(ctx, t))) && Brackets(ctx, k) && (t.Fork? ==> t.item.key == k)
    ensures k in AsMap(Flat(PlugAll(ctx, t))) <==> t.Fork?
    ensures t.Fork? ==> AsMap(Flat(PlugAll(ctx, t)))[k] == t.item.value
  {
    if t.Fork? {
      Around(ctx, t);
      var a, b := Before(ctx) + Flat(t.left), Flat(t.right) + After(ctx);
      Bracketed(a, t.item, b);
      OneMore(a, t.item, b);
    } else {
      FlatPlugAll(ctx, t);
      assert Before(ctx) + Flat(t) == Before(ctx);
      AsMapJoin(Before(ctx), After(ctx));
      NotAmong(Before(ctx), k);
      NotAmong(After(ctx), k);
    }
  }

  /** What an insertion makes of the items. */
  lemma Added<V>(ctx: seq<Frame<V>>, x: Item<V>)
    requires Sorted(Flat(PlugAll(ctx, Leaf))) && Brackets(ctx, x.key)
    ensures var was, now := Flat(PlugAll(ctx, Leaf)), Before(ctx) + [x] + After(ctx);
            && Sorted(now) && AsMap(now) == AsMap(was)[x.key := x.value] && |now| == |was| + 1
  {
    FlatPlugAll(ctx, Leaf);
    assert Before(ctx) + Flat<V>(Leaf) == Before(ctx);
    Bracketed(Before(ctx), x, After(ctx));
    OneMore(Before(ctx), x, After(ctx));
  }

  /** What a removal makes of the items. */
  lemma Removed<V>(ctx: seq<Frame<V>>, t: Tree<V>)
    requires t.Fork? && Sorted(Flat(PlugAll(ctx, t)))
    ensures var was, now := Flat(PlugAll(ctx, t)), Before(ctx) + Flat(t.left) + (Flat(t.right) + After(ctx));
            && Sorted(now) && AsMap(now) == AsMap(was) - {t.item.key} && |now| == |was| - 1
  {
    Around(ctx, t);
    var a, b := Before(ctx) + Flat(t.left), Flat(t.right) + After(ctx);
    Bracketed(a, t.item, b);
    OneMore(a, t.item, b);
  }

  /** Another value under the same key. */
  lemma Revalued<V>(ctx: seq<Frame<V>>, t: Tree<V>, v: V)
    requires t.Fork? && Sorted(Flat(PlugAll(ctx, t)))
    ensures var was, now := Flat(PlugAll(ctx, t)), Flat(PlugAll(ctx, t.(item := t.item.(value := v))));
            && Sorted(now) && AsMap(now) == AsMap(was)[t.item.key := v] && |now| == |was|
  {
    var u := t.(item := t.item.(value := v));
    Around(ctx, t);
    Around(ctx, u);
    var a, b := Before(ctx) + Flat(t.left), Flat(t.right) + After(ctx);
    Bracketed(a, t.item, b);
    Bracketed(a, u.item, b);
    OneMore(a, t.item, b);
    OneMore(a, u.item, b);
  }
}
