/**
  `FileUtils.walk` and `fileFlux`: depth-first, pre-order expansion of a
  file tree. Each entry carries its path and what `File.listFiles()` returned
  for it; `Unlisted` stands for the `null` a regular file, a missing path or
  an unreadable directory all produce, and makes the entry a leaf.
 */
module FileTree {
  import opened PathOrder

  datatype Listing = Unlisted | Listed(entries: seq<Node>)

  datatype Node = Node(path: Path, listing: Listing)

  /** `fileFlux`: the children of an entry, none when its listing is `null`. */
  function Children(t: Node): (cs: seq<Node>)
    ensures t.listing.Unlisted? ==> cs == []
    ensures t.listing.Listed? ==> cs == t.listing.entries
  {
    match t.listing
    case Unlisted => []
    case Listed(entries) => entries
  }

  /** The number of entries in a tree. */
  function Size(t: Node): nat
    decreases t
  {
    1 + match t.listing
        case Unlisted => 0
        case Listed(entries) => ForestSize(entries)
  }

  function ForestSize(ts: seq<Node>): nat
    decreases ts
  {
    if |ts| == 0 then 0 else Size(ts[0]) + ForestSize(ts[1..])
  }

  /**
    `walk(path)`: the root first, then the whole walk of each child in
    listing order.
   */
  function Walk(t: Node): (r: seq<Path>)
    ensures |r| == Size(t)
    ensures r[0] == t.path
    ensures |Children(t)| == 0 ==> r == [t.path]
    decreases t
  {
    [t.path] + match t.listing
               case Unlisted => []
               case Listed(entries) => WalkForest(entries)
  }

  function WalkForest(ts: seq<Node>): (r: seq<Path>)
    ensures |r| == ForestSize(ts)
    decreases ts
  {
    if |ts| == 0 then [] else Walk(ts[0]) + WalkForest(ts[1..])
  }

  /** `s` is `t` or an entry somewhere below it. */
  predicate Within(s: Node, t: Node)
    decreases t
  {
    s == t || ProperlyWithin(s, t)
  }

  /** `s` is an entry strictly below `t`. */
  predicate ProperlyWithin(s: Node, t: Node)
    decreases t, 0
  {
    t.listing.Listed? && exists i :: 0 <= i < |t.listing.entries| && Within(s, t.listing.entries[i])
  }

  /** `u` occurs in `w` as a contiguous block starting at index `k`. */
  predicate OccursAt<T(==)>(w: seq<T>, u: seq<T>, k: int) {
    0 <= k && k + |u| <= |w| && w[k .. k + |u|] == u
  }

  lemma {:induction false} WalkForestAppend(a: seq<Node>, b: seq<Node>)
    ensures WalkForest(a + b) == WalkForest(a) + WalkForest(b)
    ensures ForestSize(a + b) == ForestSize(a) + ForestSize(b)
    decreases |a|
  {
    if |a| > 0 {
      assert (a + b)[1..] == a[1..] + b;
      WalkForestAppend(a[1..], b);
    } else {
      assert a + b == b;
    }
  }

  lemma OccursInMiddle<T>(a: seq<T>, b: seq<T>, c: seq<T>)
    ensures OccursAt(a + b + c, b, |a|)
  {
    assert (a + b + c)[|a| .. |a| + |b|] == b;
  }

  /** The walk of the `i`-th child sits inside the walk of the forest, after the walks of the earlier children. */
  lemma ChildWalkInForest(ts: seq<Node>, i: int)
    requires 0 <= i < |ts|
    ensures OccursAt(WalkForest(ts), Walk(ts[i]), |WalkForest(ts[..i])|)
  {
    var tail := [ts[i]] + ts[i + 1..];
    assert ts == ts[..i] + tail;
    WalkForestAppend(ts[..i], tail);
    assert tail[1..] == ts[i + 1..];
    assert WalkForest(tail) == Walk(ts[i]) + WalkForest(ts[i + 1..]);
    assert WalkForest(ts) == WalkForest(ts[..i]) + Walk(ts[i]) + WalkForest(ts[i + 1..]);
    OccursInMiddle(WalkForest(ts[..i]), Walk(ts[i]), WalkForest(ts[i + 1..]));
  }

  /** The walk of a listed child occurs in its parent's walk, after the parent's own path. */
  lemma ChildWalkInWalk(t: Node, i: int)
    requires t.listing.Listed? && 0 <= i < |t.listing.entries|
    ensures exists k :: 1 <= k && OccursAt(Walk(t), Walk(t.listing.entries[i]), k)
  {
    var es := t.listing.entries;
    var forest := WalkForest(es);
    ChildWalkInForest(es, i);
    assert Walk(t) == [t.path] + forest;
    assert OccursAt(Walk(t), forest, 1) by {
      assert Walk(t)[1..] == forest;
    }
    OccursAtTransitive(Walk(t), forest, Walk(es[i]), 1, |WalkForest(es[..i])|);
  }

  lemma OccursAtTransitive<T>(w: seq<T>, u: seq<T>, v: seq<T>, k1: int, k2: int)
    requires OccursAt(w, u, k1) && OccursAt(u, v, k2)
    ensures OccursAt(w, v, k1 + k2)
  {
    forall j | 0 <= j < |v|
      ensures w[k1 + k2 + j] == v[j]
    {
      assert w[k1 + k2 + j] == w[k1 .. k1 + |u|][k2 + j];
      assert u[k2 + j] == u[k2 .. k2 + |v|][j];
    }
    assert w[k1 + k2 .. k1 + k2 + |v|] == v;
  }

  /**
    Pre-order and depth-first: the walk of any entry strictly below `t`
    occurs as one contiguous block of `t`'s walk, after `t` itself. So an
    entry comes before all its descendants, and a subtree is finished before
    the walk moves on.
   */
  lemma {:induction false} SubtreeWalkIsBlock(t: Node, s: Node)
    requires ProperlyWithin(s, t)
    ensures exists k :: 1 <= k && OccursAt(Walk(t), Walk(s), k)
    decreases t
  {
    var es := t.listing.entries;
    var i :| 0 <= i < |es| && Within(s, es[i]);
    ChildWalkInWalk(t, i);
    var base :| 1 <= base && OccursAt(Walk(t), Walk(es[i]), base);
    if s != es[i] {
      SubtreeWalkIsBlock(es[i], s);
      var k :| 1 <= k && OccursAt(Walk(es[i]), Walk(s), k);
      OccursAtTransitive(Walk(t), Walk(es[i]), Walk(s), base, k);
    }
  }

  /** An entry's walk and size in terms of `fileFlux`'s children. */
  lemma UnfoldWalk(t: Node)
    ensures Walk(t) == [t.path] + WalkForest(Children(t))
    ensures Size(t) == 1 + ForestSize(Children(t))
  {
    match t.listing
    case Unlisted =>
      assert WalkForest([]) == [];
    case Listed(es) =>
  }

  lemma WalkForestCons(stack: seq<Node>)
    requires |stack| > 0
    ensures WalkForest(stack) == Walk(stack[0]) + WalkForest(stack[1..])
    ensures ForestSize(stack) == Size(stack[0]) + ForestSize(stack[1..])
  {
  }

  /** Popping the first pending entry and pushing its children in its place: what the walk and the size become. */
  lemma PopStep(stack: seq<Node>)
    requires |stack| > 0
    ensures WalkForest(stack) == [stack[0].path] + WalkForest(Children(stack[0]) + stack[1..])
    ensures ForestSize(stack) == 1 + ForestSize(Children(stack[0]) + stack[1..])
  {
    var cs, rest := Children(stack[0]), stack[1..];
    WalkForestCons(stack);
    UnfoldWalk(stack[0]);
    WalkForestAppend(cs, rest);
    Regroup(stack[0].path, WalkForest(cs), WalkForest(rest), WalkForest(stack), WalkForest(cs + rest));
  }

  lemma Regroup<T>(x: T, a: seq<T>, b: seq<T>, w: seq<T>, ab: seq<T>)
    requires w == ([x] + a) + b && ab == a + b
    ensures w == [x] + ab
  {
  }

  /**
    The explicit work-stack form of Reactor's `expandDeep`: pop an entry,
    emit its path, list it once and push its children in front of the
    pending work. It emits exactly the recursive walk and lists every entry
    exactly once.
   */
  method ExpandDeep(root: Node) returns (out: seq<Path>, listings: nat)
    ensures out == Walk(root)
    ensures listings == Size(root) == |out|
  {
    out := [];
    listings := 0;
    var stack := [root];
    assert WalkForest(stack) == Walk(root) + WalkForest([]);
    while |stack| > 0
      invariant out + WalkForest(stack) == Walk(root)
      invariant listings + ForestSize(stack) == Size(root)
      invariant listings == |out|
      decreases ForestSize(stack)
    {
      PopStep(stack);
      var t := stack[0];
      var children := Children(t);
      listings := listings + 1;
      out := out + [t.path];
      stack := children + stack[1..];
    }
  }
}
