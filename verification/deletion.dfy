/**
  `FileUtils.deleteDirectory`: walk the tree, sort the paths in descending
  order, drop the root when it is to be kept, and attempt to delete each
  remaining path in turn, reporting each attempt as a boolean.
 */
module Deletion {
  import opened PathOrder
  import opened FileTree

  /**
    The tree as `File.listFiles` builds it: every listed child's path is the
    parent's path extended by a separator and a name, so the parent's path is
    a proper prefix of the child's.
   */
  predicate WellFormed(t: Node)
    decreases t
  {
    t.listing.Listed? ==>
      forall i :: 0 <= i < |t.listing.entries| ==>
        IsProperPrefix(t.path, t.listing.entries[i].path) && WellFormed(t.listing.entries[i])
  }

  /** Every path in `s` extends `p`. */
  predicate AllExtend(p: Path, s: seq<Path>) {
    forall j :: 0 <= j < |s| ==> IsProperPrefix(p, s[j])
  }

  /** The filter step: every occurrence of `root` is dropped when `keepRoot` holds; order is kept. */
  function DropRoot(s: seq<Path>, root: Path, keepRoot: bool): (r: seq<Path>)
    ensures multiset(r) == if keepRoot then multiset(s)[root := 0] else multiset(s)
    ensures |r| == |s| - (if keepRoot then multiset(s)[root] else 0)
    ensures !keepRoot ==> r == s
    ensures keepRoot ==> root !in r
  {
    if |s| == 0 then []
    else
      assert s == [s[0]] + s[1..];
      (if s[0] == root && keepRoot then [] else [s[0]]) + DropRoot(s[1..], root, keepRoot)
  }

  /**
    The filter keeps order: filtering a concatenation filters each part in
    place. With the single-element cases this fixes the result entirely.
   */
  lemma {:induction false} DropRootAppend(a: seq<Path>, b: seq<Path>, root: Path, keepRoot: bool)
    ensures DropRoot(a + b, root, keepRoot) == DropRoot(a, root, keepRoot) + DropRoot(b, root, keepRoot)
    decreases |a|
  {
    if |a| == 0 {
      assert a + b == b;
    } else {
      var ab := a + b;
      assert ab[0] == a[0] && ab[1..] == a[1..] + b;
      DropRootAppend(a[1..], b, root, keepRoot);
      var head := DropRootHead(ab, root, keepRoot);
      var _ := DropRootHead(a, root, keepRoot);
      AppendAssoc(head, DropRoot(a[1..], root, keepRoot), DropRoot(b, root, keepRoot));
    }
  }

  /** Unfolds one step of the filter; `head` is what the first path contributes. */
  lemma DropRootHead(s: seq<Path>, root: Path, keepRoot: bool) returns (head: seq<Path>)
    requires |s| > 0
    ensures head == (if s[0] == root && keepRoot then [] else [s[0]])
    ensures DropRoot(s, root, keepRoot) == head + DropRoot(s[1..], root, keepRoot)
  {
    head := if s[0] == root && keepRoot then [] else [s[0]];
  }

  lemma AppendAssoc(x: seq<Path>, y: seq<Path>, z: seq<Path>)
    ensures x + (y + z) == (x + y) + z
  {
  }

  /** On a single path the filter drops it exactly when it is the kept root. */
  lemma DropRootSingle(x: Path, root: Path, keepRoot: bool)
    ensures DropRoot([x], root, keepRoot) == (if x == root && keepRoot then [] else [x])
  {
  }

  /** Dropping entries from a descending sequence leaves it descending. */
  lemma {:induction false} DropRootKeepsDescending(s: seq<Path>, root: Path, keepRoot: bool)
    requires Descending(s)
    ensures Descending(DropRoot(s, root, keepRoot))
  {
    if |s| > 0 {
      var rest := DropRoot(s[1..], root, keepRoot);
      var head: seq<Path> := if s[0] == root && keepRoot then [] else [s[0]];
      assert DropRoot(s, root, keepRoot) == head + rest;
      DropRootKeepsDescending(s[1..], root, keepRoot);
      forall j | 0 <= j < |rest| ensures AtMost(rest[j], s[0]) {
        TailElementAtMostHead(s, rest[j]);
      }
      if head != [] {
        ConsDescending(s[0], rest);
      }
    }
  }

  /** Every element of `s[1..]` that a descending `s` holds is at most `s[0]`. */
  lemma TailElementAtMostHead(s: seq<Path>, x: Path)
    requires Descending(s) && |s| > 0
    requires x in multiset(s[1..])
    ensures AtMost(x, s[0])
  {
    var k :| 0 <= k < |s[1..]| && s[1..][k] == x;
    assert s[k + 1] == x;
  }

  lemma ConsDescending(x: Path, rest: seq<Path>)
    requires Descending(rest)
    requires forall j :: 0 <= j < |rest| ==> AtMost(rest[j], x)
    ensures Descending([x] + rest)
  {
    var s := [x] + rest;
    forall i, j | 0 <= i < j < |s| ensures AtMost(s[j], s[i]) {
      assert s[j] == rest[j - 1];
      if i > 0 {
        assert s[i] == rest[i - 1];
      }
    }
  }

  /** The paths `deleteDirectory` attempts to delete, in the order it attempts them. */
  function DeletionOrder(root: Node, keepRoot: bool): (order: seq<Path>)
    ensures Descending(order)
    ensures multiset(order) == if keepRoot then multiset(Walk(root))[root.path := 0] else multiset(Walk(root))
  {
    var sorted := SortDescending(Walk(root));
    DropRootKeepsDescending(sorted, root.path, keepRoot);
    DropRoot(sorted, root.path, keepRoot)
  }

  /**
    `deleteDirectory(path, keepRoot)`: one result per attempted path, in
    attempt order, each what the delete oracle reported for that path. A
    failed delete is a `false` in the sequence, never an error.
   */
  function DeleteDirectory(root: Node, keepRoot: bool, delete: Path -> bool): (r: seq<bool>)
    ensures |r| == |DeletionOrder(root, keepRoot)|
    ensures forall i :: 0 <= i < |r| ==> r[i] == delete(DeletionOrder(root, keepRoot)[i])
  {
    MapDelete(DeletionOrder(root, keepRoot), delete)
  }

  /** The `map(File::delete)` step: one oracle answer per path, in order. */
  function MapDelete(order: seq<Path>, delete: Path -> bool): (r: seq<bool>)
    ensures |r| == |order|
    ensures forall i :: 0 <= i < |r| ==> r[i] == delete(order[i])
  {
    seq(|order|, i requires 0 <= i < |order| => delete(order[i]))
  }

  lemma PrefixTransitive(a: Path, b: Path, c: Path)
    requires IsProperPrefix(a, b) && IsProperPrefix(b, c)
    ensures IsProperPrefix(a, c)
  {
    assert c[..|a|] == c[..|b|][..|a|];
  }

  /** In a well-formed tree every path after the root's own extends the root's path. */
  lemma {:induction false} WalkExtendsRoot(t: Node)
    requires WellFormed(t)
    ensures AllExtend(t.path, Walk(t)[1..])
    decreases t, 1
  {
    if t.listing.Listed? {
      var es := t.listing.entries;
      ForestExtends(t.path, es);
      assert Walk(t)[1..] == WalkForest(es);
    }
  }

  lemma {:induction false} ForestExtends(p: Path, ts: seq<Node>)
    requires forall i :: 0 <= i < |ts| ==> IsProperPrefix(p, ts[i].path) && WellFormed(ts[i])
    ensures AllExtend(p, WalkForest(ts))
    decreases ts, 0
  {
    if |ts| > 0 {
      var head := Walk(ts[0]);
      WalkExtendsRoot(ts[0]);
      forall j | 0 <= j < |head| ensures IsProperPrefix(p, head[j]) {
        if j > 0 {
          assert head[j] == head[1..][j - 1];
          PrefixTransitive(p, ts[0].path, head[j]);
        }
      }
      ForestExtends(p, ts[1..]);
      assert WalkForest(ts) == head + WalkForest(ts[1..]);
    }
  }

  /** The root's path occurs exactly once in the walk of a well-formed tree. */
  lemma RootWalkedOnce(t: Node)
    requires WellFormed(t)
    ensures multiset(Walk(t))[t.path] == 1
  {
    var w := Walk(t);
    WalkExtendsRoot(t);
    assert w == [t.path] + w[1..];
    assert forall j :: 0 <= j < |w[1..]| ==> w[1..][j] != t.path;
    assert t.path !in w[1..];
  }

  /**
    Exactly one boolean per walked path, except the root, which is left out
    exactly when `keepRoot` holds.
   */
  lemma OneResultPerPath(root: Node, keepRoot: bool, delete: Path -> bool)
    requires WellFormed(root)
    ensures |DeleteDirectory(root, keepRoot, delete)| == Size(root) - (if keepRoot then 1 else 0)
    ensures keepRoot <==> root.path !in DeletionOrder(root, keepRoot)
  {
    RootWalkedOnce(root);
    var sorted := SortDescending(Walk(root));
    assert multiset(sorted)[root.path] == 1;
    assert root.path in multiset(DeletionOrder(root, keepRoot)) <==> !keepRoot;
  }

  /**
    Every path is attempted before any path that is a proper prefix of it,
    whatever the tree: an ancestor never goes before a descendant.
   */
  lemma DescendantsBeforeAncestors(root: Node, keepRoot: bool)
    ensures forall i, j ::
              (0 <= i < |DeletionOrder(root, keepRoot)| && 0 <= j < |DeletionOrder(root, keepRoot)|
               && IsProperPrefix(DeletionOrder(root, keepRoot)[j], DeletionOrder(root, keepRoot)[i]))
              ==> i < j
  {
    var order := DeletionOrder(root, keepRoot);
    forall i, j | 0 <= i < |order| && 0 <= j < |order| && IsProperPrefix(order[j], order[i])
      ensures i < j
    {
      if j < i {
        ExtensionsComeFirst(order, j, i);
      }
    }
  }

  /** In a well-formed tree, an entry's path is a proper prefix of the path of every entry below it. */
  lemma {:induction false} AncestorPathIsPrefix(s: Node, d: Node)
    requires WellFormed(s) && ProperlyWithin(d, s)
    ensures IsProperPrefix(s.path, d.path)
    decreases s
  {
    var es := s.listing.entries;
    var i :| 0 <= i < |es| && Within(d, es[i]);
    if d != es[i] {
      AncestorPathIsPrefix(es[i], d);
      PrefixTransitive(s.path, es[i].path, d.path);
    }
  }

  /**
    Every entry of a well-formed tree that is not a kept root is attempted.
   */
  lemma EveryEntryAttempted(root: Node, keepRoot: bool, d: Node)
    requires Within(d, root)
    requires !(keepRoot && d.path == root.path)
    ensures d.path in DeletionOrder(root, keepRoot)
  {
    if d != root {
      SubtreeWalkIsBlock(root, d);
      var k :| 1 <= k && OccursAt(Walk(root), Walk(d), k);
      assert Walk(root)[k] == Walk(d)[0];
    }
    assert d.path in multiset(Walk(root));
    assert d.path in multiset(DeletionOrder(root, keepRoot));
  }

  /**
    For entries `d` strictly below `s` in a well-formed tree, `d` is
    attempted before `s`: directories are emptied before they are deleted.
   */
  lemma ChildrenDeletedFirst(root: Node, keepRoot: bool, s: Node, d: Node)
    requires WellFormed(root) && Within(s, root) && ProperlyWithin(d, s)
    requires !(keepRoot && s.path == root.path)
    ensures s.path in DeletionOrder(root, keepRoot) && d.path in DeletionOrder(root, keepRoot)
    ensures forall i, j ::
              (0 <= i < |DeletionOrder(root, keepRoot)| && 0 <= j < |DeletionOrder(root, keepRoot)|
               && DeletionOrder(root, keepRoot)[i] == d.path && DeletionOrder(root, keepRoot)[j] == s.path)
              ==> i < j
  {
    WellFormedWithin(root, s);
    AncestorPathIsPrefix(s, d);
    WithinTransitive(root, s, d);
    EveryEntryAttempted(root, keepRoot, s);
    AncestorPathIsPrefix(root, d);
    assert d.path != root.path;
    EveryEntryAttempted(root, keepRoot, d);
    var order := DeletionOrder(root, keepRoot);
    DescendantsBeforeAncestors(root, keepRoot);
  }

  lemma {:induction false} WellFormedWithin(t: Node, s: Node)
    requires WellFormed(t) && Within(s, t)
    ensures WellFormed(s)
    decreases t
  {
    if s != t {
      var es := t.listing.entries;
      var i :| 0 <= i < |es| && Within(s, es[i]);
      WellFormedWithin(es[i], s);
    }
  }

  lemma {:induction false} WithinTransitive(t: Node, s: Node, d: Node)
    requires Within(s, t) && ProperlyWithin(d, s)
    ensures ProperlyWithin(d, t)
    decreases t
  {
    if s != t {
      var es := t.listing.entries;
      var i :| 0 <= i < |es| && Within(s, es[i]);
      WithinTransitive(es[i], s, d);
      assert Within(d, es[i]);
    }
  }

  /** When the root is not kept it is attempted last, after everything beneath it. */
  lemma RootAttemptedLast(root: Node)
    requires WellFormed(root)
    ensures |DeletionOrder(root, false)| > 0
    ensures DeletionOrder(root, false)[|DeletionOrder(root, false)| - 1] == root.path
  {
    var order := DeletionOrder(root, false);
    EveryEntryAttempted(root, false, root);
    var last := order[|order| - 1];
    LastIsLeast(order, root.path);
    assert last in Walk(root) by {
      assert last in multiset(order);
    }
    RootIsLeast(root, last);
    AtMostAntisymmetric(last, root.path);
  }

  /** The last element of a descending sequence is at most every element. */
  lemma LastIsLeast(s: seq<Path>, x: Path)
    requires Descending(s) && x in s
    ensures AtMost(s[|s| - 1], x)
  {
    var m :| 0 <= m < |s| && s[m] == x;
    if m < |s| - 1 {
      assert AtMost(s[|s| - 1], s[m]);
    }
  }

  /** Every walked path of a well-formed tree is at least the root's path. */
  lemma RootIsLeast(root: Node, p: Path)
    requires WellFormed(root) && p in Walk(root)
    ensures AtMost(root.path, p)
  {
    var w := Walk(root);
    WalkExtendsRoot(root);
    var k :| 0 <= k < |w| && w[k] == p;
    if k > 0 {
      assert IsProperPrefix(root.path, w[1..][k - 1]);
      ProperPrefixIsBelow(root.path, p);
    }
  }

  /**
    A path with nothing beneath it (a file, a missing path or an unreadable
    directory): no attempt when the root is kept, one attempt otherwise.
   */
  lemma LeafDeletion(root: Node, keepRoot: bool, delete: Path -> bool)
    requires |Children(root)| == 0
    ensures DeleteDirectory(root, keepRoot, delete) == if keepRoot then [] else [delete(root.path)]
  {
    assert Walk(root) == [root.path];
    assert SortDescending([root.path]) == [root.path];
    var order := DeletionOrder(root, keepRoot);
    if keepRoot {
      assert multiset(order) == multiset{};
    } else {
      assert order == [root.path];
    }
  }
}
