/**
  The tree `a/` holding `a/x.txt` and `a/b/`, which holds `a/b/y.txt`, with
  `a/b` listed before `a/x.txt`.
 */
module Samples {
  import opened PathOrder
  import opened FileTree
  import opened Deletion

  function Sample(): Node {
    Node("a", Listed([Node("a/b", Listed([Node("a/b/y.txt", Unlisted)])), Node("a/x.txt", Unlisted)]))
  }

  /** The walk visits `a`, then the whole of `a/b`, then `a/x.txt`. */
  lemma SampleWalk()
    ensures Walk(Sample()) == ["a", "a/b", "a/b/y.txt", "a/x.txt"]
  {
  }

  lemma SampleOrderDescending()
    ensures Descending(["a/x.txt", "a/b/y.txt", "a/b", "a"])
  {
    assert Below("a/b/y.txt", "a/x.txt") by {
      assert Below("b/y.txt", "x.txt");
      assert Below("/b/y.txt", "/x.txt");
    }
    ProperPrefixIsBelow("a/b", "a/b/y.txt");
    ProperPrefixIsBelow("a", "a/b");
    BelowTransitive("a/b", "a/b/y.txt", "a/x.txt");
    BelowTransitive("a", "a/b", "a/x.txt");
    BelowTransitive("a", "a/b", "a/b/y.txt");
  }

  /** A descending arrangement of the right paths is the deletion order. */
  lemma OrderFromWalk(t: Node, keepRoot: bool, expected: seq<Path>)
    requires multiset(expected) == if keepRoot then multiset(Walk(t))[t.path := 0] else multiset(Walk(t))
    requires Descending(expected)
    ensures DeletionOrder(t, keepRoot) == expected
  {
    DescendingUnique(DeletionOrder(t, keepRoot), expected);
  }

  /** Deletion empties `a/b` before deleting it, and deletes `a` last. */
  lemma SampleDeletionOrder()
    ensures DeletionOrder(Sample(), false) == ["a/x.txt", "a/b/y.txt", "a/b", "a"]
  {
    var expected := ["a/x.txt", "a/b/y.txt", "a/b", "a"];
    SampleWalk();
    SampleOrderDescending();
    assert multiset(Walk(Sample())) == multiset(expected);
    OrderFromWalk(Sample(), false, expected);
  }

  /** With the root kept, `a` is never attempted. */
  lemma SampleKeepRootOrder()
    ensures DeletionOrder(Sample(), true) == ["a/x.txt", "a/b/y.txt", "a/b"]
  {
    var kept := ["a/x.txt", "a/b/y.txt", "a/b"];
    SampleKeptParts(kept);
    WithoutAdded(kept, "a");
    OrderFromWalk(Sample(), true, kept);
  }

  lemma SampleKeptParts(kept: seq<Path>)
    requires kept == ["a/x.txt", "a/b/y.txt", "a/b"]
    ensures Descending(kept) && "a" !in kept
    ensures multiset(Walk(Sample())) == multiset(kept) + multiset{"a"}
    ensures Sample().path == "a"
  {
    SampleWalk();
    SampleOrderDescending();
    assert kept == ["a/x.txt", "a/b/y.txt", "a/b", "a"][..3];
  }

  lemma WithoutAdded(s: seq<Path>, x: Path)
    requires x !in s
    ensures (multiset(s) + multiset{x})[x := 0] == multiset(s)
  {
  }
}
