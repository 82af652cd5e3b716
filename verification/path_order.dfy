/**
  Paths as strings and the order `Comparator.reverseOrder()` sorts them by.
  A Unix path compares character by character, and when one path is a prefix
  of the other the shorter one is smaller.
 */
module PathOrder {

  type Path = string

  /** Strict lexicographic order: `a` sorts before `b`. */
  predicate Below(a: Path, b: Path)
    decreases |a|
  {
    if |a| == 0 then |b| > 0
    else if |b| == 0 then false
    else a[0] < b[0] || (a[0] == b[0] && Below(a[1..], b[1..]))
  }

  /** Non-strict lexicographic order. */
  predicate AtMost(a: Path, b: Path) {
    a == b || Below(a, b)
  }

  /** `a` is a strictly shorter prefix of `b`: the shape of an ancestor's path against a descendant's. */
  predicate IsProperPrefix(a: Path, b: Path) {
    |a| < |b| && b[..|a|] == a
  }

  /** Sorted in descending order, as `sort(Comparator.reverseOrder())` leaves a sequence. */
  predicate Descending(s: seq<Path>) {
    forall i, j :: 0 <= i < j < |s| ==> AtMost(s[j], s[i])
  }

  /** The load-bearing fact of the deletion order: an ancestor's path sorts before its descendant's. */
  lemma {:induction false} ProperPrefixIsBelow(a: Path, b: Path)
    requires IsProperPrefix(a, b)
    ensures Below(a, b)
  {
    if |a| > 0 {
      assert b[0] == b[..|a|][0] == a[0];
      assert b[1..][..|a| - 1] == b[..|a|][1..];
      ProperPrefixIsBelow(a[1..], b[1..]);
    }
  }

  lemma {:induction false} BelowIrreflexive(a: Path)
    ensures !Below(a, a)
  {
    if |a| > 0 {
      BelowIrreflexive(a[1..]);
    }
  }

  lemma {:induction false} BelowTransitive(a: Path, b: Path, c: Path)
    requires Below(a, b) && Below(b, c)
    ensures Below(a, c)
    decreases |a|
  {
    if |a| > 0 && a[0] == b[0] && b[0] == c[0] {
      BelowTransitive(a[1..], b[1..], c[1..]);
    }
  }

  /** Any two distinct paths are ordered one way or the other. */
  lemma {:induction false} BelowTotal(a: Path, b: Path)
    ensures a == b || Below(a, b) || Below(b, a)
    decreases |a|
  {
    if |a| > 0 && |b| > 0 && a[0] == b[0] {
      BelowTotal(a[1..], b[1..]);
      if a[1..] == b[1..] {
        assert a == [a[0]] + a[1..] && b == [b[0]] + b[1..];
      }
    }
  }

  lemma BelowAsymmetric(a: Path, b: Path)
    requires Below(a, b)
    ensures !Below(b, a)
  {
    if Below(b, a) {
      BelowTransitive(a, b, a);
      BelowIrreflexive(a);
    }
  }

  lemma AtMostAntisymmetric(a: Path, b: Path)
    requires AtMost(a, b) && AtMost(b, a)
    ensures a == b
  {
    if Below(a, b) {
      BelowAsymmetric(a, b);
    }
  }

  lemma AtMostTransitive(a: Path, b: Path, c: Path)
    requires AtMost(a, b) && AtMost(b, c)
    ensures AtMost(a, c)
  {
    if a != b && b != c {
      BelowTransitive(a, b, c);
    }
  }

  /** Inserts `x` into a descending sequence, keeping it descending. */
  function Insert(x: Path, s: seq<Path>): (r: seq<Path>)
    requires Descending(s)
    ensures Descending(r)
    ensures multiset(r) == multiset(s) + multiset{x}
  {
    if |s| == 0 then [x]
    else if AtMost(s[0], x) then
      assert forall j :: 0 < j < |s| ==> AtMost(s[j], x) by {
        forall j | 0 < j < |s| ensures AtMost(s[j], x) {
          AtMostTransitive(s[j], s[0], x);
        }
      }
      [x] + s
    else
      var rest := Insert(x, s[1..]);
      assert s == [s[0]] + s[1..];
      assert Below(x, s[0]) by { BelowTotal(x, s[0]); }
      assert forall j :: 0 <= j < |rest| ==> AtMost(rest[j], s[0]) by {
        forall j | 0 <= j < |rest| ensures AtMost(rest[j], s[0]) {
          assert rest[j] in multiset(rest);
          if rest[j] != x {
            assert rest[j] in multiset(s[1..]);
            var k :| 0 <= k < |s[1..]| && s[1..][k] == rest[j];
            assert s[k + 1] == rest[j];
          }
        }
      }
      [s[0]] + rest
  }

  /** Sorts paths into descending lexicographic order: a permutation of the input that is descending. */
  function SortDescending(s: seq<Path>): (r: seq<Path>)
    ensures Descending(r)
    ensures multiset(r) == multiset(s)
    ensures |r| == |s|
  {
    if |s| == 0 then []
    else
      assert s == [s[0]] + s[1..];
      Insert(s[0], SortDescending(s[1..]))
  }

  /**
    In a descending sequence no path is followed by a path it is a proper
    prefix of: every extension of a path comes before that path.
   */
  lemma ExtensionsComeFirst(s: seq<Path>, i: int, j: int)
    requires Descending(s)
    requires 0 <= i < j < |s|
    ensures !IsProperPrefix(s[i], s[j])
  {
    if IsProperPrefix(s[i], s[j]) {
      ProperPrefixIsBelow(s[i], s[j]);
      BelowIrreflexive(s[i]);
      BelowAsymmetric(s[i], s[j]);
    }
  }

  lemma MultisetTail(s: seq<Path>)
    requires |s| > 0
    ensures multiset(s[1..]) == multiset(s) - multiset{s[0]}
  {
    assert s == [s[0]] + s[1..];
  }

  /**
    A descending sequence is determined by its elements: every correct sort
    into descending order, whatever its algorithm, yields the same sequence.
   */
  lemma {:induction false} DescendingUnique(a: seq<Path>, b: seq<Path>)
    requires Descending(a) && Descending(b)
    requires multiset(a) == multiset(b)
    ensures a == b
    decreases |a|
  {
    if |a| > 0 {
      assert |b| == |multiset(b)| == |a|;
      assert a[0] in multiset(b) && b[0] in multiset(a);
      var i :| 0 <= i < |b| && b[i] == a[0];
      var j :| 0 <= j < |a| && a[j] == b[0];
      assert AtMost(a[0], b[0]);
      assert AtMost(b[0], a[0]);
      AtMostAntisymmetric(a[0], b[0]);
      MultisetTail(a);
      MultisetTail(b);
      DescendingUnique(a[1..], b[1..]);
      assert a == [a[0]] + a[1..] && b == [b[0]] + b[1..];
    }
  }
}
