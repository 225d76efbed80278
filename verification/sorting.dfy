/**
  Comparators in the style of qsort(3) and the sortedness they induce.

  A comparator returns a negative, zero or positive int. qsort only gives
  meaningful results for a comparator that is a total preorder: its sign is
  consistent when the arguments are swapped, and "at most" (result <= 0) is
  transitive. The sort itself is specified only as a sorted permutation;
  `Sort` is one function with that contract, not a model of qsort's steps.
*/
module Sorting {

  type Comparator<!T> = (T, T) -> int

  /** Sign-consistent and transitive: the contract qsort(3) demands of `compar`. */
  ghost predicate IsTotalPreorder<T(!new)>(cmp: Comparator<T>) {
    && (forall a, b {:trigger cmp(a, b), cmp(b, a)} :: cmp(a, b) < 0 <==> cmp(b, a) > 0)
    && (forall a, b, c :: cmp(a, b) <= 0 && cmp(b, c) <= 0 ==> cmp(a, c) <= 0)
  }

  /** Every earlier element is at most every later one. */
  ghost predicate SortedBy<T>(cmp: Comparator<T>, s: seq<T>) {
    forall i, j :: 0 <= i < j < |s| ==> cmp(s[i], s[j]) <= 0
  }

  /** `cmp` tells apart any two different elements of `s`. */
  ghost predicate Discriminates<T>(cmp: Comparator<T>, s: seq<T>) {
    forall x, y :: x in s && y in s && cmp(x, y) == 0 ==> x == y
  }

  /** Inserts `x` into `s` before the first element it is at most. */
  function Insert<T>(cmp: Comparator<T>, x: T, s: seq<T>): (r: seq<T>)
    ensures multiset(r) == multiset(s) + multiset{x}
    decreases |s|
  {
    if s == [] then [x]
    else if cmp(x, s[0]) <= 0 then [x] + s
    else
      assert s == [s[0]] + s[1..];
      [s[0]] + Insert(cmp, x, s[1..])
  }

  /** Inserting into a sorted sequence keeps it sorted. */
  lemma {:induction false} InsertSorted<T(!new)>(cmp: Comparator<T>, x: T, s: seq<T>)
    requires IsTotalPreorder(cmp)
    requires SortedBy(cmp, s)
    ensures SortedBy(cmp, Insert(cmp, x, s))
    decreases |s|
  {
    if s == [] {
    } else if cmp(x, s[0]) <= 0 {
      BelowHeadBelowAll(cmp, x, s);
      SortedCons(cmp, x, s);
    } else {
      SortedTail(cmp, s);
      var tail := Insert(cmp, x, s[1..]);
      InsertSorted(cmp, x, s[1..]);
      HeadBelowInsert(cmp, x, s, tail);
      SortedCons(cmp, s[0], tail);
    }
  }

  /** Sorts `s` by `cmp`: the result is a sorted permutation of `s`. */
  function Sort<T(!new)>(cmp: Comparator<T>, s: seq<T>): (r: seq<T>)
    requires IsTotalPreorder(cmp)
    ensures multiset(r) == multiset(s)
    ensures SortedBy(cmp, r)
    decreases |s|
  {
    if s == [] then []
    else
      assert s == [s[0]] + s[1..];
      var sorted := Sort(cmp, s[1..]);
      InsertSorted(cmp, s[0], sorted);
      Insert(cmp, s[0], sorted)
  }

  /** Dropping the head keeps a sequence sorted. */
  lemma SortedTail<T(!new)>(cmp: Comparator<T>, s: seq<T>)
    requires SortedBy(cmp, s) && |s| > 0
    ensures SortedBy(cmp, s[1..])
  {
    forall i, j | 0 <= i < j < |s| - 1 ensures cmp(s[1..][i], s[1..][j]) <= 0 {
      assert s[1..][i] == s[i + 1] && s[1..][j] == s[j + 1];
    }
  }

  /** Prepending an element that is at most everything keeps a sequence sorted. */
  lemma SortedCons<T(!new)>(cmp: Comparator<T>, h: T, t: seq<T>)
    requires SortedBy(cmp, t)
    requires forall y :: y in multiset(t) ==> cmp(h, y) <= 0
    ensures SortedBy(cmp, [h] + t)
  {
    forall i, j | 0 <= i < j < |[h] + t| ensures cmp(([h] + t)[i], ([h] + t)[j]) <= 0 {
      if i == 0 {
        assert t[j - 1] in multiset(t);
      }
    }
  }

  /** What is at most the head of a sorted sequence is at most all of it. */
  lemma BelowHeadBelowAll<T(!new)>(cmp: Comparator<T>, x: T, s: seq<T>)
    requires IsTotalPreorder(cmp)
    requires SortedBy(cmp, s) && |s| > 0
    requires cmp(x, s[0]) <= 0
    ensures forall y :: y in multiset(s) ==> cmp(x, y) <= 0
  {
    forall y | y in multiset(s) ensures cmp(x, y) <= 0 {
      assert y in s;
      var k :| 0 <= k < |s| && s[k] == y;
      if k > 0 {
        assert cmp(s[0], s[k]) <= 0;
      }
    }
  }

  /**
    The head of a sorted `s` that `x` is not at most is at most everything in
    the insertion of `x` into the rest of `s`.
  */
  lemma HeadBelowInsert<T(!new)>(cmp: Comparator<T>, x: T, s: seq<T>, tail: seq<T>)
    requires IsTotalPreorder(cmp)
    requires SortedBy(cmp, s) && |s| > 0
    requires cmp(x, s[0]) > 0
    requires multiset(tail) == multiset(s[1..]) + multiset{x}
    ensures forall y :: y in multiset(tail) ==> cmp(s[0], y) <= 0
  {
    forall y | y in multiset(tail) ensures cmp(s[0], y) <= 0 {
      if y != x {
        assert y in multiset(s[1..]);
        assert y in s[1..];
        var k :| 0 <= k < |s[1..]| && s[1..][k] == y;
        assert s[k + 1] == y;
      }
    }
  }

  /** The head of a sorted sequence is at most each of its elements. */
  lemma HeadIsLeast<T(!new)>(cmp: Comparator<T>, s: seq<T>, y: T)
    requires IsTotalPreorder(cmp)
    requires SortedBy(cmp, s)
    requires y in s
    ensures cmp(s[0], y) <= 0
  {
    var k :| 0 <= k < |s| && s[k] == y;
    if k > 0 {
      assert cmp(s[0], s[k]) <= 0;
    }
  }

  /** Two sorted permutations of a discriminated collection start alike. */
  lemma SameHead<T(!new)>(cmp: Comparator<T>, a: seq<T>, b: seq<T>)
    requires IsTotalPreorder(cmp)
    requires Discriminates(cmp, a)
    requires multiset(a) == multiset(b) && |a| > 0
    requires SortedBy(cmp, a) && SortedBy(cmp, b)
    ensures |b| > 0 && a[0] == b[0]
  {
    assert a[0] in multiset(a);
    assert |b| == |multiset(b)| == |multiset(a)| == |a|;
    assert a[0] in b && b[0] in multiset(b);
    assert b[0] in a;
    HeadIsLeast(cmp, b, a[0]);
    HeadIsLeast(cmp, a, b[0]);
    assert cmp(a[0], b[0]) <= 0 && cmp(b[0], a[0]) <= 0;
  }

  /** Permutations with the same head have permuted tails. */
  lemma TailsPermutation<T>(a: seq<T>, b: seq<T>)
    requires multiset(a) == multiset(b)
    requires |a| > 0 && |b| > 0 && a[0] == b[0]
    ensures multiset(a[1..]) == multiset(b[1..])
  {
    assert a == [a[0]] + a[1..] && b == [b[0]] + b[1..];
    calc {
      multiset(a[1..]);
      multiset(a) - multiset{a[0]};
      multiset(b) - multiset{b[0]};
      multiset(b[1..]);
    }
  }

  lemma DiscriminatesTail<T>(cmp: Comparator<T>, s: seq<T>)
    requires Discriminates(cmp, s) && |s| > 0
    ensures Discriminates(cmp, s[1..])
  {
    assert forall y :: y in s[1..] ==> y in s;
  }

  /**
    When the comparator tells the elements apart, there is only one sorted
    arrangement of a collection: any two sorted permutations are equal.
  */
  lemma {:induction false} SortedPermutationUnique<T(!new)>(cmp: Comparator<T>, a: seq<T>, b: seq<T>)
    requires IsTotalPreorder(cmp)
    requires Discriminates(cmp, a)
    requires multiset(a) == multiset(b)
    requires SortedBy(cmp, a) && SortedBy(cmp, b)
    ensures a == b
    decreases |a|
  {
    if a == [] {
      assert |b| == |multiset(b)| == 0;
    } else {
      SameHead(cmp, a, b);
      TailsPermutation(a, b);
      SortedTail(cmp, a);
      SortedTail(cmp, b);
      DiscriminatesTail(cmp, a);
      SortedPermutationUnique(cmp, a[1..], b[1..]);
    }
  }
}
