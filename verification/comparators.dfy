/**
  The two ready-made comparators scandir's callers pass as `compar`:
  alphasort orders entries by name with the locale's collation (strcoll),
  and versionsort is meant to use strverscmp, which for now is strcoll.
*/
module Comparators {
  import opened Dirent
  import opened Sorting

  /** strcoll(3): a comparison of two names under the current locale. */
  type Collation = (string, string) -> int

  /** A collation that ranks no two different names equal. */
  ghost predicate IsStrict(coll: Collation) {
    forall x, y :: coll(x, y) == 0 ==> x == y
  }

  /** alphasort: compare two entries by their names' collation order. */
  function Alphasort(coll: Collation, a: Entry, b: Entry): int {
    coll(a.name, b.name)
  }

  /** strverscmp is defined as strcoll, pending a version-aware comparison. */
  function StrVersCmp(coll: Collation, x: string, y: string): int {
    coll(x, y)
  }

  /** versionsort: compare two entries by strverscmp of their names. */
  function Versionsort(coll: Collation, a: Entry, b: Entry): int {
    StrVersCmp(coll, a.name, b.name)
  }

  /** alphasort as a comparator value, the form scandir receives it in. */
  function AlphasortBy(coll: Collation): Comparator<Entry> {
    (a: Entry, b: Entry) => Alphasort(coll, a, b)
  }

  /** versionsort as a comparator value. */
  function VersionsortBy(coll: Collation): Comparator<Entry> {
    (a: Entry, b: Entry) => Versionsort(coll, a, b)
  }

  /** versionsort and alphasort agree on every pair of entries. */
  lemma VersionsortIsAlphasort(coll: Collation)
    ensures forall a, b :: VersionsortBy(coll)(a, b) == AlphasortBy(coll)(a, b)
  {
  }

  /** A total preorder on names gives a total preorder on entries. */
  lemma AlphasortIsTotalPreorder(coll: Collation)
    requires IsTotalPreorder(coll)
    ensures IsTotalPreorder(AlphasortBy(coll))
  {
    var cmp := AlphasortBy(coll);
    forall a: Entry, b: Entry ensures cmp(a, b) < 0 <==> cmp(b, a) > 0 {
      assert cmp(a, b) == coll(a.name, b.name) && cmp(b, a) == coll(b.name, a.name);
    }
    forall a: Entry, b: Entry, c: Entry | cmp(a, b) <= 0 && cmp(b, c) <= 0
      ensures cmp(a, c) <= 0
    {
      assert coll(a.name, b.name) <= 0 && coll(b.name, c.name) <= 0;
    }
  }

  /**
    alphasort and versionsort look at nothing but the two names: entries
    that differ only in their other fields compare the same way.
  */
  lemma ComparatorsReadOnlyNames(coll: Collation, a: Entry, b: Entry, a': Entry, b': Entry)
    requires a.name == a'.name && b.name == b'.name
    ensures Alphasort(coll, a, b) == Alphasort(coll, a', b')
    ensures Versionsort(coll, a, b) == Versionsort(coll, a', b')
    ensures Alphasort(coll, a, b) == coll(a.name, b.name)
  {
  }

  /** Sorted by alphasort means every earlier name collates at most every later one. */
  lemma AlphasortedMeansNamesCollate(coll: Collation, s: seq<Entry>)
    ensures SortedBy(AlphasortBy(coll), s) <==>
      forall i, j :: 0 <= i < j < |s| ==> coll(s[i].name, s[j].name) <= 0
  {
  }

  /** No two entries of `s` share a name, as in one directory. */
  ghost predicate UniqueNames(s: seq<Entry>) {
    forall i, j :: 0 <= i < |s| && 0 <= j < |s| && i != j ==> s[i].name != s[j].name
  }

  /**
    With a strict collation and distinct names there is exactly one
    alphasorted order of a listing: any two alphasorted permutations of it
    are equal, whatever algorithm produced them.
  */
  lemma AlphasortedListingUnique(coll: Collation, a: seq<Entry>, b: seq<Entry>)
    requires IsTotalPreorder(coll) && IsStrict(coll)
    requires UniqueNames(a)
    requires multiset(a) == multiset(b)
    requires SortedBy(AlphasortBy(coll), a) && SortedBy(AlphasortBy(coll), b)
    ensures a == b
  {
    AlphasortIsTotalPreorder(coll);
    var cmp := AlphasortBy(coll);
    forall x, y | x in a && y in a && cmp(x, y) == 0 ensures x == y {
      var i :| 0 <= i < |a| && a[i] == x;
      var j :| 0 <= j < |a| && a[j] == y;
      assert coll(x.name, y.name) == 0;
    }
    SortedPermutationUnique(cmp, a, b);
  }
}
