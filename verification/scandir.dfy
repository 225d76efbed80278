/**
  scandir: read a directory, keep the entries a selector accepts, settle each
  kept entry's type, copy it into a growing pointer array and, when a
  comparator is given, sort the array.

  The platform is reached through two oracles: a `FileSystem` standing for
  opendir2/readdir2 (also used for the type probe) and an `Allocator` that
  decides whether each malloc/realloc request succeeds. The method returns
  the requests it issued, so that allocation behaviour can be stated.
*/
module Scandir {
  import opened Wrappers
  import opened Dirent
  import opened Sorting

  /** The failure return value. */
  const FAILED: int := -1

  /** Pointer slots in the first namelist allocation. */
  const INITIAL_SLOTS: nat := 2

  /** Room for an entry name in the full-path buffer, beyond the directory name. */
  const NAME_ROOM: nat := 2048

  /** The `select` callback: an entry is kept when it returns non-zero. */
  type Selector = Entry -> int

  /** Platform sizes that allocation requests depend on. */
  datatype Layout = Layout(nameOffset: nat) // offsetof(struct dirent2, d_name)

  /** One call into the allocator, with the size it asks for. */
  datatype Request =
    | ListAlloc(slots: nat)    // malloc of the namelist pointer array
    | PathAlloc(bytes: nat)    // malloc of the full-path buffer
    | EntryAlloc(bytes: nat)   // malloc of one entry copy
    | ListRealloc(slots: nat)  // realloc of the namelist pointer array

  /** `alloc(i, q)`: whether the `i`-th request, `q`, succeeds. */
  type Allocator = (nat, Request) -> bool

  predicate Granted(alloc: Allocator, reqs: seq<Request>) {
    forall i :: 0 <= i < |reqs| ==> alloc(i, reqs[i])
  }

  predicate Accepts(select: Option<Selector>, e: Entry) {
    select.None? || select.value(e) != 0
  }

  function Last<T>(s: seq<T>): T
    requires |s| > 0
  {
    s[|s| - 1]
  }

  function Front<T>(s: seq<T>): seq<T>
    requires |s| > 0
  {
    s[..|s| - 1]
  }

  /** A non-empty sequence is its front followed by its last element. */
  lemma FrontLast<T>(s: seq<T>)
    requires |s| > 0
    ensures s == Front(s) + [Last(s)]
  {
    assert forall k :: 0 <= k < |s| ==> s[k] == (Front(s) + [Last(s)])[k];
  }

  /** The entries the selector keeps, in read order. */
  function Kept(select: Option<Selector>, entries: seq<Entry>): seq<Entry>
    decreases |entries|
  {
    if entries == [] then []
    else Kept(select, Front(entries)) + if Accepts(select, Last(entries)) then [Last(entries)] else []
  }

  /** Without a selector every entry read is kept, in read order. */
  lemma {:induction false} KeptAll(entries: seq<Entry>)
    ensures Kept(None, entries) == entries
    decreases |entries|
  {
    if entries != [] {
      var front, last := Front(entries), Last(entries);
      KeptAll(front);
      assert Accepts(None, last);
      assert Kept(None, entries) == Kept(None, front) + [last];
      FrontLast(entries);
    }
  }

  /**
    Selection: an entry is kept exactly when the selector accepts it (always,
    without a selector; when `select` returns non-zero, with one), and then
    as many times as it was read.
  */
  lemma {:induction false} KeptSelects(select: Option<Selector>, entries: seq<Entry>)
    ensures forall e ::
      multiset(Kept(select, entries))[e] == (if Accepts(select, e) then multiset(entries)[e] else 0)
    decreases |entries|
  {
    if entries != [] {
      var front, last := Front(entries), Last(entries);
      KeptSelects(select, front);
      FrontLast(entries);
      assert multiset(entries) == multiset(front) + multiset{last};
      var tail := if Accepts(select, last) then [last] else [];
      assert Kept(select, entries) == Kept(select, front) + tail;
      assert multiset(Kept(select, entries)) == multiset(Kept(select, front)) + multiset(tail);
    }
  }

  /**
    The list the read loop builds: for each entry read, the resolved copy if
    the selector keeps it.
  */
  function Collected(dirname: string, fs: FileSystem, select: Option<Selector>, entries: seq<Entry>)
    : seq<Entry>
    decreases |entries|
  {
    if entries == [] then []
    else
      var e := Last(entries);
      Collected(dirname, fs, select, Front(entries))
        + if Accepts(select, e) then [Duplicate(Resolve(dirname, fs, e))] else []
  }

  /** The collected list is resolve-then-copy mapped over the kept entries. */
  lemma {:induction false} CollectedIsMapOfKept(
    dirname: string, fs: FileSystem, select: Option<Selector>, entries: seq<Entry>)
    ensures |Collected(dirname, fs, select, entries)| == |Kept(select, entries)|
    ensures forall i :: 0 <= i < |Kept(select, entries)| ==>
      Collected(dirname, fs, select, entries)[i] == Duplicate(Resolve(dirname, fs, Kept(select, entries)[i]))
    decreases |entries|
  {
    if entries != [] {
      CollectedIsMapOfKept(dirname, fs, select, Front(entries));
    }
  }

  /**
    Every collected entry carries the name, the other header fields and the
    type bits of the entry it was copied from, a known type, and a `d_namlen`
    equal to the length of its name.
  */
  lemma CollectedEntriesAnnotated(
    dirname: string, fs: FileSystem, select: Option<Selector>, entries: seq<Entry>, i: nat)
    requires i < |Kept(select, entries)|
    ensures |Collected(dirname, fs, select, entries)| == |Kept(select, entries)|
    ensures var c := Collected(dirname, fs, select, entries)[i];
      var k := Kept(select, entries)[i];
      && c.name == k.name && c.ino == k.ino
      && c.namlen == |c.name|
      && HasKnownType(c.dtype)
      && c.dtype & k.dtype == k.dtype
  {
    CollectedIsMapOfKept(dirname, fs, select, entries);
  }

  function Pow2(k: nat): (r: nat)
    ensures r >= 1
  {
    if k == 0 then 1 else 2 * Pow2(k - 1)
  }

  /**
    The namelist capacity after `n` appends: it starts at two slots and
    doubles whenever an append finds it full. It always holds the `n`
    entries and is never more than twice what they need.
  */
  function Capacity(n: nat): (r: nat)
    ensures 2 <= r && n <= r
    ensures r == 2 || r < 2 * n
  {
    if n == 0 then INITIAL_SLOTS
    else
      var c := Capacity(n - 1);
      if n - 1 >= c then 2 * c else c
  }

  /**
    Size in bytes of one entry copy: the header up to `d_name`, the name
    (one byte per `char`), its NUL.
  */
  function EntryBytes(layout: Layout, e: Entry): nat {
    layout.nameOffset + |e.name| + 1
  }

  /**
    The two allocations made before the first entry is read; the path
    buffer counts the directory name at one byte per `char`.
  */
  function Prologue(dirname: string): seq<Request> {
    [ListAlloc(INITIAL_SLOTS), PathAlloc(|dirname| + 1 + NAME_ROOM + 1)]
  }

  /** The sizes of the entry-copy requests in `reqs`, in order. */
  function CopySizes(reqs: seq<Request>): seq<nat>
    decreases |reqs|
  {
    if reqs == [] then []
    else CopySizes(Front(reqs)) + if Last(reqs).EntryAlloc? then [Last(reqs).bytes] else []
  }

  /** The slot counts of the growth requests in `reqs`, in order. */
  function GrowSlots(reqs: seq<Request>): seq<nat>
    decreases |reqs|
  {
    if reqs == [] then []
    else GrowSlots(Front(reqs)) + if Last(reqs).ListRealloc? then [Last(reqs).slots] else []
  }

  /**
    The requests issued to append one entry to a namelist holding `used`
    entries: a copy sized for exactly its name, then, if the array is full,
    a realloc to twice the capacity.
  */
  function AppendStep(layout: Layout, e: Entry, used: nat): seq<Request> {
    [EntryAlloc(EntryBytes(layout, e))]
      + if used >= Capacity(used) then [ListRealloc(2 * Capacity(used))] else []
  }

  /** The requests issued while appending `kept`, when all succeed. */
  function AppendRequests(layout: Layout, kept: seq<Entry>): seq<Request>
    decreases |kept|
  {
    if kept == [] then []
    else
      var n := |kept| - 1;
      AppendRequests(layout, kept[..n]) + AppendStep(layout, kept[n], n)
  }

  /** Appending one more entry adds its step to the requests. */
  lemma AppendRequestsLast(layout: Layout, kept: seq<Entry>)
    requires |kept| > 0
    ensures var n := |kept| - 1;
      AppendRequests(layout, kept) == AppendRequests(layout, kept[..n]) + AppendStep(layout, kept[n], n)
  {
  }

  /**
    Rejected entries cost nothing: the copy requests correspond one-to-one to
    the kept entries, in order, each sized for its own name.
  */
  lemma {:induction false} CopyRequestsMatchKept(layout: Layout, kept: seq<Entry>)
    ensures CopySizes(AppendRequests(layout, kept))
      == seq(|kept|, i requires 0 <= i < |kept| => EntryBytes(layout, kept[i]))
    decreases |kept|
  {
    if kept != [] {
      var n := |kept| - 1;
      CopyRequestsMatchKept(layout, kept[..n]);
      AppendRequestsLast(layout, kept);
      var before := AppendRequests(layout, kept[..n]);
      var step := AppendStep(layout, kept[n], n);
      var copied := before + [EntryAlloc(EntryBytes(layout, kept[n]))];
      assert Front(copied) == before;
      if n >= Capacity(n) {
        assert Front(before + step) == copied;
      } else {
        assert before + step == copied;
      }
    }
  }

  /** One more request adds its slot count when it is a growth request. */
  lemma GrowSlotsSnoc(reqs: seq<Request>, r: Request)
    ensures GrowSlots(reqs + [r]) == GrowSlots(reqs) + if r.ListRealloc? then [r.slots] else []
  {
    assert Front(reqs + [r]) == reqs;
    assert Last(reqs + [r]) == r;
  }

  /** The growth request, if any, made by the append that finds `n` entries. */
  function GrowthAfter(n: nat): seq<nat> {
    if n >= Capacity(n) then [2 * Capacity(n)] else []
  }

  /** One append step adds a growth request exactly when the array is full. */
  lemma GrowSlotsAfterStep(before: seq<Request>, layout: Layout, e: Entry, n: nat)
    ensures GrowSlots(before + AppendStep(layout, e, n)) == GrowSlots(before) + GrowthAfter(n)
  {
    var copy := EntryAlloc(EntryBytes(layout, e));
    GrowSlotsSnoc(before, copy);
    if n >= Capacity(n) {
      var grow := ListRealloc(2 * Capacity(n));
      ConcatAssoc(before, [copy], [grow]);
      GrowSlotsSnoc(before + [copy], grow);
    }
  }

  /** Appending one entry adds a growth request exactly when the array is full. */
  lemma GrowSlotsStep(layout: Layout, kept: seq<Entry>)
    requires |kept| > 0
    ensures var n := |kept| - 1;
      GrowSlots(AppendRequests(layout, kept)) == GrowSlots(AppendRequests(layout, kept[..n])) + GrowthAfter(n)
  {
    var n := |kept| - 1;
    AppendRequestsLast(layout, kept);
    GrowSlotsAfterStep(AppendRequests(layout, kept[..n]), layout, kept[n], n);
  }

  /** If the growths so far were 4, 8, ... slots, the next append keeps that pattern. */
  lemma DoublingStep(g: seq<nat>, n: nat)
    requires forall j :: 0 <= j < |g| ==> g[j] == Pow2(j + 2)
    requires Capacity(n) == Pow2(|g| + 1)
    ensures forall j :: 0 <= j < |g + GrowthAfter(n)| ==> (g + GrowthAfter(n))[j] == Pow2(j + 2)
    ensures Capacity(n + 1) == Pow2(|g + GrowthAfter(n)| + 1)
  {
    if n >= Capacity(n) {
      assert Pow2(|g| + 2) == 2 * Pow2(|g| + 1);
    }
  }

  /**
    The growth requests run 4, 8, 16, ... slots, each doubling the last, and
    the final capacity is the next doubling after the last of them.
  */
  lemma {:induction false} GrowthDoubles(layout: Layout, kept: seq<Entry>)
    ensures forall j :: 0 <= j < |GrowSlots(AppendRequests(layout, kept))| ==>
      GrowSlots(AppendRequests(layout, kept))[j] == Pow2(j + 2)
    ensures Capacity(|kept|) == Pow2(|GrowSlots(AppendRequests(layout, kept))| + 1)
    decreases |kept|
  {
    if kept != [] {
      var n := |kept| - 1;
      GrowthDoubles(layout, kept[..n]);
      GrowSlotsStep(layout, kept);
      DoublingStep(GrowSlots(AppendRequests(layout, kept[..n])), n);
    }
  }

  /** Everything scandir asks the allocator for when every request succeeds. */
  function PlannedRequests(layout: Layout, dirname: string, kept: seq<Entry>): seq<Request> {
    Prologue(dirname) + AppendRequests(layout, kept)
  }

  /** Reading further entries only extends the list of kept entries. */
  lemma {:induction false} KeptPrefix(select: Option<Selector>, entries: seq<Entry>, i: nat)
    requires i <= |entries|
    ensures Kept(select, entries[..i]) <= Kept(select, entries)
    decreases |entries|
  {
    if i < |entries| {
      assert entries[..i] == Front(entries)[..i];
      KeptPrefix(select, Front(entries), i);
    } else {
      assert entries[..i] == entries;
    }
  }

  /** Appending further entries only extends the request sequence. */
  lemma {:induction false} AppendRequestsPrefix(layout: Layout, kept: seq<Entry>, m: nat)
    requires m <= |kept|
    ensures AppendRequests(layout, kept[..m]) <= AppendRequests(layout, kept)
    decreases |kept|
  {
    if m < |kept| {
      var n := |kept| - 1;
      assert kept[..m] == kept[..n][..m];
      assert AppendRequests(layout, kept) == AppendRequests(layout, kept[..n]) + AppendStep(layout, kept[n], n);
      AppendRequestsPrefix(layout, kept[..n], m);
    } else {
      assert kept[..m] == kept;
    }
  }

  /** The planned requests for a prefix of the directory are a prefix of the plan. */
  lemma PlanPrefix(layout: Layout, select: Option<Selector>, entries: seq<Entry>, i: nat)
    requires i <= |entries|
    ensures AppendRequests(layout, Kept(select, entries[..i]))
      <= AppendRequests(layout, Kept(select, entries))
  {
    var kept := Kept(select, entries);
    KeptPrefix(select, entries, i);
    var k := |Kept(select, entries[..i])|;
    assert kept[..k] == Kept(select, entries[..i]);
    AppendRequestsPrefix(layout, kept, k);
  }

  lemma ConcatAssoc<T>(a: seq<T>, b: seq<T>, c: seq<T>)
    ensures (a + b) + c == a + (b + c)
  {
  }

  lemma PrefixTransitive<T>(a: seq<T>, b: seq<T>, c: seq<T>)
    requires a <= b && b <= c
    ensures a <= c
  {
    assert b[..|a|] == a;
  }

  /** Reading entry `i` keeps it or not, as the selector says. */
  lemma KeptStep(select: Option<Selector>, entries: seq<Entry>, i: nat)
    requires i < |entries|
    ensures Kept(select, entries[..i + 1])
      == Kept(select, entries[..i]) + if Accepts(select, entries[i]) then [entries[i]] else []
  {
    assert Front(entries[..i + 1]) == entries[..i];
  }

  /** Reading entry `i` appends its resolved copy when the selector keeps it. */
  lemma CollectedStep(dirname: string, fs: FileSystem, select: Option<Selector>, entries: seq<Entry>, i: nat)
    requires i < |entries|
    ensures Collected(dirname, fs, select, entries[..i + 1])
      == Collected(dirname, fs, select, entries[..i])
         + if Accepts(select, entries[i]) then [Duplicate(Resolve(dirname, fs, entries[i]))] else []
  {
    assert Front(entries[..i + 1]) == entries[..i];
  }

  /** Keeping one more entry adds its step to the planned requests. */
  lemma PlanStep(layout: Layout, kept: seq<Entry>, e: Entry)
    ensures AppendRequests(layout, kept + [e]) == AppendRequests(layout, kept) + AppendStep(layout, e, |kept|)
  {
    assert (kept + [e])[..|kept|] == kept;
  }

  /**
    Appends one accepted entry to a namelist of capacity `capacity`, issuing
    the copy request and, when the array is full, the realloc. On success the
    namelist holds the resolved copy and the capacity is the one for its new
    length; on a refused request it stops there.
  */
  method AppendEntry(
    dirname: string,
    fs: FileSystem,
    layout: Layout,
    alloc: Allocator,
    ent: Entry,
    list: seq<Entry>,
    capacity: nat,
    requests: seq<Request>)
    returns (ok: bool, list': seq<Entry>, capacity': nat, requests': seq<Request>)
    requires capacity == Capacity(|list|)
    ensures requests <= requests' <= requests + AppendStep(layout, ent, |list|)
    ensures |requests'| > |requests|
    ensures Granted(alloc, requests) ==>
      (ok <==> Granted(alloc, requests'))
    ensures !ok ==> |requests'| > 0 && !alloc(|requests'| - 1, Last(requests'))
    ensures !ok && Granted(alloc, requests) ==>
      |requests'| > 0 && Granted(alloc, Front(requests'))
    ensures ok ==>
      && requests' == requests + AppendStep(layout, ent, |list|)
      && list' == list + [Duplicate(Resolve(dirname, fs, ent))]
      && capacity' == Capacity(|list'|)
  {
    list', capacity' := list, capacity;
    var len := layout.nameOffset + |ent.name| + 1;
    ok := alloc(|requests|, EntryAlloc(len));
    requests' := requests + [EntryAlloc(len)];
    if !ok {
      assert !alloc(|requests|, requests'[|requests|]);
      return;
    }
    if |list| >= capacity {
      capacity' := capacity * 2;
      ok := alloc(|requests'|, ListRealloc(capacity'));
      requests' := requests' + [ListRealloc(capacity')];
      if !ok {
        assert !alloc(|requests| + 1, requests'[|requests| + 1]);
        return;
      }
    }
    var resolved := Resolve(dirname, fs, ent);
    list' := list + [Duplicate(resolved)];
  }

  /**
    What the read loop has built after the first `i` entries, on top of the
    requests `start` issued before it: the collected list, the capacity for
    its length and the planned requests, all granted.
  */
  ghost predicate ReadSoFar(
    dirname: string, fs: FileSystem, select: Option<Selector>, layout: Layout, alloc: Allocator,
    entries: seq<Entry>, i: nat, start: seq<Request>,
    acc: seq<Entry>, capacity: nat, requests: seq<Request>)
  {
    && i <= |entries|
    && acc == Collected(dirname, fs, select, entries[..i])
    && |acc| == |Kept(select, entries[..i])|
    && capacity == Capacity(|acc|)
    && requests == start + AppendRequests(layout, Kept(select, entries[..i]))
    && Granted(alloc, requests)
  }

  /**
    One iteration of the read loop: entry `i` is skipped when the selector
    rejects it and appended otherwise. On success the loop state covers one
    more entry; on a refused request the requests issued are a prefix of the
    whole plan, ending with the refused one.
  */
  method ReadStep(
    dirname: string, fs: FileSystem, select: Option<Selector>, layout: Layout, alloc: Allocator,
    entries: seq<Entry>, i: nat, start: seq<Request>,
    acc: seq<Entry>, capacity: nat, requests: seq<Request>)
    returns (ok: bool, acc': seq<Entry>, capacity': nat, requests': seq<Request>)
    requires i < |entries|
    requires ReadSoFar(dirname, fs, select, layout, alloc, entries, i, start, acc, capacity, requests)
    ensures ok ==>
      ReadSoFar(dirname, fs, select, layout, alloc, entries, i + 1, start, acc', capacity', requests')
    ensures !ok ==>
      && start <= requests' <= start + AppendRequests(layout, Kept(select, entries))
      && |requests'| > 0 && Granted(alloc, Front(requests')) && !alloc(|requests'| - 1, Last(requests'))
  {
    var ent := entries[i];
    if !Accepts(select, ent) {
      SkipPreservesRead(dirname, fs, select, layout, alloc, entries, i, start, acc, capacity, requests);
      return true, acc, capacity, requests;
    }
    ok, acc', capacity', requests' := AppendEntry(dirname, fs, layout, alloc, ent, acc, capacity, requests);
    if ok {
      AppendPreservesRead(dirname, fs, select, layout, alloc, entries, i, start, acc, capacity, requests);
    } else {
      RefusalWithinPlan(dirname, fs, select, layout, alloc, entries, i, start, acc, capacity, requests, requests');
    }
  }

  /** Requests cut short while appending entry `i` stay within the whole plan. */
  lemma RefusalWithinPlan(
    dirname: string, fs: FileSystem, select: Option<Selector>, layout: Layout, alloc: Allocator,
    entries: seq<Entry>, i: nat, start: seq<Request>,
    acc: seq<Entry>, capacity: nat, requests: seq<Request>, requests': seq<Request>)
    requires i < |entries| && Accepts(select, entries[i])
    requires ReadSoFar(dirname, fs, select, layout, alloc, entries, i, start, acc, capacity, requests)
    requires requests' <= requests + AppendStep(layout, entries[i], |acc|)
    ensures requests' <= start + AppendRequests(layout, Kept(select, entries))
  {
    PlanAccepted(layout, select, entries, i, start, requests);
    PlanPrefix(layout, select, entries, i + 1);
    PrefixTransitive(requests', requests + AppendStep(layout, entries[i], |acc|),
      start + AppendRequests(layout, Kept(select, entries)));
  }

  /** A rejected entry leaves the loop state as it was. */
  lemma SkipPreservesRead(
    dirname: string, fs: FileSystem, select: Option<Selector>, layout: Layout, alloc: Allocator,
    entries: seq<Entry>, i: nat, start: seq<Request>,
    acc: seq<Entry>, capacity: nat, requests: seq<Request>)
    requires i < |entries| && !Accepts(select, entries[i])
    requires ReadSoFar(dirname, fs, select, layout, alloc, entries, i, start, acc, capacity, requests)
    ensures ReadSoFar(dirname, fs, select, layout, alloc, entries, i + 1, start, acc, capacity, requests)
  {
    KeptStep(select, entries, i);
    assert Kept(select, entries[..i + 1]) == Kept(select, entries[..i]);
    CollectedStep(dirname, fs, select, entries, i);
    assert Collected(dirname, fs, select, entries[..i + 1]) == Collected(dirname, fs, select, entries[..i]);
  }

  /** An accepted entry whose requests all succeed extends the loop state by one. */
  lemma AppendPreservesRead(
    dirname: string, fs: FileSystem, select: Option<Selector>, layout: Layout, alloc: Allocator,
    entries: seq<Entry>, i: nat, start: seq<Request>,
    acc: seq<Entry>, capacity: nat, requests: seq<Request>)
    requires i < |entries| && Accepts(select, entries[i])
    requires ReadSoFar(dirname, fs, select, layout, alloc, entries, i, start, acc, capacity, requests)
    requires Granted(alloc, requests + AppendStep(layout, entries[i], |acc|))
    ensures ReadSoFar(dirname, fs, select, layout, alloc, entries, i + 1, start,
      acc + [Duplicate(Resolve(dirname, fs, entries[i]))], Capacity(|acc| + 1),
      requests + AppendStep(layout, entries[i], |acc|))
  {
    KeptAccepted(select, entries, i);
    CollectedAccepted(dirname, fs, select, entries, i, acc);
    PlanAccepted(layout, select, entries, i, start, requests);
  }

  lemma KeptAccepted(select: Option<Selector>, entries: seq<Entry>, i: nat)
    requires i < |entries| && Accepts(select, entries[i])
    ensures Kept(select, entries[..i + 1]) == Kept(select, entries[..i]) + [entries[i]]
  {
    KeptStep(select, entries, i);
  }

  lemma CollectedAccepted(
    dirname: string, fs: FileSystem, select: Option<Selector>, entries: seq<Entry>, i: nat, acc: seq<Entry>)
    requires i < |entries| && Accepts(select, entries[i])
    requires acc == Collected(dirname, fs, select, entries[..i])
    ensures acc + [Duplicate(Resolve(dirname, fs, entries[i]))] == Collected(dirname, fs, select, entries[..i + 1])
  {
    CollectedStep(dirname, fs, select, entries, i);
  }

  lemma PlanAccepted(
    layout: Layout, select: Option<Selector>, entries: seq<Entry>, i: nat,
    start: seq<Request>, requests: seq<Request>)
    requires i < |entries| && Accepts(select, entries[i])
    requires requests == start + AppendRequests(layout, Kept(select, entries[..i]))
    ensures requests + AppendStep(layout, entries[i], |Kept(select, entries[..i])|)
      == start + AppendRequests(layout, Kept(select, entries[..i + 1]))
  {
    var kept := Kept(select, entries[..i]);
    KeptAccepted(select, entries, i);
    PlanStep(layout, kept, entries[i]);
    ConcatAssoc(start, AppendRequests(layout, kept), AppendStep(layout, entries[i], |kept|));
  }

  /**
    The read loop: every entry of `entries` in turn, skipping those the
    selector rejects. It issues the planned append requests after `start`,
    stopping at the first refused one; on success it yields the collected list.
  */
  method ReadEntries(
    dirname: string, fs: FileSystem, select: Option<Selector>, layout: Layout, alloc: Allocator,
    entries: seq<Entry>, start: seq<Request>)
    returns (list: Option<seq<Entry>>, requests: seq<Request>)
    requires Granted(alloc, start)
    ensures start <= requests <= start + AppendRequests(layout, Kept(select, entries))
    ensures list.None? ==>
      |requests| > 0 && Granted(alloc, Front(requests)) && !alloc(|requests| - 1, Last(requests))
    ensures list.Some? ==>
      && list.value == Collected(dirname, fs, select, entries)
      && requests == start + AppendRequests(layout, Kept(select, entries))
      && Granted(alloc, requests)
  {
    var acc: seq<Entry> := [];
    var capacity := INITIAL_SLOTS;
    requests := start;
    var i := 0;
    assert entries[..0] == [];
    while i < |entries|
      invariant ReadSoFar(dirname, fs, select, layout, alloc, entries, i, start, acc, capacity, requests)
    {
      var ok;
      ok, acc, capacity, requests := ReadStep(dirname, fs, select, layout, alloc, entries, i, start, acc, capacity, requests);
      if !ok {
        return None, requests;
      }
      i := i + 1;
    }
    assert entries[..i] == entries;
    PlanPrefix(layout, select, entries, i);
    list := Some(acc);
  }

  /**
    Everything between opening and closing the directory: the namelist and
    path-buffer allocations, then the read loop over `entries`. The requests
    issued are a prefix of the plan. The list is produced exactly when the
    whole plan is granted, and it is then the collected list; otherwise the
    requests stop at the first refused one.
  */
  method ReadDirectory(
    dirname: string, fs: FileSystem, select: Option<Selector>, layout: Layout, alloc: Allocator,
    entries: seq<Entry>)
    returns (list: Option<seq<Entry>>, requests: seq<Request>)
    ensures requests <= PlannedRequests(layout, dirname, Kept(select, entries))
    ensures list.Some? <==> Granted(alloc, PlannedRequests(layout, dirname, Kept(select, entries)))
    ensures list.None? ==>
      |requests| > 0 && Granted(alloc, Front(requests)) && !alloc(|requests| - 1, Last(requests))
    ensures list.Some? ==>
      && list.value == Collected(dirname, fs, select, entries)
      && requests == PlannedRequests(layout, dirname, Kept(select, entries))
  {
    ghost var planned := PlannedRequests(layout, dirname, Kept(select, entries));
    var ok := alloc(0, ListAlloc(INITIAL_SLOTS));
    requests := [ListAlloc(INITIAL_SLOTS)];
    if !ok {
      FailureRefutesPlan(alloc, requests, planned);
      return None, requests;
    }
    var pathBytes := |dirname| + 1 + NAME_ROOM + 1;
    ok := alloc(1, PathAlloc(pathBytes));
    requests := requests + [PathAlloc(pathBytes)];
    if !ok {
      assert Front(requests) == [ListAlloc(INITIAL_SLOTS)];
      FailureRefutesPlan(alloc, requests, planned);
      return None, requests;
    }
    assert requests == Prologue(dirname);
    list, requests := ReadEntries(dirname, fs, select, layout, alloc, entries, requests);
    if list.None? {
      FailureRefutesPlan(alloc, requests, planned);
    }
  }

  /**
    scandir. If `dirname` cannot be opened the result is FAILED and no list is
    produced, with nothing allocated. Otherwise the allocation requests issued
    are a prefix of the planned ones, and the call fails exactly when one of
    them is refused, stopping at that request. On success the count is the
    list's length and the list is a permutation of the kept, resolved and
    copied entries: in read order without a comparator, sorted by it otherwise.
  */
  method Scandir(
    dirname: string,
    fs: FileSystem,
    select: Option<Selector>,
    compar: Option<Comparator<Entry>>,
    layout: Layout,
    alloc: Allocator)
    returns (ret: int, namelist: Option<seq<Entry>>, requests: seq<Request>)
    requires compar.Some? ==> IsTotalPreorder(compar.value)
    ensures fs(dirname).None? ==> ret == FAILED && namelist.None? && requests == []
    ensures namelist.None? <==> ret == FAILED
    ensures fs(dirname).Some? ==>
      requests <= PlannedRequests(layout, dirname, Kept(select, fs(dirname).value))
    ensures namelist.None? && fs(dirname).Some? ==>
      |requests| > 0 && Granted(alloc, Front(requests)) && !alloc(|requests| - 1, Last(requests))
    ensures fs(dirname).Some? ==>
      (namelist.Some? <==> Granted(alloc, PlannedRequests(layout, dirname, Kept(select, fs(dirname).value))))
    ensures namelist.Some? ==>
      && fs(dirname).Some?
      && requests == PlannedRequests(layout, dirname, Kept(select, fs(dirname).value))
      && ret == |namelist.value|
      && multiset(namelist.value) == multiset(Collected(dirname, fs, select, fs(dirname).value))
    ensures namelist.Some? && compar.None? ==>
      namelist.value == Collected(dirname, fs, select, fs(dirname).value)
    ensures namelist.Some? && compar.Some? ==> SortedBy(compar.value, namelist.value)
  {
    var dir := fs(dirname);
    if dir.None? {
      return FAILED, None, [];
    }
    var list;
    list, requests := ReadDirectory(dirname, fs, select, layout, alloc, dir.value);
    if list.None? {
      return FAILED, None, requests;
    }
    var names := list.value;
    if compar.Some? {
      names := Sort(compar.value, names);
    }
    return |names|, Some(names), requests;
  }

  /** A refused request inside the plan means the plan is not all granted. */
  lemma FailureRefutesPlan(alloc: Allocator, requests: seq<Request>, planned: seq<Request>)
    requires requests <= planned && |requests| > 0
    requires !alloc(|requests| - 1, Last(requests))
    ensures !Granted(alloc, planned)
  {
    assert planned[|requests| - 1] == Last(requests);
  }
}
