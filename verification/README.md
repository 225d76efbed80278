# scandir for ps3netsrv, modelled in Dafny

ps3netsrv ships its own `scandir` (`_Projects_/ps3netsrv/src/scandir.c`). It
opens a directory and reads its entries one by one. It drops the entries the
caller's `select` callback rejects. It settles the type of every entry whose
`d_type` names neither a directory nor a regular file, by probing
`dirname + "/" + name` with `opendir2`. It copies each kept entry into a
buffer sized for its own name, with `d_namlen` set to the name's length, and
appends the copy to a pointer array. The array starts with two slots and
doubles whenever it is full. When `compar` is given, the finished array is
sorted with `qsort`. The file also provides two comparators: `alphasort`,
which compares names with `strcoll`, and `versionsort`, whose `strverscmp` is
for now a macro for `strcoll`.

The model has four modules:

- `Dirent` (`dirent.dfy`): the entry record, the `d_type` flag bits, the
  file-system oracle and the type-resolution rule.
- `Sorting` (`sorting.dfy`): qsort-style comparators, total preorders,
  sortedness, a sort with a sorted-permutation contract, and uniqueness of
  sorted permutations.
- `Comparators` (`comparators.dfy`): `alphasort` and `versionsort` over a
  collation parameter that stands for `strcoll`.
- `Scandir` (`scandir.dfy`): the pure reference for the read loop (`Kept`,
  `Collected`, `Capacity`, `AppendRequests`) and the imperative `Scandir`
  method. `AppendEntry`, `ReadStep` and `ReadEntries` are its loop body and
  loop. The method returns `ret`, the `*ret_namelist` value (`None` when it
  is not written) and the allocation requests it issued.
- `Wrappers` (`wrappers.dfy`) holds only `Option`.

The platform is passed in as parameters:

- `FileSystem` is `string -> Option<seq<Entry>>`. It plays `opendir2` and
  `readdir2`: `None` means the path does not open as a directory, and
  `Some(es)` gives the entries `readdir2` yields, in order. The type probe
  uses the same oracle, so a path is a directory exactly when it opens.
- `Allocator` is `(nat, Request) -> bool`. It says whether the `i`-th
  malloc/realloc request succeeds. Requests record their size: pointer
  slots for the namelist, bytes for the path buffer and for each entry copy.
- Names are byte strings. Each `char` of an entry name or of `dirname`
  stands for one byte of the C string, and names hold no NUL byte, so the
  length of a name is what `strlen` returns.
- `Layout.nameOffset` stands for `offsetof(struct dirent2, d_name)`.
- A `Collation` is `(string, string) -> int` and stands for `strcoll`. The
  sort and the comparator lemmas only assume it is a total preorder.

`dirent2.h` is not part of this model. `DT_DIR = 4` and `DT_REG = 8` are the
conventional BSD/glibc values of those flags. The field `ino` stands for all
header fields that scandir copies without reading.

## Model

| member | source | states |
|---|---|---|
| `Scandir.Scandir` | _Projects_/ps3netsrv/src/scandir.c:62-165 | If the directory does not open, the result is FAILED (-1), no list is written and nothing is allocated. Otherwise the requests issued are a prefix of the planned ones. The call fails (ret == FAILED, list not written) exactly when some planned request is refused, and it then stops at that refused request. On success the count equals the list's length. The list is a permutation of the kept, resolved, copied entries. Without `compar` it is exactly those entries in read order; with `compar` it is sorted by it. |
| `Scandir.ReadDirectory` | _Projects_/ps3netsrv/src/scandir.c:80-134 | Between opening and closing: the 2-slot namelist malloc, the `dlen + 2048 + 1` path-buffer malloc, then the read loop. Its requests are a prefix of the whole plan. It produces a list exactly when every planned request is granted, and the list is then the collected list. Otherwise it stops at the first refused request, with every earlier one granted. |
| `Scandir.ReadEntries` | _Projects_/ps3netsrv/src/scandir.c:97-134 | The read loop issues a prefix of the planned append requests. It fails only at a refused request, with every earlier request granted. On success it has built exactly the collected list and issued every planned request. |
| `Scandir.ReadStep` | _Projects_/ps3netsrv/src/scandir.c:97-134 | One loop iteration turns the loop state for `i` entries into the state for `i + 1` entries. On a refused request, what it issued stays within the whole plan and ends at the refused request. |
| `Scandir.AppendEntry` | _Projects_/ps3netsrv/src/scandir.c:101-133 | Appending an accepted entry first requests its copy, then a realloc to twice the capacity when the array is full. It succeeds iff those requests are granted. On success the array holds the resolved copy and the capacity is the one for the new length. |
| `Scandir.KeptAll` | _Projects_/ps3netsrv/src/scandir.c:97-99 | Without `select`, every entry read is kept, in read order. |
| `Scandir.KeptSelects` | _Projects_/ps3netsrv/src/scandir.c:97-99 | An entry is kept iff `select` is absent or returns non-zero for it, and then as many times as it was read. |
| `Scandir.CollectedIsMapOfKept` | _Projects_/ps3netsrv/src/scandir.c:97-134 | The list the loop builds is resolve-then-copy mapped over the kept entries: same length, and position by position. |
| `Scandir.CollectedEntriesAnnotated` | _Projects_/ps3netsrv/src/scandir.c:101-133 | Each stored copy has the source entry's name, other header fields and type bits, a known type, and `d_namlen` equal to the length of its name. |
| `Scandir.Capacity` | _Projects_/ps3netsrv/src/scandir.c:106-112 | The capacity after `n` appends is at least 2 and at least `n`, so every store lands in a free slot. It is either 2 or less than `2n`, so the array never grows more than needed. |
| `Scandir.CopyRequestsMatchKept` | _Projects_/ps3netsrv/src/scandir.c:101-104 | The copy requests match the kept entries one-to-one and in order. Each asks for the header offset plus the name length plus 1. Rejected entries cause no request. |
| `Scandir.GrowthDoubles` | _Projects_/ps3netsrv/src/scandir.c:80-112 | Growth requests ask for 4, 8, 16, ... slots, each twice the previous one. The final capacity is 2 times two to the number of growths. |
| `Dirent.Resolve` | _Projects_/ps3netsrv/src/scandir.c:114-129 | An entry with neither DT_DIR nor DT_REG set gets DT_DIR iff `dirname + "/" + name` opens as a directory, and DT_REG otherwise. No bit is cleared and no other bit is added. An entry that already has either bit is returned unchanged. |
| `Dirent.ResolveIdempotent` | _Projects_/ps3netsrv/src/scandir.c:116-128 | Resolving an already resolved entry changes nothing. This is a corollary of two clauses of `Resolve`'s contract (the result has a known type; a known type is returned unchanged), stated as a lemma for use by callers. |
| `Dirent.ResolveDuplicateCommute` | _Projects_/ps3netsrv/src/scandir.c:114-132 | The copy made at lines 131-132 (`Duplicate`: `d_namlen` set to the name's length, all else copied) and the type settling commute, and the stored copy's `d_namlen` is the original name's length. |
| `Sorting.Sort` | _Projects_/ps3netsrv/src/scandir.c:142-144 | For a total-preorder comparator, sorting returns a permutation of its input that is sorted by the comparator. |
| `Sorting.SortedPermutationUnique` | _Projects_/ps3netsrv/src/scandir.c:142-144 | When the comparator tells apart the elements, two sorted permutations of one sequence are equal. So the sorted order does not depend on how the sort works. |
| `Comparators.VersionsortIsAlphasort` | _Projects_/ps3netsrv/src/scandir.c:31-43 | `versionsort` returns the same value as `alphasort` on every pair of entries. |
| `Comparators.ComparatorsReadOnlyNames` | _Projects_/ps3netsrv/src/scandir.c:22-43 | `alphasort` and `versionsort` depend only on the two entries' names: entries with the same names compare the same, whatever their other fields. `alphasort` is `strcoll` of the names. |
| `Comparators.AlphasortIsTotalPreorder` | _Projects_/ps3netsrv/src/scandir.c:22-28 | If `strcoll` is a total preorder on names, `alphasort` is a total preorder on entries, so it is a valid `compar` for `Scandir`. |
| `Comparators.AlphasortedMeansNamesCollate` | _Projects_/ps3netsrv/src/scandir.c:18-28 | Sortedness by `alphasort`, unfolded to the names: a list is sorted by it iff every earlier name collates at most every later one. It restates `SortedBy` for this comparator, as a convenience for callers. |
| `Comparators.AlphasortedListingUnique` | _Projects_/ps3netsrv/src/scandir.c:22-28 | With a strict collation and distinct names, there is only one list sorted by `alphasort` for a given set of entries. |

## Left out

- `opendir2`, `readdir2` and `closedir2` are not modelled as handles. A directory is the entry sequence the oracle returns. Closing, on either exit path, has no effect on the result and is not modelled.
- `strcoll` and the locale are a parameter assumed to be a total preorder. A real `strverscmp` (numeric runs) is not modelled, because the source defines it as `strcoll`.
- `qsort`'s algorithm and its instability: `Sort` is an insertion sort, and the `Scandir` contract claims only a sorted permutation. Equal-ranked entries may come out in any order.
- Memory layout: `memcpy` of the raw record, and pointer and header sizes. Requests carry slot counts and byte counts (a name counts one byte per `char`), and `Layout` supplies `offsetof(struct dirent2, d_name)`.
- Character encoding and embedded NULs: `string` in the model is a sequence of characters, not of bytes. The model reads each `char` as one byte and assumes names hold no NUL, but the types do not enforce either. A multi-byte character, or a NUL inside a name, would give `d_namlen` and the copy size a value that differs from `strlen` in the C code.
- The fixed `dlen + 2048 + 1` path buffer is only modelled as an allocation request. Names longer than 2048 bytes overflow it in the C code; the model's probe path has no length limit.
- Freeing and leaks are not modelled, and no leak-freedom is claimed. The code does not guarantee it: when `realloc` fails, line 109 overwrites `namelist` with NULL. That loses the earlier copies and the pending `ent2` before the error path at lines 150-158 runs.
- The WIN32 build, which skips type resolution, is not modelled. Only the non-WIN32 path is.
- 32-bit `int` overflow of `len`, `used` and `allocated`, and the width of `d_namlen`, are not modelled. All counts are unbounded naturals.
- The order of the type probe relative to allocations is not observable in the model. The probe is a pure query of the oracle.

On failure the C code does not always free what it allocated (see above).
It grows the array when `used >= allocated`. That is the same as
`used == allocated`, because `used <= allocated` always holds (`Capacity`
states it).
