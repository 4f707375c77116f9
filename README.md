# CrunchDB in Dafny

CrunchDB is an in-memory key-value store. Each key holds a list of integers,
and the store can save point-in-time snapshots. This project models its core
in Dafny and proves properties of that model. The core has three parts.

- **`Entry`**: one key and its list. It has in-place list commands (set,
  push, append, pluck, pop, rev, uniq, sort), read-only queries (pick, min,
  max, sum, len) and static multi-list operations (diff, inter, union,
  cartprod).
- **`Snapshot`**: an id and a deep copy of the entries. It offers key
  lookup, key removal, copies out, and the one-line-per-entry text format
  that archive writes and restore reads.
- **`CrunchDB`**: the store. It holds the live entries (newest first) and
  the snapshots (newest first). Its commands find entries and snapshots by
  linear scan and answer with a reply.

Entry, Snapshot and CrunchDB are classes, because the program updates their
fields in place. Each command is a method whose contract states the new state
through value views:

- `Entries.Items(es)` is the keys and lists of a sequence of entry objects.
- `Snapshot.View()` is one snapshot's entries as values.
- `CrunchDB.Live()` is the live entries as values.
- `CrunchDB.History()` is the snapshots as values.

Every state-changing command of the store keeps `CrunchDB.Valid()`: the
live entry objects are pairwise distinct, the snapshot objects are pairwise
distinct, and no live entry object is held by a snapshot. Because of this, changing the live state never changes a snapshot,
and every live command proves `History() == old(History())`.

The modules follow the program's structure:

| file | module | contents |
|---|---|---|
| `lists.dfy` | `Options`, `Lists` | `Option`; list vocabulary (reverse, run collapsing, sorting, 32-bit wrap-around) |
| `text.dfy` | `Text` | Java's int rendering, `Integer.parseInt`, `String.split` on one character, joining, and the lines `Scanner` yields |
| `entry.dfy` | `Entries` | `class Entry`, `Item` (a key and a list as a value), deep copy |
| `setalgebra.dfy` | `SetAlgebra` | diff, inter, union and cartprod as loop methods, each specified by functions |
| `snapshot.dfy` | `Snapshots` | `class Snapshot`, the archive line format and the restore parser |
| `crunchdb.dfy` | `Crunch` | `class CrunchDB` and its commands |

The program behaves as follows in places that are easy to misread:

- **rollback keeps the target.** The snapshots kept are those from the
  target's position on, the target included (CrunchDB.java:316-322), so
  `History() == old(History())[i..]`.
- **A bad line ends a restore.** A line without a value segment, or with a
  token `parseInt` refuses, throws inside the read loop, and the catch ends
  the load; the entries read before it are kept (Snapshot.java:157-184).
  Archiving an entry with an empty list writes `k|`, which is such a line
  (`Snapshots.ArchiveRestoreStopsAtEmpty`).
- **Snapshot ids can repeat.** A new snapshot's id is the snapshot count plus
  one (CrunchDB.java:361), so after a drop the next snapshot can take an id
  that is still in use (`Crunch.IdReuse`).
- **Live keys can repeat.** Restore adds every parsed line as a new entry
  without looking for its key (Snapshot.java:173-174), so a file that repeats
  a key gives a store that repeats it. Key uniqueness is therefore not a store
  invariant; `set` preserves it (`Crunch.SetKeepsOthers`).

## Model

| member | source | states |
|---|---|---|
| `Entries.Entry.constructor` | Entry.java:18-25 | the new entry holds the key and a list equal to the argument |
| `Entries.Entry.GetValues` | Entry.java:38-40 | returns the stored list (a value, so later changes to it cannot reach the entry) |
| `Entries.Entry.Set` | Entry.java:72-78 | the list becomes the argument |
| `Entries.Entry.Push` | Entry.java:85-89 | each value goes to index 0 in turn, so the list becomes `Reverse(xs) + old list` |
| `Entries.Entry.Append` | Entry.java:96-98 | the list becomes `old list + xs` |
| `Entries.Entry.Pick` | Entry.java:106-114 | None exactly when the 1-based index is below 1 or above the length; otherwise element `index-1` |
| `Entries.Entry.Pluck` | Entry.java:122-132 | None exactly on a bad index, with the list unchanged; otherwise element `index-1`, and the list loses exactly that element, the others keep their order |
| `Entries.Entry.Pop` | Entry.java:139-147 | None exactly on an empty list, which stays unchanged; otherwise the head, and the tail remains |
| `Entries.Entry.Min` | Entry.java:154-168 | 0 for an empty list; otherwise an element no greater than any element |
| `Entries.Entry.Max` | Entry.java:175-189 | 0 for an empty list; otherwise an element no smaller than any element |
| `Entries.Entry.Sum` | Entry.java:196-205 | the total wrapped to a 32-bit int, as Java's `int` addition wraps; 0 for an empty list |
| `Entries.Entry.Len` | Entry.java:212-214 | the number of values |
| `Entries.Entry.Rev` | Entry.java:219-224 | the insert-last-at-i loop leaves exactly the reversed list |
| `Entries.Entry.Uniq` | Entry.java:229-237 | the remove-and-step-back loop leaves `Dedup` of the old list |
| `Entries.Entry.Sort` | Entry.java:242-245 | the list becomes its ascending permutation `SortSeq` |
| `Entries.CopyAll` | Snapshot.java:21-29 | fresh, pairwise distinct entry objects with the same keys and lists in the same order |
| `Lists.ReverseInvolution` | Entry.java:219-224 | reversing twice gives the list back |
| `Lists.ReverseAt` | Entry.java:219-224 | element k of the reversal is element `n-1-k` of the original |
| `Lists.DedupNoAdjacentRepeats` | Entry.java:229-237 | after uniq no two neighbours are equal |
| `Lists.DedupFixed` | Entry.java:229-237 | a list without equal neighbours is left as it is, so non-adjacent repeats survive |
| `Lists.DedupRemoveRepeat` | Entry.java:229-237 | removing one of two equal neighbours does not change the result of uniq |
| `Lists.DedupHead` | Entry.java:229-237 | uniq keeps the first value |
| `Lists.SortSeq` | Entry.java:242-245 | the result is ascending and a permutation (same multiset) |
| `Lists.Insert` | Entry.java:242-245 | inserting into an ascending list keeps it ascending and adds exactly one occurrence |
| `Lists.StrictlyAscendingUnique` | Entry.java:253-334 | two strictly ascending lists with the same members are equal, so diff, inter and union results are determined by their members |
| `Lists.SortDistinct` | Entry.java:253-334 | sorting a list without repeats gives a strictly ascending list with the same members |
| `Lists.Wrap32` | Entry.java:196-205 | the result is a 32-bit int congruent to the argument modulo 2^32 |
| `Lists.WrapAdd` | Entry.java:196-205 | wrapping after every addition equals wrapping the exact total once |
| `SetAlgebra.HoldersZero` | Entry.java:253-287 | no list holds v exactly when v is in none of them |
| `SetAlgebra.HoldersAll` | Entry.java:295-310 | every list holds v exactly when the holder count equals the number of lists |
| `SetAlgebra.Diff` | Entry.java:253-287 | strictly ascending; v is in the result exactly when exactly one list holds it (repeats inside one list count once) |
| `SetAlgebra.Inter` | Entry.java:295-310 | strictly ascending; v is in the result exactly when every list holds it |
| `SetAlgebra.Union` | Entry.java:318-334 | strictly ascending; v is in the result exactly when some list holds it |
| `SetAlgebra.ListOf` | Entry.java:281-286 | a set turned into a list has no repeats and the same members |
| `SetAlgebra.MultiplyFirst` | Entry.java:369-382 | the rows are the Cartesian product of the two lists, the first varying slowest |
| `SetAlgebra.MultiplySecond` | Entry.java:387-400 | every row extended by every value of the next list, in row-major order |
| `SetAlgebra.Cartprod` | Entry.java:342-363 | one list gives a single row holding that whole list; two or more give `Product` of the lists |
| `SetAlgebra.ProductShape` | Entry.java:342-400 | the product has as many rows as the product of the list lengths, and each row has one value per list |
| `SetAlgebra.ProductMembers` | Entry.java:342-400 | a row is in the product exactly when it has one value per list and value j comes from list j |
| `SetAlgebra.ExtendAt` | Entry.java:387-400 | row `i*len+k` of the extension is row i followed by value k (row-major order) |
| `SetAlgebra.ExtendLength` | Entry.java:387-400 | the extension has `rows × values` rows |
| `Text.ShowParse` | Snapshot.java:164 | an int written out as archive writes it (line 121) reads back through `Integer.parseInt` as the same int |
| `Text.DigitsRoundTrip` | Snapshot.java:164 | the value of a number's decimal digits is the number |
| `Text.PiecesJoin` | Snapshot.java:157-159 | splitting a joined list on a separator the parts avoid gives the parts back |
| `Text.LinesTerminated` | Snapshot.java:156-157 | the lines `Scanner` yields from newline-terminated lines are those lines |
| `Snapshots.Snapshot.constructor` | Snapshot.java:18-30 | keeps the id; the entries are fresh objects with the source's keys and lists, in order |
| `Snapshots.Snapshot.HasKey` | Snapshot.java:35-45 | true exactly when some stored entry has the key |
| `Snapshots.Snapshot.GetId` | Snapshot.java:51-53 | returns the id |
| `Snapshots.Snapshot.GetEntries` | Snapshot.java:59-69 | fresh, distinct objects equal in keys, lists and order to the stored entries |
| `Snapshots.Snapshot.Rollback` | Snapshot.java:92-102 | fresh, distinct objects equal in keys, lists and order to the stored entries |
| `Snapshots.Snapshot.RemoveKey` | Snapshot.java:77-85 | every entry with the key is removed, the others stay in order (`RemoveKeyIn`), and the key is then absent |
| `Snapshots.RemoveKeyIn` | Snapshot.java:77-85 | no entry with the key remains; an entry remains exactly when it was there and has another key |
| `Snapshots.RemoveAbsentKey` | Snapshot.java:77-85 | removing a key that is absent changes nothing |
| `Snapshots.ItemsWithoutKey` | Snapshot.java:77-85 | removing entry objects by key removes exactly those entries from the values |
| `Snapshots.Snapshot.Archive` | Snapshot.java:110-140 | the text written is `ArchiveText` of the entries: `key|v1,...,vn` and a newline per entry, in stored order |
| `Snapshots.ValueText` | Snapshot.java:120-128 | each value rendered, with a comma after every one but the last |
| `Snapshots.EmptyListHalts` | Snapshot.java:115-131 | an entry with an empty list is written `k|`, and that line halts the load |
| `Snapshots.Restore` | Snapshot.java:148-185 | the entries read are `RestoreFile(file)`, as distinct objects; no file gives no entries |
| `Snapshots.ReadLines` | Snapshot.java:156-176 | the read loop yields `RestoreLines` of the lines |
| `Snapshots.ParseLineOf` | Snapshot.java:156-176 | a line written for an entry with a non-empty int list and a key without a bar or newline reads back as that entry |
| `Snapshots.CommaOnlySkipped` | Snapshot.java:159-168 | a line whose value segment splits into no tokens (`k|,`) is skipped |
| `Snapshots.EmptyKeyAccepted` | Snapshot.java:157-175 | an empty key is not rejected |
| `Snapshots.RestoreHaltsAt` | Snapshot.java:159-184 | a halting line ends the load; only what came before it is kept |
| `Snapshots.ArchiveRestore` | Snapshot.java:110-185 | restoring an archived snapshot gives its entries exactly, when every list is non-empty, every value is a 32-bit int (always so in the program, where values are Java `int`), and no key holds a bar or newline |
| `Snapshots.ArchiveRestoreStopsAtEmpty` | Snapshot.java:110-185 | when entry j has an empty list, restoring the archive gives back only the entries before j |
| `Crunch.IndexOf` | CrunchDB.java:30-37 | None exactly when absent; otherwise the first position holding the value |
| `Crunch.CrunchDB.constructor` | CrunchDB.java:21-24 | no entries, no snapshots |
| `Crunch.CrunchDB.FindKey` | CrunchDB.java:30-37 | the first live entry with the key, or None exactly when no entry has it |
| `Crunch.CrunchDB.Get` | CrunchDB.java:103-114 | the first matching entry's list, or NoSuchKey |
| `Crunch.CrunchDB.Set` | CrunchDB.java:164-174 | `Live()` becomes `Assign(old Live, k, values)`: the first entry with the key gets the list in place, or a new entry goes in front; snapshots unchanged |
| `Crunch.CrunchDB.AddFront` | CrunchDB.java:167-168 | a new entry with the key and list goes in front of the live entries; snapshots unchanged |
| `Crunch.SetThenGet` | CrunchDB.java:164-174 | after set, looking the key up finds exactly the list that was set |
| `Crunch.SetKeepsOthers` | CrunchDB.java:164-174 | set keeps keys unique and keeps every entry with another key, and adds none |
| `Crunch.SetIdempotent` | CrunchDB.java:164-174 | setting the same list twice equals setting it once |
| `Crunch.CrunchDB.Push` | CrunchDB.java:182-191 | NoSuchKey with nothing changed, or the first matching entry's list becomes `Reverse(xs) + list`; snapshots unchanged |
| `Crunch.CrunchDB.Append` | CrunchDB.java:199-209 | NoSuchKey with nothing changed, or the first matching entry's list becomes `list + xs`; snapshots unchanged |
| `Crunch.CrunchDB.Pick` | CrunchDB.java:217-231 | NoSuchKey, the value at the 1-based index, or IndexOutOfRange |
| `Crunch.CrunchDB.Pluck` | CrunchDB.java:239-253 | NoSuchKey; or the value at the index, removed from the list; or IndexOutOfRange with nothing changed |
| `Crunch.CrunchDB.Pop` | CrunchDB.java:260-276 | NoSuchKey; Nil for an empty list with nothing changed; otherwise the head, and the tail remains |
| `Crunch.CrunchDB.Min` | CrunchDB.java:413-423 | NoSuchKey; Nil for an empty list (the 0 sentinel is never answered); otherwise the smallest value |
| `Crunch.CrunchDB.Max` | CrunchDB.java:430-440 | NoSuchKey; Nil for an empty list; otherwise the largest value |
| `Crunch.CrunchDB.Sum` | CrunchDB.java:447-457 | NoSuchKey; Nil for an empty list; otherwise the 32-bit wrapped total |
| `Crunch.CrunchDB.Len` | CrunchDB.java:465-473 | NoSuchKey or the list's length |
| `Crunch.CrunchDB.Rev` | CrunchDB.java:481-490 | NoSuchKey with nothing changed, or the first matching list is reversed; snapshots unchanged |
| `Crunch.CrunchDB.Uniq` | CrunchDB.java:497-506 | NoSuchKey with nothing changed, or runs of equal neighbours in the first matching list collapse to one; snapshots unchanged |
| `Crunch.CrunchDB.Sort` | CrunchDB.java:513-522 | NoSuchKey with nothing changed, or the first matching list is sorted; snapshots unchanged |
| `Crunch.CrunchDB.Del` | CrunchDB.java:121-133 | NoSuchKey with nothing changed, or only the first matching entry is removed; snapshots unchanged |
| `Crunch.CrunchDB.RemoveAt` | CrunchDB.java:129-131 | removes the live entry at the index, the others keep their order; snapshots unchanged |
| `Crunch.CrunchDB.Purge` | CrunchDB.java:140-156 | always Ok; the first live entry with the key is removed if there is one; every snapshot keeps its id and loses every entry with the key, and none holds it afterwards |
| `Crunch.CrunchDB.PurgeSnapshots` | CrunchDB.java:148-153 | every snapshot keeps its id and loses exactly its entries with the key; the live state is unchanged |
| `Crunch.CrunchDB.StripKey` | CrunchDB.java:148-153 | each snapshot's entry objects become those without the key |
| `Crunch.CrunchDB.SnapshotAt` | CrunchDB.java:284-290 | the position of the newest snapshot with the id, or None when there is none |
| `Crunch.CrunchDB.Drop` | CrunchDB.java:283-293 | NoSuchSnapshot with nothing changed, or only the newest snapshot with the id is removed; live state unchanged |
| `Crunch.CrunchDB.RemoveShot` | CrunchDB.java:286 | removes the snapshot at the index, the others keep their order; live state unchanged |
| `Crunch.CrunchDB.Rollback` | CrunchDB.java:300-325 | NoSuchSnapshot with nothing changed, or the live entries become the target's entries and the snapshots become `old[i..]` (the target stays) |
| `Crunch.CrunchDB.LoadShot` | CrunchDB.java:306 | the live entries become a fresh copy of the snapshot at the index; snapshots unchanged |
| `Crunch.CrunchDB.KeepFrom` | CrunchDB.java:316-322 | the snapshots become those from the index on; live state unchanged |
| `Crunch.CrunchDB.Checkout` | CrunchDB.java:332-349 | NoSuchSnapshot with nothing changed, or the live entries become the snapshot's entries; snapshots unchanged |
| `Crunch.CrunchDB.TakeSnapshot` | CrunchDB.java:354-365 | a snapshot of the live entries with id `count+1` goes in front, that id is answered, and the live state is unchanged |
| `Crunch.IdReuse` | CrunchDB.java:354-365 | two snapshots, drop id 1, snapshot again: the ids are 2 and 2 |
| `Crunch.CrunchDB.Archive` | CrunchDB.java:373-389 | NoSuchSnapshot with no file, or Ok with the newest matching snapshot's `ArchiveText` |
| `Crunch.CrunchDB.Restore` | CrunchDB.java:396-406 | the live entries become what the file restores (possibly none) and the snapshot list becomes empty |
| `Crunch.CrunchDB.Resolve` | CrunchDB.java:533-545 | for each key in order, the first matching entry's list (absent keys add nothing), and how many keys matched |
| `Crunch.ResolvedCount` | CrunchDB.java:537-547 | as many lists as keys are resolved exactly when every key has an entry |
| `Crunch.ResolvedAt` | CrunchDB.java:537-545 | when every key has an entry, list i is the list of the first entry with key i |
| `Crunch.CrunchDB.Diff` | CrunchDB.java:532-552 | NotEnoughArguments unless every key has an entry; otherwise the strictly ascending values held by exactly one resolved list |
| `Crunch.CrunchDB.Inter` | CrunchDB.java:560-585 | NotEnoughArguments unless every key has an entry; otherwise the strictly ascending values held by every resolved list |
| `Crunch.CrunchDB.Union` | CrunchDB.java:593-617 | NotEnoughArguments unless every key has an entry and there are at least two keys; otherwise the strictly ascending values held by some resolved list |
| `Crunch.CrunchDB.Cartprod` | CrunchDB.java:625-644 | NoSuchKey unless every key has an entry; otherwise the resolved list as a single row for one key, or the product of the resolved lists |

## Left out

- The command loop in `main`, the help text and `bye` are not modelled. This covers reading a line, tokenising it, and `Integer.parseInt` of the arguments; they are console input handling.
- How replies are printed is not modelled: `getOutput`, `Entry.get`, `listAllEntries`, `listAllSnapshots`, the list commands, and cartprod's output string. A command answers with a `Reply` value instead, and `Live()`/`History()` give ordered read access.
- Files are not opened or written. The archive command answers with the text it would write (`Option<string>`), and restore takes the file's contents, or `None` when it cannot be opened. Stack-trace printing is not modelled.
- `Crunch.CrunchDB.Archive`: answers Ok whenever the snapshot exists, even when the write fails (the program also prints ok in that case); a failed write is not modelled.
- `Text.Lines`: only `\n` ends a line; `Scanner`'s other line terminators (`\r\n`, `\r`, ` `, …) are not modelled.
- `Text.ParseInt`: accepts only the ASCII digits `0`-`9`, where `Integer.parseInt` also accepts other Unicode decimal digits.
- `Entries.Entry.Uniq`: compares values, not `Integer` references. Java's `==` on boxed `Integer` collapses equal neighbours only between −128 and 127 (the boxing cache), so neighbours outside that range may survive in the program.
- `SetAlgebra.Cartprod`: with one list, the program returns that entry's own list object as the single row. The model returns a copy of the value, so that aliasing is not modelled.
- `SetAlgebra.Inter`, `SetAlgebra.Cartprod`, `Crunch.CrunchDB.Inter`, `Crunch.CrunchDB.Cartprod`: require at least one list (or key). With none, the program reads the first list and throws; the command loop never passes fewer than two keys.
- `Crunch.CrunchDB.Checkout`: the program deep-copies the snapshot many times: `Snapshot.rollback` is called in the loop test and twice per iteration (CrunchDB.java:337-338), and each entry is then copied once more. The model copies twice (one `Snapshot.Rollback`, then one copy per entry) and states only the result, which is the same.
- The snapshot-search loops that `drop`, `rollback`, `checkout` and `archive` write out inline are modelled once, as `SnapshotAt`. Likewise, the key-resolution loop that `diff`, `inter`, `union` and `cartprod` repeat is modelled once, as `Resolve`.
- `Entry.getKey` is modelled as a read of the immutable `key` field.
