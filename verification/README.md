# mcachefs, modelled

mcachefs keeps a local cache of a slow directory tree, the *source*. This project models the five
parts of it that hold state worth an invariant, and proves what they keep:

* the **metadata store**: an arena of numbered entries, threaded at once by the directory tree, a
  red-black tree over 32-bit path hashes with a chain per collision, and a free list
  (`IndexTree`, `Rotations`, `Repairs`, `DoubleBlack`, `Renaming`, `Removal`, `Chains`, `StaleLinks`,
  `HashIndex`, `Balance`, `IndexSearch`; `PathHash`, `PathNames`, `DirForest`, `StoreState`,
  `StoreMoves`, `SubtreeWalk`, `StoreReading`, `FetchWalk`, `MetadataStore`, `StoreRuns`,
  `StoreFailures`; `HardLinks`; `Sequences`);
* the **journal** of local operations, and the file system that writes and applies it
  (`JournalFile`, `Namespace`, `Journal`, `LocalFs`, `FsyncCount`);
* the **transfers** between source and cache (`CopyLoop`, `BackupReads`, `TransferQueue`,
  `WorkerPool`);
* the **ageing ring** of open files (`Timeslices`);
* the **sorted list** of cached files (`BackingSort`).

Where the C code changes records in place the model is a class whose methods do the same writes in the
same order. Records that point to each other by number are numbered here too (`seq` or `map` fields);
records that point to each other by address are objects. A ghost tree, forest, ring or list says what
the links spell, and each method is proved against it. Threads are state machines over atomic steps,
with theorems over every run.

Several properties do not hold of the code. Each is stated with the exact condition under which it does
hold, and with an input on which it fails:

| what fails | when exactly | an input |
|---|---|---|
| removing an entry keeps the hash index | the entry is the first of its chain, and has followers although it is not the index root, or has none although it is (`HashIndex.Index.RemoveHash`) | in any store the index root, if no other entry has its hash (`StoreFailures.RemoveHashRoot`); mkdir /a, mkdir /b, rmdir /a (`StoreFailures.RemoveFirst`) |
| putting an entry back into the index keeps it | the entry still has a next in its old chain, or a previous while its new hash is new (`HashIndex.Index.InsertHash`) | in any store one of two entries with equal hashes, renamed to a new one (`StoreFailures.SharedStays`); mkdir /ipigcnu, mkdir /mgbclui, rename /mgbclui /b (`StoreFailures.SharedHashMoved`) |
| a lookup tells | the first entry of the chain that is at the path, or that trips the comparison, does the latter (`MetadataStore.Store.FindIndexed`) | mkdir /a, look up /a3sbbtt (`StoreFailures.ClashingName`) |
| a lookup finds what the source holds | barring equal hashes: it comes through the root directory as that is read, where a second slash is hashed, or from more than one level up, where the first letter of a name is left out (`MetadataStore.Store.FindLocked`) | look up /d/e/f when only the root directory was read (`StoreFailures.DeepLookup`) |
| creating a name twice is refused | barring equal hashes: the lookup misses the name for one of these two reasons (`MetadataStore.Store.MakeEntry`) | mkdir /a, which the source has, with the root directory unread (`StoreFailures.MadeTwice`) |
| a torn journal entry is noticed | `errno` was 0 (`JournalFile.JournalRead`) | `JournalFile.TornUnnoticed` |
| applying the journal makes the source what is shown | the apply is not done, for there is no journal, or an earlier one was left before its end or left its counts; or a cached file is not in step (`LocalFs.Local.Apply`): renaming gets there by splitting a pending name, opening by bytes that were cut off and grown over or by a reused name, writing by a handle that was dirty during an apply | `LocalFs.AppliedTwice`, `LocalFs.SplitName`, `LocalFs.CutThenGrown`, `LocalFs.WrittenOnAfterApply` |
| a reader of a backup sees the source | the file is opened after the failure and before the clean-up (`BackupReads.WindowExact`) | `BackupReads.WindowReached` |
| the copy loop survives any clock | the clock has not moved over a turn that left something to copy (`CopyLoop.TransferFile`) | `CopyLoop.StandingClock` |
| an apply may follow an apply | nothing was logged in between, or the first asked for write-backs and has not ended with its last report (`FsyncCount.NextApply`) | `FsyncCount.TwoInARow`; a journal whose only write-back is refused (`FsyncCount.AbortExact`) |
| an apply ends | it found no journal (`FsyncCount.NoJournal`), or a worker gave up without a report (`FsyncCount.NeverEnds`) | apply on a first mount; the file system is stopped during a write-back |
| a used file is young | it is in the garbage, and its mark is the present slice (`Timeslices.Ring.Freshen`) | `Timeslices.UsedButGarbage` |
| removing or changing one of several hard links works | the count and the ring disagree, or the ring has more than 1024 members (`HardLinks.Rings.Unlink`, `HardLinks.Rings.NotifyUpdate`) | `HardLinks.ThirdLink`, `HardLinks.LinksFromSource` |

The root directory is read before anything is served (src/mcachefs.c:46-62,
src/mcachefs-metadata.c:2335-2345). It is unread again only while the metadata are flushed, from the
unlocking to the next lookup of the virtual files (src/mcachefs-metadata.c:411-422); the runs of
`StoreFailures` start from the store of that moment. Directories below the root are unread until
somebody looks into them. The kernel looks paths up name by name; more than one level down is met only
where the store has lost what the kernel remembers, as after a flush.

The source is given by what its directories hold (`StoreReading.Disk`); a directory that is not given
cannot be opened. In a run it may be another one for each operation.

A size of 0 given to the partial hash means the whole string, as the loop has it
(src/mcachefs-hash.c:69-88).

## Model

| member | source | states |
|---|---|---|
| `HashIndex.Index.constructor` | src/mcachefs-metadata.c:140-182 | a freshly formatted index holds entry 1 and nothing else; all other entries carry no links |
| `HashIndex.Index.RotateLeftIn` | src/mcachefs-metadata.c:696-725 | rotating at any subtree turns the links of the arena into those of the rotated tree, with parent links and `hash_root`, and touches no entry outside it |
| `HashIndex.Index.RotateRightIn` | src/mcachefs-metadata.c:727-756 | the same for the other direction |
| `HashIndex.Index.RepairHashStep4` | src/mcachefs-metadata.c:777-822 | outer and inner grandchild: after at most two rotations and a recolouring the whole tree is red-black again, with the same entries in the same order |
| `HashIndex.Index.RepairHash` | src/mcachefs-metadata.c:776-823 | from a red node with a possibly red father: terminates with the whole tree red-black, the same entries in the same order, no entry outside the tree touched |
| `HashIndex.Index.SearchTree` | src/mcachefs-metadata.c:613-656 | going down by hash ends at the node with the hash, or at a free link where an entry with that hash belongs; the steps are bounded by the height |
| `HashIndex.Index.DoInsertHash` | src/mcachefs-metadata.c:612-656 | an equal hash goes to the end of its chain and leaves the tree alone; a new one hangs as a leaf where the order wants it |
| `HashIndex.Index.InsertHash` | src/mcachefs-metadata.c:825-842 | whatever chain links the entry still carries from an earlier time: the index is well-formed and holds exactly one entry more if and only if the entry has no next and either no previous or the hash of an entry that is there; a known hash leaves the tree untouched |
| `StaleLinks.NoLast` | src/mcachefs-metadata.c:645-655 | an entry with a next, linked behind the last of a chain, leaves links that no well-formed index has, whatever the tree links are |
| `StaleLinks.NotAlone` | src/mcachefs-metadata.c:612-656 | the same for an entry that is alone with its hash and carries any chain link |
| `HashIndex.Index.FixDoubleBlack` | src/mcachefs-metadata.c:965-1051 | a missing black below any hole is absorbed or passed up: the recursion ends with equal black depths around the hole, with the order kept; the missing-brother branch cannot be reached |
| `HashIndex.Index.FindSuccessor` | src/mcachefs-metadata.c:934-940 | finds the leftmost node below a node |
| `HashIndex.Index.HashSwap` | src/mcachefs-metadata.c:1077-1151 | exchanging two nodes, adjacent or not, gives the tree with the two entry numbers exchanged, all links from outside redirected, `hash_root` left as it was |
| `Renaming.SwapDone` | src/mcachefs-metadata.c:1053-1151 | the eight link writes of the exchange amount to renaming the two entries everywhere in the tree |
| `HashIndex.Index.DoRemoveHash` | src/mcachefs-metadata.c:1153-1239 | an entry in no chain that is not `hash_root` leaves the tree, directly or after trading places with its successor: red-black, the same order of the rest; for `hash_root` itself `hash_root` stays where it is, and it aborts exactly in the two cases named at `RemoveHash` |
| `HashIndex.Index.RemoveFollower` | src/mcachefs-metadata.c:869-932 | an entry that is not the first of its chain is bridged over; the tree is untouched |
| `HashIndex.Index.RemoveHead` | src/mcachefs-metadata.c:881-922 | the first of a chain with followers: right if it is `hash_root`; else the promoted entry has no link up and is not `hash_root` |
| `HashIndex.Index.RemoveHash` | src/mcachefs-metadata.c:1241-1249 | after removal the arena is a well-formed index of exactly the other entries if and only if the entry is not the first of its chain, or is the first and has followers exactly if it is `hash_root`; it aborts exactly on `hash_root` without followers, if that has a free side or a successor without children; the entry keeps its own chain links |
| `Removal.StaleRoot` | src/mcachefs-metadata.c:1172-1176 | a `hash_root` that should be gone cannot belong to a well-formed index of the rest, whatever the links |
| `Removal.OrphanLost` | src/mcachefs-metadata.c:881-922 | an entry that heads its chain but has no link up and is not `hash_root` is in no well-formed index |
| `Balance.Logarithmic` | src/mcachefs-metadata.c:2659-2755 | the height of a red-black tree with n nodes is at most 2 log2(n + 1), stated with powers of two |
| `IndexSearch.Shallow` | src/mcachefs-metadata.c:1251-1280 | a search that takes as many steps as the tree is high takes at most 2 log2(n + 1), n the number of indexed entries |
| `IndexSearch.ChainHashed` | src/mcachefs-metadata.c:1251-1280 | the chain behind a tree node lists exactly the indexed entries with its hash |
| `PathHash.ContinueHashPartial` | src/mcachefs-hash.c:68-88 | the loop computes the hash of the first `sz` characters, or of all if that size is never met |
| `PathHash.HashConcat` | src/mcachefs-hash.c:69-113 | hashing may be continued where it stopped |
| `PathHash.StepInjective` | src/mcachefs-hash.c:69-88 | one wrapping step can be undone, for a fixed character |
| `PathHash.HashInjective` | src/mcachefs-hash.c:69-126 | hashing one string from two 32-bit start values gives equal results exactly if the start values are equal |
| `PathHash.SuffixCollision` | src/mcachefs-hash.c:69-126 | paths with a common ending collide exactly when their beginnings do |
| `PathNames.SplitPath` | src/mcachefs-util.c:207-231 | splits at the last slash, into the one directory and name the path joins; before the only slash of a path is "/" |
| `PathNames.CompareFull` | src/mcachefs-metadata.c:493-565 | compared in full, a query matches exactly the path it spells |
| `PathNames.ComparePartial` | src/mcachefs-metadata.c:524-528 | compared in part, it matches every path that begins with that part, even within a name |
| `PathNames.CompareCrash` | src/mcachefs-metadata.c:529-548 | the comparison aborts exactly if the path, or one of its names, ends where the query goes on |
| `PathNames.CompareNames` | src/mcachefs-metadata.c:513-548 | comparing the stacked names, last first, is comparing the joined path |
| `MetadataStore.Store.constructor` | src/mcachefs-metadata.c:140-182 | the first block: entry 1 is the unread root directory, all others are free |
| `MetadataStore.Store.ExtendFreeEntries` | src/mcachefs-metadata.c:115-138 | a new block is linked into one list of blank entries |
| `MetadataStore.Store.Allocate` | src/mcachefs-metadata.c:459-486 | an entry off the free list, blank and in no chain, with a new block if the list is empty; each entry stays in exactly one of the tree, the free list and the hands of the caller |
| `MetadataStore.Store.Remove` | src/mcachefs-metadata.c:1729-1746 | wipes an entry, and puts it at the head of the free list |
| `MetadataStore.Store.Equals` | src/mcachefs-metadata.c:493-565 | climbing the father links compares the entry's path with the query, as a function of path and query; more than 1024 levels and the root itself abort |
| `MetadataStore.Store.FindHash` | src/mcachefs-metadata.c:1251-1280 | in at most 2 log2(n + 1) steps and one chain: the outcome of comparing the entries with that hash in the order of their chain |
| `MetadataStore.Store.FindIndexed` | src/mcachefs-metadata.c:1665-1681 | of an indexed full path: what is found is at that path, nothing found means nothing is there, and it aborts exactly if the first entry of the chain that is at the path or trips over the comparison does the latter |
| `MetadataStore.Store.SemiLookup` | src/mcachefs-metadata.c:1682-1706 | finds the last directory on the way to the path that is there, by the hash of shorter and shorter parts; nothing deeper is there; it fails only where another entry has the hash of such a part |
| `MetadataStore.Store.WalkDown` | src/mcachefs-metadata.c:1613-1663 | the way down from there, reading directories: from the second level on the name is searched without its first letter; what is found is at the path or the reason is an equal hash; nothing but directories above the path is read |
| `MetadataStore.Store.FindLocked` | src/mcachefs-metadata.c:1665-1708 | the whole lookup: if no hash leads it astray it finds the path exactly if that is there after reading and neither has to be reached through the root directory as that is read, nor from more than one level up; if it finds nothing otherwise, all that is above the path and can be read has been read |
| `StoreReading.GrewOn` | src/mcachefs-metadata.c:1474-1563 | directories read one after the other are directories read: each as a whole, no entry changed but for its children, each new entry one its directory holds |
| `StoreReading.NothingRead` | src/mcachefs-metadata.c:1474-1563 | if nothing is read that was there to be read, the store is the same |
| `StoreReading.ReadAbove` | src/mcachefs-metadata.c:1474-1563 | what is above an entry was read |
| `StoreReading.NamesRead` | src/mcachefs-metadata.c:1524-1536 | that reading as a whole means just this, with the names left out spelt out |
| `MetadataStore.Store.OpenPath` | src/mcachefs-metadata.c:1451-1472 | a directory is opened under the path its father links spell |
| `MetadataStore.Store.FindChild` | src/mcachefs-metadata.c:1613-1663 | one level of the way down: finds a child exactly if one has the hash of the directory's hash, a slash and the name, and a name that begins with the name looked for |
| `MetadataStore.HashOfName` | src/mcachefs-metadata.c:1643-1644 | that is the hash of the child's path, except below the root, where it is the hash of the path with a second slash in front |
| `MetadataStore.Store.LinkEntry` | src/mcachefs-metadata.c:1382-1392 | writes exactly three links: the child becomes the first of its father |
| `MetadataStore.Store.UnlinkEntry` | src/mcachefs-metadata.c:1394-1423 | writes exactly one link, that before the entry; the search for it never runs off the list |
| `MetadataStore.Store.DoAddChild` | src/mcachefs-metadata.c:1425-1441 | the entry is in the tree, at its father's path plus its name, and in the index under the hash of that path |
| `MetadataStore.Store.GetChild` | src/mcachefs-metadata.c:1474-1563 | an unread directory that can be opened is read: a name the source lists for it has an entry at the directory's path plus the name, of the kind listed, exactly if it is neither "." nor "..", nor ".mcachefs" in the root; no other entry changes but the father's children; else nothing changes |
| `MetadataStore.Store.AddAllListed` | src/mcachefs-metadata.c:1524-1552 | one entry for each name taken over, in the order of the listing |
| `MetadataStore.Store.FetchChildren` | src/mcachefs-metadata.c:1565-1610 | without a stack, reads all that is at or below the directory, and ends; reads nothing else, unless the directory is empty, the last of its siblings and not in the root directory: then also everything that follows in preorder, and nothing before; crashes exactly if it meets a directory that cannot be opened, or an empty root |
| `FetchWalk.VisitRead` | src/mcachefs-metadata.c:1582-1592 | when the directory the walk stands on is read, the walk stands at the same spot of the grown tree |
| `FetchWalk.LessToRead` | src/mcachefs-metadata.c:1565-1610 | each reading leaves one directory of the source less to be read |
| `FetchWalk.ListsUnique` | src/mcachefs-metadata.c:1382-1392 | the links of the entries spell only one forest |
| `MetadataStore.Store.MakeEntry` | src/mcachefs-metadata.c:1875-1953 | creates the entry `q` with its kind, a directory empty, as the first of its father, all above it read first, every other entry as it was; if no hash leads it astray: refused exactly if it is there and was not missed, crashes exactly if its directory is not there, goes wrong exactly if its directory is a file, or it is there but was missed and so is made twice |
| `MetadataStore.Store.RmdirUnlink` | src/mcachefs-metadata.c:1998-2053 | removes exactly the entry at `q`, read on the way if need be, if it is an empty directory or a file or link, as asked, and its index removal is sound; all entries that stay keep name, kind and father; every refusal is justified; if the index removal is not sound the index left behind is provably not one of the rest |
| `MetadataStore.Store.RehashChildren` | src/mcachefs-metadata.c:1291-1376 | without a stack, meets the entries below a directory once each, in preorder, and re-indexes each under the hash of its new path; ends early at an entry whose re-indexing damages the index, or exactly at the first unread directory; no other hash changes |
| `MetadataStore.Store.LeaveAndEnter` | src/mcachefs-metadata.c:1318-1320 | taking an entry out of the index and in again under a new hash works exactly if it is not `hash_root`, has nobody behind it in its chain and, if it has somebody before it, finds an entry with the new hash |
| `MetadataStore.Store.RenameEntry` | src/mcachefs-metadata.c:2132-2215 | reads all that is below `q` and above `to`, then moves `q` and all paths below it, or refuses with the reason; the entry keeps its kind and children and gets the father and the name that spell `to`, every other entry keeps name, kind and father; it is moved soundly exactly under the condition just named; the re-indexing below never meets an unread directory; when it is complete every entry is indexed under the hash of its new path |
| `MetadataStore.Store.RemoveChildren` | src/mcachefs-metadata.c:1764-1846 | without a stack, frees exactly the entries strictly below the directory, once each, in postorder; all other entries keep all links, the directory is unread afterwards; or stops at an entry whose removal damages the index |
| `SubtreeWalk.WalksOnce` | src/mcachefs-metadata.c:1291-1376 | preorder and postorder walks list nothing twice |
| `StoreState.PathInjective` | src/mcachefs-metadata.c:2079-2107 | no two entries have the same path |
| `StoreState.AncestorThere` | src/mcachefs-metadata.c:2079-2107 | what a path lies below is the path of an entry |
| `StoreMoves.Reindexed` | src/mcachefs-metadata.c:1282-1287 | giving one entry the hash of its path leaves one stale hash less |
| `StoreMoves.MoveStays` | src/mcachefs-metadata.c:1382-1423 | unlinking an entry and linking it elsewhere leaves name, kind and father of all others, and its own kind and children |
| `StoreRuns.Run` | src/mcachefs-metadata.c:1875-2215 | any run of creations, removals, renamings, directory reads and flushes on any store, new or not, and a source that may change: each reads what it is to read, and then has its effect on all the entries and paths that this left, up to the first that mcachefs fails on, of which the reason is given |
| `StoreRuns.Perform` | src/mcachefs-metadata.c:1764-2215 | the step of that: what is read, and the effect on the whole store, or the reason |
| `StoreRuns.MakeAt` | src/mcachefs-metadata.c:1875-1953 | creation adds one entry at `q`, of the kind asked for, a directory empty, in the directory its path names, after reading only directories above it; all other entries keep name, kind and father |
| `StoreRuns.DropAt` | src/mcachefs-metadata.c:1998-2053 | removal takes away the one entry at `q`, which may be found by reading, exactly if it may go; all others keep name, kind and father |
| `StoreRuns.RenameAt` | src/mcachefs-metadata.c:2132-2215 | renaming replaces the beginning of the paths at and below `q`, all read before, exactly if `q` is found, `to` is not and has a directory; the entry keeps its kind and children, all others name, kind and father |
| `StoreRuns.FetchAt` | src/mcachefs-metadata.c:1474-1563 | reading a directory adds what is in it, as a whole |
| `StoreRuns.FlushAt` | src/mcachefs-metadata.c:1764-1846 | flushing drops exactly the paths below `q`; if there were any `q` is to be read again, and all other entries are as they were |
| `StoreRuns.KindsLast` | src/mcachefs-metadata.c:1875-2215 | over any run an entry that stays keeps its kind |
| `StoreRuns.Accounted` | src/mcachefs-metadata.c:115-138 | between any two operations each entry from 1 on is in the tree or free, never both; blocks are whole; the index holds exactly the tree's entries, each under the hash of its full path |
| `StoreRuns.ListedChildren` | src/mcachefs-metadata.c:1382-1441 | the list of children of a directory holds exactly the entries that name it as father |
| `StoreRuns.PathsOfLinks` | src/mcachefs-metadata.c:2079-2107 | the paths the store is said to have are the ones the father links spell: no other assignment follows these links |
| `StoreFailures.RemoveFirst` | src/mcachefs-metadata.c:1172-1176 | mkdir /a, mkdir /b, rmdir /a with a bare source: /a is `hash_root`, and the index does not survive |
| `StoreFailures.RemoveHashRoot` | src/mcachefs-metadata.c:1172-1176 | in any store: removing what is `hash_root` while no other entry has its hash aborts or leaves an index that is not that of the others |
| `StoreFailures.SharedStays` | src/mcachefs-metadata.c:2188-2197 | in any store: an entry that shares its hash with another one cannot be moved to a hash that no entry has |
| `StoreFailures.SharedHashMoved` | src/mcachefs-metadata.c:2188-2197 | mkdir /ipigcnu, mkdir /mgbclui, whose paths have the same hash, then renaming the second to /b: the index does not survive |
| `StoreFailures.ClashingName` | src/mcachefs-metadata.c:529-548 | mkdir /a, then looking up /a3sbbtt, which has the same hash: the comparison aborts |
| `StoreFailures.MadeTwice` | src/mcachefs-metadata.c:1613-1663 | on a source with a directory /a, mkdir /a before the root directory was read makes it twice |
| `StoreFailures.DeepLookup` | src/mcachefs-metadata.c:1651-1658 | on a source with a file /d/e/f of which only the root directory was read: looking the file up finds nothing |
| `StoreFailures.MiddleRoot` | src/mcachefs-metadata.c:1172-1176 | of any three entries with different hashes the middle one is `hash_root` and cannot be removed soundly |
| `JournalFile.EntryRead` | src/mcachefs-journal.c:56-129 | what `append_entry` wrote is what `read_entry` reads, for all fields that fit their types and names shorter than a path may be, whatever follows |
| `JournalFile.Layout` | src/mcachefs-journal.c:56-88 | each field of an entry stands, lowest byte first, at the place in the file that the C structure gives it, then the two names |
| `JournalFile.Reader.ReadEntry` | src/mcachefs-journal.c:90-129 | reading is the function the round trip is about; a part that comes short is answered with `errno` |
| `JournalFile.JournalRead` | src/mcachefs-journal.c:90-129 | a journal whose last entry may be torn reads back as exactly the entries before; the tear is reported if and only if `errno` was not 0 |
| `JournalFile.TornUnnoticed` | src/mcachefs-journal.c:103-123 | a concrete torn journal that reads as empty without a report |
| `JournalFile.ReadAll` | src/mcachefs-journal.c:505-527 | the reading loop of the journal gives exactly the decoded entries and that report |
| `LocalFs.Log.AppendEntry` | src/mcachefs-journal.c:56-88 | the file grows by the bytes of the entry |
| `LocalFs.Log.Append` | src/mcachefs-journal.c:133-192 | the journal holds what it held, with the new entry at its end; a renaming rewrites a journal that is not empty first |
| `LocalFs.Log.Rebuild` | src/mcachefs-journal.c:194-337 | the rewritten journal holds the same entries in the same order, those of write-backs with the path prefix replaced, and the renaming at its end |
| `Journal.RewrittenElsewhere` | src/mcachefs-journal.c:194-337 | rewriting changes only paths of write-backs |
| `Journal.RewritingExact` | src/mcachefs-journal.c:241-249 | the rewritten paths are the renamed ones exactly if the renamed path splits no name of a pending file |
| `Journal.ReplayRewritten` | src/mcachefs-journal.c:194-337 | replaying the rewritten journal changes the tree just as before |
| `Journal.PendingRewritten` | src/mcachefs-journal.c:194-337 | if no name is split the pending files are exactly the renamed ones |
| `Journal.CaughtUp` | src/mcachefs-journal.c:535-590 | writing back the pending files, without cutting them, gives the view exactly if each cached file is equal already, or becomes so when its cached content is copied over its beginning |
| `Journal.PastContent` | src/mcachefs-journal.c:384-533 | what replaying gives a file is what its history says: the first bytes of the one file in the source it goes back to, cut to the lowest size it had, with zeros up to its present size |
| `Journal.CutAndGrown` | src/mcachefs-lowlevel.c:436-503 | copying a file that kept its name from the unreplayed source is right exactly if it is to be written back anyway or no byte but zeros was cut off and grown over again |
| `Journal.StepRenamed` | src/mcachefs-journal.c:194-337 | after a renaming a cached file catches up exactly if it was up to date or its new path is among the rewritten write-backs |
| `Journal.TakesAs` | src/mcachefs-journal.c:384-492 | what one journal entry does to the tree, path by path, by its kind, in one statement that names no replay function |
| `Journal.WritesBack` | src/mcachefs-journal.c:535-590 | what writing one file back does, byte by byte: the cached bytes over the beginning of what is there |
| `Namespace.SameDone` | src/mcachefs-journal.c:384-492 | an operation does the same, at each path, to trees of the same shape, and succeeds on both or on neither |
| `Namespace.MovedAt` | src/mcachefs-journal.c:428-433 | renaming loses nothing: what was at a path is found where the path went |
| `Namespace.RenameMeans` | src/mcachefs-journal.c:428-433 | a renaming succeeds exactly if there is something at the path, nothing at the new one, a directory for it, and it is not below the path; then everything at or below the path is found at the new one, everything else where it was, and nothing else is there |
| `LocalFs.Source.ApplyUpdates` | src/mcachefs-journal.c:494-533 | applies all entries but the write-backs, in their order, each with its effect spelt out path by path; without a journal file it fails and changes nothing |
| `LocalFs.Source.ApplyFsync` | src/mcachefs-journal.c:535-590 | asks for the write-backs, each once and in their order |
| `LocalFs.Local.Mknod` | src/mcachefs-lowlevel.c:177-206 | shows an empty file, cached, or, if the mode is not that of a regular file, a special one, exactly if there is nothing at the path and a directory for it; every other path is as it was; in step afterwards if it was before |
| `LocalFs.Local.Mkdir` | src/mcachefs-lowlevel.c:208-226 | the same for a directory |
| `LocalFs.Local.Symlink` | src/mcachefs-lowlevel.c:137-175 | the same for a symbolic link |
| `LocalFs.Local.Unlink` | src/mcachefs-lowlevel.c:228-253 | the file is gone, exactly if it was one or a link, from the cache too, and every other path is as it was; handles open on it lose it; in step afterwards if it was before |
| `LocalFs.Local.Rmdir` | src/mcachefs-lowlevel.c:255-284 | the path is gone, exactly if it was a directory other than "/" with nothing below it, and every other path is as it was; in step afterwards if it was before |
| `LocalFs.Local.Truncate` | src/mcachefs-lowlevel.c:436-503 | exactly if it is a file: the bytes up to the new size stay, zeros follow, in what is shown and in the cache if it is there; every other path is as it was, and the operation is logged; in step afterwards if it was before |
| `LocalFs.Local.Rename` | src/mcachefs-lowlevel.c:286-318 | exactly if the renaming may be done, all that is shown or cached at or below the path is so at the new one and all else is as it was; handles and pending write-backs follow; whether every cached file is still in step is decided exactly by the rewritten write-backs; it is if no pending name is split |
| `LocalFs.Local.Open` | src/mcachefs-lowlevel.c:529-575 | always gives a handle; an uncached file is copied from its present path in the unreplayed source, as far as its present size goes, and if it is not there the handle is of no use until it is opened again; what is in step stays so exactly if the history of the file makes that the right content |
| `LocalFs.Local.Write` | src/mcachefs-io.c:236-300 | the bytes from the offset on are those written, all others as before, zeros in a gap, and the size is the larger of the two; no other path changes; logs the first write of a handle; a handle whose file could not be copied writes nothing; what is in step stays so unless the handle believes its file to be logged and it is not, or nothing changes |
| `LocalFs.Local.Read` | src/mcachefs-io.c:125-190 | what is read through a handle is what the view shows |
| `LocalFs.Local.Apply` | src/mcachefs-journal.c:592-655 | done exactly if no apply was left before its end, the counts of the last one were cleared and there is a journal; then the source becomes exactly what the file system shows if and only if each cached file was in step, and afterwards every write is logged again if and only if no open handle was written through before; without a journal it is left before its end |
| `LocalFs.CutThenGrown` | src/mcachefs-lowlevel.c:436-503 | a run: an uncached file of two bytes, cut to one, grown to two, opened, applied: shown is 7 7, the source has 7 0 |
| `LocalFs.SplitName` | src/mcachefs-journal.c:241-249 | a run: /a is renamed to /c while /ab is to be written back: what was written to /ab is lost |
| `LocalFs.WrittenOnAfterApply` | src/mcachefs-io.c:278-289 | a run: a file written to before and after an apply: the later write never reaches the source |
| `LocalFs.AppliedTwice` | src/mcachefs-journal.c:592-623 | a run: apply, apply, write, apply: the write is logged and in step, but no apply is done any more |
| `CopyLoop.AdjustWindow` | src/mcachefs-transfer.c:681-704 | the window halves, doubles or stays by the rate, remains a power of two from 4096 to 131072, and never exceeds its buffer |
| `CopyLoop.CopyWindow` | src/mcachefs-transfer.c:567-651 | one turn copies the window to the same place, or, by what goes wrong, as much less as that says |
| `CopyLoop.TransferFile` | src/mcachefs-transfer.c:512-742 | for every sequence of clock readings and mishaps: the target begins with exactly the bytes counted as copied and is otherwise as before; at every turn the window is the one the rate so far gives; it ends complete, interrupted or by a division by zero exactly where the first of these comes, after exactly so many bytes |
| `CopyLoop.StandingClock` | src/mcachefs-transfer.c:645-653 | a file of more than 4096 bytes, and a clock that stands still over the first turn: it crashes |
| `CopyLoop.CopyExact` | src/mcachefs-transfer.c:512-742 | a whole file copied without cutting the target makes them equal exactly if the target was not longer |
| `BackupReads.EveryRun` | src/mcachefs-io.c:74-123 | in every interleaving of the backup of a file with opens, reads and writes in which nobody opens it between failure and clean-up, whatever a reader gets from the cache is what the source holds, until somebody writes |
| `BackupReads.WritesHold` | src/mcachefs-io.c:125-300 | in every such run, writes included, a complete file ends where the source does or the furthest write, and holds at each place the byte last written there, else that of the source, else zero |
| `BackupReads.Completed` | src/mcachefs-transfer.c:418-742 | a backup without a failure, in windows of any sizes that make up the source, ends complete and equal to the source |
| `BackupReads.ServedMeanwhile` | src/mcachefs-io.c:74-123 | while a file is copied exactly those reads are served from the cache that end within what was copied so far |
| `BackupReads.WindowOpened` | src/mcachefs-transfer.c:417-462 | opening it there makes the partial copy count as complete; nothing anybody does afterwards changes that (`DoomedForGood`), and the clean-up breaks the reads |
| `BackupReads.DoomedForGood` | src/mcachefs-transfer.c:417-462 | once opened in the window, every continuation, with writes too, ends without the cache file the handle reads from as soon as the clean-up came |
| `BackupReads.WindowExact` | src/mcachefs-transfer.c:417-462 | a run is one without such an opening exactly if the cache file is there after every clean-up somebody reads through; while nobody writes, exactly if reads are right before and after every clean-up |
| `BackupReads.WindowReached` | src/mcachefs-transfer.c:417-462 | a concrete run that gets there |
| `TransferQueue.Queue.QueueFile` | src/mcachefs-transfer.c:260-297 | the file is appended exactly if it is not in the queue yet |
| `TransferQueue.Queue.GetNext` | src/mcachefs-transfer.c:299-351 | takes the first file of the type; the aborts are met exactly if there is none, head and tail stay consistent |
| `TransferQueue.FirstInFirstOut` | src/mcachefs-transfer.c:299-351 | taking the first of a type serves that type in order and leaves the order of all others |
| `WorkerPool.EveryRun` | src/mcachefs-transfer.c:201-351 | in every interleaving of queueing threads and workers: queued files of a type are semaphore, woken workers and posts to come, until the quit; no worker finds nothing; each file is queued once; each type is served in order |
| `WorkerPool.NeverEmpty` | src/mcachefs-transfer.c:201-351 | a worker that passed the check for quitting finds a file of its type |
| `WorkerPool.QueuedOnce` | src/mcachefs-transfer.c:260-297 | a file asked for is in the queue afterwards, at its end and with a post to come unless it was there |
| `WorkerPool.ServedInTheEnd` | src/mcachefs-transfer.c:201-351 | until the quit, from any state and in any order of the threads: a fixed number of steps is left for the files of a type, one can always be taken before the last, and all that was asked for has been handed out exactly after it |
| `WorkerPool.Conserved` | src/mcachefs-transfer.c:201-351 | in every run: files asked for, posts, stops, workers woken, workers past the check, workers that left and files served add up, for each type |
| `WorkerPool.AfterQuit` | src/mcachefs-transfer.c:163-199 | after the quit files are handed out only to workers that had passed the check |
| `WorkerPool.StopLetsOneOut` | src/mcachefs-transfer.c:163-199 | each post after the quit lets exactly one worker out, and changes nothing else |
| `FsyncCount.Counters.Apply` | src/mcachefs-journal.c:592-655 | the counters after an apply, each by itself: what was asked for, already queued, refused; it aborts exactly if they were not zero before; without a journal file it is left in the update action |
| `FsyncCount.CountMeans` | src/mcachefs-journal.c:535-590 | the counts are the numbers of answers of each kind |
| `FsyncCount.Counters.NotifySyncEnd` | src/mcachefs-journal.c:657-682 | each report counts one success or one error; the last one removes the .fsync file and clears the counters |
| `FsyncCount.EveryRun` | src/mcachefs-journal.c:535-682 | in every interleaving of logged operations, applies, reports and lost workers: asked for is done, pending or lost; each apply that finds a journal takes it away and has one .fsync file, removed once, when none is unreported |
| `FsyncCount.EveryStep` | src/mcachefs-journal.c:592-682 | at no step of a run an apply begins before the .fsync file of the last one is removed, or without a journal, nor is that file removed while an accepted write-back is unreported |
| `FsyncCount.NextApply` | src/mcachefs-journal.c:592-655 | after an apply, whatever comes in between, the next one works exactly if something was logged again and the first asked for nothing or ended with its last report |
| `FsyncCount.NoJournal` | src/mcachefs-journal.c:613-623 | an apply that finds no journal file stays in the update action whatever comes, and no later apply works |
| `FsyncCount.TwoInARow` | src/mcachefs-journal.c:613-623 | two applies in a row: the second finds no journal |
| `FsyncCount.AbortExact` | src/mcachefs-journal.c:644-653 | after an apply that found nothing to wait for the next one aborts exactly if the first asked for any write-back |
| `FsyncCount.ReportedThrough` | src/mcachefs-journal.c:657-682 | after one that ended with its last report the next never aborts |
| `FsyncCount.NeverEnds` | src/mcachefs-transfer.c:361-387 | a worker that gives up without a report keeps the apply from ever ending |
| `Timeslices.Ring.InsertInTs` | src/mcachefs-file-ts.c:38-71 | the file is the first of its list, which is well linked and marked; no other list changes |
| `Timeslices.Ring.Remove` | src/mcachefs-file-ts.c:97-148 | the file leaves its list, all other files keep their place, the neighbours and the head are linked, and its mark passes to the one behind it and to no other |
| `Timeslices.Ring.Freshen` | src/mcachefs-file-ts.c:150-185 | a used file becomes the first of the present slice, exactly unless its mark says that it is there: it then stays in the garbage exactly if it was there; all others keep their place |
| `Timeslices.Ring.CleanupList` | src/mcachefs-file-ts.c:187-200 | visits exactly the files last touched so many ticks ago, once each |
| `Timeslices.Ring.CleanupFreed` | src/mcachefs-file-ts.c:202-216 | frees exactly the records of the freed list |
| `Timeslices.Ring.GetFreed` | src/mcachefs-file-ts.c:85-95 | hands out the first record of the freed list, if there is one |
| `Timeslices.Ring.Update` | src/mcachefs-file-ts.c:245-297 | a tick: the slice that comes next is put in front of the garbage, first of it marked, all others kept |
| `Timeslices.PlaceMeaning` | src/mcachefs-file-ts.c:38-172 | a file in slice s was touched (current - s) mod 1024 ticks ago; it is in the garbage exactly if that is 1024 or more |
| `Timeslices.UsedButGarbage` | src/mcachefs-file-ts.c:174-185 | two files of one tick, 1024 ticks later the older one is used: it stays in the garbage |
| `BackingSort.FileList.AppendFile` | src/mcachefs-cleanup-backing.c:26-45 | the new file is the head, links in both directions, head and tail consistent |
| `BackingSort.FileList.Flip` | src/mcachefs-cleanup-backing.c:157-176 | exchanges two neighbours in a doubly linked list, at its ends too |
| `BackingSort.FileList.Sort` | src/mcachefs-cleanup-backing.c:143-182 | ends with the same files by ascending age, those of the same age in their old order, all links consistent, after as many exchanges as pairs stood the wrong way round |
| `BackingSort.FewerInversions` | src/mcachefs-cleanup-backing.c:143-182 | each exchange leaves exactly one pair less the wrong way round, which is why the stepping back ends |
| `BackingSort.NoInversion` | src/mcachefs-cleanup-backing.c:143-182 | no pair stands the wrong way round exactly if the ages ascend |
| `BackingSort.StableUnique` | src/mcachefs-cleanup-backing.c:143-182 | there is only one such order: any ascending list that keeps the order of files of the same age is this one |
| `HardLinks.Rings.Make` | src/mcachefs-metadata.c:1545 | an entry read from the source brings its native link count and no ring; counts stay right exactly if that is 1 |
| `HardLinks.Rings.Link` | src/mcachefs-lowlevel.c:320-383 | the new entry follows its origin on one cycle, with its attributes and both counts one more; all other rings are as they were; counts stay right exactly if there was no other link |
| `HardLinks.Rings.UnlinkList` | src/mcachefs-metadata.c:1955-1996 | the entry is bridged over and all others on the cycle count one less; aborts exactly on an entry without a ring or a ring of more than 1024 |
| `HardLinks.Rings.Unlink` | src/mcachefs-metadata.c:2036-2050 | with its guard on the link count: of a file it aborts exactly if that is above 1 and there is no ring, or too large a one; else the links still form rings, those there were without the entry, exactly if the ring was told or the entry was alone; of a directory the count does not matter |
| `HardLinks.Rings.NotifyUpdate` | src/mcachefs-metadata.c:2055-2077 | all links of a regular file get the attributes of one; aborts exactly if it counts several links and has no ring |
| `HardLinks.CycleUnique` | src/mcachefs-metadata.c:1955-1996 | the links determine the cycle |
| `HardLinks.Run` | src/mcachefs-lowlevel.c:320-383 | in every run in which nobody brings links from the source and only files with one link are linked to: no abort, every operation has its effect on rings and counts, and every entry is on a ring it counts right |
| `HardLinks.ThirdLink` | src/mcachefs-metadata.c:2036-2050 | a run: three links, two of them removed: the last one is left with a link to an entry that is gone |
| `HardLinks.LinksFromSource` | src/mcachefs-metadata.c:2055-2066 | a file with two links in the source: changing or removing it aborts |

## Left out

- MetadataStore.Store.FindLocked: ends, as an abort, where the code goes on with another entry than the one on the way to the path, because their hashes are equal (`Troubled`); what it does from there is not followed. So do the operations that look paths up.
- MetadataStore.Store.RenameEntry: once the index is damaged the model stops; what the code does with a damaged index is not followed. Nor is a store with a name twice, after `MakeEntry` or a rename.
- StoreFailures.RemoveFirst: like the other runs, without the entries of the virtual files; that the index root cannot go holds in any store.
- StoreRuns.Run: that a directory renamed into itself, relative paths and empty names never arrive is the kernel's guarantee and is assumed.
- LocalFs.Local.Open: is one step; that the copy is made by another thread is the subject of `BackupReads`. What is no regular file in the source, under the name a file has now, counts as not there.
- LocalFs.Local.Write: a write through a handle of an unlinked file changes nothing that is shown, while the code extends the size of a new file of the same name.
- LocalFs.Local.Rename: paths shorter than the 4096 bytes the journal's buffers have are required, as the code does not check them.
- LocalFs.Local.Apply: takes the write-backs as done before it returns; their counting is the subject of `FsyncCount`.
- CopyLoop.TransferFile: without the pause that a maximal rate asks for, and without the log, in which the rate of the whole copy is divided by its time.
- WorkerPool.ServedInTheEnd: any number of workers may be awake; that there are only so many, each busy with its transfer for a while, only orders the steps.
- HashIndex.Index.SearchTree: the one loop of `do_insert_hash` is two here, the way down the tree and the way along the chain.
- Applying hard links from the journal: the code logs them as not handled.
- chmod, chown, utime, times and owners: attributes without an effect on what is proved.
- Failing system calls, short writes and a full disk in the journal; in the copy loop they are modelled.
- Removing files from the cache to save space: nothing of the journal's guarantees survives it for files not yet written back.
- mmap and growth of the metadata file, file descriptors and use counts: no property beyond the lists they are on.
- Admission of a read and the read itself are one step in `BackupReads`; the file is not truncated meanwhile.
- Virtual files, dumps, configuration, FUSE plumbing, filling of metadata in the background: text output and dispatch.
