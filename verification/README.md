# SMROS models and proofs

A Dafny model of the parts of SMROS whose correctness is hardest to see from the
code, with proofs of what they promise. `dafny verify dfyconfig.toml` checks all
of it.

**AArch64 user page tables** (`Descriptors`, `TableMemory`, `TableSteps`,
`Transactions`, `AddressSpace`, `PageRuns`, `Dropping`, `Cloning`, `DeepClone`,
`ForkRuns`, `ManySpaces`, `UserCopies`). Three levels of tables in a shared, reference-counted store;
forked spaces share level-one tables and copy them lazily. The classes `Backend`
and `AddressSpace` follow the Rust code method by method. `TableMemory.Inv` is
what all live spaces keep together: every table's reference count equals the
number of descriptors that name it plus one for a root, and also the number of
times the spaces list it; descriptors name live tables one level below. The
proofs about single changes (link, unlink, detach, fork, write) are lemmas on
memory values; the methods are proved from them. Each space carries a worst-case
translation cache that holds every descriptor as soon as it is visible and drops
an address only on a break; `AddressSpace.WriteLeaf` can only be called for an
uncached address, and after every operation the cache equals the tables.
`ManySpaces.Machine.Run` puts it together: any run of forks and single-page
operations over any number of spaces is simulated by one finite page map per
space. The backend hands out frames from a supply that is an input, so running
out of memory has a cause: every operation says how many frames it needs at most.
Only a fork makes spaces share, and a space that took no part in one is served by
every operation (`ManySpaces.RunServes`). What sharing costs is stated as exactly: `Dropping.DropIff` says when a
space may be dropped, `Transactions.DetachSpoilsRollback` and the region theorems
when a failed region leaves a space unusable, and `ForkRuns.ForkThenProtect` is a
run that, with eighteen frames in stock, always ends with a child that can no
longer work on a page.

**Kernel heap** (`HeapLayout`, `FreeList`, `HeapPieces`, `KernelHeap`,
`HeapRuns`). The free list lives in the heap's own words, as in the Rust code.
The abstract state is the sequence of pieces, free and live, that tile the heap;
it is kept coalesced, so the live blocks determine the free ones. `HeapRuns.Run`
replays any run of requests, answer by answer, against what each request means to
the owners.

**Stage publisher** (`StageJournal`, `StagePublisher`). Journal records, commits
that may be cut short anywhere, and the recovery machine over idle, building,
initial and exchange. Every step may be the last one before the machine stops;
`Disk.Valid` holds at every return, crashes included. A header write that stops
may leave each field, and each digit, old or new on its own. A journal by itself
does not survive that: `StageJournal.NeitherOldNorNew` is one that three stops in
a row bring to read as a value nobody wrote last, and
`StageJournal.BodyAtomicIff` is the exact condition. It takes commits of different
values over the same generation, each cut short. The publisher never does that in
a harmful way: while idle it commits only a build in the one work root there is,
and from every other state at most one publication is tried before everything
goes back to idle. `Disk.Valid` says so of the stale slot (`Prepared`), and
`Disk.NextIsAtomic` is the conclusion. The system calls of a campaign are an
input, with those that fail, so recovery and whole campaigns succeed whenever
there are enough of them.

**Smaller parts**: the stub scanner (`StubScanner`), the serial log parser
(`SerialLog`), the resumable campaign loop (`QemuCampaign`), the output budget
(`OutputBudget`) and the manifest (`Manifest`). `Basics` holds what they share.
The scanner's text is stated as regions of the source, and compared with the
regions the C language has; the log parser's answer is read off the lines, and
the logs it accepts are those whose events obey a law written without the parser.
The campaign keeps a log of every launch, every start, with what the guest made of
it, and every record; what launches and guests come to is an input. That no test is
started once it is on record, that everything on record is what a started test came
to, that the emulator is launched exactly where a test needs one, and that an
infrastructure error is one that a started test reported, are theorems about the
logs of any number of stopped and resumed runs.

Where a method of the original checks a condition that the invariant makes
impossible to fail (reads and writes of live tables, recovery's inode mismatches),
the model asserts the condition instead of carrying the dead branch. In
`map_user_pages_with_protection` the early return for no pages is never reached,
because an empty range is not a valid user range; the model follows the code.

## Model

| member | source | states |
|---|---|---|
| Descriptors.UnpackInjective | src/kernel_lowlevel/aarch64_vm_logic_shared.rs:7-16 | two descriptor words with the same fields are the same word, so the model may compare fields where the code compares words |
| Descriptors.UnpackZero | src/kernel_lowlevel/aarch64_vm_logic_shared.rs:7-16 | a word is zero exactly when its record is the empty one |
| Descriptors.UnpackTests | src/kernel_lowlevel/aarch64_vm_logic_shared.rs:15-25 | the table-or-page test and the frame read from a word agree with the record, and the frame is below 2^36 |
| Descriptors.UnpackTable | src/kernel_lowlevel/aarch64_vm_logic_shared.rs:18-20 | the bits of a table descriptor are those of the table record, for every frame that has an address |
| Descriptors.UnpackUserPage | src/kernel_lowlevel/aarch64_vm_logic_shared.rs:27-53 | the bits of a user page descriptor mean: user accessible iff some permission, read-only iff not writable, execute-never iff not executable |
| Descriptors.UnpackBlock | src/kernel_lowlevel/aarch64_vm_logic_shared.rs:55-68 | the bits of a supervisor block are a valid non-table entry without user access |
| Descriptors.UserPageBits | src/kernel_lowlevel/aarch64_vm_logic_shared.rs:27-53 | bit by bit: a user page is open to the user iff some permission is set, read-only iff not writable, and its user execute-never bit 54 is clear exactly if executable; the address is kept and no other bit is set |
| Descriptors.BlockBits | src/kernel_lowlevel/aarch64_vm_logic_shared.rs:55-68 | bit by bit: a supervisor block is never executed by the user, by the kernel exactly if executable, and is device memory exactly if so |
| Descriptors.FrameExact | src/kernel_lowlevel/aarch64_vm_logic_shared.rs:15-53 | a descriptor keeps the frame it was built for exactly when the frame is below 2^36, and masking twice is masking once |
| VirtualAddress.TableIndices | src/kernel_lowlevel/aarch64_vm_logic_shared.rs:70-79 | defined exactly for 39-bit addresses, with every index below 512 |
| VirtualAddress.Recompose | src/kernel_lowlevel/aarch64_vm_logic_shared.rs:70-79 | an address is the sum of its three indices at their weights and its page offset |
| VirtualAddress.IndicesInjective | src/kernel_lowlevel/aarch64_vm_logic_shared.rs:70-79 | different pages have different index triples |
| VirtualAddress.UserIndices | src/kernel_lowlevel/aarch64_vm_logic_shared.rs:4-5 | the user range is slots 128 to 255 below the first root entry |
| TableBackend.Backend.AllocateTable | src/kernel_lowlevel/aarch64_vm_logic_shared.rs:1351-1367 | the next frame of the supply, as a zeroed table with one reference; OutOfMemory exactly when it is missing, in use, or no descriptor can name it, and then no table changes |
| TableBackend.Backend.RetainTable | src/kernel_lowlevel/aarch64_vm_logic_shared.rs:1375-1382 | one more reference to a live table and nothing else; refused for any other |
| TableBackend.Backend.ReleaseTable | src/kernel_lowlevel/aarch64_vm_logic_shared.rs:1384-1395 | one reference less, or the table is gone if it was the last; a table that is not live is ignored |
| TableBackend.Backend.WriteTableEntry | src/kernel_lowlevel/aarch64_vm_logic_shared.rs:1421-1432 | one entry changes, or it answers false and nothing does |
| TableBackend.Backend.CopyTableWithin | src/kernel_lowlevel/aarch64_vm_logic_shared.rs:160-174 | the loop makes the destination an entry-for-entry copy and leaves every other table alone; false, and nothing changed, unless both are live |
| TableBackend.StockLess | src/kernel_lowlevel/aarch64_vm_logic_shared.rs:1384-1395 | giving tables back never makes fewer frames of the supply usable |
| TranslationCache.CacheAfterBreak | src/kernel_lowlevel/aarch64_vm_logic_shared.rs:193 | zeroing an entry and breaking its address leaves the cache equal to what the tables say, with nothing cached for that address |
| TranslationCache.CacheAfterMake | src/kernel_lowlevel/aarch64_vm_logic_shared.rs:192-194 | writing an entry whose address is not cached leaves the cache equal to what the tables say |
| TranslationCache.UnmappedBroken | src/kernel_lowlevel/aarch64_vm_logic_shared.rs:259-273 | an address that maps nothing is not cached, so a first mapping needs no break |
| TableSteps.WalkTyped | src/kernel_lowlevel/aarch64_vm_logic_shared.rs:1193-1210 | every table on the walk from a live root is live and one level below the last: no reachable descriptor names a freed table |
| TableSteps.PutPrivateLeaf | src/kernel_lowlevel/aarch64_vm_logic_shared.rs:259-273 | a write to a leaf reached through singly referenced tables is seen by its own space at that page and by no one else, and keeps the invariant of all spaces |
| TableSteps.PrivateLeafUnique | src/kernel_lowlevel/aarch64_vm_logic_shared.rs:822-861 | a path of singly referenced tables belongs to one space and one slot |
| TableSteps.LinkKeeps | src/kernel_lowlevel/aarch64_vm_logic_shared.rs:1107-1152 | linking a fresh table keeps reference counts exact, both against the descriptors and against the lists, and changes no view |
| TableSteps.UnlinkKeeps | src/kernel_lowlevel/aarch64_vm_logic_shared.rs:1220-1228 | unlinking an empty table keeps the counts exact and changes no view |
| TableSteps.DetachKeeps | src/kernel_lowlevel/aarch64_vm_logic_shared.rs:863-937 | replacing a shared table by a copy, with its children retained, keeps both counts exact and changes no view of any space |
| TableSteps.ForkKeeps | src/kernel_lowlevel/aarch64_vm_logic_shared.rs:767-812 | a completed shared clone keeps both counts exact; the child sees what its parent sees, the others what they saw |
| TableSteps.NewKeeps | src/kernel_lowlevel/aarch64_vm_logic_shared.rs:208-220 | a new space joins the live ones, sees nothing, and disturbs nobody |
| TableSteps.NotStuck | src/kernel_lowlevel/aarch64_vm_logic_shared.rs:921-924 | a path that is private as far as it goes is never one the space cannot make private |
| Transactions.MapStep | src/kernel_lowlevel/aarch64_vm_logic_shared.rs:441-459 | recording one more mapped page keeps the transaction's account of what it changed |
| Transactions.LinkStepOne | src/kernel_lowlevel/aarch64_vm_logic_shared.rs:1107-1152 | so does creating a level-one table |
| Transactions.LinkStepLeaf | src/kernel_lowlevel/aarch64_vm_logic_shared.rs:1107-1152 | so does creating a leaf table |
| Transactions.DetachStepLeaf | src/kernel_lowlevel/aarch64_vm_logic_shared.rs:863-937 | so does detaching a shared leaf in the middle of the transaction |
| Transactions.UnmapStep | src/kernel_lowlevel/aarch64_vm_logic_shared.rs:1212-1219 | taking one mapped page back keeps the account |
| Transactions.UnlinkStep | src/kernel_lowlevel/aarch64_vm_logic_shared.rs:1220-1228 | taking the last created table back keeps the account |
| Transactions.RolledBack | src/kernel_lowlevel/aarch64_vm_logic_shared.rs:1212-1228 | a transaction with nothing left to take back has restored every view of every space |
| Transactions.UndoesMap | src/kernel_lowlevel/aarch64_vm_logic_shared.rs:1212-1228 | without a detach, undoing the recorded pages and tables gives back the very same memory after one more page |
| Transactions.UndoesLink | src/kernel_lowlevel/aarch64_vm_logic_shared.rs:1212-1228 | and after one more table, whatever was written below it |
| Transactions.PopsAllIff | src/kernel_lowlevel/aarch64_vm_logic_shared.rs:1222-1226 | the rollback takes exactly the created tables off the list if they are, in order, its end; otherwise one of them stays listed |
| Transactions.RollbackFrees | src/kernel_lowlevel/aarch64_vm_logic_shared.rs:1220-1228 | in that case somebody lists a freed table after the rollback |
| Transactions.DetachSpoilsRollback | src/kernel_lowlevel/aarch64_vm_logic_shared.rs:863-937 | whenever a region needs a missing leaf and then a shared one that the space lists, linking the first and detaching the second leaves a list on which a rollback frees the linked table and keeps it listed |
| Transactions.ForkThenDetach | src/kernel_lowlevel/aarch64_vm_logic_shared.rs:767-937 | such states exist: after a fork, the parent's first detach leaves every leaf below shared and listed |
| Transactions.MadePrivateKeeps | src/kernel_lowlevel/aarch64_vm_logic_shared.rs:822-861 | making one path private makes no other path less private |
| Transactions.SoleRow | src/kernel_lowlevel/aarch64_vm_logic_shared.rs:863-937 | nobody else names a table that is referenced once |
| Transactions.AllKeepDetach | src/kernel_lowlevel/aarch64_vm_logic_shared.rs:863-937 | a detach takes no private path from any space |
| Transactions.AllKeepFork | src/kernel_lowlevel/aarch64_vm_logic_shared.rs:767-812 | a fork takes none from any space but the parent |
| Transactions.UndoesKeys | src/kernel_lowlevel/aarch64_vm_logic_shared.rs:1212-1228 | what a rollback undoes has only added tables |
| TableSteps.MadePrivateLeaves | src/kernel_lowlevel/aarch64_vm_logic_shared.rs:822-937 | it leaves the other roots alone, and a shared level-one table with one reference less and one more for every other leaf it names |
| AddressSpaces.AddressSpace.Create | src/kernel_lowlevel/aarch64_vm_logic_shared.rs:208-220 | fails without a trace, or adds a space that maps nothing; every other space sees what it saw; needs one frame |
| AddressSpaces.AddressSpace.RollbackDetachedTable | src/kernel_lowlevel/aarch64_vm_logic_shared.rs:939-946 | gives back the copy and every reference taken: memory and list are the very same |
| AddressSpaces.AddressSpace.RetainChildren | src/kernel_lowlevel/aarch64_vm_logic_shared.rs:885-920 | takes one reference per child of the copied table, or gives everything back |
| AddressSpaces.AddressSpace.CommitDetach | src/kernel_lowlevel/aarch64_vm_logic_shared.rs:921-937 | points the parent at the copy and hands the source's reference and list place back, keeping the invariant and all views |
| AddressSpaces.AddressSpace.ReplaceByCopy | src/kernel_lowlevel/aarch64_vm_logic_shared.rs:885-937 | the copy takes the place of the shared table with its children retained, or everything is given back; OutOfMemory only if a vector cannot grow |
| AddressSpaces.AddressSpace.DetachSharedTable | src/kernel_lowlevel/aarch64_vm_logic_shared.rs:863-937 | no view changes and no space loses a private path; a failure changes nothing; an unshared table is left alone; refuses a leaf the space does not list; OutOfMemory only without a frame |
| AddressSpaces.AddressSpace.EnsurePrivateLeaf | src/kernel_lowlevel/aarch64_vm_logic_shared.rs:846-861 | the leaf below a private level-one table becomes private, or the failure is one of the allowed ones; no view changes |
| AddressSpaces.AddressSpace.EnsurePrivateExistingPath | src/kernel_lowlevel/aarch64_vm_logic_shared.rs:822-861 | afterwards every table on the existing path is singly referenced; no view changes and no space loses a private path; success on private paths; InvalidAddress only where the space is stuck, and some error always there; OutOfMemory only without two frames; what it detached is on record |
| AddressSpaces.AddressSpace.WriteLeaf | src/kernel_lowlevel/aarch64_vm_logic_shared.rs:192-194 | the one write to a leaf entry: needs the address uncached for a nonzero descriptor, and only this space sees it |
| AddressSpaces.AddressSpace.LeafLocation | src/kernel_lowlevel/aarch64_vm_logic_shared.rs:1193-1210 | the leaf table and index exactly when the walk reaches a leaf, NotMapped otherwise, InvalidAddress beyond 39 bits |
| AddressSpaces.AddressSpace.PrivateLeafOf | src/kernel_lowlevel/aarch64_vm_logic_shared.rs:461-544 | the common start of protect, replace and unmap: a private leaf entry that reads as every space saw it before; OutOfMemory only where a table on the path is shared |
| AddressSpaces.AddressSpace.BreakThenMake | src/kernel_lowlevel/aarch64_vm_logic_shared.rs:480-496 | zero, break, write: only this page of this space changes, and the cache agrees at every write |
| AddressSpaces.AddressSpace.ProtectUserPage | src/kernel_lowlevel/aarch64_vm_logic_shared.rs:461-498 | keeps the frame and sets the permissions of a mapped page; a failure changes no view and names its reason: not mapped, stuck, or a shared table on the path and too few frames |
| AddressSpaces.AddressSpace.ReplaceUserPage | src/kernel_lowlevel/aarch64_vm_logic_shared.rs:500-544 | sets frame and permissions of a mapped page and returns the old frame; the same reasons for a failure, or a frame without an address |
| AddressSpaces.AddressSpace.UnmapUserPage | src/kernel_lowlevel/aarch64_vm_logic_shared.rs:546-567 | removes a mapped page and returns its frame; the same reasons for a failure |
| AddressSpaces.AddressSpace.AddChild | src/kernel_lowlevel/aarch64_vm_logic_shared.rs:1118-1142 | a fresh zeroed table linked into an empty slot and listed, or nothing; needs one frame |
| AddressSpaces.AddressSpace.EnsureChild | src/kernel_lowlevel/aarch64_vm_logic_shared.rs:1113-1147 | one level of the creating walk: the child that is there or a fresh zeroed one, linked, listed and recorded |
| AddressSpaces.AddressSpace.EnsureLeafTable | src/kernel_lowlevel/aarch64_vm_logic_shared.rs:1107-1152 | ends at a private leaf or fails with OutOfMemory for want of two frames, with all it created on record; no view changes |
| AddressSpaces.AddressSpace.RollbackMapped | src/kernel_lowlevel/aarch64_vm_logic_shared.rs:1212-1219 | every recorded page is zero again and broken in the cache |
| AddressSpaces.AddressSpace.UnlinkCreatedTable | src/kernel_lowlevel/aarch64_vm_logic_shared.rs:1220-1228 | a created table's slot is zero and the table is gone |
| AddressSpaces.AddressSpace.RollbackCreated | src/kernel_lowlevel/aarch64_vm_logic_shared.rs:1220-1228 | every view is as at the start; the lists account for every reference exactly when the created tables ended the list, that is, when nobody lists a freed table |
| AddressSpaces.AddressSpace.RollbackMappingTransaction | src/kernel_lowlevel/aarch64_vm_logic_shared.rs:1212-1228 | every view of every space is as at the start; without a detach, memory and list are the very same; the space can go on exactly when nobody lists a freed table |
| AddressSpaces.AddressSpace.MapUserPageRecorded | src/kernel_lowlevel/aarch64_vm_logic_shared.rs:418-459 | maps one page and records it; a failure leaves every view as it was |
| AddressSpaces.AddressSpace.MapIntoLeaf | src/kernel_lowlevel/aarch64_vm_logic_shared.rs:441-459 | the walk and the write of a recorded page |
| AddressSpaces.AddressSpace.MapUserPage | src/kernel_lowlevel/aarch64_vm_logic_shared.rs:243-290 | maps exactly this page in this space; Ok only for a valid, free, addressable page; a failure changes no view and names its reason; OutOfMemory only where the leaf is missing or shared and frames are too few |
| AddressSpaces.AddressSpace.MapUserPagePrepared | src/kernel_lowlevel/aarch64_vm_logic_shared.rs:259-290 | once the existing path is private, a failure leaves memory and list the very same |
| AddressSpaces.AddressSpace.MapUserPageAnew | src/kernel_lowlevel/aarch64_vm_logic_shared.rs:275-290 | the same with missing tables, also when allocation fails at any level |
| AddressSpaces.AddressSpace.MapUserRegion | src/kernel_lowlevel/aarch64_vm_logic_shared.rs:292-334 | all pages or none, with an invalid range or frame run refused: on any failure every view of every space is as before; with no shared table on the way memory, counts and list are the very same; the space can go on exactly when nobody lists a freed table, and always if no shared table comes behind a missing one; AlreadyMapped only if some page was mapped; every failure has its reason: InvalidAddress only for a run that is not whole user pages, frame numbers that overflow, a frame without an address or a stuck page, OutOfMemory only with fewer than four frames a page in stock; a free region with enough frames is mapped |
| AddressSpaces.AddressSpace.MapRegionPages | src/kernel_lowlevel/aarch64_vm_logic_shared.rs:311-332 | the loop over the pages: all set and recorded, or all taken back for a reason that was there before it began |
| AddressSpaces.UserRegionIff | src/kernel_lowlevel/aarch64_vm_logic_shared.rs:81-91 | the range check accepts exactly runs of whole pages between 0x1000_0000 and 0x2000_0000 |
| Transactions.FreeAfterPut | src/kernel_lowlevel/aarch64_vm_logic_shared.rs:259-273 | mapping a page leaves no other page of the space stuck |
| Transactions.FreeAfterLink | src/kernel_lowlevel/aarch64_vm_logic_shared.rs:1107-1152 | nor does linking a table |
| Transactions.FreeAfterLeaf | src/kernel_lowlevel/aarch64_vm_logic_shared.rs:863-937 | nor does detaching a leaf |
| Transactions.FreeAfterTop | src/kernel_lowlevel/aarch64_vm_logic_shared.rs:863-937 | nor does detaching a level-one table: the space lists its copy's leaves where it listed them before |
| AddressSpaces.AddressSpace.MapRegionPage | src/kernel_lowlevel/aarch64_vm_logic_shared.rs:311-332 | one page of a region, with rollback of the whole region on failure |
| AddressSpaces.AddressSpace.MapPageCached | src/kernel_lowlevel/aarch64_vm_logic_shared.rs:371-386 | skipping the walk when the leaf index repeats lands on the leaf the walk would find, although the path may have been detached in between |
| AddressSpaces.AddressSpace.MapCachedLeaf | src/kernel_lowlevel/aarch64_vm_logic_shared.rs:387-412 | checks and writes an entry of the cached leaf |
| AddressSpaces.AddressSpace.MapRunPage | src/kernel_lowlevel/aarch64_vm_logic_shared.rs:371-412 | one page of a run; AlreadyMapped takes the whole run back |
| AddressSpaces.AddressSpace.MapUserPagesWithProtection | src/kernel_lowlevel/aarch64_vm_logic_shared.rs:339-416 | on success exactly these pages are set; on AlreadyMapped some page was mapped, every view is restored, and the space can go on exactly when nobody lists a freed table; on other failures the pages before the failing one stay; OutOfMemory only with fewer than four frames a page in stock, InvalidAddress only for an invalid run, a frame without an address or a stuck page |
| AddressSpaces.PagesSetUnique | src/kernel_lowlevel/aarch64_vm_logic_shared.rs:339-416 | two memories that set the same pages from the same start show a space the same |
| PageRuns.MapEachInTurn | src/kernel_lowlevel/aarch64_vm_logic_shared.rs:243-290 | mapping the pages one by one sets exactly the pages the cached walk sets |
| Cloning.RollbackSharedTables | src/kernel_lowlevel/aarch64_vm_logic_shared.rs:814-820 | gives back every reference taken since |
| Cloning.ShareRootEntries | src/kernel_lowlevel/aarch64_vm_logic_shared.rs:771-807 | after each entry, the child's row, the counts and the list are those of the prefix shared so far |
| Cloning.CloneSharedMappingsFrom | src/kernel_lowlevel/aarch64_vm_logic_shared.rs:767-812 | the child sees exactly what the parent sees and nobody else notices; on failure all but the child's own root row is restored |
| Cloning.FailedCloneExact | src/kernel_lowlevel/aarch64_vm_logic_shared.rs:802-812 | a failed clone that is kept has exact counts exactly when no table had been shared yet |
| Dropping.DropIff | src/kernel_lowlevel/aarch64_vm_logic_shared.rs:1231-1237 | after a space is dropped the others keep the invariant exactly when it listed a table as often as the tables that go with it name it; then no other view changes; the tables nobody else lists are gone |
| Dropping.DropLast | src/kernel_lowlevel/aarch64_vm_logic_shared.rs:1231-1237 | the only space may always be dropped, and then no table is left |
| Dropping.DropClosed | src/kernel_lowlevel/aarch64_vm_logic_shared.rs:1231-1237 | so may a space with singly referenced tables that name and are named by no foreign ones; all of them are gone |
| Dropping.DetachedNotAlone | src/kernel_lowlevel/aarch64_vm_logic_shared.rs:863-937 | not so a space that detached from a level-one table it shared while its leaves were its own |
| Cloning.Drop | src/kernel_lowlevel/aarch64_vm_logic_shared.rs:1231-1237 | releases every listed table, with the exact condition under which the other spaces keep the invariant and their views |
| Cloning.NewForFork | src/kernel_lowlevel/ARM64/user_address_space.rs:168-180 | a fork adds a child that sees what its parent sees and lists its root and the level-one tables, or leaves memory the very same; no space but the parent loses a private path; needs one frame |
| Cloning.DetachLeavesStuck | src/kernel_lowlevel/aarch64_vm_logic_shared.rs:921-924 | sharing does not promise success: after one of two sharers detaches, every leaf the other does not list is one it cannot make private |
| ForkRuns.ForkThenProtect | src/kernel_lowlevel/aarch64_vm_logic_shared.rs:461-937 | a run that gets there: map two pages below different leaves, fork, protect the first in the parent; then the child's protect of the second always fails. With eighteen frames in stock it always gets there, and the answer is InvalidAddress |
| ForkRuns.MapTwoAndFork | src/kernel_lowlevel/aarch64_vm_logic_shared.rs:243-812 | its first half, which succeeds with fourteen frames in stock: parent and child share the level-one table, and the child does not list the leaf |
| ForkRuns.LeftStuck | src/kernel_lowlevel/aarch64_vm_logic_shared.rs:822-937 | whoever makes its path private leaves every other shared leaf stuck for a sharer that does not list it |
| ForkRuns.SamePageFree | src/kernel_lowlevel/aarch64_vm_logic_shared.rs:822-937 | the page itself is not lost: its leaf has its reference back |
| DeepClone.CloneLeaf | src/kernel_lowlevel/aarch64_vm_logic_shared.rs:1006-1040 | copies a leaf that holds anything, and nothing else |
| DeepClone.FreshCopy | src/kernel_lowlevel/aarch64_vm_logic_shared.rs:1023-1033 | a new table of the child's with the same entries, or nothing; needs one frame |
| DeepClone.CloneLevelOne | src/kernel_lowlevel/aarch64_vm_logic_shared.rs:993-1105 | the copy shows below every slot what the original shows; nothing is left behind if nothing is mapped; one frame and one for each leaf at most |
| DeepClone.CloneEntries | src/kernel_lowlevel/aarch64_vm_logic_shared.rs:1042-1090 | the loop over its entries |
| DeepClone.CloneEntry | src/kernel_lowlevel/aarch64_vm_logic_shared.rs:1042-1090 | one of them: copied, cloned or empty on both sides |
| DeepClone.CloneRow | src/kernel_lowlevel/aarch64_vm_logic_shared.rs:954-988 | one entry of the source's root, with as many frames at most as there are tables below it |
| DeepClone.CloneMappingsFrom | src/kernel_lowlevel/aarch64_vm_logic_shared.rs:949-991 | on success the clone sees exactly what its source sees; in any case no other space sees a difference; it fails only if the stock is smaller than the number of the source's tables or a vector cannot grow |
| DeepClone.StrayUncounted | src/kernel_lowlevel/aarch64_vm_logic_shared.rs:1074-1083 | a pointer to an empty leaf that a clone keeps is not counted |
| ManySpaces.ShowsInsert | src/kernel_lowlevel/aarch64_vm_logic_shared.rs:27-79 | setting one descriptor inserts one page into the page map |
| ManySpaces.ShowsErase | src/kernel_lowlevel/aarch64_vm_logic_shared.rs:546-567 | zeroing one removes it |
| ManySpaces.ShowsAt | src/kernel_lowlevel/aarch64_vm_logic_shared.rs:27-79 | a page is in the map exactly when its descriptor is nonzero, with that frame |
| ManySpaces.Machine.ApplyMap | src/kernel_lowlevel/aarch64_vm_logic_shared.rs:243-290 | map refines insertion into this space's page map; answers are those the map allows: OutOfMemory only for the first page of a leaf or after a fork, InvalidAddress only for an invalid page or frame or after a fork; errors change no map |
| ManySpaces.Machine.ApplyProtect | src/kernel_lowlevel/aarch64_vm_logic_shared.rs:461-498 | protect refines changing the permissions and keeping the frame; Done only for a mapped page of the user range, and always for one of a space that took no part in a fork |
| ManySpaces.Machine.ApplyReplace | src/kernel_lowlevel/aarch64_vm_logic_shared.rs:500-544 | replace refines overwriting and returns the old frame; it never fails for a mapped page of such a space |
| ManySpaces.Machine.ApplyUnmap | src/kernel_lowlevel/aarch64_vm_logic_shared.rs:546-567 | unmap refines removal and returns the old frame; it never fails for a mapped page of such a space |
| ManySpaces.Machine.ApplyNew | src/kernel_lowlevel/aarch64_vm_logic_shared.rs:208-220 | a new space has the empty page map; refused only without a frame |
| ManySpaces.Machine.ApplyFork | src/kernel_lowlevel/aarch64_vm_logic_shared.rs:767-812 | a forked space starts with its parent's page map; refused only without a frame |
| ManySpaces.Machine.Apply | src/kernel_lowlevel/aarch64_vm_logic_shared.rs:207-937 | every operation on any space keeps the invariant of all of them, with every cache agreeing and only forks making spaces share; OutOfMemory only with fewer than six frames in stock |
| ManySpaces.Machine.Run | src/kernel_lowlevel/aarch64_vm_logic_shared.rs:207-937 | any run over any number of spaces ends where independent page maps end, with counts exact and every answer allowed at its time; OutOfMemory only if the supply is below six frames an operation |
| ManySpaces.ReplayedUnique | src/kernel_lowlevel/aarch64_vm_logic_shared.rs:207-937 | the answers of a run determine all page maps |
| ManySpaces.StepIsolates | src/kernel_lowlevel/aarch64_vm_logic_shared.rs:767-937 | an operation aimed at one space leaves every other space's page map alone; a fork leaves its parent's and marks it as lent |
| ManySpaces.PermittedServed | src/kernel_lowlevel/aarch64_vm_logic_shared.rs:243-567 | what the allowed answers leave a space that took no part in a fork: exactly one answer for every valid page, but for memory at the first page of a leaf |
| ManySpaces.NeverLent | src/kernel_lowlevel/aarch64_vm_logic_shared.rs:767-812 | a space that is not forked in a run takes part in none |
| ManySpaces.RunServes | src/kernel_lowlevel/aarch64_vm_logic_shared.rs:207-937 | in any run that does not fork it, every operation on a space is answered like that, whatever the others do |
| ManySpaces.NoForkServes | src/kernel_lowlevel/aarch64_vm_logic_shared.rs:207-937 | in a run without forks this holds for every space, those made on the way included |
| UserCopies.TranslateUser | src/kernel_lowlevel/aarch64_vm_logic_shared.rs:569-582 | translates exactly what the tables allow |
| UserCopies.TranslatedMapped | src/kernel_lowlevel/aarch64_vm_logic_shared.rs:569-582 | for reading iff some permission is set, for writing iff writable, to the mapped frame exactly when it is below 2^36 |
| UserCopies.FetchedMapped | src/kernel_lowlevel/aarch64_vm_logic_shared.rs:27-53 | the user executes exactly the pages that are mapped executable |
| UserCopies.WritableReadable | src/kernel_lowlevel/aarch64_vm_logic_shared.rs:569-582 | what can be written can be read at the same place |
| UserCopies.ValidateCopy | src/kernel_lowlevel/aarch64_vm_logic_shared.rs:640-667 | succeeds exactly when every byte translates to an accessible page, otherwise names the first fault |
| UserCopies.CopyToUser | src/kernel_lowlevel/aarch64_vm_logic_shared.rs:584-610 | a failure changes no byte; with validation's error; success is byte-by-byte writing through the translation, although whole chunks are copied |
| UserCopies.CopyFromUser | src/kernel_lowlevel/aarch64_vm_logic_shared.rs:612-638 | returns each byte through its own translation, or fails exactly when validation does and with its error |
| UserCopies.PokeChunk | src/kernel_lowlevel/aarch64_vm_logic_shared.rs:593-608 | one chunk within a page equals its bytes written one at a time |
| UserCopies.UserRoundTrip | src/kernel_lowlevel/aarch64_vm_logic_shared.rs:584-638 | bytes copied in are copied out again when the pages map distinct frames, at any alignment and length |
| UserCopies.CopyRoundTripIff | src/kernel_lowlevel/aarch64_vm_logic_shared.rs:584-638 | with frames mapped twice, they are exactly when bytes that share a place are equal |
| UserCopies.DataPages.CopyToPhysical | src/kernel_lowlevel/aarch64_vm_logic_shared.rs:1434-1446 | writes a slice of one data page, or refuses and changes nothing |
| UserCopies.DataPages.CopyFromPhysical | src/kernel_lowlevel/aarch64_vm_logic_shared.rs:1448-1461 | reads a slice of one data page, or refuses |
| HeapLayout.AlignUp | src/main.rs:126-132 | the least multiple of a power of two at or above the value; None for other alignments or on overflow |
| HeapLayout.PowerOfTwoIff | src/main.rs:126-132 | the test by masking accepts exactly the powers of two |
| HeapLayout.PayloadIff | src/main.rs:215-241 | a block takes a request exactly if the alignment is a power of two or below eight and, behind the header, there is room for it at a multiple of the alignment and of eight; the payload is the first such address |
| HeapLayout.TilesCover | src/main.rs:159-183 | every heap address lies in exactly one free or live block |
| HeapLayout.AllFree | src/main.rs:351-442 | with nothing live, the heap is the single initial block |
| HeapLayout.LiveDetermines | src/main.rs:351-442 | the live blocks determine the free ones: two coalesced tilings with the same live blocks are equal |
| HeapLayout.FreeSorted | src/main.rs:351-442 | the free list of a coalesced tiling is address-sorted with a gap between neighbours |
| HeapLayout.Spliced | src/main.rs:185-311 | rewriting one stretch of memory and the two pointers into it is replacing blocks of the doubly linked list |
| HeapLayout.PayloadFits | src/main.rs:215-258 | a payload that fits is aligned, behind its header, and its rounded end stays in the block |
| HeapLayout.CarveTiles | src/main.rs:243-258 | prefix, live block and suffix tile the block they are carved from |
| FreeList.PlaceOverlap | src/main.rs:388-398 | looking at the two neighbours finds every overlap with the list |
| FreeList.TrackSecond | src/main.rs:414-440 | the cached pointer is a list member, or its stale size is smaller than the block that swallowed it |
| HeapPieces.ReleasedFree | src/main.rs:400-432 | in the list, freeing a live piece is linking its block in and joining both sides |
| HeapPieces.ReleasedTiles | src/main.rs:400-432 | freeing keeps the heap tiled |
| HeapPieces.ReleasedCoalesced | src/main.rs:414-432 | and fully coalesced |
| HeapPieces.ReleasedLive | src/main.rs:453-464 | the live blocks after freeing are those before without the freed one |
| HeapPieces.AllocThenFree | src/main.rs:215-442 | freeing what was just allocated restores the tiling and the list |
| KernelHeap.Heap.InitKernelAllocator | src/main.rs:159-183 | one free block over the aligned heap, or none if it has no room |
| KernelHeap.Heap.RebuildLargestFree | src/main.rs:202-213 | points at a block of the list that no other exceeds; null exactly for the empty list |
| KernelHeap.Heap.ReplaceFreeBlock | src/main.rs:185-200 | relinks the predecessor or the head, and the replacement's back link |
| KernelHeap.Heap.KeepBoth | src/main.rs:261-278 | the list has prefix and suffix in place of the block, and the cached pointer is one of the list |
| KernelHeap.Heap.KeepPrefix | src/main.rs:279-287 | the list has the prefix in place of the block |
| KernelHeap.Heap.KeepSuffix | src/main.rs:288-299 | the list has the suffix in place of the block |
| KernelHeap.Heap.KeepNothing | src/main.rs:300-305 | the block is out of the list |
| KernelHeap.Heap.CarveBlock | src/main.rs:243-311 | the list keeps exactly the remnants, the header holds the live block, and only free blocks were written to |
| KernelHeap.Heap.AllocFromKnownBlock | src/main.rs:215-311 | null exactly when the block has no room for the aligned request, and then nothing changed; else the first address it has room at |
| KernelHeap.Heap.SearchFreeList | src/main.rs:319-348 | null exactly when no block has room; else the cached block where the large-request shortcut applies, and the first block with room where it does not, at its first address with room |
| KernelHeap.Heap.LinkBetween | src/main.rs:400-412 | the block is in the list at its place |
| KernelHeap.Heap.AbsorbNext | src/main.rs:414-431 | two touching list blocks become one; the swallowed size word stays readable |
| KernelHeap.Heap.FindPlace | src/main.rs:369-386 | the place behind all blocks that start below the address |
| KernelHeap.Heap.JoinNeighbours | src/main.rs:414-440 | the list is joined on both sides and the cached pointer never dangles |
| KernelHeap.Heap.InsertFreeBlock | src/main.rs:351-442 | too small, outside or overlapping blocks are ignored; others are inserted and coalesced |
| KernelHeap.Heap.Alloc | src/main.rs:313-349 | null iff no free block has room, stated in size and alignment alone; otherwise a multiple of the alignment, the first address with room in one free piece, for a small request the first piece that has any, with every word outside the free blocks untouched |
| KernelHeap.Heap.Dealloc | src/main.rs:453-464 | the live block joins the free ones it touches and every other live block stays |
| KernelHeap.Heap.Store | src/main.rs:447-465 | an owner writing to its payload disturbs neither the list nor any header |
| KernelHeap.Heap.AllocDealloc | src/main.rs:447-465 | allocating and freeing again leaves the very same blocks |
| HeapRuns.Run | src/main.rs:313-465 | any run does what its requests ask for, answer by answer: pieces, allocations and stored words end where replaying the requests ends; memory holds every stored word; freeing everything in any order gives back the initial block |
| HeapRuns.DoAllocate | src/main.rs:313-349 | null exactly when no free block has room; otherwise the owner gets one more allocation, a multiple of eight and of the alignment asked for, as large as asked and apart from all others; no stored word changes |
| HeapRuns.DoRelease | src/main.rs:453-464 | exactly this allocation and the words stored in it are gone, its block is freed, and every other word stays |
| HeapRuns.DoWrite | src/main.rs:447-465 | a store changes one word of one allocation |
| StageJournal.ParseRender | scripts/posix/build.py:1476-1481 | reading the text of a journal value gives it back |
| StageJournal.Parse | scripts/posix/build.py:1541-1549 | only the one canonical text of a value is accepted |
| StageJournal.RenderFits | scripts/posix/build.py:1490-1495 | every legal value fits its fixed record |
| StageJournal.HexRoundTrip | scripts/posix/build.py:1499-1502 | fixed-width hexadecimal fields read back as written |
| StageJournal.Decode | scripts/posix/build.py:1508-1550 | a record is accepted only with the checksum of its own generation and payload |
| StageJournal.DecodeEncode | scripts/posix/build.py:1484-1550 | decoding undoes encoding for every legal value and generation |
| StageJournal.DecodeIff | scripts/posix/build.py:1484-1550 | a record is read as a generation and a value exactly when it is the one record written for them |
| StageJournal.ReadSays | scripts/posix/build.py:1719-1755 | of two slots the newer valid one is read, whatever the stale slot holds |
| StageJournal.ReadIff | scripts/posix/build.py:1719-1755 | a record is found exactly in the slot that is valid and newer than the other, if that is valid too; none exactly when neither is |
| StageJournal.NeverAmbiguous | scripts/posix/build.py:1748-1755 | slot i only ever holds generations of parity i, so no generation is ambiguous |
| StageJournal.TornBody | scripts/posix/build.py:1606-1612 | a body write cut short anywhere leaves the journal saying what it said or the new value, unless what is in the slot gets in the way; and it can be tried again |
| StageJournal.TornHeader | scripts/posix/build.py:1613-1618 | a header torn in any way over the finished body decodes to the new record, or the slot stays stale; and the commit can be tried again |
| StageJournal.UnfinishedCommit | scripts/posix/build.py:1601-1618 | so the journal says the old value until the new record decodes, and then the new one; the first commit cut short gets in the way of no other value |
| StageJournal.FinishedCommit | scripts/posix/build.py:1601-1618 | a finished commit makes it say the new value |
| StageJournal.CommittedUntouched | scripts/posix/build.py:1775-1801 | behind a new record no commit has left anything |
| StageJournal.FirstCommit | scripts/posix/build.py:1638-1666 | the first commit of a new journal makes it say idle |
| StageJournal.InOrderIsSafe | scripts/posix/build.py:1613-1618 | headers cut short in the order of their bytes never leave a phantom, however often |
| StageJournal.OnceIsSafe | scripts/posix/build.py:1613-1618 | the first header cut short after a generation, in any order, can be made whole by no other body |
| StageJournal.BodyAtomicIff | scripts/posix/build.py:1601-1618 | a body write is atomic exactly unless the stale slot holds a phantom for another value whose body the bytes can come together to |
| StageJournal.HarmlessAtomic | scripts/posix/build.py:1601-1618 | a slot that does not get in the way meets that condition |
| StageJournal.NeitherOldNorNew | scripts/posix/build.py:1601-1618 | of the journal alone: with fields reaching the disk in any order, three commits of different values cut short at one generation bring it to a value that is neither old nor new |
| StagePublisher.Disk.WriteBody | scripts/posix/build.py:1606-1612 | a stopped body write leaves any mixture of old and new bytes, and no other field changed |
| StagePublisher.Disk.WriteHeader | scripts/posix/build.py:1613-1618 | a stopped header write leaves any mixture of old and new fields and digits |
| StagePublisher.Disk.CommitRecord | scripts/posix/build.py:1601-1618 | body, then header: wherever it stops, and whatever stops have left before, the journal says exactly the old value or the new one |
| StagePublisher.Disk.WriteJournal | scripts/posix/build.py:1775-1801 | the same for the next generation, with the directories in order, for everything the publisher may commit next |
| StagePublisher.Disk.NextIsAtomic | scripts/posix/build.py:1804-1871 | whatever the publisher commits next, after any number of stops, no mixture of body bytes reads as anything but the old value or the new one |
| StagePublisher.Disk.InitializeJournal | scripts/posix/build.py:1638-1666 | ends with an idle journal, and leaves a blank one wherever it stops before |
| StagePublisher.Disk.OpenJournal | scripts/posix/build.py:1669-1716 | ends with a journal that can be read; an initialized one keeps its value |
| StagePublisher.Disk.MakeWorkRoot | scripts/posix/build.py:1922-1963 | a new empty work root that is not the destination |
| StagePublisher.Disk.ClearWorkRoot | scripts/posix/build.py:1428-1431 | empties the work root entry by entry, never touching the destination |
| StagePublisher.Disk.Tidy | scripts/posix/build.py:1944-1996 | whatever was underway, the work root is there and empty afterwards, and the directories are those of an idle journal |
| StagePublisher.Disk.Recover | scripts/posix/build.py:1898-2031 | from every state a stop can leave: succeeds with three calls more than the work root has entries, unless one of them fails or generations run out; ends idle with an empty work root; the destination is as it was |
| StagePublisher.Disk.Build | scripts/posix/build.py:2387-2570 | fills and verifies the work root, or fails anywhere if it is not sound; the destination is as it was; two calls more than files |
| StagePublisher.Disk.Publish | scripts/posix/build.py:2167-2247 | the directories are as they were or exchanged at every stop, and exchanged on success |
| StagePublisher.Disk.BuildAndPublish | scripts/posix/build.py:2375-2578 | recording, building and publishing in this order |
| StagePublisher.Disk.Campaign | scripts/posix/build.py:2298-2625 | with its final recovery: the destination is as it was or the new stage; success means published and idle, and with enough calls, none failing, a sound build and generations left there is success |
| StagePublisher.Restarts | scripts/posix/build.py:2298-2625 | over any number of stopped campaigns, after each of them: the destination is absent or one complete stage, the one before or the one to publish, which it is after success; a campaign that stopped had too few calls, one that raised had a failing call, an unsound build or no generations left |
| StubScanner.StripCommentsAndLiterals | scripts/posix/discovery.py:223-283 | a character is blanked exactly when it lies in a comment or literal region and is no newline: a block comment reaches to the first end mark behind it, a line comment to the end of its line, a literal to its first unescaped quote |
| StubScanner.StripShows | scripts/posix/discovery.py:223-283 | from any character that is code on, the modes of the loop follow those regions |
| StubScanner.StripKeepsLines | scripts/posix/discovery.py:223-283 | length and every newline position are kept, and each character is kept or blanked |
| StubScanner.StripIdempotent | scripts/posix/discovery.py:223-283 | stripping twice is stripping once |
| StubScanner.LookedAt | scripts/posix/discovery.py:295-352 | the loop looks at a text line exactly when the innermost frame is active |
| StubScanner.ScanLine | scripts/posix/discovery.py:301-338 | for every truth assignment, a stack that covers the groups the preprocessor has open covers them after one more line |
| StubScanner.TidyText | scripts/posix/discovery.py:223-283 | on tidy sources a character is kept exactly when it lies in none of the comments and literals of C |
| StubScanner.TidyIff | scripts/posix/discovery.py:223-283 | its regions are those of C exactly when the source is tidy: no literal is ended by its line, and no line comment goes on behind a backslash |
| StubScanner.ApostropheSwallows | scripts/posix/discovery.py:245-249 | an apostrophe in a message line makes it blank the next line |
| StubScanner.DirectiveRead | scripts/posix/discovery.py:296-338 | a line that spells one of the six directives is taken for it, with 0 and 1 as decided conditions; every other word for text |
| StubScanner.DirectiveSpelled | scripts/posix/discovery.py:296-300 | a line taken for a directive spells it |
| StubScanner.LinesRejoin | scripts/posix/discovery.py:290-294 | splitting into lines loses nothing but the newlines |
| StubScanner.LinesSingle | scripts/posix/discovery.py:290-294 | and leaves none in a line |
| StubScanner.ScanSource | scripts/posix/discovery.py:290-341 | stripping, splitting, classifying and scanning together: on tidy sources the lines are those that are left when the comments and literals of C are blanked; every line of text that is compiled is looked at; exactly these with literal conditions |
| StubScanner.NeverMissesLiveCode | scripts/posix/discovery.py:301-341 | for every truth assignment, a line the preprocessor keeps is looked at |
| StubScanner.ExactWhenLiteral | scripts/posix/discovery.py:301-341 | with only 0 and 1 as conditions, exactly the kept lines are looked at |
| SerialLog.ParseSerialLog | scripts/posix/events.py:340-507 | accepts exactly the lawful logs, and answers what is read off the lines: one attempt per started test with the id, status, error flag and output of the test end that is the next event, or interrupted with what was printed; complete exactly if the last event is a suite end that says so |
| SerialLog.ParseIff | scripts/posix/events.py:340-507 | the same of the fold: lawful means readable lines, rising sequence numbers, one run, one suite start and at most one closing event, which is last, one test at a time with its own end, and a suite end whose counts and claims agree with the test ends before it |
| SerialLog.TakenLawful | scripts/posix/events.py:340-466 | after every line the parser's state is what the events so far say, and a line is refused exactly when it breaks the law |
| SerialLog.EndFitsIff | scripts/posix/events.py:420-459 | the checks on a suite end by sets and counters are that: every status with how often it occurred, and for a complete run every selected test once, none interrupted or failed by the infrastructure |
| SerialLog.AllHold | scripts/posix/events.py:255-419 | after every line the attempts are those of the tests that ended, and the running test has exactly what was printed since its start |
| SerialLog.TruncationIsExplicit | scripts/posix/events.py:340-507 | every line prefix from the first event on is accepted, with the same finished attempts and at most one interrupted one more |
| SerialLog.OneAttemptPerStart | scripts/posix/events.py:407-419 | the attempts are the started tests, one each and in their order |
| SerialLog.OutputRetained | scripts/posix/events.py:349-419 | while a test runs, every line printed since its start is kept, in order |
| SerialLog.CompleteMeansAll | scripts/posix/events.py:420-459 | complete means a suite end was read with as many attempts as selected, all different, none interrupted |
| QemuCampaign.Controller.PersistProgress | scripts/posix/qemu_runner.py:948-966 | every checkpoint written passes the checks made on resume |
| QemuCampaign.Controller.LaunchReady | scripts/posix/qemu_runner.py:2312-2318 | one more launch on the log, counted as a boot; restarts are all boots but the first; raises exactly when the prompt is not reached |
| QemuCampaign.Controller.RunTest | scripts/posix/qemu_runner.py:2579-2705 | what the started test came to is on the log; rejected output raises; an infrastructure error is exactly what the guest reported |
| QemuCampaign.Controller.Attach | scripts/posix/qemu_runner.py:2994-3000 | on record is what the test just started came to |
| QemuCampaign.Controller.RunNext | scripts/posix/qemu_runner.py:2989-3000 | saved, started, saved with exactly the attempt the guest made of it; the emulator is kept exactly if the guest came back to its prompt without the watchdog; raises exactly on rejected output, with the test still current; a stop leaves the log before the first save or after the start |
| QemuCampaign.Controller.RunSelected | scripts/posix/qemu_runner.py:2972-3004 | attempts stay a prefix of the selection in order, only grow, and end with all of it unless the last test started reported why not; raises exactly for a failed launch or rejected output; at most four steps per test; the emulator is launched before a test exactly if the one before did not leave it at its prompt |
| QemuCampaign.Controller.Reload | scripts/posix/qemu_runner.py:2007-2123 | a campaign resumes with exactly what its checkpoint recorded, and a report out too early is withdrawn |
| QemuCampaign.Controller.Begin | scripts/posix/qemu_runner.py:2902-2912 | a new campaign replaces the old report and checkpoint |
| QemuCampaign.NeverAgain | scripts/posix/qemu_runner.py:2972-2979 | in every log a campaign can leave, no test is started once it is on record |
| QemuCampaign.RecordedWasStarted | scripts/posix/qemu_runner.py:2989-3000 | and everything on record is what a started test came to |
| QemuCampaign.LaunchedWhenNeeded | scripts/posix/qemu_runner.py:2972-3004 | in every such log a test is started only at the prompt of a launch of the same run or of a test that came back to it, and the emulator is launched only where there is none |
| QemuCampaign.BootsCount | scripts/posix/qemu_runner.py:2312-2318 | the boots on record are all launches of all runs, but for those of a run that ended before it recorded them |
| QemuCampaign.Controller.Conclude | scripts/posix/qemu_runner.py:2972-3015 | the tests, the report, the end of the checkpoint: a report lists the record and is the one the checkpoint leads to |
| QemuCampaign.Controller.TakeReport | scripts/posix/qemu_runner.py:2927-2936 | a report that is out already is kept, and only its checkpoint goes |
| QemuCampaign.Controller.Run | scripts/posix/qemu_runner.py:2891-3015 | for every outcome: what was on record stays, starts since are at places beyond it and came to what the guests of this run were, in order, and the checkpoint passes its checks; a run stops only for lack of steps and refuses only for a launch that failed, output that was rejected, a missing checkpoint or a foreign report; a finished run reports the whole selection, or an infrastructure error that a started test reported |
| QemuCampaign.OnRecord | scripts/posix/qemu_runner.py:2972-2979 | a test is skipped exactly when its place is below the number recorded |
| QemuCampaign.CampaignWithCrashes | scripts/posix/qemu_runner.py:2891-3015 | over any list of runs: no test is started once it is on record, everything on record is what a started test came to, the started tests came to what the guests of the runs were, in order; a run with steps enough, launches and guests that are accepted and something to resume finishes; a finished campaign's report is the record, which is the whole selection unless a started test reported why not; launches came out as the runs were told, in order, each where it was needed, and the report counts them; it is complete exactly if the whole selection is on record without an infrastructure error |
| OutputBudget.LimitsFit | scripts/posix/qemu_runner.py:477-495 | for every selection of 1 to 4096 tests four full fields fit their row at six bytes per byte, rows fit 512 KiB, all rows with line ends 120 MiB |
| OutputBudget.LimitsTight | scripts/posix/qemu_runner.py:477-495 | and no limit is smaller than that asks for: a byte more in the fields or lines would not fit |
| OutputBudget.StreamsPass | scripts/posix/qemu_runner.py:498-525 | every stored stream passes the resume check, whatever the guest printed |
| OutputBudget.ReasonsPass | scripts/posix/qemu_runner.py:468-474 | every stored error is within its limit |
| OutputBudget.StreamKept | scripts/posix/qemu_runner.py:498-525 | a text that fits is stored whole and unmarked, of any other as much as fits with the marker, with the size of the whole |
| OutputBudget.ReasonKept | scripts/posix/qemu_runner.py:468-474 | the same of an error |
| OutputBudget.PrefixLongest | scripts/posix/qemu_runner.py:498-504 | truncation drops no whole character that would have fitted |
| OutputBudget.RowsPass | scripts/posix/qemu_runner.py:2464-2577 | a stored attempt passes every check and fits its row |
| OutputBudget.RowsKept | scripts/posix/qemu_runner.py:2464-2577 | with every text in its own field |
| OutputBudget.ReportFits | scripts/posix/qemu_runner.py:477-495 | the rows of a whole campaign fit the budget |
| Manifest.SplitJoin | scripts/posix/build.py:397-417 | lines and fields are split where they were joined |
| Manifest.ZeroedDigest | scripts/posix/build.py:513-519 | zeroing the first occurrence of the digest line touches only that line |
| Manifest.SortSorts | scripts/posix/build.py:425 | tests are rendered in strict order of their ids |
| Manifest.SortPermutes | scripts/posix/build.py:425 | and are the same tests |
| Manifest.LessIff | scripts/posix/build.py:425 | that order is by the first character in which two ids differ |
| Manifest.ParseRender | scripts/posix/build.py:397-523 | parsing what was rendered gives the tests in order and the metadata with its digest |
| Manifest.RenderIff | scripts/posix/build.py:397-444 | a manifest is rendered exactly when metadata and tests are valid, the tests not too many, no two share an id or a binary, and the text is not too long |
| Manifest.RenderInjective | scripts/posix/build.py:397-444 | different metadata or test sets render to different texts |
| Manifest.ParseAccepts | scripts/posix/build.py:520-523 | only rendered texts are accepted |

## Left out

- `map_supervisor_range`, `map_supervisor_ram_range`: page maps treat the supervisor part of a space as fixed; no operation modelled here changes it.
- DeepClone.CloneMappingsFrom: states equality at clone time; reference counts are not exact where an empty leaf stays the source's own (`DeepClone.StrayUncounted`), and a failure leaves what was cloned so far, as in the code. The child must map nothing.
- `clone_kernel_mappings_from`: the filter that leaves user slots out.
- `aarch64_frame_range`, `aarch64_frame_range_cap`: range arithmetic only.
- TableBackend.Backend.AllocateTable: a frame from 2^36 on, which no table descriptor can name, is refused; the end of the frame numbers, where the original answers InvalidAddress, is the end of the supply.
- TableBackend.Backend.RetainTable: counts are unbounded; the saturating addition of the original is not modelled.
- Cloning.CloneSharedMappingsFrom: the child must map nothing; on failure its own root row keeps the entries written so far, as in the code.
- AddressSpaces.AddressSpace.MapUserPagesWithProtection: failures other than AlreadyMapped leave the pages before the failing one mapped, as in the code.
- AddressSpaces.AddressSpace.RollbackCreated: the debug-only assertion that the created table is last in the list is not modelled; it would fail in the case `DetachSpoilsRollback` shows.
- PageRuns.MapEachInTurn: is the measure for the cached walk; on failure it promises only that the invariant holds.
- HeapLayout.AlignUp: clearing the low bits is written as subtracting the remainder, which is the same for powers of two.
- KernelHeap.Heap.InsertFreeBlock: takes word-aligned blocks; the original would write a misaligned record otherwise.
- KernelHeap.Heap.Dealloc: takes null or a live payload; freeing anything else is undefined in the original.
- The allocator's spin lock, statistics counters and debug reports.
- The end of the heap must lie on a word boundary; the subtraction for the suffix needs it.
- StagePublisher.Disk.WriteHeader: a checksum cut in the middle counts as no checksum, which checksums that are only known to be one-to-one do not promise.
- StagePublisher.Disk.Recover: nobody else changes the directories; with interference the original raises errors the model does not have.
- StagePublisher.Disk.Build: what a complete stage contains is not modelled, only that verification comes before publication.
- Ownership, mode, symlink and inode-race checks, file locks, and the creation of the quarantine directories.
- StubScanner.ScanSource: the regular expressions for the macro itself are not modelled, nor are line separators other than newline; C is taken without trigraphs and without line splices inside `//`, `/*` and `*/` or between a backslash and the character it escapes.
- SerialLog.ParseSerialLog: events arrive decoded; the checks on single fields of a test end are one flag, and all errors are one answer.
- QemuCampaign.Controller.RunTest: what a started test comes to is an input, already judged: which streams are valid is the matter of `SerialLog`, and deadlines and serial limits only decide which finding it is.
- QemuCampaign.Controller.Run: publishing a report is one step, and fields of an attempt beyond its test, status and error flags are not modelled.
- OutputBudget.RowsPass: a row is its fixed part plus six bytes for each stored byte; the JSON text itself is not modelled.
- Manifest.ParseRender: the rules on paths, kinds, dispositions and field lengths only narrow the inputs and are not modelled; the round trip holds for all printable fields.
- HTML, Markdown, JUnit and CSV reports, process supervision, sockets, git, the timer paths and the FxFS image writer.
