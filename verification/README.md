# A model of the inline code in the bundled headers

Most of this repository's behaviour that can be read at all is inline in its headers: the
protobuf runtime, the MySQL client headers and the database handle. This project models the
parts of that code with real invariants and proves what they promise, for all inputs and over
all runs.

- **Symbol index** (`SymbolNames.dfy`, `DescriptorIndex.dfy`). `SimpleDescriptorDatabase`
  keeps symbols in an ordered map in which no key is a parent of another, and finds the key
  that covers a name by looking at the greatest key not above it. The reference is a finite
  map and a scan over all its keys; the class keeps a sorted table and looks at one or two
  neighbours. The header declares the methods and states the algorithm and the invariant; the
  bodies are written from that.
- **Reader-writer lock** (`RwLocks.dfy`, `NativeRwLock.dfy`). The Windows branch of
  `native_rw_*` is an SRWLOCK with an unsynchronised flag that decides how to unlock. Threads
  are interleaved one shared-memory access at a time, and what callers can see is compared
  with the pthread branch, whose lock is the one of POSIX.1-2008. The functions are also given
  as a class, run without interleaving.
- **Scoped lock** (`ScopedLock.dfy`, `UpgradeWindow.dfy`). `RWMutexScopedLock` with its
  non-atomic upgrade, for any number of threads, with and without writer preference.
- **Hash map** (`MapTables.dfy`, `InnerMap.dfy`, `NodeChain.dfy`, `MapLoad.dfy`). `Map::InnerMap`:
  chained buckets that turn into trees shared by two buckets, told apart from lists without a tag;
  rebuilding, iterators that survive it, and the arithmetic of growing and shrinking. The reference
  is a finite map. `InnerMap` has lists as sequences; `NodeChain` has the nodes at addresses, chained
  by `next`, and each of its methods refines one on sequences.
- **Arena strings** (`ArenaStrings.dfy`, `ArenaRuns.dfy`, `AnyMessage.dfy`).
  `ArenaStringPtr` over an explicit memory with aliasing and recorded frees. The class follows
  the source method by method; runs mix any number of fields, arenas, callers and handles. The
  accessors of `Any` are a client.
- **Repeated strings** (`RepeatedPtrField.dfy`, `RepeatedRuns.dfy`, `RepeatedReads.dfy`).
  `RepeatedPtrField<string>` keeps the strings it removes and uses them again, deletes one of them
  to make room, takes strings over and gives them away. Over the same memory, with any number of
  fields, arenas and callers: each string is freed once, and readers see plain lists of strings.
- **Shared pointers** (`SharedPtr.dfy`). `shared_ptr`, `weak_ptr` and their control block, as atomic
  steps of any number of tasks on two 32-bit counters.
- **Byte formats** (`Bits.dfy`, `ByteOrder.dfy`, `SkipTrailingSpace.dfy`, `Align.dfy`). The
  `korr`/`store` families, both versions of `skip_trailing_space`, and `MY_ALIGN`.
- **Clock arithmetic** (`TimeSpecs.dfy`) and **buffered I/O** (`IoCache.dfy`).

Six results say that something fails, and exactly when.

- One probe finds the covering key exactly if no key continues another with a character below the
  period (`ProbeIsRightIff`); validated names never do. "foo-x" hides "foo" from "foo.".
- Another thread can write in the middle of `upgrade2writer` exactly if there is another thread
  that is not a reader held back by writer preference (`UpgradeIsAtomicIff`), so in some run
  exactly if there are two threads (`UpgradeIsNotAtomic`).
- `MY_ALIGN` stops rounding up exactly when its addition wraps (`MyAlignFailsIffItWraps`).
- `get_milliseconds` on seconds and nanoseconds waits for the time left exactly while that is below
  2^32 - 1 ms (`GetMilliseconds`); a deadline of that many waits for ever and one a millisecond later
  not at all (`DistantDeadlines`), although its comment only speaks of negative timeouts.
- `weak_ptr::lock` tests for a count above zero after it has incremented the count, which is negative
  with 2^31 owners: it comes back empty and the object is never deleted (`LockCanLeak`). Below that
  and below 2^32 pointers, and only there, all counts are right (`CountsAreRightIff`). The comment on
  the weak count says "plus 1 if the refcount is nonzero"; the 1 stays until the deleter drops it.
- The hash map shrinks on insertion by an estimate that is to spare it from growing again soon. The
  estimate holds exactly for up to three elements (`ShrinkLeavesRoomIff`). Beyond that the new table
  is full again after r more insertions exactly if no number 3 * 2^m lies above n + r and up to 5n/4 + 1
  (`FullAgainIff`): 18 elements go from 128 buckets into 16, past the limit of 12, and the next
  insertion doubles them (`ShrunkTooFar`). What does hold is fewer than six elements for every five
  buckets (`LoadStaysOk`), and no smaller bound would do (`LoadIsReached`).

## Model

| member | source | states |
|---|---|---|
| SymbolNames.BetweenIsSubSymbol | include/google/protobuf/descriptor_database.h:217-228 | a valid name that sorts between a symbol and one of its sub-symbols is a sub-symbol too, even if the searched name is invalid |
| SymbolNames.ParentsAreComparable | include/google/protobuf/descriptor_database.h:241-244 | two parents of one symbol lie on one chain |
| SymbolNames.BetweenExtendsPrefix | include/google/protobuf/descriptor_database.h:213-222 | whatever sorts between a string and an extension of it is an earlier extension of it |
| SymbolNames.ValidNamesAre | include/google/protobuf/descriptor_database.h:246-248 | a name is valid exactly if it is a word over the 64 letters, digits, underscore and period |
| SymbolNames.SubSymbolsAre | include/google/protobuf/descriptor_database.h:241-244 | a parent of a name is the name, or what is left of it when it is cut at a period |
| SymbolNames.LessIffFirstDifference | include/google/protobuf/descriptor_database.h:236-239 | the order of the keys is that of the first character in which two of them differ |
| DescriptorIndices.AnswerIsUnique | include/google/protobuf/descriptor_database.h:185-192 | under the invariant every name has exactly one answer and at most one key matches it |
| DescriptorIndices.AdditionsKeepInvariant | include/google/protobuf/descriptor_database.h:185-187 | after any sequence of additions all keys are valid and none is a parent of another |
| DescriptorIndices.FirstAddition | include/google/protobuf/descriptor_database.h:168-187 | an empty index accepts exactly the words over the 64 characters, and then finds them |
| DescriptorIndices.AnswersAreStable | include/google/protobuf/descriptor_database.h:111-116 | once a name is answered no later additions change or shadow the answer |
| DescriptorIndices.FalsePositivesAreHarmless | include/google/protobuf/descriptor_database.h:111-116 | a name answered through a parent, and every name below it, can never be added later |
| DescriptorIndices.AdditionsAreMaximal | include/google/protobuf/descriptor_database.h:185-192 | every valid name ever offered is comparable to a key that was kept |
| DescriptorIndices.NeighbourTestsAreExact | include/google/protobuf/descriptor_database.h:185-191 | a valid name is comparable to no key at all exactly when it is unrelated to the two keys next to its place |
| DescriptorIndices.OnlyThePredecessorCanMatch | include/google/protobuf/descriptor_database.h:200-228 | if any key matches the searched name then the last key not above it is that key |
| DescriptorIndices.OnlyTheSuccessorCanBeBelow | include/google/protobuf/descriptor_database.h:185-191 | if any key lies below a new name then the first key above it does |
| DescriptorIndices.DescriptorIndex.FindLastLessOrEqual | include/google/protobuf/descriptor_database.h:236-239 | the position splits the table into keys `<=` the name and keys above it |
| DescriptorIndices.DescriptorIndex.FindSymbol | include/google/protobuf/descriptor_database.h:175-198 | one probe returns what a scan over all keys for an equal or parent key returns, for valid and invalid names |
| DescriptorIndices.DescriptorIndex.AddSymbol | include/google/protobuf/descriptor_database.h:168-187 | accepted exactly when the name is valid, so a word over the 64 characters, and comparable to no key; the map gains just that entry, or is unchanged, and is the one that all calls so far lead to |
| DescriptorIndices.DescriptorIndex.AnswersStand | include/google/protobuf/descriptor_database.h:111-116 | what the object answered at any time is its only answer at any later time |
| DescriptorIndices.ProbeIsRightIff | include/google/protobuf/descriptor_database.h:200-228 | for any ordered table without parents, valid or not, the predecessor is the matching key for every name exactly if no key continues another below the period |
| DescriptorIndices.ValidKeysSuffice | include/google/protobuf/descriptor_database.h:246-248 | keys that pass validation meet that condition |
| NativeRwLocks.EveryReleaseMatches | include/mysql/thr_rwlock.h:94-131 | in every reachable state of every interleaving the pending release call is the one the thread's own mode needs, and a writer is alone |
| NativeRwLocks.FlagTellsTheMode | include/mysql/thr_rwlock.h:117-127 | when unlock reads the flag it is set exactly if the caller is the exclusive owner |
| NativeRwLocks.FlagIsRaceFree | include/mysql/thr_rwlock.h:94-131 | in every reachable state, while one thread is about to write the unsynchronised flag no other is about to read or write it |
| NativeRwLocks.StepRefines | include/mysql/thr_rwlock.h:73-131 | each access of the Windows branch is one step of the POSIX lock with the same visible label, or none |
| NativeRwLocks.NativeRunRefines | include/mysql/thr_rwlock.h:42-131 | each run of the Windows branch has a POSIX run with the same calls, returns and codes |
| NativeRwLocks.PosixRunRealised | include/mysql/thr_rwlock.h:42-131 | and the other way round |
| NativeRwLocks.BranchesAreIndistinguishable | include/mysql/thr_rwlock.h:42-131 | the two branches have exactly the same visible traces |
| NativeRwLocks.NativeRwLock.Unlock | include/mysql/thr_rwlock.h:117-131 | the flag picks the release, and the lock ends up as if its owner had been looked up |
| NativeRwLocks.NativeRwLock.TryWrLock | include/mysql/thr_rwlock.h:105-115 | succeeds exactly when the lock is free and otherwise changes nothing |
| NativeRwLocks.NativeRwLock.TryRdLock | include/mysql/thr_rwlock.h:83-92 | succeeds exactly when no writer holds the lock and otherwise changes nothing |
| ScopedLocks.WritersAreAlone | include/db/sql_handle.h:62-80 | over every run a usable writing guard excludes every other holder |
| ScopedLocks.LockCallsBalance | include/db/sql_handle.h:62-80 | a thread has acquired once more than it released exactly while its guard holds the lock |
| ScopedLocks.UpgradeReturnsExclusive | include/db/sql_handle.h:76-80 | from the return of the upgrade to the thread's next own step its guard is the only holder, whatever mode it started in and whatever others do |
| ScopedLocks.NoDeadlock | include/db/sql_handle.h:76-80 | in every reachable state with a guard left some thread can move towards its end |
| ScopedLocks.FinishingIsBounded | include/db/sql_handle.h:62-80 | without new guards or upgrades every schedule is bounded by the work left |
| ScopedLocks.RunsDryOnlyWhenDone | include/db/sql_handle.h:62-80 | in every run no finishing step is left exactly when all guards have ended, and then the lock is free |
| ScopedLocks.EveryGuardCanEnd | include/db/sql_handle.h:62-80 | from every reachable state all guards can end and leave the lock free |
| UpgradeWindows.UpgradeIsAtomicIff | include/db/sql_handle.h:76-80 | from every reachable state with an upgrade begun, another writer can come in between exactly if another thread is not a reader held back |
| UpgradeWindows.UpgradeIsNotAtomic | include/db/sql_handle.h:76-80 | for either mode and either policy a run with such a writer exists exactly if there are two threads |
| ScopedLocks.RWMutexScopedLock.Upgrade2Writer | include/db/sql_handle.h:76-80 | whoever holds the lock at the call, at the return the guard's thread is sole writer; returns true |
| ScopedLocks.GuardGivesBack | include/db/sql_handle.h:62-80 | after a guard its thread holds nothing; a writing or upgraded one leaves the lock free, and one that could not have to wait, under either policy, leaves it as it was |
| MapTables.TestsAreRight | include/google/protobuf/map.h:704-707 | comparing an entry with its partner tells lists from trees in every table |
| MapTables.TreeFindIsExact | include/google/protobuf/map.h:1045-1052 | searching a tree by comparisons finds a key exactly if it is there |
| MapTables.TreeConvertKeeps | include/google/protobuf/map.h:1227-1257 | turning two lists into one shared tree keeps the map and the invariant |
| MapTables.InsertKeeps | include/google/protobuf/map.h:1057-1112 | inserting in an empty bucket, a list, an overlong list or a tree adds exactly the new entry |
| MapTables.InsertedIsHead | include/google/protobuf/map.h:1057-1112 | the new node heads its list of at most eight, and a list of eight becomes a tree shared with the partner; no other bucket changes |
| MapTables.EraseKeeps | include/google/protobuf/map.h:1000-1023 | erasing from a list or a tree takes away exactly that key |
| MapTables.EraseKeepsOrder | include/google/protobuf/map.h:719 | erasing a node leaves the order of all others as it was |
| MapTables.OrderIsMap | include/google/protobuf/map.h:815-864 | the iteration order lists every entry of the map exactly once |
| MapTables.RebuiltKeepsMap | include/google/protobuf/map.h:1155-1190 | a table rebuilt in any even size holds the same map, lists and trees mixed anew |
| InnerMaps.InnerMap.FindHelper | include/google/protobuf/map.h:1033-1055 | finds a key exactly if the map has it, with its value and place; otherwise the place to insert it |
| InnerMaps.InnerMap.Insert | include/google/protobuf/map.h:958-973 | adds the entry exactly if the key was missing, and then makes one node for it; doubles the table exactly from three quarters of it on and shrinks it exactly up to three sixteenths; returns where the key now is, in the old table or a fresh one |
| InnerMaps.InnerMap.Erase | include/google/protobuf/map.h:1000-1030 | through an iterator that may be stale, takes away its key and nothing else, destroys its node once and keeps the order |
| InnerMaps.InnerMap.RevalidateIfNecessary | include/google/protobuf/map.h:873-899 | finds where the node of a stale iterator is now, and whether in a list or a tree |
| InnerMaps.InnerMap.Next | include/google/protobuf/map.h:844-863 | from an iterator that may be stale, steps to the node that follows in the present order |
| InnerMaps.InnerMap.VisitAll | include/google/protobuf/map.h:910-913 | walking from the beginning to the end passes every entry once |
| InnerMaps.InnerMap.Resize | include/google/protobuf/map.h:1155-1190 | the same map in a new table, which is the old nodes inserted in their order |
| InnerMaps.InnerMap.Clear | include/google/protobuf/map.h:915-945 | empties every list and tree and keeps the size; every node and every shared tree ever made has then been destroyed exactly once |
| InnerMaps.EraseAndAdvance | include/google/protobuf/map.h:1608-1615 | the iterator returned stands at the node after the erased one |
| InnerMaps.EraseRange | include/google/protobuf/map.h:1616-1620 | takes away exactly the nodes from one iterator up to the other |
| InnerMaps.EraseAll | include/google/protobuf/map.h:1621 | erasing from the beginning to the end empties the map |
| NodeChains.PointerTestsAreRight | include/google/protobuf/map.h:704-707 | comparing the pointers of two neighbouring entries tells lists from trees |
| NodeChains.NextIsRight | include/google/protobuf/map.h:844-863 | `next` leads to the following node of a list, and is null at its end and for every node of a tree |
| NodeChains.NodeTable.InsertUnique | include/google/protobuf/map.h:1061-1112 | in each case the pointers end up as the entries of `InsertedUnique`, and no node outside the table is touched |
| NodeChains.NodeTable.TreeConvert | include/google/protobuf/map.h:1227-1257 | both lists are copied to one new tree and taken out of their chains, `next` saved before it is cleared |
| NodeChains.NodeTable.TransferList | include/google/protobuf/map.h:1173-1180 | although each insertion overwrites `next`, the walk along the old list reinserts its nodes, all of them and in order |
| NodeChains.NodeTable.Resize | include/google/protobuf/map.h:1155-1190 | the new table is the old order reinserted, made of the same nodes at the same addresses, and no old tree is left |
| NodeChains.NodeTable.EraseFromLinkedList | include/google/protobuf/map.h:1192-1199 | the recursion unlinks exactly the one node |
| NodeChains.NodeTable.Erase | include/google/protobuf/map.h:1000-1020 | the pointers end up as the entries of `Erased`, the node alone is destroyed, and a tree with its last node |
| NodeChains.NodeTable.Clear | include/google/protobuf/map.h:915-945 | the nodes destroyed are those of the table, each while it existed, and no tree is left |
| MapLoads.TargetIsTableSize | include/google/protobuf/map.h:1121-1153 | the number of buckets stays a power of two, and at least eight |
| MapLoads.TargetIs | include/google/protobuf/map.h:1121-1153 | when an insertion doubles the table, when it shrinks it and to which size, from the two numbers alone |
| MapLoads.ShrinkLeavesRoomIff | include/google/protobuf/map.h:1136-1145 | a shrunken table has room for the estimated number of elements exactly if there are at most three now |
| MapLoads.FullAgainIff | include/google/protobuf/map.h:1136-1145 | how many insertions fill it again, from the number of elements alone |
| MapLoads.OverloadedIff | include/google/protobuf/map.h:1121-1153 | exactly when an insertion leaves three quarters or more of the table full |
| MapLoads.LoadStaysOk | include/google/protobuf/map.h:1121-1153 | fewer than six elements for every five buckets after every insertion, until the table can grow no more |
| MapLoads.LoadIsReached | include/google/protobuf/map.h:1121-1153 | that bound is tight: in a table of any size but the largest few, an insertion that shrinks an eight times larger one reaches it |
| ArenaStrings.ArenaStringPtr.Set | include/google/protobuf/arenastring.h:56-63 | new memory, pointer and cleanup list as functions of the old ones |
| ArenaStrings.ArenaStringPtr.Mutable | include/google/protobuf/arenastring.h:68-74 | likewise, with the pointer handed out |
| ArenaStrings.ArenaStringPtr.Release | include/google/protobuf/arenastring.h:80-95 | likewise, copying on an arena and null for the default |
| ArenaStrings.ArenaStringPtr.SetAllocated | include/google/protobuf/arenastring.h:114-127 | likewise, freeing the old heap string and registering the new one |
| ArenaStrings.Arena.CleanupList | include/google/protobuf/arena.h:872-877 | drains the list, deleting each entry once |
| ArenaRuns.TwinsAgree | include/google/protobuf/arenastring.h:198-277 | without an arena each method and its NoArena twin have the same effect and result |
| ArenaRuns.FamiliesInterleave | include/google/protobuf/arenastring.h:56-277 | replacing any calls of a run by their twins leaves all states and returned pointers the same |
| ArenaRuns.StepKeepsInvariant | include/google/protobuf/arenastring.h:56-202 | every allowed operation keeps the ownership invariant |
| ArenaRuns.NeverTwiceNeverLost | include/google/protobuf/arenastring.h:56-156 | at any moment a string was freed at most once, and has exactly one owner left if it was not |
| ArenaRuns.EveryStringIsFreedOnce | include/google/protobuf/arenastring.h:56-156 | when fields, callers and arenas are done every string has been freed exactly once |
| ArenaRuns.FieldsAreReady | include/google/protobuf/arenastring.h:56-184 | no method ever touches a freed string |
| ArenaRuns.ArenasAreReady | include/google/protobuf/arena.h:461-476 | teardown finds every listed string live and none listed twice |
| ArenaRuns.ReleasedBelongsToCaller | include/google/protobuf/arenastring.h:76-95 | a released string holds what the field read and belongs to the caller and to no arena; null exactly for the default |
| ArenaRuns.HandedOut | include/google/protobuf/arenastring.h:68-109 | which pointer each method hands out, with and without an arena, and that a release leaves the field at the default |
| ArenaRuns.WrittenThrough | include/google/protobuf/arenastring.h:68-74 | what is written through the handle of `Mutable` is what the field reads, and the default is left alone |
| ArenaRuns.TakenOutAndPutBack | include/google/protobuf/arenastring.h:96-143 | a string taken out of a field on an arena may be put into any field of that arena, which then reads it; without an arena it is the caller's |
| ArenaRuns.SwapReads | include/google/protobuf/arenastring.h:143-148 | swapped fields exchange their strings, and nothing is copied, written or freed |
| ArenaRuns.NewOnesRead | include/google/protobuf/arenastring.h:186-195 | a new field reads the default |
| ArenaRuns.TeardownEnds | include/google/protobuf/arena.h:872-877 | with an arena exactly its fields end, and each string on its list is freed once |
| ArenaRuns.FieldReads | include/google/protobuf/arenastring.h:56-184 | what a field reads after each call, in terms of what could be read before it |
| ArenaRuns.DefaultIsUntouched | include/google/protobuf/arenastring.h:134-195 | the shared default is never written, not even with its own text, never freed and never handed out as mutable |
| ArenaRuns.OthersAreUndisturbed | include/google/protobuf/arenastring.h:56-277 | an operation that does not concern a field neither changes its pointer nor writes to its string |
| ArenaRuns.FieldsAreIndependent | include/google/protobuf/any.pb.h:176-277 | no sequence of calls on one field and writes through its handles writes to what another field reads |
| AnyMessages.Any.Set | include/google/protobuf/any.pb.h:183-206 | sets one field, leaves the other as it was and writes to neither its string nor the shared empty one |
| AnyMessages.Any.Mutable | include/google/protobuf/any.pb.h:207-211 | the handle is neither the shared empty string nor the other field's |
| AnyMessages.Any.Release | include/google/protobuf/any.pb.h:212-216 | hands over the text, empties the field, leaves the other as it was |
| AnyMessages.Any.SetAllocated | include/google/protobuf/any.pb.h:217-225 | the field points to the caller's string, the old one is freed once unless it was the shared one, and the other field is left as it was |
| AnyMessages.Any.Clear | include/google/protobuf/any.pb.h:176-178 | the field reads empty, and neither the shared empty string nor the other field's is written |
| SharedPtrs.StepKeepsInvariant | include/google/protobuf/stubs/shared_ptr.h:67-420 | every atomic step of copying, destroying, observing and locking keeps the counts and who still has to delete what |
| SharedPtrs.CountsAreRightIff | include/google/protobuf/stubs/shared_ptr.h:83-98 | in every run both counts are right, the weak one with its "plus 1", exactly if no copy reaches 2^32 pointers and nothing with 2^31 owners is locked |
| SharedPtrs.DeletedExactlyOnce | include/google/protobuf/stubs/shared_ptr.h:165-177 | in every interleaving the object is deleted once, after its last owner, and the block once, after the last owner and observer |
| SharedPtrs.DeletionGoesOn | include/google/protobuf/stubs/shared_ptr.h:165-177 | whoever takes the last owner away deletes the object, then gives up its share of the weak count, then deletes the block if that was the last; none of these steps is ever held up |
| SharedPtrs.CallsConcernTheirOwn | include/google/protobuf/stubs/shared_ptr.h:112-177 | each call makes or destroys its own pointer and no other, and moves no other task |
| SharedPtrs.BlockIsThere | include/google/protobuf/stubs/shared_ptr.h:308-333 | no step that is possible at any time touches a control block that was deleted |
| SharedPtrs.LockIsSafe | include/google/protobuf/stubs/shared_ptr.h:372-396 | `lock()` makes an owner only of an object that is owned and not being deleted, and gives up exactly if nobody owns it |
| SharedPtrs.LockReturns | include/google/protobuf/stubs/shared_ptr.h:372-396 | a call of `lock()` stays in its loop until it returns, with a new owner, or empty while nobody owns the object |
| SharedPtrs.LockFinishes | include/google/protobuf/stubs/shared_ptr.h:383-390 | from any point, a failed swap included, a call left alone returns within three accesses, with an owner exactly if there is one |
| SharedPtrs.ExpiredForEver | include/google/protobuf/stubs/shared_ptr.h:372-396 | an object without an owner never gets one again |
| SharedPtrs.RetryMeansProgress | include/google/protobuf/stubs/shared_ptr.h:383-390 | a failed swap means that another pointer was copied, destroyed or locked since the count was read |
| SharedPtrs.LockCanLeak | include/google/protobuf/stubs/shared_ptr.h:383-394 | with 2^31 owners `lock()` comes back empty and the object is never deleted |
| RepeatedStrings.RepeatedPtrField.Add | include/google/protobuf/repeated_field.h:1438-1451 | brings a cleared string back before making one, growing the array only when it is full, and hands out the pointer in the last visible slot; memory, field and cleanup list as functions of the old ones |
| RepeatedStrings.GrowsExactly | include/google/protobuf/repeated_field.h:1438-1766 | which calls grow the array, told from the sizes: only when every slot is taken |
| RepeatedStrings.MakesStrings | include/google/protobuf/repeated_field.h:1438-1766 | a string is made exactly when `Add` finds no cleared one or a copy leaves an arena |
| RepeatedStrings.RepeatedPtrField.AddAllocated | include/google/protobuf/repeated_field.h:1592-1691 | likewise for all of its branches: the fast path, growing, deleting a cleared string to make room, and moving one to the end |
| RepeatedStrings.RepeatedPtrField.ReleaseLast | include/google/protobuf/repeated_field.h:1696-1738 | likewise; the last cleared string fills the gap, and on an arena the caller gets a copy |
| RepeatedStrings.RepeatedPtrField.MergeFrom | include/google/protobuf/repeated_field.h:1480-1527 | likewise; the two loops, over cleared strings and then new ones, amount to appending one by one |
| RepeatedStrings.RepeatedPtrField.Clear | include/google/protobuf/repeated_field.h:1460-1472 | likewise; every visible string is emptied and kept |
| RepeatedStrings.RepeatedPtrField.Destroy | include/google/protobuf/repeated_field.h:1363-1378 | off the arenas every allocated string, visible or cleared, is deleted |
| RepeatedRuns.StepKeepsInvariant | include/google/protobuf/repeated_field.h:1348-1766 | every allowed operation keeps ownership, liveness, distinct slots and empty cleared strings |
| RepeatedRuns.NeverTwiceNeverLost | include/google/protobuf/repeated_field.h:848-929 | at any moment a string was freed at most once, and has exactly one owner left if it was not |
| RepeatedRuns.EveryStringIsFreedOnce | include/google/protobuf/repeated_field.h:848-929 | when fields, callers and arenas are done every string, cleared, replaced, released or copied, has been freed exactly once |
| RepeatedRuns.FieldsAreReady | include/google/protobuf/repeated_field.h:904-929 | in every run the strings of a live field exist, no two slots share one, and the cleared ones are empty |
| RepeatedRuns.ArenasAreReady | include/google/protobuf/repeated_field.h:848-875 | teardown of an arena finds every listed string live and none listed twice |
| RepeatedReads.RunsAreLists | include/google/protobuf/repeated_field.h:1438-1766 | in every run each live field reads as the plain list that the operations describe, and callers' strings hold what those lists say |
| RepeatedReads.AddedIsLast | include/google/protobuf/repeated_field.h:1438-1451 | the pointer handed out by `Add` is that of the new last element and in no other slot of any field |
| RepeatedReads.AddAndAssign | include/google/protobuf/repeated_field.h:1805-1808 | assigning through that pointer appends the text and leaves every other field alone |
| RepeatedReads.CallsAllowed | include/google/protobuf/repeated_field.h:840-929 | what each call asks of its callers, in terms of what they see and own |
| RepeatedReads.OthersAreUndisturbed | include/google/protobuf/repeated_field.h:1438-1766 | an operation that does not concern a field changes none of its pointers nor the text of any of its strings |
| RepeatedReads.ReleasedBelongsToCaller | include/google/protobuf/repeated_field.h:853-924 | a released string belongs to the caller alone and holds the last text, or nothing if it was a cleared one |
| RepeatedReads.MergedAllocates | include/google/protobuf/repeated_field.h:1480-1527 | a merge makes new strings only for what the cleared ones do not cover |
| RepeatedReads.LoopsDoNotGrow | include/google/protobuf/repeated_field.h:1674-1678 | a run that keeps the visible size of a field within its array, and adds no cleared strings, never grows the array or what it holds beyond it |
| RepeatedReads.FallbackSwaps | include/google/protobuf/repeated_field.h:1390-1403 | swapping fields of different arenas exchanges their lists, leaves all other fields alone and frees exactly the strings the second field held off the arenas, each once |
| ByteOrder.Uint5Korr | include/mysql/my_byteorder.h:54-63 | the sum of shifted bytes is the number written low byte first |
| ByteOrder.Uint8Korr | include/mysql/byte_order_generic.h:56-69 | likewise, put together from two 32-bit halves |
| ByteOrder.Sint3Korr | include/mysql/my_byteorder.h:31-43 | or-ing with sign bytes gives the two's complement value of three bytes |
| ByteOrder.StoreThenDecode | include/mysql/my_byteorder.h:45-101 | reading back a stored number gives it modulo 2^(8N) |
| ByteOrder.DecodeThenStore | include/mysql/my_byteorder.h:45-101 | storing what was read changes nothing |
| ByteOrder.DecodedIsInjective | include/mysql/my_byteorder.h:45-101 | equal numbers come from equal bytes |
| ByteOrder.StoredAt | include/mysql/my_byteorder.h:77-101 | no byte outside the N is touched |
| ByteOrder.UnsignedFormatsRoundTrip | include/mysql/byte_order_generic.h:38-97 | each unsigned reader inverts its writer |
| ByteOrder.SignedFormatsRoundTrip | include/mysql/byte_order_generic.h:20-97 | each signed reader recovers every number in its range |
| ByteOrder.Int3Store | include/mysql/my_byteorder.h:77-82 | the buffer afterwards is the old one with the three bytes replaced |
| ByteOrder.Int6Store | include/mysql/my_byteorder.h:93-101 | likewise with six |
| ByteOrder.Int8Store | include/mysql/byte_order_generic.h:91-97 | two four-byte stores make one eight-byte store |
| ByteOrder.X86LoadIsGeneric | include/mysql/byte_order_generic_x86.h:22-38 | on little-endian memory the word loaded is the number the generic reader computes |
| ByteOrder.X86ReadersAreGeneric | include/mysql/byte_order_generic_x86.h:22-38 | each x86 reader, signed or unsigned, returns what the generic one returns |
| ByteOrder.X86StoreIsGeneric | include/mysql/byte_order_generic_x86.h:40-56 | storing a word leaves the memory the generic writer leaves, and only that |
| TrailingSpace.TrimmedIsLongest | include/mysql/m_string.h:257-278 | the result is the longest prefix that is empty or does not end in a space |
| TrailingSpace.SkipTrailingSpace | include/mysql/m_string.h:317-329 | eight bytes at a time gives that prefix |
| TrailingSpace.SkipTrailingSpaceAligned | include/mysql/m_string.h:280-310 | aligned words give the same prefix for every address and both word sizes |
| TrailingSpace.SkipSpaceInts | include/mysql/m_string.h:303-305 | every word read is aligned and inside the string, and only spaces are skipped |
| Alignment.MyAlignIsLeast | include/mysql/my_global.h:439 | the bit mask gives the least multiple of a power of two that is not below A |
| Alignment.MyAlignIsIdempotent | include/mysql/my_global.h:439 | aligning twice changes nothing more |
| Alignment.MyAlignIsMonotone | include/mysql/my_global.h:439 | aligning keeps order |
| Alignment.MyAlignFailsIffItWraps | include/mysql/my_global.h:439 | rounding up fails exactly when the addition wraps, and then gives zero |
| TimeSpecs.TimeSpec.SetNsec | include/mysql/my_global.h:688-699 | the fields hold the deadline, normal and never late, with seconds beyond a 32-bit time_t cut to its greatest; exact exactly when nothing wraps or is cut |
| TimeSpecs.TimeSpec.SetSeconds | include/mysql/my_global.h:712-715 | likewise for seconds, and the exact condition under which the deadline is exact |
| TimeSpecs.CmpTimespec | include/mysql/my_global.h:724-740 | on normal values the sign of the exact difference, so a total order; on others the lexicographic one |
| TimeSpecs.DiffTimespec | include/mysql/my_global.h:742-750 | the exact difference modulo 2^64, exact when it is non-negative and fits |
| TimeSpecs.GetMilliseconds | include/mysql/thr_cond.h:84-95 | before the deadline a wait within a millisecond of the time left exactly while fewer than 2^32 - 1 ms are left; after it no wait exactly if the deadline is not before 1970 or the cut gives zero |
| TimeSpecs.Wait | include/mysql/thr_cond.h:84-95 | the same, as an equivalence, for a deadline built by `set_timespec_nsec` at one time and waited for at another |
| TimeSpecs.DistantDeadlines | include/mysql/thr_cond.h:89-94 | two deadlines a millisecond apart, one waited for for ever and one not at all |
| TimeSpecs.FileTimeSpec.SetNsec | include/mysql/my_global.h:700-709 | the deadline in 100 ns units and a cap that is the request in milliseconds or, beyond a 32-bit long, its greatest |
| TimeSpecs.GetMillisecondsCapped | include/mysql/thr_cond.h:53-83 | under any clock jump never longer than the cap or the time left, and endless only if the cap allows it |
| TimeSpecs.WaitCapped | include/mysql/thr_cond.h:53-83 | with a 32-bit long a deadline is never waited for longer than was asked, nor for ever, under any clock; while the clock runs forwards within a millisecond of the time left |
| IoCaches.IoCache.MyBRead | include/mysql/my_sys.h:485-489 | delivers the next bytes exactly when they are buffered and otherwise leaves everything alone |
| IoCaches.IoCache.MyBGet | include/mysql/my_sys.h:497-500 | likewise for one byte |
| IoCaches.IoCache.MyBWrite | include/mysql/my_sys.h:491-495 | appends to the filled region exactly when there is room |
| IoCaches.PositionsAre | include/mysql/my_sys.h:502-516 | the position counts from `pos_in_file` at `request_pos`, and the bytes in the cache are what fits without a refill |
| IoCaches.RequestsConserve | include/mysql/my_sys.h:485-516 | reads deliver consecutive bytes with position plus remainder constant; writes concatenate and move the position by their total |

## Left out

- `AddFile`, `AddExtension`, `AddNestedExtensions` and the file-name and extension maps: declared only, and plain maps without an invariant.
- `DescriptorIndex::FindSymbol` returns a default value when nothing matches; the model returns `None`.
- The red-black tree inside `std::map`: the table is a sorted sequence searched by halving.
- `native_rw_destroy`, initialisation failures and the error codes of POSIX locks other than EBUSY (EDEADLK, EAGAIN): not modelled; a self-deadlocking call simply never proceeds.
- Weak memory: accesses interleave one at a time. Of the unsynchronised flag they are free of races (`FlagIsRaceFree`); the hardware's orderings are not modelled beyond that.
- Waiting policy of SRWLOCK: a try-lock for reading may be refused when a writer holds the lock or waits for it, and blocked threads are served in any order.
- NativeRwLocks.NativeRwLock.RdLock: the class runs one thread at a time, so a blocking call is entered only when it will not block; the interleaved machine has no such condition.
- The two lock machines are relations over values rather than classes, because a step of one thread has to be interleaved with those of others.
- Who uses a lock while a guard waits for it: `PosixRwLock.Wait` promises only the lock's state when it is granted, and that it is unchanged only if the request is granted at once; the interleaved machine has the others' steps.
- `MutexScopedLock`: one lock call and one unlock call.
- A thread with two guards on one lock: it can block itself, so the guard results are for at most one guard per thread.
- `AssignWithDefault` and arena block allocation (declared only), `UnsafeRawStringPointer`, `OwnDestructor` and the moving `SetNoArena`.
- Several default strings at once in `ArenaRuns`: every field there has the same default; the methods of the class take any.
- Violations of the ownership rules, such as `UnsafeArenaSetAllocated` of a foreign string: the rules are the conditions of `Allowed`.
- The `char*` overloads of the `Any` setters, which build a string and call the modelled one; the accessors of the two fields are one method with a parameter.
- `RepeatedPtrField` of messages, whose elements may be on arenas themselves; `UnsafeArenaAddAllocated`, `UnsafeArenaReleaseLast` and `UnsafeArenaExtractSubrange` on arenas as calls of user code; `DeleteSubrange` and `ExtractSubrange`.
- RepeatedReads.FallbackSwaps: `SwapFallback` is a sequence of seven operations on fields, not a method of the class.
- `shared_ptr` to objects of derived types and `enable_shared_from_this` as a base class: `weak_this_` is a weak pointer that the constructor makes and the object's destructor destroys, as any other.
- Assignment, `reset` and `swap` of shared and weak pointers: copies, destructions and exchanges of the pointers modelled. Reading an uninitialised or dangling pointer is excluded by `Enabled`.
- Memory order of the counters: all steps are interleaved one at a time, the increments without a barrier too. A counter beyond its 32 bits wraps, as the hardware does; the `old_refcount + 1` of `lock` has no defined value in C++ there.
- How far `Reserve` grows an array, which is not inline: any size that is enough.
- Pointers to elements that user code keeps after the element was removed: `WriteElement` writes to visible elements only.
- RepeatedReads.LoopsDoNotGrow: on an arena the strings that `AddAllocated` replaces stay on the cleanup list until teardown, so there only the array and what it holds are bounded.
- `cmp_timespec` and `diff_timespec` on the FILETIME form of `struct timespec`: one comparison and one multiplication.
- TimeSpecs.GetMilliseconds: deadlines whose milliseconds overflow a signed 64-bit number, because the source has no defined result there. The same holds for a 32-bit `time_t`, which `SetNsec` models and `GetMilliseconds` does not: there `tv_sec * 1000` overflows for any present date.
- Signed overflow of a FILETIME deadline: `FileTimeSpec.SetNsec` requires that the sum fits, and the subtraction of the clock in `GetMillisecondsCapped` is not cut to 64 bits.
- The functions `my_b_*` call when a request does not fit the buffer, the append cache, and files.
- Big-endian machines for the `float` and `double` formats: floating point is not modelled.
- Iterators over `NodeTable`: iteration is on `InnerMap`, whose lists are sequences; `NextIsRight` says what `next` gives there. Writes through `operator[]` and iterators go to the value pointed to, which is not part of the map here.
- The red-black tree inside `std::set`: a tree is a sorted sequence.
- InnerMaps.EraseUpTo: the loop of `Map::erase(first, last)` is a recursion; the loop of `Map::clear` is one.
- The hash function and the random seed: any function of the key.
- `DeprecatedInnerMap`, arenas and the copying in `Map` around `InnerMap`.
