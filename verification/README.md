# A verified model of wibo's state machines and algorithms

wibo runs Windows programs on POSIX hosts. Most of it is thin API glue; what can go wrong in
subtle ways sits in a few self-contained parts, and those are modelled here in Dafny and proved
correct for all inputs, all runs and all interleavings:

| file | part of wibo |
|---|---|
| `VirtualMemory.dfy`, with `Alignment`, `OrderedKeys`, `GapSearch`, `AddressSpace`, `PageTable` | the guest virtual-memory manager |
| `CriticalSection.dfy`, `InitOnce.dfy`, with `Counting` | critical sections and one-time initialisation, as interleaved atomic steps |
| `HandleTable.dfy`, `ObjectLifetime.dfy` | the handle table; reference counts and the name table |
| `Thunk.dfy` | the generator of 32-bit guest-to-host thunks, and an x86 machine to run its output |
| `AsyncQueues.dfy` | the request queues of the epoll backend |
| `Tls.dfy` | thread-local storage slots |
| `Wildcard.dfy` | the file-name pattern matcher |
| `Calendar.dfy`, `FileTime.dfy` | civil dates, SYSTEMTIME and FILETIME |
| `CommandLine.dfy` | quoting and splitting of command lines |
| `BlockHash.dfy`, `Md5.dfy`, `Sha1.dfy` | streaming MD5 (RFC 1321) and SHA-1 (RFC 3174) |

`Wrappers.dfy` declares the optional value all of them share. `dafny verify dfyconfig.toml` checks the
whole project.

Code that updates state is modelled by classes and loops and proved against specification
functions and predicates; protocols between threads are transition systems whose runs are
arbitrary schedules, with one theorem per safety property over every run. Host calls (`mmap`,
`mprotect`, `madvise`, memory allocation, the called host function) are parameters that may
answer anything.

## Where the code does not do what one would expect

The model follows the code; these are theorems about it.

- **InitOnce can lose a round.** A failing `InitOnceComplete` resets the word first and erases the
  entry of the state map last. A begin call in between starts a new round whose entry is then
  erased: its initialiser can never complete it and the word stays "in progress" for ever
  (`InitOnce.LossIsReachable`, `InitOnce.StuckForever`). A round can be lost in this way if and only if
  a failing completion is in flight when the round starts (`InitOnce.RoundCanBeLostIff`).
- **The SHA-1 length field drops bits.** It is right exactly when the message length modulo 2^32
  is below 2^29 (`Sha1.PaddingIsRight`); a message of 2^29 bytes is the shortest one padded wrongly
  (`Sha1.ShortestWrongPadding`). MD5 is right for every length.
- **Quoting a command line loses some arguments.** Quoting and splitting gives the list back exactly
  when every argument is non-empty, free of NUL, and quoted if it ends in a backslash
  (`CommandLine.RoundTrip`, `CommandLine.RoundTripFailures`).
- **A name abandoned before it gets a handle can dangle.** Name lookups are safe in every run in which
  a published pin is given a handle (`ObjectLifetime.NamesNeverDangle`). Dropping that pin instead can
  leave a deleted object under its name if and only if no slot, release or other published pin guards
  it (`ObjectLifetime.AbandonedNameDangles`, `ObjectLifetime.AbandonedNameExample`).
- **A release fails exactly when the host refuses** (`VirtualMemory.Manager.Release`), and then it forgets
  the allocation and keeps its mapping: the range cannot be reserved at that base again, whatever the host
  says later (`VirtualMemory.RecordedRangeIsTaken`, `VirtualMemory.ReserveAfterRefusedRelease`). The
  invariant survives, as it does when a commit is refused half-way: the mapping's record is right even
  then (`VirtualMemory.SummaryWhileReserved`).
- **A thread refused an expansion array when it starts** cannot store into any expansion slot below the
  common capacity, not even once memory is available again; only a growth beyond that capacity helps it
  (`Tls.StarvedThreadCannotStore`, `Tls.Manager.SetValue`).
- **The thunk of a fastcall function leaves its arguments on the guest's stack.** A fastcall callee
  pops its arguments; the thunk pops the right number of bytes if and only if the function is not a
  fastcall one with arguments (`Thunk.PopsWhatTheConventionAsks`, `Thunk.FastcallLeavesItsArgument`).
- **Registering or releasing a view range that was never reserved** can break the memory manager's
  tables (`VirtualMemory.UnreservedViewOverlaps`); the exact conditions are in
  `VirtualMemory.Manager.RegisterViewRange` and `VirtualMemory.Manager.ReleaseViewRange`. For reserved
  views, which is all that the callers pass, every run keeps the tables in order.

## Model

| member | source | states |
|---|---|---|
| `GapSearch.TryGapIsExtremal` | src/heap.cpp:399-431 | what one gap yields: a 64 KiB-aligned place inside the gap, the lowest or the highest one, and nothing only if there is none |
| `GapSearch.ConsiderGap` | src/heap.cpp:433-449 | examining the next gap either ends the search with the lowest place of all, or leaves a candidate that beats every place up to the end of the gap |
| `GapSearch.WalkMappings` | src/heap.cpp:451-480 | the walk over the ordered mappings misses no place: whatever fits lies behind the cursor's best candidate or beyond the cursor |
| `GapSearch.FindFreeMapping` | src/heap.cpp:384-493 | sound, complete and extremal: aligned, in range and clear of every mapping; failure means no such address exists; least bottom-up, greatest top-down |
| `AddressSpace.FindRegionIsExact` | src/heap.cpp:188-198 | the predecessor lookup finds the allocation containing an address if and only if there is one |
| `AddressSpace.WithinMeansEveryAddress` | src/heap.cpp:208-219 | a range is within an allocation exactly if the allocation contains every address of it |
| `AddressSpace.OverlapsExistingMapping` | src/heap.cpp:245-273 | looking from the predecessor on agrees with comparing against all mappings |
| `AddressSpace.AddMapping` | src/heap.cpp:275-289 | recording a mapping in clear space keeps mappings disjoint and allocations placed |
| `AddressSpace.AddAllocation` | src/heap.cpp:919-927 | a new allocation with its mapping keeps the tables consistent |
| `AddressSpace.ReplaceAllocation` | src/heap.cpp:336-367 | changing pages of an allocation, with or without refreshing its mapping, keeps the tables consistent |
| `AddressSpace.RemoveAllocation` | src/heap.cpp:1028-1038 | dropping an allocation, with or without its mapping, keeps the tables consistent |
| `PageTable.MarkPages` | src/heap.cpp:221-243 | the marking loops set exactly the entries of the range |
| `PageTable.CollectRuns` | src/heap.cpp:955-977 | the runs are maximal, apart from each other, and cover exactly the uncommitted pages of the range |
| `PageTable.RunsCommit` | src/heap.cpp:979-987 | filling one run after another is the same as committing page by page |
| `PageTable.RunIsListed` | src/heap.cpp:955-977 | every maximal run of reserved pages is among the collected ones |
| `PageTable.BlockOf` | src/heap.cpp:1173-1203 | the two scans find the maximal block of pages with the same state and protection |
| `PageTable.Survey` | src/heap.cpp:340-364 | one pass decides whether all pages are committed and whether their protection is uniform |
| `VirtualMemory.Manager.constructor` | src/heap.cpp:1477-1487 | over the initial mappings alone, with no allocation, view or content, all records are in order |
| `VirtualMemory.Manager.ChooseRange` | src/heap.cpp:866-903 | a reservation's range is 64 KiB-aligned, below 2 GB, clear, and around the request or extremal among the free ones; a refusal means there is none |
| `VirtualMemory.Manager.Reserve` | src/heap.cpp:866-934 | a reservation that the host granted adds one allocation with its summary and zero pages; without a range, or if the host refuses, nothing changes |
| `VirtualMemory.Manager.LocateRange` | src/heap.cpp:200-219 | finds the one allocation holding a whole range, if any, and the range's page indices in it |
| `VirtualMemory.Manager.MarkCommitted` | src/heap.cpp:221-231 | one remapped run changes the entries and the contents of its own pages only |
| `VirtualMemory.Manager.CommitRuns` | src/heap.cpp:979-987 | exactly the runs up to the first refused one were asked for, granted and marked, one after the other |
| `VirtualMemory.AfterRunsIsPrefix` | src/heap.cpp:955-987 | run by run is the same as page by page, for entries and for contents |
| `VirtualMemory.GrantedRuns` | src/heap.cpp:979-987 | hence the host granted every maximal run of reserved pages before the refused one, and all of them on success |
| `VirtualMemory.Manager.CommitReserved` | src/heap.cpp:955-987 | the reserved pages of a prefix are committed and the host granted each of their runs; a failure is its refusal of the maximal run right behind |
| `VirtualMemory.Manager.Commit` | src/heap.cpp:936-996 | a successful commit commits exactly the reserved pages of the range, every run granted by the host; a refusal leaves a granted and committed prefix, the reserved page behind it and the status of the refused run |
| `VirtualMemory.CommitMeaning` | src/heap.cpp:936-996 | every page of the range is then committed, committed ones keep protection and contents, all others are unchanged |
| `VirtualMemory.Manager.Reset` | src/heap.cpp:778-812 | a reset discards contents of its range only, and only if one allocation holds the range and the host agrees |
| `VirtualMemory.Manager.Allocate` | src/heap.cpp:814-996 | every combination of flag bits, address and size leads to its one outcome, host calls included, and keeps the invariant |
| `VirtualMemory.OutcomeObeysFlags` | src/heap.cpp:825-864 | bit by bit: MEM_COMMIT commits every page of the range, a new allocation has the given protection throughout or is reserved throughout, MEM_TOP_DOWN decides between greatest and least base, no flag means InvalidParameter and no change |
| `VirtualMemory.Manager.Refresh` | src/heap.cpp:336-367 | the mapping's summary is the one its pages imply |
| `VirtualMemory.SummaryWhileReserved` | src/heap.cpp:336-367 | as long as one page stays reserved the record does not depend on the others, so a commit refused half-way needs no refresh |
| `VirtualMemory.RecordsAfterChange` | src/heap.cpp:336-367 | replacing or adding an allocation together with its summary keeps every record the summary of its pages and every view recorded |
| `VirtualMemory.Manager.DecommitRange` | src/heap.cpp:1041-1067 | which pages a decommit applies to, and the exact reasons for refusing |
| `VirtualMemory.Manager.Decommit` | src/heap.cpp:1041-1077 | granted by the host, exactly those pages become reserved and lose their contents; any failure changes nothing |
| `VirtualMemory.Manager.Release` | src/heap.cpp:1015-1039 | a release removes one allocation, and its mapping and contents exactly if the host grants it; the exact status of every call |
| `VirtualMemory.RecordedRangeIsTaken` | src/heap.cpp:867-891 | a recorded range cannot be reserved at its base, whether or not an allocation is left of it |
| `VirtualMemory.ReserveAfterRefusedRelease` | src/heap.cpp:1028-1037 | after a refused release every attempt to reserve there fails with InvalidAddress |
| `VirtualMemory.Manager.CheckProtect` | src/heap.cpp:1092-1112 | reprotection is allowed exactly if one allocation holds the range and all its pages are committed |
| `VirtualMemory.Manager.Protect` | src/heap.cpp:1079-1128 | granted by the host, exactly the pages of the range change protection and the first page's old one is returned; a failure changes nothing, and the host is asked only for a committed range |
| `VirtualMemory.Manager.ReserveViewRange` | src/heap.cpp:1218-1246 | the lowest free range within the bounds is recorded as a view; a refusal means none exists, with one status for bad sizes and bounds and another for a lack of room |
| `VirtualMemory.Manager.RegisterViewRange` | src/heap.cpp:1248-1257 | for every base and size: the new record, and that all records stay in order if it is a reserved view of that size, and otherwise exactly if the record fits in |
| `VirtualMemory.UnreservedViewOverlaps` | src/heap.cpp:1248-1257 | a page inside another record, registered without being reserved, breaks the tables |
| `VirtualMemory.Manager.ReleaseViewRange` | src/heap.cpp:1259-1265 | for every base: the record and the view are gone, and all records stay in order exactly if the base is no allocation, as for every view |
| `VirtualMemory.Manager.QueryFree` | src/heap.cpp:1144-1165 | a free block runs to the next allocation or to 2 GB and touches no allocation |
| `VirtualMemory.Manager.QueryBlock` | src/heap.cpp:1167-1215 | an allocated block is a maximal run of equal pages around the address, shown with the pages' own state and protection and the allocation's |
| `VirtualMemory.Manager.Query` | src/heap.cpp:1130-1216 | every address below 2 GB is described by the block that contains it: a committed page with its own protection, a reserved one as inaccessible |
| `VirtualMemory.QueryAtBoundary` | src/heap.cpp:1130-1216 | a query at the end of a block starts the next block there |
| `VirtualMemory.TilesAccount` | src/heap.cpp:1130-1216 | contiguous described blocks report the true state and protection of every address, each by exactly one block |
| `VirtualMemory.WalkAddressSpace` | src/heap.cpp:1130-1216 | stepping from block to block ends exactly at 2 GB, tiles the address space and reproduces the page tables, protections included |
| `CriticalSections.MoveIsSound` | dll/kernel32/synchapi.cpp:1049-1120 | each atomic step changes LockCount by the thread's own units and never makes or destroys a right to run |
| `CriticalSections.StepKeepsInv` | dll/kernel32/synchapi.cpp:457-496 | the invariant survives a step of any thread |
| `CriticalSections.RunKeepsInv` | dll/kernel32/synchapi.cpp:457-496 | the invariant survives every schedule |
| `CriticalSections.MutualExclusion` | dll/kernel32/synchapi.cpp:1049-1120 | in every run at most one thread is inside |
| `CriticalSections.RecursionCountNeverRaces` | dll/kernel32/synchapi.cpp:1058-1120 | no two threads are ever both about to read or write RecursionCount, the one field without atomic accesses, or to store OwningThread |
| `CriticalSections.OnlyTheseUseRecursion` | dll/kernel32/synchapi.cpp:1049-1120 | no other step depends on RecursionCount or changes it |
| `CriticalSections.ExactlyOneRight` | dll/kernel32/synchapi.cpp:457-476 | always exactly one of: free lock, ticket, owner or entrant, leave about to signal |
| `CriticalSections.LockCountMeaning` | dll/kernel32/synchapi.cpp:1075-1120 | LockCount + 1 is the owner's depth plus the queued entrants plus calls in flight |
| `CriticalSections.RecursionMeaning` | dll/kernel32/synchapi.cpp:1075-1120 | inside, OwningThread and RecursionCount are the owner and its depth |
| `CriticalSections.NoLostWakeUp` | dll/kernel32/synchapi.cpp:457-476 | if a thread is queued and nobody owns, enters or leaves, a ticket is there |
| `CriticalSections.FreeLockIsEntered` | dll/kernel32/synchapi.cpp:1060-1065 | uninterrupted, TryEnter and Enter take a free lock: LockCount 0, this owner, recursion 1 |
| `CriticalSections.OwnerEntersAgain` | dll/kernel32/synchapi.cpp:1067-1071 | uninterrupted, an owner's TryEnter or Enter adds one to depth, LockCount and RecursionCount |
| `CriticalSections.HeldLockIsNotEntered` | dll/kernel32/synchapi.cpp:1060-1073 | uninterrupted, TryEnter on another's lock changes nothing |
| `CriticalSections.EnterQueues` | dll/kernel32/synchapi.cpp:1083-1098 | Enter on another's lock counts itself in and waits, or spins first |
| `CriticalSections.SpinnerQueues` | dll/kernel32/synchapi.cpp:478-496 | a spinning thread tries again, or gives up and queues |
| `CriticalSections.TicketAdmits` | dll/kernel32/synchapi.cpp:457-470 | a queued thread that finds a ticket takes it and the lock |
| `CriticalSections.NoTicketNoChange` | dll/kernel32/synchapi.cpp:459-469 | without a ticket it changes nothing and looks again |
| `CriticalSections.LostTicketRace` | dll/kernel32/synchapi.cpp:460-467 | a lost race for a ticket leaves the tickets alone |
| `CriticalSections.InnerLeave` | dll/kernel32/synchapi.cpp:1110-1113 | an inner leave undoes one enter |
| `CriticalSections.OuterLeave` | dll/kernel32/synchapi.cpp:1115-1119 | the outermost leave frees the lock, or issues one ticket if anybody is queued |
| `InitOnce.MoveIsSound` | dll/kernel32/synchapi.cpp:1122-1319 | each atomic step keeps the word's meaning and the count of synchronous initialisers |
| `InitOnce.StepKeepsInv` | dll/kernel32/synchapi.cpp:1122-1319 | the invariant survives a step of any thread, and a completed word does not change |
| `InitOnce.OneSynchronousInitialiser` | dll/kernel32/synchapi.cpp:1175-1187 | in every run at most one synchronous initialiser is pending |
| `InitOnce.CompletedOnce` | dll/kernel32/synchapi.cpp:1280-1317 | a completed word stays as it is, whatever follows |
| `InitOnce.ReportsAgree` | dll/kernel32/synchapi.cpp:1139-1225 | every call that reports "not pending" returns the context of the one completion |
| `InitOnce.LossIsReachable` | dll/kernel32/synchapi.cpp:1283-1302 | two threads can reach a state where a round's entry has been erased |
| `InitOnce.StuckForever` | dll/kernel32/synchapi.cpp:1283-1289 | from there no schedule ever completes the word |
| `InitOnce.OverlapLosesTheRound` | dll/kernel32/synchapi.cpp:1290-1301 | once a round is announced while a failing completer is in flight, that completer's steps lose the round |
| `InitOnce.RoundCanBeLostIff` | dll/kernel32/synchapi.cpp:1175-1187 | a round that starts now can be lost if and only if some thread is a failing completer in flight |
| `InitOnce.InitialiserFindsItsState` | dll/kernel32/synchapi.cpp:1283-1289 | a round that starts without one: at every moment of the round the initialiser finds its state |
| `InitOnce.CompletionNeedsTheEntry` | dll/kernel32/synchapi.cpp:1283-1302 | an uninterrupted completion succeeds exactly when the map has an entry |
| `InitOnce.BeginOnFresh` | dll/kernel32/synchapi.cpp:1165-1187 | uninterrupted, a begin call on a fresh word starts a round of its kind and is told "pending" |
| `InitOnce.BeginOnCompleted` | dll/kernel32/synchapi.cpp:1139-1225 | begin and check calls on a completed word report its context |
| `InitOnce.CheckOnUncompleted` | dll/kernel32/synchapi.cpp:1145-1153 | a check on any other word has no effect |
| `InitOnce.BeginInOtherRound` | dll/kernel32/synchapi.cpp:1189-1235 | a round of the other kind refuses a begin call; an asynchronous round admits further initialisers |
| `InitOnce.BeginInSyncRound` | dll/kernel32/synchapi.cpp:1195-1198 | in a synchronous round a begin call waits for the state it finds, or looks again |
| `InitOnce.WaitEnds` | dll/kernel32/synchapi.cpp:1199-1215 | the wait ends with the context if the round succeeded and with another attempt if it failed |
| `InitOnce.LostRaces` | dll/kernel32/synchapi.cpp:1178-1292 | a compare-and-swap that finds another value changes nothing and starts over |
| `InitOnce.WrongArgsChangeNothing` | dll/kernel32/synchapi.cpp:1243-1274 | a failing completion with a context or the asynchronous flag, or a misaligned context, is refused |
| `InitOnce.CompleteInSyncRound` | dll/kernel32/synchapi.cpp:1283-1302 | a completion publishes its outcome to the waiters and takes the state out of the map |
| `InitOnce.CompleteInAsyncRound` | dll/kernel32/synchapi.cpp:1303-1312 | an asynchronous round is completed only with the asynchronous flag |
| `InitOnce.CompleteOutsideRound` | dll/kernel32/synchapi.cpp:1313-1317 | a fresh or completed word refuses a completion |
| `InitOnce.BeginCompleteBegin` | dll/kernel32/synchapi.cpp:1122-1319 | begin, complete with a context, begin again: the context is reported |
| `HandleTable.HandlesNameIndices` | src/handles.cpp:15-26 | handles and indices are in bijection, and compat handles are those below 0x8000 |
| `HandleTable.CompatRangeIsFull` | src/handles.cpp:46-84 | with nothing fresh and nothing free below, all but 64 of the compat range are live |
| `HandleTable.PlaceFresh` | src/handles.cpp:55-59 | taking a fresh index keeps the partition and reuses nothing |
| `HandleTable.PlaceBelow` | src/handles.cpp:60-62 | taking a free compat index keeps the partition and respects the quarantine |
| `HandleTable.PlaceAbove` | src/handles.cpp:63-65 | taking a free index above happens only when the compat range is full |
| `HandleTable.PlaceNew` | src/handles.cpp:66-69 | growing the table happens only when the compat range is full |
| `HandleTable.CloseCompat` | src/handles.cpp:122-133 | a closed compat index enters the quarantine and the oldest leaves it; the partition is kept |
| `HandleTable.CloseAbove` | src/handles.cpp:122-136 | a closed index above joins its free list; the partition is kept |
| `HandleTable.DatedAfterClose` | src/handles.cpp:128-133 | positions in the quarantine tell how many releases ago an index was closed |
| `HandleTable.DatedAfterLeaving` | src/handles.cpp:128-133 | an index leaving the quarantine has seen 64 further releases |
| `HandleTable.Handles.constructor` | src/handles.h:228-234 | the empty table is consistent |
| `HandleTable.Handles.Place` | src/handles.cpp:49-79 | the index is the next in the order of preference, its entry is new and keeps the slot's generation, and no other entry changes |
| `HandleTable.Handles.Alloc` | src/handles.cpp:46-84 | a new handle aliases no live one, is below 0x8000 while fewer than 8127 compat handles are live, and was not closed within the last 64 compat releases |
| `HandleTable.Handles.Get` | src/handles.cpp:86-105 | the result is an object exactly if the value is the non-pseudo handle of a slot that holds it |
| `HandleTable.LookupIsNaming` | src/handles.cpp:86-105 | the index arithmetic finds exactly the slot whose handle the value is |
| `HandleTable.Handles.Release` | src/handles.cpp:107-144 | closes exactly the named live unprotected slot, accepts pseudo handles, refuses the rest unchanged |
| `HandleTable.Handles.Duplicate` | src/handles.cpp:189-218 | into the same or another table: the new handle gets a free slot, chosen as for any new handle, with the same object and the access and flags asked for; the source is closed or kept as asked; nothing else changes in either table |
| `HandleTable.DuplicateOptions` | src/handles.cpp:197-204 | what the option bits mean for access, inheritance, protection and the source |
| `ObjectLifetime.StepKeepsInv` | src/handles.cpp:46-144 | every step of alloc, lookup, publish and the separate steps of release keeps the counts and the name guards |
| `ObjectLifetime.NamesNeverDangle` | src/handles.cpp:220-251 | in every run each name table entry is an object that exists with pointerCount at least 1 |
| `ObjectLifetime.CountsAreExact` | src/handles.h:75-81 | pointerCount is pins plus slots plus releases under way, handleCount is slots, deletion is at zero |
| `ObjectLifetime.DeletedStaysUntouched` | src/handles.h:75-81 | no step ever touches a deleted object |
| `ObjectLifetime.SubjectIsAlive` | src/handles.cpp:240-251 | every step acts on an object that exists |
| `ObjectLifetime.StepEffect` | src/handles.cpp:46-251 | what each step does to objects, slots, names and references, and that it leaves everything else alone |
| `ObjectLifetime.NamesStay` | src/handles.cpp:220-238 | a step removes no name but that of the object being unnamed |
| `ObjectLifetime.NamesStayInRuns` | src/handles.cpp:220-238 | a published name leads to the same object until that object's own name is removed |
| `ObjectLifetime.NothingGetsStuck` | src/handles.cpp:46-251 | whatever a thread holds it can get rid of, and whatever is named or in a slot can be found |
| `ObjectLifetime.AbandonedNameDangles` | src/handles.h:256-276 | for every reachable state: dropping a published pin deletes the named object exactly if it was the last reference, and can lead to a dangling name exactly if nothing else guards it |
| `ObjectLifetime.AbandonedNameExample` | src/handles.h:256-276 | a freshly published object is such a case |
| `Thunk.ComputeArgLayout` | tools/gen_trampolines.py:291-361 | the loops compute the recursive layout, and give up exactly on arguments over 8 bytes |
| `Thunk.WhoGetsARegister` | tools/gen_trampolines.py:333-348 | an argument is in the i-th register exactly if it is the i-th and all up to it take one slot |
| `Thunk.StackIsPacked` | tools/gen_trampolines.py:317-324 | the other arguments lie back to back in order inside the reported stack size |
| `Thunk.EmittableWhen` | tools/gen_trampolines.py:559-606 | exactly which signatures get a thunk |
| `Thunk.PopsWhatTheConventionAsks` | tools/gen_trampolines.py:638-642 | the thunk pops what the guest function's convention asks for if and only if it is not a fastcall one with arguments |
| `Thunk.FastcallLeavesItsArgument` | tools/gen_trampolines.py:638-642 | a fastcall function of one 8-byte argument gets a thunk that leaves it on the stack |
| `Thunk.EmitThunk` | tools/gen_trampolines.py:496-642 | the emitter appends the thunk's instructions in order, or gives up |
| `Thunk.SwapRuns` | tools/gen_trampolines.py:531-539 | the eight segment instructions exchange fs and gs with the thread block, touching only eax and edx besides |
| `Thunk.PrologueRuns` | tools/gen_trampolines.py:525-557 | the machine once on the host stack |
| `Thunk.CopiesRun` | tools/gen_trampolines.py:559-577 | the copies put every stack argument in place and write nothing else |
| `Thunk.LoadsRun` | tools/gen_trampolines.py:579-590 | the loads put every register argument in place and destroy none |
| `Thunk.ArgumentsDelivered` | tools/gen_trampolines.py:496-593 | for every signature, at the call every argument word is where the convention wants it, the stack is 16-byte aligned, and guest memory is intact |
| `Thunk.BlockArrives` | tools/gen_trampolines.py:305-361 | in terms of the machine: the guest's argument words arrive in their order, for a fastcall function the first in ecx and the second in edx as far as they fit, the rest on the stack |
| `Thunk.FastcallSplits` | tools/gen_trampolines.py:333-348 | a fastcall layout is up to two registers, ecx first, followed by an ordinary layout of the remaining arguments |
| `Thunk.EpilogueRuns` | tools/gen_trampolines.py:600-642 | the way back keeps the result registers and restores stack, frame pointer and segments |
| `Thunk.ThunkReturns` | tools/gen_trampolines.py:496-642 | the whole thunk returns to the caller with the result, its own ebp, segments and thread block, and exactly the stdcall arguments popped, which is right if and only if the function is not a fastcall one with arguments |
| `AsyncQueues.StepKeepsInv` | src/async_io_epoll.cpp:249-296 | every step of submitters, file worker and worker keeps queues, places, counts and byte order |
| `AsyncQueues.RunKeepsInv` | src/async_io_epoll.cpp:338-439 | so does every interleaving |
| `AsyncQueues.BytesInSubmissionOrder` | src/async_io_epoll.cpp:699-756 | the bytes on a pipe are the reported prefixes in submission order, then the first open write's progress |
| `AsyncQueues.NoDoubleCompletion` | src/async_io_epoll.cpp:542-557 | no request is reported twice, or while still queued or in hand |
| `AsyncQueues.PendingIsExact` | src/async_io_epoll.cpp:607-610 | mPending counts exactly the accepted requests not yet discounted |
| `AsyncQueues.NothingPendingNothingLeft` | src/async_io_epoll.cpp:607-610 | with mPending at zero every queue is empty |
| `AsyncQueues.QueueAfterMove` | src/async_io_epoll.cpp:249-296 | every queue is first in, first out, and a requeued request goes back to the front |
| `AsyncQueues.SwapKeepsOrder` | src/async_io_epoll.cpp:542-550 | the completion list is handed over whole and in its order |
| `AsyncQueues.KernelDecides` | src/async_io_epoll.cpp:699-756 | any part of a write may be taken, nothing, or the request may end |
| `AsyncQueues.SomethingCanAdvance` | src/async_io_epoll.cpp:338-439 | while anything is pending, some step moves a request on |
| `AsyncQueues.CanDrain` | src/async_io_epoll.cpp:338-439 | from every reachable state there is a way on after which nothing is pending |
| `Tls.ChooseCapacity` | src/tls.cpp:64-90 | a capacity that suffices, never shrinks and is less than twice what is needed |
| `Tls.GrowthKeepsValues` | src/tls.cpp:98-139 | growing all expansion arrays preserves every value of every thread |
| `Tls.MirrorsSame` | src/tls.cpp:98-139 | hence the arrays still stand for the same map |
| `Tls.MirrorsCleared` | src/tls.cpp:216-231 | clearing a slot in all active blocks is one update of the map |
| `Tls.MirrorsWritten` | src/tls.cpp:343-363 | storing into a block is one update of the map |
| `Tls.WriteReads` | src/tls.cpp:343-363 | a write is read back and changes no other entry |
| `Tls.ClearedReads` | src/tls.cpp:216-231 | clearing a slot zeroes it in the given threads and nowhere else |
| `Tls.Manager.constructor` | src/tls.cpp:16-21 | no slot used, no thread active, and the map holds what the blocks hold |
| `Tls.Manager.EnsureCapacity` | src/tls.cpp:98-139 | exactly when it succeeds; success preserves every value, failure changes nothing |
| `Tls.Manager.ReserveSlot` | src/tls.cpp:287-304 | exactly when it succeeds; it gives the lowest free slot, and the map from thread and slot to value becomes null there for every active thread and nowhere else; failure changes nothing |
| `Tls.Manager.ReleaseSlot` | src/tls.cpp:306-317 | frees exactly a used slot and makes the map null there |
| `Tls.Manager.GetValue` | src/tls.cpp:324-341 | the value of the abstract map that reserve, release, set, growth and cleanup update |
| `Tls.Manager.SetValue` | src/tls.cpp:343-363 | exactly when it succeeds; it updates that entry of the map and no other |
| `Tls.StarvedThreadCannotStore` | src/tls.cpp:351-360 | an active thread without an array can store into an expansion slot exactly if that slot is beyond the common capacity and memory is granted |
| `Tls.Manager.InitializeTib` | src/tls.cpp:237-250 | a thread becomes active once, gets an empty expansion array if there is memory for one, and no value changes |
| `Tls.Manager.CleanupTib` | src/tls.cpp:261-285 | only that thread leaves and only its expansion slots become null in the map |
| `Wildcard.WildcardMatchInsensitive` | dll/kernel32/fileapi.cpp:294-331 | the loop terminates and accepts exactly what the recursive definition of `*`, `?` and case-insensitive literals accepts |
| `Wildcard.CaseIsIgnored` | dll/kernel32/fileapi.cpp:290-292 | characters agree exactly if equal or the two cases of one ASCII letter |
| `Wildcard.PlainPattern` | dll/kernel32/fileapi.cpp:300-318 | a pattern without stars matches character by character |
| `Wildcard.LeadingStar` | dll/kernel32/fileapi.cpp:308-323 | a leading star matches exactly the texts with a suffix that the rest matches |
| `Wildcard.StarMatchesAll` | dll/kernel32/fileapi.cpp:294-331 | a star alone matches everything |
| `Wildcard.SkipStars` | dll/kernel32/fileapi.cpp:327-330 | at the end of the text the rest of the pattern matches exactly if it is all stars |
| `Wildcard.LaterStarWins` | dll/kernel32/fileapi.cpp:308-312 | once a later star is reached the earlier one need never be retried |
| `Wildcard.RetryLosesNothing` | dll/kernel32/fileapi.cpp:319-323 | a failed alignment rules out one position of the star and no other |
| `Wildcard.EndDecides` | dll/kernel32/fileapi.cpp:327-330 | at the end of the text only the remaining pattern decides |
| `Calendar.DateRoundTrip` | dll/kernel32/timeutil.h:23-43 | every valid date survives the conversion to a day number and back |
| `Calendar.DayNumberRoundTrip` | dll/kernel32/timeutil.h:23-63 | every integer is the number of the valid date it is converted to |
| `Calendar.NextDayIsNextNumber` | dll/kernel32/timeutil.h:23-30 | day numbers rise by one from any date to its successor, over month, leap, century and 400-year ends |
| `Calendar.DayNumbersOrderDates` | dll/kernel32/timeutil.h:23-30 | day numbers order valid dates as year, month and day do |
| `Calendar.YearOfEra` | dll/kernel32/timeutil.h:32-43 | the year formula finds the year of the era for every day of it |
| `Calendar.Epochs` | dll/kernel32/timeutil.h:23-30 | 1970-01-01 is day 0 and 1601-01-01 is day -134774 |
| `FileTimes.ConversionIsInstant` | dll/kernel32/timeutil.h:65-155 | a valid time converts to its instant, or fails exactly beyond the last FILETIME |
| `FileTimes.DecodesInstant` | dll/kernel32/timezoneapi.cpp:40-67 | every FILETIME below 2^63 decodes to valid fields of its instant with the right day of week |
| `FileTimes.FileTimeRoundTrip` | dll/kernel32/timezoneapi.cpp:14-67 | ticks survive the round trip rounded down to a millisecond; the exact domain |
| `FileTimes.SystemTimeRoundTrip` | dll/kernel32/timezoneapi.cpp:14-67 | every field but the day of week survives, and that is recomputed from the date |
| `FileTimes.ConversionIsMonotone` | dll/kernel32/timezoneapi.cpp:14-38 | FILETIMEs order times exactly as their fields do |
| `FileTimes.ConvertibleTimes` | dll/kernel32/timezoneapi.cpp:14-38 | exactly the valid times up to 30828-09-14 02:48:05.477 convert |
| `CommandLine.BuildCommandLine` | src/main.cpp:381-418 | the nested loops build the quoted arguments separated by spaces |
| `CommandLine.AppendArgument` | src/main.cpp:386-413 | one argument is appended quoted |
| `CommandLine.SplitCommandLine` | src/processes_common.cpp:304-353 | the index loops compute the recursive splitting |
| `CommandLine.ReadArgument` | src/processes_common.cpp:319-347 | one argument and where the scan stops |
| `CommandLine.ScanUndoesEscape` | src/processes_common.cpp:322-345 | inside quotes the scan undoes the escaping, whatever follows |
| `CommandLine.EscapeLiteral` | src/main.cpp:390-410 | without quotes escaping only doubles trailing backslashes |
| `CommandLine.WhoIsQuoted` | src/main.cpp:387-389 | exactly the arguments with a quote, space, tab or newline are quoted |
| `CommandLine.PlainWords` | src/processes_common.cpp:313-350 | words without quotes are separated by spaces and tabs alike |
| `CommandLine.SplitJoin` | src/processes_common.cpp:304-353 | what splitting recovers from any list of arguments |
| `CommandLine.RoundTrip` | src/main.cpp:381-415 | the list comes back if and only if every argument is non-empty, NUL-free, and quoted if it ends in a backslash |
| `CommandLine.RoundTripFailures` | src/main.cpp:381-415 | an empty argument disappears and a lone backslash is doubled |
| `Md5.CountersAdvance` | dll/advapi32/md5.c:223-226 | the two counters with their carry count bytes modulo 2^61 |
| `Md5.LengthField` | dll/advapi32/md5.c:277-279 | the field written is the bit length modulo 2^64, little-endian |
| `BlockHash.LittleEndianBytes` | dll/advapi32/md5.c:252-256 | byte i of the length field has weight 256 to the i |
| `BlockHash.FewestZeros` | dll/advapi32/md5.c:264-275 | the padding has the fewest zeros that make whole blocks |
| `Md5.Context.constructor` | dll/advapi32/md5.c:207-216 | the context of the empty message |
| `Md5.Context.Body` | dll/advapi32/md5.c:100-205 | whole blocks are absorbed in order |
| `Md5.Context.Update` | dll/advapi32/md5.c:218-250 | the context afterwards is that of the concatenated message |
| `Md5.Context.Final` | dll/advapi32/md5.c:258-289 | the chaining value of the padded message, for every length |
| `Md5.HashChunks` | dll/advapi32/md5.c:207-289 | the digest depends on the concatenation only and follows sections 3.1 and 3.2 of RFC 1321 |
| `Sha1.LengthFieldIsRight` | dll/advapi32/sha1.h:367-376 | the field written is right if and only if the length modulo 2^32 is below 2^29 |
| `BlockHash.BigEndianIsReversed` | dll/advapi32/sha1.h:367-376 | the big-endian field is the same bytes from the other end |
| `Sha1.PaddingIsRight` | dll/advapi32/sha1.h:352-377 | hence the padding is that of section 4 of RFC 3174 in exactly these cases |
| `Sha1.ShortestWrongPadding` | dll/advapi32/sha1.h:367-376 | 2^29 bytes are padded wrongly |
| `Sha1.Context.constructor` | dll/advapi32/sha1.h:268-281 | the context of the empty message |
| `Sha1.Context.Update` | dll/advapi32/sha1.h:283-326 | the context afterwards is that of the concatenated message, whichever path each piece took |
| `Sha1.Context.Finalize` | dll/advapi32/sha1.h:328-385 | the chaining value of the message padded with the field the code writes |
| `Sha1.HashChunks` | dll/advapi32/sha1.h:268-385 | for messages of any length the digest depends on the concatenation only, and is right wherever the field is |

## Left out

- The mimalloc arenas, `mapArena`, guest stacks, reading `/proc/self/maps`, allocation names and the real `mmap`, `mprotect` and `madvise`: the host is a parameter that may refuse any call.
- `virtualFree` flag decoding, null out-pointers and the 64-bit overflow branches of the memory manager: guest addresses and sizes are below 2^32 and the host has 64-bit addresses.
- macOS address constants.
- Liveness: that `WaitOnAddress` and the condition variable of InitOnce eventually wake anyone; waits may return at any time.
- `DeleteCriticalSection`, reinitialisation, LONG overflow of LockCount, and calls of `LeaveCriticalSection` by a thread that is not inside.
- `InitOnceComplete` by a thread that was not told "pending".
- `Handles::clear`, `setInformation`, `getInformation`, and handle values of indices from 2^29 on, which wrap around.
- Named-pipe states, which are unpublished by their own destructor, and permanent names.
- HandleTable.Handles.Release: the reference counts behind a slot are in `ObjectLifetime`, which models the same code as separate steps.
- Host-to-guest thunks, variadic functions, 64-bit mode switches, the text form of the assembly, and wrap-around of 32-bit addresses; memory is made of aligned double words and an unaligned access faults.
- The kqueue and io_uring backends, cancellation, shutdown, epoll registration and flags, and file requests' results.
- Null thread blocks, module TLS arrays and their garbage lists; memory returned by the guest heap is a parameter that may be refused.
- Character sets other than the `char` comparisons of the matcher; directory enumeration.
- Local time zones, DOS dates, null pointer arguments and last-error values; calendar integers are unbounded.
- Null command lines.
- The MD5 and SHA-1 round functions, the digest's byte order and the wiping of contexts; the block function is a parameter. The full-cache branch of `sha1_finalize` cannot be reached.
- PE loading, imports, module search, path resolution, process spawning, console, registry, RPC, OLE and sockets.
