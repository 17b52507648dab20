# pocker, verified models

pocker traces a process tree with ptrace to give it a root file system of its own. It runs on a small
async runtime, krsm. This project models the parts of both whose correctness is hardest to see and
proves what they promise, for all inputs and all runs.

| file | models |
|---|---|
| `SlotSearch.dfy`, `FixedSizedMap.dfy` | krsm's map of fixed capacity: a sorted slot array with in-place shifts, and its key join |
| `FutureTrees.dfy`, `AsyncRuntime.dfy` | hand-over of one stored response through trees of `or` and `zip`, and the counts of registered futures |
| `TaskTracker.dfy`, `TaskRuns.dfy` | the tracker for work given to another thread, and its runs beside the runtime |
| `StrongFuture.dfy` | the strong/weak future pair and the wrappers pocker builds around it |
| `SyscallStops.dfy` | the stop protocol between kernel and tracer, as a state machine over all schedules |
| `Injection.dfy` | system calls spliced into a tracee after an exec |
| `Hardlinks.dfy` | fake hard links as a refinement of a name space with real inodes |
| `StructLists.dfy`, `Getdents.dfy` | lists of variable-length records in tracee memory, and the rewriting of directory listings |
| `ArgvRebuild.dfy` | the zero-run readers and the rebuilt argument vector |
| `ScratchArea.dfy` | the scratch area of one system call, and shebang expansion |
| `SharedRegions.dfy` | the allocator of regions in the shared mapping |
| `SeccompFilter.dfy` | the seccomp filter program and the tracer's index, built from one table |
| `PathResolution.dfy` | path translation along chains of absolute symlinks |

`dafny verify dfyconfig.toml` checks everything.

## What turned out to hold only under a condition

The lemma named first in each item is an equivalence, so the condition is exact.

- `inner_join_keys` is meant to intersect two key sets. It takes found entries out of the array it goes on
  searching, and an emptied slot sends later searches to the left. It yields the whole intersection just if
  no common key sits in a slot that is a left probe of another common key's slot (`SlotSearch.JoinExact`).
  An entry survives just if its key is common and no survivor sits at one of its left probes
  (`SlotSearch.JoinSurvivors`). At the default capacity of 1024, common keys in the third and fourth slot are never
  both kept (`SlotSearch.JoinLosesFourth`).
- A run of the task tracker loses no response of a reason that stays pending just if, before every sync, no task
  that the join keeps sits at a left probe of a finished task of a pending reason, and no such task meets a full slot
  (`TaskRuns.RunLosesNothingExactly`). All tasks of pending reasons survive just if every join is probe-free
  (`TaskRuns.RunKeepsTasksExactly`). At capacity 5 a run of seven steps loses the response for the fifth reason
  (`TaskRuns.LosingRun`).
- A sync that follows an unblocking one, with no async step between them, panics just if some finished task survives
  the join (`TaskRuns.SecondSyncPanics`). A finished task of a pending reason need not: with the tasks 2 to 5, the
  last one finished, and the reasons 1 to 5 pending at capacity 5, there is no panic and the response is dropped
  (`TaskRuns.FinishedTaskLost`).
- A strong future is sound just if its wrapper stays pending until the inner future completes and is then
  done on its next poll (`StrongFutures.RunsWellIffInStep`). For the `try_zip` tree in
  `augment_sys_paths` this means that some handler waits and none fails before the system call
  (`StrongFutures.HandlersRunWell`); `augment_hardlink_creation` does fail there when its source is missing.
- `wait_for_syscall` alternates between entries and exits on all runs from attaching on just if the kernel
  is not a legacy one or seccomp is not used (`SyscallStops.AlternationExactly`). On a legacy kernel the
  switch to seccomp returns the next call's entry as this call's exit.
- A rebuilt argument vector keeps its arguments just if no eight zero bytes span two neighbouring pointers
  (`ArgvRebuild.ArgvKeptIffNoStraddle`). The addresses 0x10000 and 0x1000000 do span them, and the program is then
  left without arguments (`ArgvRebuild.StraddleCutsArgv`). An empty vector scans to seven bytes
  (`ArgvRebuild.EmptyArgvTooShort`), and dropping the first pointer from them is a panic in the original.
- A list of structs that is written and read back is the same list, up to the size fields, just if in every struct
  over-long zero runs occur only in its tail, and some word was dropped or the struct already carried its full size
  (`StructLists.RoundTripExactly`). A struct with such a run further in reads back with its last word moved
  (`StructLists.InnerRunIsLost`).
- A written record's size field is right just if some word was dropped or the struct already carried its
  full size (`StructLists.SizeFieldExactly`).
- The buffer limit of `write_structs_to_tracee` is compared with the start of each word. No list goes past the limit
  just if the limit is a multiple of eight or too small for any record (`StructLists.LimitKeptExactly`). Under a
  limit of 25 bytes a struct of four words is written with all its 32 bytes (`StructLists.LimitOverrun`).

## Modelling choices

- Keys are integers and reasons are keys: only their order matters to the original.
- The search over the slot array is the halving loop of Rust's current standard library, which is
  not part of the repository. That a hit really holds the key is proved for any array.
- Async code between two awaits is a function from the awaited value to the next place where the code
  blocks; a child of a strong future is the list of its poll outcomes. Both are arbitrary. Code that tries again
  after every error can keep a poll from ending; `fuel` bounds the resumptions that follow one another in a poll,
  and where it suffices, more of it changes nothing (`FutureTrees.MoreFuel`).
- The kernel is nondeterministic: signals, clone and fork events, other stops, traced and untraced calls come
  in any order that its hooks allow. The entry hook precedes the seccomp check except on legacy kernels.
- Random ids, process ids and inode numbers are parameters that must be unused. Links, files, renaming rules
  and reads from tracee memory are parameters as well. `ScratchArea.Faithful` says that a read returns what the
  memory holds. The lowest stack address that the kernel lets the tracer write to is a parameter, too.
- A machine word has eight bytes. Addresses and counters do not wrap around.
- Names in the hard link model are regular files or fake hard links. The failing branch of link creation
  reports a missing source as an error, like the specification does, although the original then ends the tracee.

## Model

| member | source | states |
|---|---|---|
| `FixedSizedMaps.MoveWithin` | krsm/src/common.rs:12-26 | the block arrives in order, cells outside both ranges keep their values, and the array is a permutation of the old one |
| `SlotSearch.SearchOrdered` | krsm/src/common.rs:57-69 | on a sorted, packed array a present key is hit and an absent key misses at its insertion point |
| `FixedSizedMaps.FixedSizedMap.FindSlot` | krsm/src/common.rs:62-69 | the loop follows the search function on every array, sorted or not |
| `FixedSizedMaps.FixedSizedMap.constructor` | krsm/src/common.rs:42-47 | a new map is empty and valid |
| `FixedSizedMaps.FixedSizedMap.Edit` | krsm/src/common.rs:72-83 | the map is updated at the key just if it was there; the array stays sorted and packed |
| `FixedSizedMaps.FixedSizedMap.Read` | krsm/src/common.rs:86-95 | the value under the key, None exactly if absent |
| `FixedSizedMaps.FixedSizedMap.Find` | krsm/src/common.rs:105-116 | the matching entry with the least key, None exactly if no entry matches |
| `FixedSizedMaps.FixedSizedMap.InnerJoinKeys` | krsm/src/common.rs:118-144 | a valid map of old entries under common keys; all of them exactly if no common key is a left probe of another |
| `FixedSizedMaps.FixedSizedMap.MapEdit` | krsm/src/common.rs:149-158 | the callback's state and the entries are those of the edit function; slots stay packed, and the map stays valid exactly if the keys are still ascending |
| `FixedSizedMaps.EditedUpToStop` | krsm/src/common.rs:146-158 | every entry up to the one at which the callback stops is edited once, in order; later ones stay |
| `FixedSizedMaps.EditedKeys` | krsm/src/common.rs:149-158 | a callback that leaves keys alone keeps the keys and their order, however it stops |
| `FixedSizedMaps.FixedSizedMap.Remove` | krsm/src/common.rs:179-192 | the finite map without the key, and the value it had |
| `FixedSizedMaps.FixedSizedMap.SetDefault` | krsm/src/common.rs:194-211 | a new key is added, an existing one is kept, a full map refuses a new key unchanged |
| `SlotSearch.SearchPunched` | krsm/src/common.rs:127-135 | with holes in the array a remaining key is found exactly if no hole is one of its left probes |
| `SlotSearch.JoinMember` | krsm/src/common.rs:127-140 | every joined entry is an old entry under a key of the other map |
| `SlotSearch.JoinAscending` | krsm/src/common.rs:126-140 | joined entries are in strictly ascending key order |
| `SlotSearch.JoinSurvivors` | krsm/src/common.rs:126-136 | an entry is joined if and only if its key is common and no joined entry sits at one of its left probes |
| `SlotSearch.JoinIsSurvivors` | krsm/src/common.rs:126-140 | the join is the sequence of these entries in slot order |
| `SlotSearch.FirstSurvives` | krsm/src/common.rs:126-136 | of the common keys at least the least one is kept |
| `SlotSearch.JoinExact` | krsm/src/common.rs:118-144 | the join is the intersection if and only if no common key sits at a left probe of another one |
| `SlotSearch.JoinLosesFourth` | krsm/src/common.rs:118-144 | at capacity 1024, common keys in the third and fourth slot are never both kept |
| `SlotSearch.SelfJoinLosesKeys` | krsm/src/common.rs:118-144 | keys 1 to 5 at capacity 5, joined with the same keys, leave 1, 2 and 3 |
| `SlotSearch.JoinKeepingExact` | krsm/src/common.rs:118-118 | a join that copies instead of taking is the intersection for all inputs |
| `FutureTrees.PollUnmatched` | krsm/src/runtime.rs:188-198 | a response no leaf awaits leaves tree, slot and counts unchanged |
| `FutureTrees.StartedLeaf` | krsm/src/runtime.rs:93-105 | a new future with room waits and is counted; one without room has its code go on with the error |
| `FutureTrees.StartedOr` | krsm/src/runtime.rs:379-440 | the code behind an or() goes on with the value of the half that ends, the left one first; the other half is dropped |
| `FutureTrees.StartedZip` | krsm/src/runtime.rs:329-377 | the code behind a zip() goes on with both values, the left one first, once both halves have ended |
| `FutureTrees.LeafReceives` | krsm/src/runtime.rs:188-198 | the code behind an awaited future goes on with the very response that was stored |
| `FutureTrees.LeftReceives` | krsm/src/runtime.rs:379-410 | of two futures for one reason the left one gets the response |
| `FutureTrees.PollDelivers` | krsm/src/runtime.rs:188-198 | a poll equals direct delivery to the first matching leaf in poll order: its code goes on with the response, that behind an or() with the finished half, that behind a zip() with both values; also if resumed code awaits the same reason at once or finds no room; the slot is emptied |
| `AsyncRuntimes.CountsAgreeAlways` | krsm/src/runtime.rs:93-105 | in every history of first polls, failures and drops the counts equal the registered futures |
| `AsyncRuntimes.DropsNeverSaturate` | krsm/src/runtime.rs:214-228 | in every such history each drop meets a positive count, so the saturating branch is never needed |
| `AsyncRuntimes.AsyncRuntime.Register` | krsm/src/runtime.rs:93-105 | registration counts one up, or fails exactly on a new reason in a full map, and then dropping the guard changes nothing |
| `AsyncRuntimes.AsyncRuntime.DropGuard` | krsm/src/runtime.rs:217-227 | one down, and the reason is removed with its last future |
| `AsyncRuntimes.AsyncRuntime.Release` | krsm/src/runtime.rs:214-228 | dropping a registered future finds a positive count and keeps counts and futures in agreement |
| `AsyncRuntimes.AsyncRuntime.UnblockFutures` | krsm/src/runtime.rs:135-142 | fills the empty slot; panics exactly on a full one, which stays |
| `AsyncRuntimes.AsyncRuntime.CheckPendingReasons` | krsm/src/runtime.rs:157-163 | the least pending reason that satisfies the callback, None exactly if there is none |
| `AsyncRuntimes.AsyncRuntime.StartTree` | krsm/src/runtime.rs:93-105 | the first poll registers leaves in poll order, or has their code go on with the error; the counts change by just the leaves that are left |
| `AsyncRuntimes.AsyncRuntime.PollTree` | krsm/src/runtime.rs:183-212 | polling through the fields agrees with the poll function, and the counts change by just the leaves that came and went |
| `AsyncRuntimes.AsyncRuntime.RunAsyncStep` | krsm/src/runtime.rs:114-127 | for every program, one step delivers to the first matching leaf or changes nothing, empties the slot, and leaves counts equal to the leaves of the new tree |
| `TaskTrackers.TaskTracker.FirstCompleted` | krsm/src/tasks.rs:57-57 | the least pending reason with a finished task |
| `TaskTrackers.TaskTracker.Sync` | krsm/src/tasks.rs:46-70 | exactly the tasks that the key join keeps survive, all of a pending reason just if it is probe-free; the first finished one of them leaves the tracker and its response fills the slot; panics exactly if there is one and the slot is full; ready exactly if no task was of a pending reason |
| `TaskTrackers.TaskTracker.Register` | krsm/src/tasks.rs:81-84 | adds an unfinished task, keeps an existing one, fails exactly on a full tracker |
| `TaskTrackers.TaskTracker.RegisterIf` | krsm/src/tasks.rs:86-106 | existing tasks are kept, new ones are unfinished and of matching pending reasons; success exactly if all of those are tracked, otherwise the tracker is full and those of the least reasons were added |
| `TaskTrackers.TaskTracker.Work` | krsm/src/tasks.rs:108-131 | each task takes its response, a failed one keeps what it had; success exactly if none failed, otherwise the error of the failed task with the greatest reason |
| `TaskRuns.UnblocksAreJustified` | krsm/src/tasks.rs:52-60 | in every run a response fed back is one the worker gave for a reason pending then; it is that of a tracked task, which leaves, and the tracker shrinks |
| `TaskRuns.ReadyExactly` | krsm/src/tasks.rs:41-67 | in every run a sync reports readiness if and only if no task was of a pending reason, although the join may lose tasks; the tracker is empty then and the slot untouched |
| `TaskRuns.OneUnblockPerStep` | krsm/src/runtime.rs:129-142 | in every run an async step lies between any two unblocked futures |
| `TaskRuns.SecondSyncPanics` | krsm/src/runtime.rs:136-139 | in every run a sync behind an unblocking one, with no async step between, panics if and only if some finished task is of a pending reason and no survivor of the join sits at one of its left probes |
| `TaskRuns.FinishedTaskLost` | krsm/src/tasks.rs:50-60 | with tasks 2 to 5, the last one finished, reasons 1 to 5 pending, capacity 5 and a full slot, sync does not panic and drops the finished task |
| `TaskRuns.LosingRun` | krsm/src/tasks.rs:50-70 | a run that reaches this state and loses the response |
| `TaskRuns.SyncLosesNothingExactly` | krsm/src/tasks.rs:50-60 | a sync keeps or hands over every response of a pending reason if and only if no survivor sits at a left probe of a finished task of a pending reason, and no such task meets a full slot |
| `TaskRuns.RunLosesNothingExactly` | krsm/src/tasks.rs:46-70 | a run loses no response of a reason that stays pending if and only if each of its syncs meets that condition |
| `TaskRuns.ResponseArrives` | krsm/src/tasks.rs:46-70 | in such a run a response whose reason stays pending is in the tracker until it is handed over |
| `TaskRuns.RunKeepsTasksExactly` | krsm/src/tasks.rs:50-50 | all tasks of pending reasons survive the joins of a run if and only if these are probe-free |
| `TaskRuns.ProbeFreeIsClear` | krsm/src/tasks.rs:50-60 | a probe-free join over an empty slot loses no response |
| `StrongFutures.StrongFuture.Poll` | krsm/src/futures.rs:183-222 | polling through the fields agrees with the poll function |
| `StrongFutures.StrongFuture.TakeResult` | krsm/src/futures.rs:299-304 | hands out the result and empties the cell |
| `StrongFutures.RunsWellIffInStep` | krsm/src/futures.rs:183-222 | completion in the same poll as the inner future, with no poll after completion, if and only if the wrapper keeps in step; and the output |
| `StrongFutures.EarlyOutputIsLost` | krsm/src/futures.rs:193-208 | the outcome of no poll depends on what a wrapper that is ready early returns |
| `StrongFutures.EarlyWrapperMisused` | krsm/src/futures.rs:193-208 | a wrapper that is ready early is polled after its completion |
| `StrongFutures.LateWrapperPanics` | krsm/src/futures.rs:184-191 | a wrapper that is not ready in time leads to the re-entry panic |
| `StrongFutures.HandlersPoll` | sysaug/src/aug_paths.rs:58-78 | when a tree of handlers is ready before and after the result is set |
| `StrongFutures.HandlersRunWell` | sysaug/src/aug_paths.rs:55-79 | a tree of handlers works around every inner future if and only if one waits and none fails early |
| `SyscallStops.SyscallWaiter.Begin` | sysaug/src/handler_async.rs:174-190 | the wait and the resume mode chosen from the two flags |
| `SyscallStops.SyscallWaiter.Deliver` | sysaug/src/handler_async.rs:197-240 | what a stop does to a pending wait, including the second round on legacy kernels |
| `SyscallStops.KernelStepAligned` | sysaug/src/handler_sync.rs:161-180 | every move of the tracee keeps it where the pending wait relies on it being |
| `SyscallStops.HandleAligned` | sysaug/src/handler_sync.rs:242-293 | so does every stop that the tracer handles, if no switch is outstanding on a legacy kernel |
| `SyscallStops.EntriesAndExitsAlternate` | sysaug/src/handler_async.rs:477-555 | on every run of a non-legacy kernel, or without seccomp, returns alternate between entry and exit of the same call, each pair for a later call, and no wait fails |
| `SyscallStops.SteadyAlternates` | sysaug/src/handler_async.rs:163-240 | on any kernel the same holds from the steady state on |
| `SyscallStops.StopsAreHandled` | sysaug/src/handler_async.rs:197-240 | in every reachable state each stop is handled: the awaited one is returned and logged, any other changes nothing there, and the tracee may go on |
| `SyscallStops.NoCallMissed` | sysaug/src/handler_async.rs:163-240 | on every run no call during initialisation, and no call that the filter traces later, gets past its exit stop without having been returned as an entry and then as an exit |
| `SyscallStops.EntrySeenInside` | sysaug/src/handler_async.rs:163-240 | nor does such a call run inside the kernel before its entry was returned |
| `SyscallStops.UntracedIsUnseen` | sysaug/src/handler_async.rs:174-190 | once seccomp is used, a call that is not traced runs without a stop |
| `SyscallStops.LegacySwitchSlips` | sysaug/src/handler_async.rs:522-529 | a legacy run in which the switch returns the next call's entry as an exit |
| `SyscallStops.AlternationExactly` | sysaug/src/handler_async.rs:163-240 | alternation on all runs from attaching on if and only if the kernel is not legacy or seccomp is unused |
| `Injection.TraceeInit.InsertSyscall` | sysaug/src/handler_async.rs:558-632 | the sequence of register changes amounts to one insertion, and the caller gets the inserted call's return value |
| `Injection.TraceeInit.InsertAll` | sysaug/src/handler_async.rs:635-729 | initialisation is a sequence of insertions |
| `Injection.InsertionsRunInOrder` | sysaug/src/handler_async.rs:558-632 | each inserted call runs once, in order, and the tracee is back before its own call |
| `Injection.InjectionTransparent` | sysaug/src/handler_async.rs:558-632 | the interrupted call then runs once with its number, arguments and program counter, and ends as if nothing had been inserted |
| `Hardlinks.HardlinkStore.CreateLink` | sysaug/src/aug_paths_links.rs:45-117 | moving aside, the symlinks and the two counter updates add up to the link step, in the error cases too |
| `Hardlinks.HardlinkStore.IncrementCounter` | sysaug/src/aug_paths_links.rs:226-235 | a missing counter becomes one, another grows by one |
| `Hardlinks.HardlinkStore.DropLink` | sysaug/src/aug_common.rs:115-150 | counts down, or deletes backing file and counter |
| `Hardlinks.HardlinkStore.Unlink` | sysaug/src/aug_paths.rs:87-101 | entry hook and kernel together remove the name and give up its link |
| `Hardlinks.HardlinkStore.Rename` | sysaug/src/aug_paths_links.rs:152-224 | no-op between names of one file, otherwise the replaced name gives up its link and the entry moves |
| `Hardlinks.LinkConsistent` | sysaug/src/aug_paths_links.rs:58-102 | linking keeps counters equal to the number of names and backing files existing exactly while named |
| `Hardlinks.UnlinkConsistent` | sysaug/src/aug_common.rs:115-150 | so does unlinking |
| `Hardlinks.RenameConsistent` | sysaug/src/aug_paths_links.rs:167-188 | so does renaming |
| `Hardlinks.LinkEffect` | sysaug/src/aug_paths_links.rs:45-117 | a link fails exactly on a missing source or an existing target; otherwise the new name reads as the old one and shares its file; all else is as before |
| `Hardlinks.UnlinkEffect` | sysaug/src/aug_paths.rs:87-101 | the name is gone; all other names, contents and shared files are as before |
| `Hardlinks.RenameNothing` | sysaug/src/aug_paths_links.rs:152-178 | a missing name is an error, and nothing changes between names of one file |
| `Hardlinks.RenameEffect` | sysaug/src/aug_paths_links.rs:167-188 | otherwise the old name is gone, the new one is that file, and all else is as before |
| `Hardlinks.WriteEffect` | sysaug/src/aug_paths_links.rs:58-102 | what is written through one name is read through all names of the file and no other |
| `Hardlinks.CreateEffect` | sysaug/src/aug_paths_links.rs:58-102 | a created file is a file of its own |
| `Hardlinks.LinkRefines` | sysaug/src/aug_paths_links.rs:45-117 | names, contents, sharing and result agree with link() on real inodes |
| `Hardlinks.UnlinkRefines` | sysaug/src/aug_paths.rs:87-101 | names, contents and sharing agree with unlink() on real inodes |
| `Hardlinks.RenameRefines` | sysaug/src/aug_paths_links.rs:152-188 | names, contents, sharing and result agree with rename() in POSIX.1-2017 System Interfaces, including its no-op |
| `Hardlinks.RunsRefineInodes` | sysaug/src/aug_paths_links.rs:45-235 | all of this after every run of creating, writing, linking, unlinking and renaming |
| `StructLists.WriteStruct` | ptrace/src/common.rs:489-535 | one struct is written as its record and earlier words stay; it is refused exactly if the header does not fit or the last word starts behind the limit |
| `StructLists.WriteStructs` | ptrace/src/common.rs:457-537 | the buffer holds the records in order and the byte count is theirs; a list is refused exactly if its last record does not pass those checks |
| `StructLists.LimitKeptExactly` | ptrace/src/common.rs:496-521 | no accepted list goes past the limit if and only if the limit is a multiple of a word or below the size of a header |
| `StructLists.LimitOverrun` | ptrace/src/common.rs:510-521 | one struct of four words is accepted under a limit of 25 bytes and takes 32 |
| `StructLists.ReadStructs` | ptrace/src/common.rs:302-375 | the loop returns the structs of a record list or its first error |
| `StructLists.RecordListRead` | ptrace/src/common.rs:326-373 | a list of records is read as one struct for each, in order and padded with zeroes |
| `StructLists.OnlyRecordListsRead` | ptrace/src/common.rs:326-373 | nothing else is read without an error |
| `StructLists.FirstErrorReported` | ptrace/src/common.rs:340-366 | the first thing that is no record decides which error is reported |
| `StructLists.ShrunkExactly` | ptrace/src/common.rs:510-524 | a word is written, in its turn, exactly if it does not end a run of more zeroes than the criterion |
| `StructLists.RecordExactly` | ptrace/src/common.rs:509-533 | a record is the header, with the new size if a word was dropped and all else kept, and these words |
| `StructLists.RecordOfShortRuns` | ptrace/src/common.rs:509-533 | a struct without over-long inner runs is written as its used words and at most the criterion's number of zeroes, under the matching size if a word was dropped |
| `StructLists.StructListRoundTrip` | ptrace/src/common.rs:302-537 | reading back intact structs returns them in order, with the sizes written |
| `StructLists.RoundTripExactly` | ptrace/src/common.rs:302-537 | a list reads back as the same structs, up to their size fields, if and only if each of them is intact |
| `StructLists.SizeFieldExactly` | ptrace/src/common.rs:526-529 | the size field equals the bytes written if and only if a word was dropped or the full size was there already |
| `StructLists.InnerRunIsLost` | ptrace/src/common.rs:510-524 | a struct with three zeroes in front of its last word reads back with that word one place earlier |
| `Getdents.RecordGrowth` | ptrace/src/common.rs:510-524 | a directory entry is written with at most two words more than it uses |
| `Getdents.ReadAccounts` | ptrace/src/common.rs:326-373 | the structs read account for every word of the listing |
| `Getdents.KeptFits` | sysaug/src/aug_paths_getdents.rs:29-32 | the rewritten listing is at most twice the listing the kernel returned |
| `Getdents.EditEntries` | sysaug/src/aug_paths_getdents.rs:78-105 | the two passes yield the kept entries |
| `Getdents.KeptExactly` | sysaug/src/aug_paths_getdents.rs:78-105 | each entry that is not hidden stands, edited, in the place that counts those in front of it; there are no others |
| `Getdents.ReplaceListing` | sysaug/src/aug_paths_getdents.rs:60-122 | a well-formed listing is rewritten exactly if its records pass the writer's checks, which is always so if no name grows; it reads back as the kept entries if and only if those are intact |
| `ArgvRebuild.ReadUntilZeroes` | ptrace/src/mem_direct.rs:205-229 | for every chunk size the bytes in front of the end of the first zero run of the given length |
| `ArgvRebuild.ScanExactly` | ptrace/src/mem_slow.rs:102-125 | the scan ends at the first byte behind which enough zeroes in a row lie, and fails exactly if there is none |
| `ArgvRebuild.LeadExactly` | sysaug/src/aug_exec.rs:65-69 | the zero bytes that a pointer starts with, and no more |
| `ArgvRebuild.TrailExactly` | sysaug/src/aug_exec.rs:65-69 | the zero bytes that a pointer ends with, and no more |
| `ArgvRebuild.FlatAt` | sysaug/src/aug_exec.rs:165-170 | pointer i of a vector stands at byte 8 i |
| `ArgvRebuild.KernelArgvAt` | sysaug/src/aug_exec.rs:161-173 | the kernel's arguments are the words of the vector in order, up to the first null word |
| `ArgvRebuild.ScanVector` | ptrace/src/mem_slow.rs:102-125 | scanning a vector yields its pointers up to the first straddling run, and that run's zeroes but one |
| `ArgvRebuild.Rebuild` | sysaug/src/aug_exec.rs:165-170 | prefix, old bytes without their first word, null word |
| `ArgvRebuild.RebuiltArgv` | sysaug/src/aug_exec.rs:161-173 | the kernel reads the prefix and the old arguments from the second on, as far as the scan got |
| `ArgvRebuild.ArgvKeptIffNoStraddle` | sysaug/src/aug_exec.rs:65-69 | all of them if and only if no zero run spans two neighbouring pointers |
| `ArgvRebuild.KeptArgsAll` | sysaug/src/aug_exec.rs:65-69 | a round of expansion carries on all arguments but the first if and only if no zero run straddles |
| `ArgvRebuild.StraddleCutsArgv` | sysaug/src/aug_exec.rs:65-69 | with the argument pointers 0x10000 and 0x1000000 the kernel reads the prefix and nothing else |
| `ArgvRebuild.RebuiltBytes` | sysaug/src/aug_exec.rs:161-173 | the rebuilt bytes are again a null-terminated vector, of the prefix and the arguments carried on |
| `ArgvRebuild.EmptyArgvTooShort` | sysaug/src/aug_exec.rs:161-169 | an empty vector scans to seven zero bytes |
| `ScratchArea.Scratch.Append` | sysaug/src/handler_async.rs:242-262 | in both memory modes a new block goes next to the used part and overlaps no earlier one of this system call, all of them stay readable, no other memory changes, and it fails exactly without enough room |
| `ScratchArea.Scratch.Reset` | sysaug/src/handler_async.rs:291-295 | the area is reused from its beginning, its memory as it was |
| `ScratchArea.NewBlockApart` | ptrace/src/mem_slow.rs:39-66 | a block behind the used part is apart from every block before it |
| `ScratchArea.WordWritten` | sysaug/src/aug_exec.rs:166-170 | word i of a rebuilt vector decodes, lowest byte first, to the i-th given address |
| `ScratchArea.Expander.Expand` | sysaug/src/aug_exec.rs:49-229 | ends for all files and keeps every block readable; with a scratch area inside the address space, after any number of scripts the program and the vector are those of the chain, word by word interpreter, argument, script path, and then the arguments carried on; succeeds with enough room; skips a missing or unknown file, runs a static one by its path on disk, and fails if every file is a script |
| `ScratchArea.ReadBackExactly` | ptrace/src/mem_direct.rs:205-229 | a string is read back up to its first zero byte |
| `ScratchArea.RoundSane` | sysaug/src/aug_exec.rs:192-220 | after a round for a script, path and vector are read back as the interpreter and the rebuilt vector |
| `ScratchArea.Expander.ExpandElf` | sysaug/src/aug_exec.rs:163-174 | interpreter, program and vector are appended; the words of the vector are the addresses of interpreter and program, then the old bytes without their first word; it fails exactly without room or vector |
| `ScratchArea.Expander.ExpandScript` | sysaug/src/aug_exec.rs:192-220 | interpreter, optional argument and vector are appended in that order; the words of the vector are the addresses of interpreter, argument and script path, then the old bytes without their first word; it fails exactly without room or vector |
| `SharedRegions.Regions.GetOwnRegionId` | ptrace/src/mem_direct.rs:49-66 | a thread keeps its region; a new one is zero and nobody else's, and only its id leaves the free list; fails exactly when every region is held |
| `SharedRegions.Regions.WriteBytes` | ptrace/src/mem_direct.rs:118-159 | the new mapping is the old one overlaid at the region's position, other regions stay, and the owner sees memory of its own; a write that does not fit changes nothing |
| `SharedRegions.Regions.CloseTracee` | ptrace/src/mem_direct.rs:77-98 | the region is zeroed and its id returned once; other regions stay |
| `SharedRegions.RegionsApart` | ptrace/src/lib.rs:101-109 | bytes of different regions never coincide, all lie in the mapping, regions start on pages |
| `SharedRegions.WriteInRegion` | ptrace/src/mem_direct.rs:145-159 | overlaying the mapping inside one region overlays that region and leaves all others as they were |
| `SeccompFilter.BuildIndex` | sysaug/src/syscalls.rs:608-622 | every number leads to its last slot; fails exactly on a number out of bound |
| `SeccompFilter.BuildFilters` | sysaug/src/syscalls.rs:680-728 | the array starts with the filter program, of 2n + 2 instructions for n calls; fails exactly on too long a table |
| `SeccompFilter.RunChecks` | sysaug/src/syscalls.rs:694-717 | the comparisons return TRACE for a listed number and ALLOW otherwise |
| `SeccompFilter.FilterAgreesWithLookup` | sysaug/src/syscalls.rs:624-633 | for every number the kernel traces exactly if the tracer's lookup finds it, and stays inside the program |
| `PathResolution.ReplacedEverywhere` | sysaug/src/aug_common.rs:336-343 | each mention of "/proc/self" becomes the tracee's directory, and everything between them is kept |
| `PathResolution.ReplacedMentionsNothing` | sysaug/src/aug_common.rs:336-343 | after one replacement no "/proc/self" is left, so the recursion ends |
| `PathResolution.FollowedExactly` | sysaug/src/aug_common.rs:319-358 | a link is followed exactly if following is on, the replaced path is a link, its target is not in the metadata directory, and was not visited; a visited one is a loop |
| `PathResolution.FollowedIsTarget` | sysaug/src/aug_common.rs:345-356 | a followed link is a link target that was not visited |
| `PathResolution.ResolveUnderRoot` | sysaug/src/aug_common.rs:255-264 | an absolute path that is not excluded is looked up under the root, or where the rule for that place says, and hidden if it says so |
| `PathResolution.ResolveInPlace` | sysaug/src/aug_common.rs:255-295 | an excluded or relative path, or one without a root, is left alone unless the rule for it says otherwise |
| `PathResolution.ResolveLink` | sysaug/src/aug_common.rs:267-316 | a link is followed from the place where its path is looked up, its target is translated in turn, and stands for itself if it needs none |
| `PathResolution.ResolveStep` | sysaug/src/aug_common.rs:268-316 | one round of the recursion in terms of the next link |
| `PathResolution.ResolutionFollowsChain` | sysaug/src/aug_common.rs:267-316 | ELOOP if and only if the chain of links revisits a path, otherwise the translated end of the chain |

## Left out

- Short reads of tracee memory, and reads that cross into unmapped pages: a chunk is read whole or fails.
- Overflow checks on addresses, and register layouts beyond call number, arguments, return value and program counter.
- Signals with special treatment: SIGSYS repair, the SIGSTOP of new children, the transfer to gdb. A signal handler that runs between two inserted calls is left out as well.
- Kernel version parsing: whether a kernel is legacy is an input.
- Failing kernel calls behind rename and unlink, metadata other than the link counter, ordinary symlinks and the return code of unlink on a regular file.
- Path comparison by components, `..` in paths, regular expressions: paths are strings, renaming rules are a function.
- `map_edit_batches` and `work_in_batches`: they hand whole slices to caller code and add nothing to `map_edit` and `work`.
- `aug_perms.rs` and `walk_res_bits`: bit and slot conventions in `config.rs` and `common.rs` disagree, so there is no single intended meaning.
- Command line, image download, procfs readers, logging and the executor's channels: input and output around the logic modelled here.
- AsyncRuntimes.AsyncRuntime.RunAsyncStep: polls that never end, in code that goes on for ever without blocking, are excluded; the original does not return from them either.
- AsyncRuntimes.AsyncRuntime.RunFirstStep: a response stored before the very first poll is excluded.
- StructLists.ReadStructs: sizes that are no multiple of a word end with an error, while the original goes on at an unaligned address; neither the kernel nor the writer produces them.
- SyscallStops.EntriesAndExitsAlternate: a tracee starts outside a system call, and initialisation ends only once the filter is installed, as the original's error return ensures.
