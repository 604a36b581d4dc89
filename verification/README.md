# Verified models of Chromium `base/`

Dafny models of the algorithms and protocols in `base/` that are hardest to get right, with
proofs of what their comments, headers and tests promise. Each module follows one component.

| module | component |
|---|---|
| `ShuffleRounds`, `ShuffleInvariants`, `ShuffleOutcomes`, `ShuffleChoices`, `Shuffle` | parallel assignment of file descriptors in place (`file_descriptor_shuffle.cc`): its rounds and runs, what they keep, what they mean, which choices of duplicates do harm, and the code |
| `CvLists`, `ConditionVariableSteps`, `EventRing` | the Windows condition variable: its lists as values, all interleavings of its threads, and the intrusive event rings on the heap |
| `SharedOwnership`, `LinkedPtrs` | `linked_ptr`: who deletes what, and the circular rings that decide it |
| `WindowsQuoting` | quoting of arguments, against the splitting rules of CommandLineToArgvW |
| `CommandLinePosix` | parsing and building argument vectors on POSIX |
| `FilePaths` | POSIX `FilePath`, and the parent loop of `CreateDirectory` |
| `DataPacks` | writing, loading and searching resource packs |
| `IdMaps` | `IDMap` with removals under nested iterators |
| `DirectoryTree`, `RecursiveDelete` | `FileEnumerator::Next` and recursive `Delete` |
| `Atomics`, `AtomicLoops`, `SequenceNumbers` | the ARM retry loops as refinements of atomic operations, by steps and call by call, and `GetNext` on top of them |
| `LazyInstances` | one-time initialisation |
| `Wrappers` | shared values |

Objects whose methods update their fields are classes, and each method is proved against a
function of the old state; the theorems are about those functions, or about every run of
them. Protocols between threads are step systems: one step is one access to shared memory,
one call into the operating system, or one section under a lock, and the theorems hold for
every interleaving of any number of threads.

Where the code does not do what it seems to promise, the exact condition is proved:

* `AlwaysAssignsIff`: over a delegate whose duplicates may be any descriptors that are not
  open, as those of `dup` may, every successful shuffle performs the parallel assignment if
  and only if no identity arc is followed by an arc with the same source that is still to be
  closed, and no duplicate that the clean-up remembers is made before an arc whose dest is not
  open at the start (and is not negative). `DupTakesADest` and `IdentityArcClosed` are inputs that fail.
* `RoundTripIffSurvives`: an argument list survives quoting if and only if every argument is
  non-empty and, if it holds a tab, also holds a space, a quote or a backslash; so does the
  value of a switch, if it has one (`ReadsBackIff`).
* `PosixComponentsIff`, `RelativePathReachesChild`: a leading `.` component is lost when
  another follows; three leading separators become the root `//`; a parent `./` is lost when
  a relative path is appended to it.
* `PerformKeepsIff`: a command line stays in step with its argument vector if and only if a
  name has no `=`, the terminator `--` is not written, and a plain argument changes no switch.
  The argument `-` is parsed as a switch with an empty name, which `CopySwitchesFrom` then
  writes out as the terminator.
* `CountsFromZero`, `NoRepeats`: sequence numbers count up from 0 for 2^31 calls and are
  distinct for 2^32, in two's complement arithmetic.

## Model

| member | source | states |
|---|---|---|
| Shuffle.PerformInjectiveMultimapDestructive | base/file_descriptor_shuffle.cc:15-73 | fails exactly when a delegate operation failed, which is then the last one: the rounds before it are complete and of the next at most the duplicate is made; a success with all sources open is a whole run of rounds, whose table, temporaries and closes are the real ones, and closes only open descriptors; descriptors that are no dest and that no arc asks to close are untouched even on failure, whatever is open |
| Shuffle.PerformInjectiveMultimap | base/file_descriptor_shuffle.cc:75-79 | the same for a copy of the arcs; and the caller's result: a success with all sources open, under the condition of AlwaysAssignsIff, gives every dest the object of its source, and with at most 16 duplicates leaves exactly the expected descriptors open; after a failure the arcs before it are carried out |
| Shuffle.InterruptedMeans | base/file_descriptor_shuffle.cc:34-64 | after a failure at some arc, with all sources open at the start, the dests before it hold their objects and the objects of all other arcs are still open somewhere, unless the arcs ask to close a dest |
| Shuffle.CarryOut | base/file_descriptor_shuffle.cc:23-67 | one arc: the inner loop, the move and the close extend the run by one round |
| Shuffle.Scan | base/file_descriptor_shuffle.cc:34-58 | the inner loop: duplicates the dest at most once, relabels exactly the later arcs that read it, and hands the close duty to the first later arc that reads the source, or drops it at one that writes it |
| Shuffle.CloseExtras | base/file_descriptor_shuffle.cc:69-70 | closes each recorded temporary once and changes nothing else |
| ShuffleRounds.RunKeepsReads | base/file_descriptor_shuffle.cc:23-67 | in every run, whatever descriptors are handed out, each arc still to come reads the object its original source held |
| ShuffleRounds.RunKeepsTemps | base/file_descriptor_shuffle.cc:36-48 | in every run the temporaries are distinct and open until the clean-up, and no arc is to close one |
| ShuffleRounds.RoundExists | base/file_descriptor_shuffle.cc:34-66 | with all sources open no round gets stuck, whichever descriptor that is not open is handed out |
| ShuffleInvariants.RoundKeepsReady | base/file_descriptor_shuffle.cc:23-67 | a round whose duplicate is no dest keeps the exact content of every descriptor, the pending arcs and the close duties |
| ShuffleInvariants.CleanRunOk | base/file_descriptor_shuffle.cc:23-67 | so does a run, which makes one duplicate for each arc whose dest is read later |
| ShuffleOutcomes.CleanRunOutcome | base/file_descriptor_shuffle.cc:15-73 | what such a run leaves behind: the expected content of every descriptor but leaked temporaries, and the sources closed |
| ShuffleOutcomes.ParallelAssignment | base/file_descriptor_shuffle.cc:15-73 | after it every dest holds what its arc's original source held before, if and only if the arcs do not ask to close a dest |
| ShuffleOutcomes.ConservesDescriptors | base/file_descriptor_shuffle.cc:34-70 | what is open afterwards is what was open plus the dests, minus each marked source that is no dest, plus only temporaries beyond the sixteenth; bystanders keep their objects |
| ShuffleOutcomes.ClosesMarkedSources | base/file_descriptor_shuffle.cc:51-66 | no source is closed twice, and the closed ones are exactly the marked sources that are no dest, if and only if the arcs do not ask to close a dest |
| ShuffleOutcomes.LeaksIffTooMany | base/file_descriptor_shuffle.cc:39-44 | up to 16 duplicates the table has no open descriptor too many; beyond, exactly one for each further duplicate |
| ShuffleChoices.RunCarriesOut | base/file_descriptor_shuffle.cc:23-67 | in every run, even one that hands out dests, the dests of the arcs carried out hold the right objects until the clean-up, unless the arcs ask to close a dest |
| ShuffleChoices.RunAssignsIff | base/file_descriptor_shuffle.cc:15-73 | a whole run performs the assignment if and only if the clean-up closes no dest |
| ShuffleChoices.AlwaysAssignsIff | base/file_descriptor_shuffle.cc:15-73 | every whole run, for every choice of descriptors that are not open, performs the assignment if and only if the arcs do not ask to close a dest and no remembered duplicate is made before an arc whose dest is not open at the start (and not negative) |
| ShuffleChoices.AlwaysConserves | base/file_descriptor_shuffle.cc:15-73 | under that condition and with at most 16 duplicates every whole run leaves open exactly the descriptors that were open and the dests, without the marked sources that are no dest: nothing is leaked |
| ShuffleChoices.LeaksBeyondSixteen | base/file_descriptor_shuffle.cc:39-44 | a run with more than 16 duplicates that hands out no dest leaves exactly one descriptor too many for each beyond the sixteenth |
| ShuffleChoices.DupTakesADest | base/file_descriptor_shuffle.cc:81-84 | a whole run on a table with 0 to 4 open in which the least descriptor that is not open is a dest and is closed in the end |
| ShuffleChoices.IdentityArcClosed | base/file_descriptor_shuffle.cc:54-66 | every whole run of a concrete pair of arcs closes a dest |
| Shuffle.Delegate.Duplicate | base/file_descriptor_shuffle.h:33-35 | any descriptor that is not open for the same object, or a failure that changes nothing |
| Shuffle.Delegate.Move | base/file_descriptor_shuffle.h:36-38 | dup2: the dest gets the source's object, the source stays open |
| Shuffle.Delegate.Close | base/file_descriptor_shuffle.h:39-40 | removes a descriptor, and counts it if it was not open |
| CvLists.WithoutMeans | base/condition_variable_win.cc:238-249 | taking an element out of a list removes its one occurrence and keeps the order of the rest |
| ConditionVariableSteps.StepKeepsInv | base/condition_variable_win.cc:52-142 | every step of any thread keeps the invariant on events, counters, order of the waiters and pending wake-ups |
| ConditionVariableSteps.Bookkeeping | base/condition_variable_win.cc:112-142 | in every reachable state: distinct events for distinct waiters; every allocated event is recycled or owned by one waiter and not both, and only owned events are listed; the recycling count is exact; allocations equal the peak number of simultaneous waiters |
| ConditionVariableSteps.AllocationsArePeak | base/condition_variable_win.cc:108-127 | a new event is made only when no more waiters were ever inside at once |
| ConditionVariableSteps.DestructorTestIsExact | base/condition_variable_win.cc:27-43 | the two counters are equal exactly when nobody is inside the wait |
| ConditionVariableSteps.NoWakeUpLost | base/condition_variable_win.cc:75-106 | when a Broadcast or Signal has set all its handles, every wait it popped has ended, has returned from its wait call, or has its own event set, whatever timeouts and reuse happened meanwhile |
| ConditionVariableSteps.SignalPicksLatest | base/condition_variable_win.cc:91-106 | Signal pops the event of the listed waiter that started last |
| ConditionVariableSteps.BroadcastInOrder | base/condition_variable_win.cc:81-88 | Broadcast stacks the events so that they are set in the order in which the waits began |
| ConditionVariableSteps.SignalsNotMultiplied | base/condition_variable_win.cc:63-66 | in every run the waits let go through an event are at most the SetEvents done on it; a signal not consumed counts against them |
| ConditionVariableSteps.NoWaitAfterShutdown | base/condition_variable_win.cc:23-57 | after the destructor's first step no wait begins: whoever is inside was inside before, in the same wait |
| EventRing.Event.PushBack | base/condition_variable_win.cc:205-216 | appends a lone element: the whole ring of the list is the old sequence plus it |
| EventRing.Event.PopFront | base/condition_variable_win.cc:218-222 | returns the first element, alone, and leaves the ring of the others in order |
| EventRing.Event.PopBack | base/condition_variable_win.cc:224-228 | returns the last element, alone, and leaves the ring of the others in order |
| EventRing.Event.Extract | base/condition_variable_win.cc:238-249 | takes the element out of whatever ring it is in; the rest is a ring again; alone already, it changes nothing |
| EventRing.RingValidates | base/condition_variable_win.cc:252-275 | the whole-ring invariant implies the local checks of ValidateLinks at every node, and IsSingleton is true exactly of rings of one |
| EventRing.RingUnchanged | base/condition_variable_win.cc:270-275 | operations on one list leave every ring disjoint from it intact |
| EventRing.ConditionVariable.GetEventForWaiting | base/condition_variable_win.cc:112-127 | takes the first event of the recycling list, or makes one only when that is empty, and lists it last; both lists stay disjoint rings |
| EventRing.ConditionVariable.RecycleEvent | base/condition_variable_win.cc:134-142 | whether or not the event is still listed, it ends last on the recycling list and on no other |
| EventRing.ConditionVariable.ExtractUsed | base/condition_variable_win.cc:139 | the possibly redundant extraction removes the event from the waiting sequence if it is there and disturbs no other ring |
| EventRing.ConditionVariable.BroadcastLocked | base/condition_variable_win.cc:76-84 | pops the whole waiting list, the latest waiter first, so that the first one ends on top of the stack of handles |
| EventRing.ConditionVariable.SignalLocked | base/condition_variable_win.cc:96-104 | pops at most one event, the last of the waiting list, leaving the others in order |
| SharedOwnership.OpKeepsAccounted | base/linked_ptr.h:82-126 | every operation keeps: each captured object is held, deleted or released, exactly one of these, and deleted at most once |
| SharedOwnership.RunAccounted | base/linked_ptr.h:82-126 | so it is after any run |
| SharedOwnership.NoLeakNoDoubleDelete | base/linked_ptr.h:146-148 | once no linked_ptr is left, each captured object that was not released was deleted, exactly once |
| SharedOwnership.DeletedByLastHolder | base/linked_ptr.h:146-148 | an object is deleted at the very operation, other than release, at which its last holder departs |
| SharedOwnership.WhoHoldsWhat | base/linked_ptr.h:82-126 | after each operation its linked_ptr holds the raw pointer given, what the other one held, or nothing; nobody else's pointer changes |
| LinkedPtrs.LinkedPtr.Join | base/linked_ptr.h:58-61 | inserts the newcomer behind the member it joins; the circle stays whole |
| LinkedPtrs.LinkedPtr.Depart | base/linked_ptr.h:65-71 | the walk ends, at the predecessor, from any place in the circle; the others form a circle; true exactly for the last member |
| LinkedPtrs.Heap.Depart | base/linked_ptr.h:146-148 | refines giving up ownership: deletes the object exactly when nobody else holds it, and keeps all rings whole |
| LinkedPtrs.Heap.Capture | base/linked_ptr.h:150-153 | a ring of its own for a newly captured object |
| LinkedPtrs.Heap.CopyFrom | base/linked_ptr.h:155-161 | joins the ring of the copied linked_ptr, or stays alone for a null one |
| LinkedPtrs.Heap.Create | base/linked_ptr.h:84 | p holds the object given and nobody else's pointer changes; refines capturing by construction |
| LinkedPtrs.Heap.CreateCopy | base/linked_ptr.h:88-93 | p holds what q held, and so does q; nobody else's pointer changes; refines copy construction |
| LinkedPtrs.Heap.Assign | base/linked_ptr.h:102-108 | p holds what q held, and so does q; nobody else's pointer changes; refines assignment, self-assignment included |
| LinkedPtrs.Heap.Reset | base/linked_ptr.h:111-114 | p holds the object given and nobody else's pointer changes; refines reset |
| LinkedPtrs.Heap.Destroy | base/linked_ptr.h:85 | p is gone and nobody else's pointer changes; its object is deleted exactly when no other live linked_ptr holds it |
| LinkedPtrs.Heap.Release | base/linked_ptr.h:118-126 | hands the object back undeleted and leaves p empty, nobody else's pointer changed; sole ownership makes the departure the last one |
| LinkedPtrs.Heap.SameRingIffSameObject | base/linked_ptr.h:50-75 | following links leads from one live linked_ptr to another exactly when both hold the same non-null object |
| WindowsQuoting.WindowsStyleQuote | base/command_line.cc:363-403 | the index loops produce the quoted form |
| WindowsQuoting.QuotedRead | base/command_line.cc:376-400 | reading the quoted body and the closing quote under the splitting rules appends exactly the argument |
| WindowsQuoting.SplitReadsBack | base/command_line.cc:363-427 | splitting any sequence of readable arguments and switches gives one argument for each: the value, or `--name=value` |
| WindowsQuoting.ReadsBackIff | base/command_line.cc:363-427 | items whose switch names hold no space, tab or quote are read back if and only if each argument, and each value there is, is non-empty and not left unquoted around a tab |
| WindowsQuoting.RoundTripIffSurvives | base/command_line.cc:363-403 | a list of arguments is read back exactly if and only if each is non-empty and not left unquoted around a tab |
| WindowsQuoting.QuotesAddedIff | base/command_line.cc:366-369 | quotes are added, one at each end, exactly around an argument with a space, a backslash or a quote in it |
| WindowsQuoting.TabLost | base/command_line.cc:366-369 | an argument with only a tab is split in two |
| WindowsQuoting.CommandLine.AppendSwitch | base/command_line.cc:350-354 | one more item, and the switch recorded |
| WindowsQuoting.CommandLine.AppendSwitchNative | base/command_line.cc:405-416 | one more item `--name=value` with the value quoted, and the switch recorded |
| WindowsQuoting.CommandLine.AppendArgNative | base/command_line.cc:423-427 | one more quoted item, and the argument recorded |
| WindowsQuoting.CommandLine.RereadMeanings | base/command_line.cc:350-427 | however a line was built, the rules split its string into the arguments it was built from, exactly when each is readable |
| CommandLinePosix.IsSwitch | base/command_line.cc:176-209 | an argument is a switch exactly when it begins with `-`; its name and value are those of SwitchOf |
| CommandLinePosix.DashesRead | base/command_line.cc:182-205 | `--name=value`, `--name`, and with one dash `-name=value` and `-name` for a name that does not itself begin with a dash, are read as that name and value |
| CommandLinePosix.PrintedReadsBack | base/command_line.cc:464-471 | a written switch parses back to its name and value, and is not the terminator, if and only if the name has no `=` and name and value are not both empty |
| CommandLinePosix.LastOccurrenceWins | base/command_line.cc:143-167 | without a terminator, a switch has exactly the value of its last occurrence |
| CommandLinePosix.AfterTerminator | base/command_line.cc:149-157 | after the terminator everything is a plain argument |
| CommandLinePosix.PlainArguments | base/command_line.cc:143-167 | the arguments recorded are, in order, the items before the first `--` that do not begin with `-`, and then every item after it; no switch comes from beyond it |
| CommandLinePosix.SwitchesBeforeTerminator | base/command_line.cc:143-167 | with a terminator a switch has exactly the value of its last occurrence before it |
| CommandLinePosix.ParseJoins | base/command_line.cc:143-167 | parsing on top of earlier results merges the switches, later ones winning, and appends the arguments |
| CommandLinePosix.SwitchKeepsIff | base/command_line.cc:464-471 | appending a switch keeps argv and switches in step if and only if name and value can be written |
| CommandLinePosix.ArgKeepsIff | base/command_line.cc:482-485 | appending an argument does if and only if it is no terminator and changes no switch |
| CommandLinePosix.LineKeeps | base/command_line.cc:487-504 | appending another such command line does |
| CommandLinePosix.JoinedLine | base/command_line.cc:487-504 | appending another command line: which program, which argument stands where, and whose value each switch has |
| CommandLinePosix.CopyKeepsIff | base/command_line.cc:525-534 | copying switches from another such command line does unless it copies the empty switch |
| CommandLinePosix.CopyMeans | base/command_line.cc:525-534 | exactly the named switches that the source has take its values, all others keep theirs, and argv only grows |
| CommandLinePosix.DashLost | base/command_line.cc:525-534 | the concrete line `p -`, whose empty switch is copied as the terminator |
| CommandLinePosix.PerformKeepsIff | base/command_line.cc:459-534 | each building operation keeps every command line in step exactly under its stated condition |
| CommandLinePosix.BuildingAgreesWithParsing | base/command_line.cc:459-534 | after any run of building operations over any number of command lines, parsing each argv again yields exactly its switches |
| CommandLinePosix.CommandLine.InitFromArgv | base/command_line.cc:143-167 | the parsing loop computes the parse, on top of what was there: the arguments added are the items before the first `--` that do not begin with `-`, in order, then all after it |
| CommandLinePosix.CommandLine.constructor | base/command_line.cc:133-135 | parses argv; the result is in step exactly when there is a program and no terminator |
| CommandLinePosix.CommandLine.AppendSwitch | base/command_line.cc:459-462 | the new argv and switches, in step exactly for a name that is not empty and has no `=` |
| CommandLinePosix.CommandLine.AppendSwitchNative | base/command_line.cc:464-471 | the new argv and switches, and exactly when they are in step |
| CommandLinePosix.CommandLine.AppendArgNative | base/command_line.cc:482-485 | only argv grows (the recorded arguments do not), and exactly when the line stays in step |
| CommandLinePosix.CommandLine.AppendArguments | base/command_line.cc:487-504 | argv, program and merged switches; in step if both lines were |
| CommandLinePosix.CommandLine.CopySwitchesFrom | base/command_line.cc:525-534 | copies the named switches that the source has, the source possibly being the line itself, and exactly when the line stays in step |
| CommandLinePosix.CommandLine.GetSwitchValueNative | base/command_line.cc:317-332 | the recorded value, or the empty string |
| FilePaths.FilePath.StripTrailingSeparatorsInternal | base/file_path.cc:1149-1169 | the in-place loop computes Strip |
| FilePaths.StripIdempotent | base/file_path.cc:1149-1169 | stripping is idempotent and leaves a trailing separator only in `/` and `//` |
| FilePaths.StripKeeps | base/file_path.cc:1149-1169 | stripping leaves a prefix with the same components and no trailing separator, but two separators alone stay and any other number of them alone becomes one |
| FilePaths.FilePath.DirName | base/file_path.cc:291-325 | a new path, the directory of this one; this one unchanged |
| FilePaths.FilePath.BaseName | base/file_path.cc:327-348 | a new path, the last component of this one; this one unchanged |
| FilePaths.FilePath.Append | base/file_path.cc:441-473 | a new path, this one extended as AppendNothing and AppendJoins say; this one unchanged |
| FilePaths.DirStep | base/file_path.cc:291-348 | a path's components are those of its DirName followed by its BaseName |
| FilePaths.DirFixedPoints | base/file_path.cc:291-325 | the only paths that are their own DirName are `.`, `/` and `//` |
| FilePaths.DirChainEnds | base/file_path.cc:291-325 | every DirName chain reaches one of them |
| FilePaths.DirAndBase | base/file_path.cc:291-348 | a base name is the text of the last component, or the root itself; a directory is stripped, a prefix of the path, or `.` where the path is empty or one component |
| FilePaths.AppendNothing | base/file_path.cc:441-473 | appending nothing only strips; appending to the empty path or to `.` gives what was appended |
| FilePaths.AppendJoins | base/file_path.cc:441-473 | for every path but `.` and every relative component, separators inside it too: the components are joined, the root stays, and the text is the stripped path, one separator where it is needed, and the component |
| FilePaths.AppendInverts | base/file_path.cc:441-473 | for every non-empty path and non-empty separator-free component, BaseName and DirName of the appended path are the component and the stripped path |
| FilePaths.AppendComponents | base/file_path.cc:441-473 | appending adds one component, except to `.` with trailing separators, whose `.` is replaced |
| FilePaths.FilePath.GetComponents | base/file_path.cc:187-220 | ends, and gives the root, if any, and the maximal separator-free runs in order, for every path |
| FilePaths.PosixComponentsIff | base/file_path.cc:187-220 | the components are the POSIX root followed by the runs if and only if no leading `.` is dropped and not exactly three separators precede a run |
| FilePaths.ThreeSeparators | base/file_path.cc:310-314 | the concrete path `///a` and its root `//` |
| FilePaths.RootAndRuns | base/file_path.cc:187-220 | so for every path without `.` runs and with at most two leading separators, and the root is those separators |
| FilePaths.FilePath.AppendRelativePath | base/file_path.cc:242-285 | succeeds exactly for a parent, appending exactly the components beyond it; otherwise changes nothing |
| FilePaths.FilePath.IsParent | base/file_path.cc:238-240 | true exactly when the components are a non-empty proper prefix of the child's |
| FilePaths.IsParentStrictOrder | base/file_path.cc:238-285 | being a parent is irreflexive, asymmetric and transitive |
| FilePaths.RelativePathReachesChild | base/file_path.cc:242-285 | from a copy of the parent the result has the child's components, if and only if the parent is not `.` with trailing separators |
| FilePaths.DotSlashLost | base/file_path.cc:441-450 | the concrete case in which it has not |
| FilePaths.CollectParents | base/file_util_posix.cc:485-495 | the loop of CreateDirectory ends, at a path that is its own parent, having listed each parent on the way |
| DataPacks.WritePack | base/data_pack.cc:154-214 | succeeds exactly when no blob is empty, and then the file is header, index and blobs of the resources |
| DataPacks.PackLayout | base/data_pack.cc:154-214 | the bytes of a pack below 2^32: 1, 0, 0, 0, the count, then each id, position and length, least byte first, and each blob at its position |
| DataPacks.DataPack.Load | base/data_pack.cc:70-119 | accepts exactly the files with the right version, room for the index, and entries whose 32-bit end is within the file; maps nothing otherwise |
| DataPacks.LoadableIff | base/data_pack.cc:82-116 | the accepted files in terms of their bytes: the version 1, a count whose index fits, and entries whose 32-bit end is within the file |
| DataPacks.DataPack.GetStringPiece | base/data_pack.cc:121-142 | the binary search finds an entry with the id, and in a sorted index misses none |
| DataPacks.OffsetExact | base/data_pack.cc:176-200 | below 2^32 the running 32-bit offset is the true position of each blob |
| DataPacks.PackReadsBack | base/data_pack.cc:154-214 | every written pack below 2^32 is loadable and sorted, and each entry points at its blob |
| DataPacks.WriteLoadLookUp | base/data_pack.cc:70-214 | writing, loading and looking up returns the stored bytes for every id written and nothing for any other |
| IdMaps.StepKeepsInv | base/id_map.h:70-177 | every removal and every step of every iterator keeps the invariant |
| IdMaps.VisitsExactlyOnce | base/id_map.h:105-148 | under any interleaving, an iterator lands exactly once on each entry it has passed or stands on, except those already removed at the step that took it past them; never on one ahead of it, and never after a removal |
| IdMaps.SkippedOnlyIfRemoved | base/id_map.h:135-141 | an entry on which an iterator that is past it has never landed was already removed at the step at which the iterator moved past it |
| IdMaps.ReleasedExactlyOnce | base/id_map.h:70-98 | deferred removals are always of stored keys; no object is deleted twice, or while its entry is stored; with no iterator left an owning map has deleted exactly the removed objects; nothing else is ever deleted |
| IdMaps.DeferredToTheLastIterator | base/id_map.h:112-115 | while an iterator remains nothing is deleted and no entry leaves the table |
| IdMaps.IDMap.Add | base/id_map.h:51-57 | stores the object under the next id |
| IdMaps.IDMap.AddWithID | base/id_map.h:64-68 | stores the object under a new id, anywhere in the traversal order |
| IdMaps.IDMap.Remove | base/id_map.h:70-83 | takes the entry out and deletes its object at once without iterators, and only marks the id with one |
| IdMaps.IDMap.Lookup | base/id_map.h:89-94 | finds exactly the stored ids, those whose removal is put off included |
| IdMaps.IDMap.Size | base/id_map.h:96-98 | the difference of the two sizes counts the entries not waiting to be removed |
| IdMaps.IDMap.Compact | base/id_map.h:170-177 | carries out all deferred removals: the deletions added are one for each of them, of the object stored under it, if the map owns its objects, and none otherwise |
| IdMaps.Iterator.constructor | base/id_map.h:105-110 | one more iterator, on the first entry not removed: past removed ones only |
| IdMaps.Iterator.IsAtEnd | base/id_map.h:117-119 | true exactly when no entry is ahead of the iterator |
| IdMaps.Iterator.GetCurrentKey | base/id_map.h:121-123 | the key of the first entry ahead |
| IdMaps.Iterator.GetCurrentValue | base/id_map.h:125-127 | the object stored under that key |
| IdMaps.IDMap.constructor | base/id_map.h:34-36 | an empty map whose first id will be 1 |
| IdMaps.Iterator.Advance | base/id_map.h:129-132 | on to the next entry not removed, past removed ones only |
| IdMaps.Iterator.Destroy | base/id_map.h:112-115 | one iterator fewer; the last one carries out the deferred removals and deletes each of their objects once, any other deletes nothing |
| DirectoryTree.StartOk | base/file_util_posix.cc:609-619 | the traversal invariant holds at the start |
| DirectoryTree.HandOutOk | base/file_util_posix.cc:700-701 | handing out one entry keeps the traversal invariant |
| DirectoryTree.ExpandOk | base/file_util_posix.cc:671-697 | reading one pending directory keeps it: every descendant is handed out, read or below a pending directory, and only one of these |
| DirectoryTree.SortEntries | base/file_util_posix.cc:680-697 | the loop over a directory keeps all entries but `.` and `..` and pushes the directories among them |
| DirectoryTree.FileEnumerator.ReadTop | base/file_util_posix.cc:671-697 | pops the top directory, and lists and pushes what is in it |
| DirectoryTree.FileEnumerator.Next | base/file_util_posix.cc:663-702 | ends; hands out one more descendant with its kind; when it says there is none, every descendant was handed out exactly once, each directory before anything below it |
| DirectoryTree.TraversalEnumerates | base/file_util_posix.cc:663-702 | a traversal with nothing left has handed out exactly the descendants, without repetition, parents first |
| DirectoryTree.ReturnedFit | base/file_util_posix.cc:663-702 | so a traversal ends within as many steps as the tree has nodes |
| RecursiveDelete.Delete | base/file_util_posix.cc:146-184 | true exactly unless asked to remove a non-empty directory without recursion; afterwards exactly the path and what is below it are gone; a missing path is success |
| RecursiveDelete.UnlinkFiles | base/file_util_posix.cc:161-176 | the first loop unlinks exactly the non-directories and stacks the directories in the order met, never failing |
| RecursiveDelete.RemoveDirs | base/file_util_posix.cc:178-182 | the second loop removes only directories that are already empty, never failing, and the whole tree is gone |
| RecursiveDelete.PopTop | base/file_util_posix.cc:178-182 | the directory on top of the stack has no children left |
| RecursiveDelete.DirsStack | base/file_util_posix.cc:172-173 | in discovery order each directory on the stack is above its parent |
| RecursiveDelete.FilesAreElsewhere | base/file_util_posix.cc:167-175 | what is unlinked is never inside a directory still to be read |
| RecursiveDelete.DeleteKeepsWellFormed | base/file_util_posix.cc:146-184 | what is left is a tree again |
| Atomics.StepActs | base/atomicops_internals_arm_gcc.h:32-75 | only a successful swap or the failing re-read acts, and then as the operation does atomically; no other step changes the word |
| Atomics.AtomicallyDoes | base/atomicops.h:59-82 | what each operation does to a word and returns, in plain terms of the words before and after |
| Atomics.StepRefines | base/atomicops.h:59-82 | each step of the loops is nothing or one event of the atomic machine |
| Atomics.RunRefines | base/atomicops.h:59-82 | every run of the loops, with helper failures at will, is a run of the atomic machine with the same calls and results |
| Atomics.ReturnsHaveActed | base/atomicops_internals_arm_gcc.h:32-75 | every call that returns has exactly one instant between its beginning and its return at which it acted: an exchange returns the word before and leaves its value; a compare-and-swap returns the word found, which changes exactly if it was the expected one, to the new value; an increment returns the new word, the old one plus the amount modulo 2^32 |
| Atomics.ExchangesPermute | base/atomicops_internals_arm_gcc.h:46-54 | in a run of exchanges only, once none is in flight, the values returned and the final word are a permutation of the initial word and the values written |
| AtomicLoops.SharedWord.CompareAndSwap | base/atomicops_internals_arm_gcc.h:32-44 | the loop, with others acting before every access: a call that returns acted once, at its last access, returning the word found there, which it changed exactly if it was the expected one; one that has not returned did not act |
| AtomicLoops.SharedWord.AtomicExchange | base/atomicops_internals_arm_gcc.h:46-54 | the same for the exchange, which returns the word before its last access and leaves its own value |
| AtomicLoops.SharedWord.AtomicIncrement | base/atomicops_internals_arm_gcc.h:61-75 | the same for the increment, which returns the word it leaves, the one before plus the amount, whatever changed between the read and the swap |
| AtomicLoops.SharedWord.Cmpxchg | base/atomicops_internals_arm_gcc.h:17-27 | the kernel helper: swaps only when the word is as expected, and may fail even then |
| AtomicLoops.ReplaySnoc | base/atomicops.h:59-82 | a history of operations stays consistent with acting one after the other when one more acts on the present word |
| SequenceNumbers.AtomicSequenceNumber.GetNext | base/atomic_sequence_num.h:19-22 | one call adds one increment to the history and returns the number before it |
| SequenceNumbers.RunKeepsLedger | base/atomic_sequence_num.h:19-22 | at every step of every run of calls the counter, the tickets held and returned, and the numbers handed out stay in step |
| SequenceNumbers.NumbersAreTickets | base/atomic_sequence_num.h:19-22 | the results of completed calls with none in flight are the wrapped predecessors of a permutation of 1 to n |
| SequenceNumbers.CountsFromZero | base/atomic_sequence_num.h:19-22 | they are exactly 0 to n-1 without repetition if and only if n is at most 2^31 |
| SequenceNumbers.NoRepeats | base/atomic_sequence_num.h:19-22 | they do not repeat if and only if n is at most 2^32 |
| LazyInstances.StepKeepsInv | base/lazy_instance.cc:15-42 | every step of any thread keeps the invariant, with at most one thread between winning the swap and registering |
| LazyInstances.InitialisedOnce | base/lazy_instance.h:121-140 | New runs at most once, every call that returned gave the object it built, completed by then, and the destructor is registered at most once, never when null |
| LazyInstances.QuietMeansDone | base/lazy_instance.h:121-140 | with no call going on but one made before, there is exactly one instance and its destructor is registered exactly once if there is one |
| LazyInstances.SpinnersWaitForSomeone | base/lazy_instance.cc:22-26 | a spinning thread waits only while another is creating the instance |
| LazyInstances.WordMovesForward | base/lazy_instance.h:85-89 | the state moves only from empty to creating and from creating to created |
| LazyInstances.WordNeverMovesBack | base/lazy_instance.h:85-89 | over any stretch of a run it never moves back |

## Left out

- ShuffleChoices.AlwaysAssignsIff: speaks of every descriptor that Duplicate may hand out; dup takes the least that is not open, so that on a real table only some of the calls it warns of go wrong (`DupTakesADest` is one).
- Shuffle.PerformInjectiveMultimapDestructive: when some source is not open, only the failure report and the undisturbed bystanders are promised, because a duplicate may take the missing source's place.
- AtomicLoops.SharedWord.CompareAndSwap: takes a bound on its rounds, as do the other loops, because nothing in the source bounds how often they go round; termination of a single call is not claimed.
- LazyInstances: the spin loop and Pointer() are steps and not methods, for the same reason and because every access may be interleaved with other threads.
- Weak memory: all step systems are sequentially consistent; barriers and inline assembly are not modelled.
- ConditionVariableSteps.NoWakeUpLost: does not model the destructor's rescue Broadcast and its Sleep, nor real time; a timeout is a step that may happen at any moment.
- ConditionVariableSteps.StepKeepsInv: threads call one operation at a time; the caller's own lock is not modelled because no property needs it.
- LinkedPtrs.Heap.Assign: is the non-template assignment; the template one has no test for self-assignment, which its types rule out.
- LinkedPtrs.Heap: deleting an object that itself holds linked_ptrs (re-entrant destruction) and use from several threads.
- WindowsQuoting: the program-name rule of the splitter, ParseFromString's trimming of whitespace and lower-casing, AppendArguments and PrependWrapper on Windows.
- WindowsQuoting.RoundTripIffSurvives: characters are abstract; UTF-16 conversion and the length limit of command lines are not modelled.
- CommandLinePosix.CommandLine.AppendArguments: a command line is not appended to itself, which would not end; the DCHECK on the program is a precondition.
- CommandLinePosix: PrependWrapper, SetProcTitle, GetSwitchValueASCII and the global instance.
- FilePaths: drive letters, backslashes, case folding, pickling, extensions and wide strings; the mkdir part of CreateDirectory.
- FilePaths.FilePath.Append: the DCHECK that the component is not an absolute path is a precondition.
- DataPacks.DataPack.Load: the position of the index's end is exact and not 32-bit; a header whose count overflows a 32-bit size_t could pass the real test. After a file that cannot be mapped the object holds no mapping, where the source keeps an unusable one.
- DataPacks.DataPack.GetStringPiece: bsearch is written out as bisection; any other correct search would do. GetStaticMemory only wraps the result.
- DataPacks.WritePack: opening the file and I/O errors of fwrite other than the zero-size one.
- IdMaps.VisitsExactlyOnce: no Adds while iterators are alive; in the class AddWithID may then move entries across an iterator's position, as a rehash may.
- IdMaps.IDMap.Add: the wrap-around of the 32-bit id; the DCHECK that the id is new is a precondition. The destructor's release_all, set_check_on_null_data and the NOTREACHED of removing a missing id (a no-op here) are not modelled further.
- DirectoryTree.FileEnumerator.Next: recursive, files and directories, links listed and not followed, no pattern; no I/O errors and no changes by others in the part of the tree still to be read (Delete's own changes are allowed and proved harmless).
- RecursiveDelete.Delete: unlink and rmdir fail only for the reasons modelled (wrong kind, not empty); a path that is itself a link to a directory, and permissions.
- LazyInstances.InitialisedOnce: New is one step that always succeeds; AtExitManager and the thread-restriction checks.
- linked_list.h, at_exit, auto_reset, bits.h, global_descriptors and callback: easier relatives of what is here.
