# A verified model of touchHLE's runtime core

touchHLE runs iPhone OS apps by emulating their processor and implementing the system around
them in Rust. This project models, in Dafny 4.11, the parts of that system whose correctness
depends on invariants over whole runs, and proves those invariants:

- **Threads** (`Threads`, `Scheduler`, `Runs`, `RunInvariant`, `RunTheorems`, `Waiters`, `Needs`,
  `MutexRuns`, `SemaphoreRuns`, `WaitingSets`, `Registers`, `Lifetimes`, `Fairness`, `Conditions`,
  `Decisions`, `WaitRuns`, `Depths`, `Queues`, `Outcomes`, `Scenarios`, `Environment`): one CPU
  shared by guest threads, scheduled by a loop that is re-entered whenever a host function calls
  guest code. A machine is the emulator's state together with the host call stack; an event is one
  action of guest code, host code or the scheduler. The class `Environment` performs the same
  operations by assignment, with the source's own recursion, and is proved to follow the machine
  step by step. What each step does is also told from the states before and after it alone
  (`Decisions`, `WaitRuns`, `Depths`, `Queues`, `Outcomes`). The assertions and unwraps of
  `run_inner`, `run_call`, `switch_thread`, `relock_unblocked_mutex` and thread exit are outcomes
  of the model that the proofs exclude.
- **The dynamic linker** (`Arm`, `Linker`, `LinkerInvariant`, `LinkerSetup`, `LinkerCalls`,
  `LinkerOutcomes`, `Dyld`): it rewrites the stubs of the app's machine code. A small semantics of the
  instructions concerned shows that a call means the same whatever has been rewritten so far.
- **The virtual filesystem** (`Paths`, `FileSystem`, `FileMirror`, `FileOutcomes`, `FileStart`,
  `Listing`, `Bundle`, `BundleOutcomes`, `GuestFs`): a tree that indexes directories of the host and must
  agree with them.
- **Self-contained algorithms**: the load order of libraries (`LoadOrder`), the calling
  convention (`Abi`, `AbiPlaces`, `AbiCalls`), line breaking (`LineBreaking`, `TextLines`), the
  initial stack (`StackImage`) and the debugger's packets (`Gdb`, `GdbWire`).

Operations on values are functions; what the source updates in place is a class whose methods
are proved against them. A panic of the source is an explicit outcome, never a precondition,
except where the source's own comments make it the caller's duty. `dafny verify dfyconfig.toml`
checks everything.

## Findings

Where a property one would expect does not hold, the model keeps the code as it is, and the
project proves when the property does hold:

- A thread woken from a condition variable does not end the scan for a thread to run. It resumes
  with its mutex exactly when no later candidate of the same scan has anything to offer and the
  mutex still exists; otherwise it is left running without it
  (`Conditions.ConditionWaiterResumesIff`). A run from the start in which another thread is given
  the mutex is `Conditions.ConditionWakeupCanMisplaceMutex`.
- Destroying a mutex does not take condition waiters into account, so relocking it for one can
  panic (a run from the start: `Conditions.DestroyedMutexPanics`). It never does in a run in which
  no mutex is destroyed that a blocked thread waits for, or that is the current mutex of a condition
  variable it waits for (`Needs.RunRelocks`).
- Destroying a semaphore does not take its waiters into account at all, so the next scan panics (a
  run from the start: `WaitingSets.DestroyedSemaphorePanics`). It never does in a run in which no
  semaphore is destroyed that a thread is blocked on (`Needs.RunFindsSemaphores`).
- A semaphore's set of waiting threads loses the thread that ran last, not the one woken. Over a run
  the sets stay exact if and only if every thread woken from a semaphore is the one that ran last,
  and no semaphore is destroyed that a thread is blocked on (`WaitingSets.WakeKeepsExactIff`,
  `WaitingSets.SetsStayExactIff`); runs in which one does not are `WaitingSets.WaitingSetGoesStale`
  and `WaitingSets.RecreatedSetIsEmpty`.
- A semaphore created from a number of 2^31 or more starts negative, because the number is cast, and
  a post at 2^31-1 wraps to -2^31 in an optimised build. Values are never negative exactly when
  neither happens (`SemaphoreRuns.ValuesNeverNegativeIff`; runs for every number:
  `SemaphoreRuns.PostedOnceIs`).
- Renaming a file onto itself removes it from the guest tree but not from the host
  (`FileMirror.RenameKeepsMirrorIff`).
- Opening a file for both appending and truncating, or for nothing, panics, because the host
  refuses; apart from read-only files that vanished from the host, nothing else does
  (`FileMirror.OpenKeeps`).
- The distance from a 4-byte stub to its pointer is or-ed into an instruction. The result is a load
  at all exactly when the distance has no bits outside those of that instruction, and the load of
  that distance exactly when it is below 4096 (`Arm.OffsetIntoInstruction`); at 8192 it is the load
  of another word (`Arm.FarPointersMiss`).
- SVC numbers for 12- and 16-byte stubs are not checked against the flag bit; they name their
  function exactly below it (`Linker.SvcNamesItsFunctionIff`, `Linker.SvcNumbersRunOut`).
- A variadic argument in a register is read from the registers as they are at that moment. If the
  guest has run in between, and left the stack area of the arguments alone, the words read are those
  passed if and only if the registers concerned still hold them, and the arguments are if they do
  (`Abi.VariadicAfterCallIff`). Whenever there is such a register, the guest can leave something in
  it that changes the arguments (`Abi.VariadicCanBeLost`, `Abi.RegisterArgumentIsLost`).
- An entry of an app archive that lies below a file makes building the tree panic if it comes after the
  file, and is hidden without notice if it comes before. Apart from paths that cannot be taken apart or
  lead upwards, nothing else makes it panic (`BundleOutcomes.BuildSucceedsIff`,
  `BundleOutcomes.BuiltTreeIs`).
- Nothing separates the argv pointers from the envp pointers on the initial stack
  (`StackImage.NoTerminatorAfterArgv`).
- White space at the end of a line of text is emitted even if it does not fit. Every emitted line
  fits or is one character exactly unless that happens (`LineBreaking.EmittedLinesFitIff`), hence
  always for lines that do not end in white space (`LineBreaking.TrimmedLinesFit`), and never for a
  line that fits only without it (`LineBreaking.TrailingSpaceOverflows`): white space that adds width
  overflows for some width of the text (`LineBreaking.OverflowsForSomeWidth`).
- A debugger packet of which only a part has arrived is never completed, because nothing more is
  read from the connection while the part is buffered: however often it is asked for, it is
  delivered if and only if the part is all of it (`Gdb.BufferedFrameDeliveredIff`,
  `Gdb.ArrivingFrameDeliveredIff`).
- The comments on the two reply letters of `qXfer` (src/gdb.rs:335-341) are swapped; the code
  follows the protocol.

## Model

| member | source | states |
|---|---|---|
| RunInvariant.StepKeeps | src/environment.rs:862-1265 | every event keeps the invariant of nested runs (contexts, flags, deferrals, frames, stacks, waits) or stops for a reason that is not the scheduler's own; condition waits included |
| RunInvariant.RunKeeps | src/environment.rs:862-1265 | the same over every sequence of events |
| RunInvariant.ReturnToIsReady | src/environment.rs:1222-1231 | a deferred return switches to the frame's own thread, now unblocked, as `run_call` asserts |
| RunInvariant.SvcReturnKeeps | src/environment.rs:988-1016 | a guest return leaves the frame on its own thread, or is deferred |
| RunInvariant.EnterKeeps | src/environment.rs:1065-1068 | `run_inner` is entered on an active thread without a stored context, and pushes one frame |
| RunTheorems.NestedRunsNeverPanic | src/environment.rs:879-1265 | a run from the start fails an assertion or unwrap of the scheduler, condition waits included, only at a relock after a mutex was destroyed that a blocked thread needs, or on a waiter's semaphore after that was destroyed under it |
| RunTheorems.FramesReturnInOrder | src/environment.rs:988-1016 | a frame goes away only by returning on its own, unblocked thread with the caller's flag restored, and lower frames are never touched |
| RunTheorems.DeferredUntilOwnFrame | src/environment.rs:997-1016 | a deferred thread executes nothing and is released only by the return of its own frame |
| MutexRuns.MutexesAreCounted | src/environment/mutex.rs:85-237 | without condition waits every mutex counts its waiters exactly, only recursive mutexes are held more than once, and no unwrap about mutexes fails |
| Needs.RunRelocks | src/environment/mutex.rs:85-137 | over every run, condition waits included, relocking succeeds unless an event destroys a mutex that a blocked thread will have to take |
| Needs.RunFindsSemaphores | src/libc/semaphore.rs:68-79 | over every run the scan finds the semaphores waited for unless an event destroys one that a thread is blocked on |
| Needs.RunKeepsCounts | src/environment/mutex.rs:188-237 | over every run, condition waits included, the assertion that a count above one is of a recursive mutex holds |
| MutexRuns.DestroyKeepsMutexes | src/environment/mutex.rs:85-98 | only a mutex without owner and waiters is destroyed |
| MutexRuns.RelockSucceeds | src/environment/mutex.rs:106-137 | the relock after a wake-up succeeds, with count 1, and takes one waiter off the count |
| MutexRuns.PickedResumes | src/environment.rs:1148-1156 | a thread resumed from a mutex wait owns that mutex with count 1 |
| Waiters.StepBalances | src/environment.rs:773-836 | one step changes a semaphore's value less its queued waiters by exactly what the step posts, takes, creates or destroys, less 2^32 for a post that wraps |
| Waiters.TokensAreConserved | src/environment.rs:773-836 | over every run a semaphore's value is its initial value plus posts minus granted decrements, each waiter woken taking one, minus 2^32 for every post at 2^31-1 |
| SemaphoreRuns.ValuesNeverNegativeIff | src/libc/semaphore.rs:47-66 | over every run, no semaphore's value is ever negative if and only if none is created from 2^31 or more and no post finds 2^31-1 |
| SemaphoreRuns.PostedOnceIs | src/environment.rs:820-836 | from the start, for every number: the value of a semaphore created from it and posted once |
| Waiters.DestroyAnswers | src/libc/semaphore.rs:68-79 | destroying a semaphore takes away it and no other, and says whether there was one |
| WaitingSets.WakeKeepsExactIff | src/environment.rs:1157-1179 | a wake-up keeps the set of its semaphore's waiters exact if and only if it wakes the thread that ran last |
| WaitingSets.SetsStayExactIff | src/environment.rs:1157-1179 | over every run all sets stay exact if and only if every wake-up is of the thread that ran last and no semaphore is destroyed that a thread is blocked on |
| WaitingSets.WaitingSetGoesStale | src/environment.rs:1173-1176 | a run from the start after which the set holds a thread that waits for nothing |
| WaitingSets.RecreatedSetIsEmpty | src/libc/semaphore.rs:47-79 | a run from the start after which the set of a semaphore destroyed and made again misses the thread blocked on it |
| WaitingSets.DestroyedSemaphorePanics | src/libc/semaphore.rs:68-79 | a run from the start in which a semaphore is destroyed under its waiter and the scan panics |
| Registers.OneContextMissing | src/environment.rs:888-902 | in every reachable state exactly the current thread has no stored context |
| Registers.OnlyTheCurrentThreadsRegistersChange | src/environment.rs:888-902 | no step changes the logical registers of a thread other than the one running |
| Registers.CreationIsIsolated | src/environment.rs:679-716 | creating a thread gives it the right SP, r0, PC, LR and mode, and changes nobody else's registers |
| Registers.BranchGoesTo | src/cpu.rs:246-250 | a branch clears the lowest bit of the address into the Thumb flag and leaves every other register and bit alone |
| Lifetimes.ExitRecords | src/environment.rs:970-989 | thread exit records r0 and frees exactly the stack the thread was born with |
| Lifetimes.FinishedForever | src/environment.rs:970-989 | a finished thread never changes again and never executes |
| Lifetimes.StackFreedExactlyOnce | src/environment.rs:970-989 | each finished thread's stack was freed exactly once, a live one's never; thread 0 never finishes |
| Lifetimes.JoinerResumesAfterJoinee | src/environment.rs:1202-1221 | a decision resumes a joiner only if its joinee has ended, with that thread's return value where it was asked for |
| Lifetimes.JoinEndsWithExit | src/environment.rs:970-1221 | over every run, a joiner stays blocked until its joinee's exit, and when a later decision releases it, r0 as it was at that exit lies where it was asked for |
| Fairness.DecisionApproaches | src/environment.rs:1121-1247 | each scheduling decision moves the current thread strictly closer to a ready one, never past it |
| Fairness.BoundedWaiting | src/environment.rs:1121-1247 | among n threads a ready thread is passed over by at most n - 2 decisions, across nested frames |
| Conditions.ConditionWaiterResumesIff | src/environment.rs:1180-1247 | wherever in a scan a condition waiter is woken, the decision makes it current and holder of its mutex if and only if no later candidate offers anything and the mutex exists; else relocking panics, or it is left without the mutex, which another thread is given or nobody |
| Conditions.ConditionWakeupCanMisplaceMutex | src/environment.rs:1180-1201 | a run from the start after which an unrelated thread holds the mutex, the waiter runs without it, and a thread queued for it is no longer counted |
| Conditions.DestroyedMutexPanics | src/environment/mutex.rs:85-98 | a run from the start in which a mutex is destroyed that a condition waiter will need, and relocking it panics |
| Decisions.DecisionForThread | src/environment.rs:1121-1263 | told from the state before and the clock: the decision for the first candidate that can run, or the last condition waiter woken. It ends exactly the waits that are over, resumes or returns that thread, gives it exactly the mutex recorded, and stops exactly over a semaphore or mutex that is gone |
| Decisions.DecisionForNobody | src/environment.rs:1247-1263 | when nobody can resume, the scan is repeated if some thread sleeps, with nothing changed, and otherwise it is a deadlock |
| Decisions.DecisionFreesExactly | src/environment.rs:1125-1237 | after every decision exactly those threads wait no more that the scan reaches and finds free, whatever they waited for; all others wait as before |
| Decisions.DecisionTouchesOnly | src/environment.rs:1157-1221 | a decision writes memory only for the joiner it resumes, and takes a token only for the waiter on a semaphore that it resumes |
| Decisions.SleeperWakesIff | src/environment.rs:1135-1146 | a sleeper is woken if and only if no earlier candidate ends the scan and the clock, read for it, is at its deadline or past it |
| Decisions.SleepsUntilEarliest | src/environment.rs:1142-1255 | the emulator sleeps until the least deadline of the threads asleep, and has none exactly if no thread is |
| WaitRuns.WaitsThroughIff | src/environment.rs:1121-1237 | over every run a thread keeps waiting, for the same thing, if and only if no decision reaches it and finds its wait over: deadline, mutex, token, joinee, turn or frame |
| WaitRuns.BeginsToWait | src/environment.rs:722-860 | outside decisions a thread begins to wait exactly when it asks for what it cannot have yet, and then for that; nobody else's wait begins or ends |
| Depths.StepKeepsDepth | src/environment/mutex.rs:142-248 | every step changes how deeply a thread holds a mutex by exactly what it is granted or releases |
| Depths.DepthIsConserved | src/environment/mutex.rs:73-248 | over every run, condition waits included, a thread holds a mutex as often as it has been granted it, asked for or taken again, and has not unlocked it or waited on a condition variable |
| Depths.OwnerKeeps | src/environment/mutex.rs:188-248 | the owner of a mutex stays its owner, with the depth that is left, until that is zero; then, and only then, the mutex is free |
| Depths.ExclusionOverRuns | src/environment/mutex.rs:142-248 | mutual exclusion from the start: when a thread is granted a mutex, every other thread has released it as often as it was ever granted it |
| Depths.StepKeepsTable | src/environment/mutex.rs:67-98 | mutexes are made with the kind asked for, never change it, and go away only when destroyed free and with nobody counted as waiting |
| Depths.Answers | src/environment/mutex.rs:85-248 | locking and unlocking answer the depth then held, EDEADLK, EPERM and EBUSY exactly where they should |
| Queues.FirstComeFirstServed | src/libc/pthread/cond.rs:69-160 | over every run, those who have left a condition variable's queue and then those in it are, in order, those who were in it and then those who joined |
| Queues.DecisionServesQueues | src/environment.rs:1180-1201 | a decision takes from the front of each queue exactly those of its waiters that go on |
| Queues.StepMovesQueue | src/libc/pthread/cond.rs:48-160 | a wait joins the end of the queue, a signal marks the next of those waiting, a broadcast all of them; nothing else moves it |
| Outcomes.StopsExactly | src/environment.rs:679-989 | every event but a decision stops the emulator exactly when it is to be refused, and for that reason |
| Outcomes.GoesOnWith | src/environment.rs:879-1064 | after every event but a decision: what executes next, and which activations there are |
| Waiters.DecrementAnswers | src/environment.rs:773-812 | a decrement takes a token if there is one; one that would not wait is answered with true exactly when it took one |
| Environments.Environment.LockMutex | src/environment/mutex.rs:142-184 | locking in place does what the specification function does, error cases and panics included |
| Environments.Environment.UnlockMutex | src/environment/mutex.rs:188-237 | the same for unlocking |
| Environments.Environment.RelockUnblockedMutex | src/environment/mutex.rs:106-137 | the same for relocking |
| Environments.Environment.SemDecrement | src/environment.rs:773-812 | the same for taking a semaphore |
| Environments.Environment.CondWait | src/libc/pthread/cond.rs:69-102 | the same for waiting on a condition variable |
| Environments.Environment.SwitchThread | src/environment.rs:888-902 | the same for switching, with the contexts exchanged in place |
| Environments.Environment.NewThread | src/environment.rs:679-716 | the same for creating a thread |
| Environments.Environment.FindThread | src/environment.rs:1125-1237 | the loop over candidates finds what the specification's scan finds, and changes what it changes |
| Environments.Environment.RunCall | src/environment.rs:879-886 | performs its part of the run and comes back on the calling thread, with the frames it was called with |
| Environments.Environment.RunInner | src/environment.rs:1065-1265 | the recursive loop performs exactly the run of the machine, and returns only ready to leave the frame it pushed |
| Environments.Environment.CallFromGuest | src/environment.rs:1018-1058 | the host-function flag is set for the call and restored on the thread that set it |
| Environments.Environment.Emulate | src/environment.rs:862-886 | the whole emulation follows the machine to the end of the script, and never stops for an internal reason other than over the tables of mutexes and semaphores |
| Arm.OffsetIntoInstruction | src/dyld.rs:678-728 | or-ing a distance into the restored 4-byte stub yields a load if and only if it sets no stray bit, and the load of that distance if and only if it is below 4096 |
| Arm.FarPointersMiss | src/dyld.rs:678-728 | a distance of 8192 yields the load of another word |
| Arm.EncodedSvcDecodes | src/dyld.rs:199-202 | an encoded SVC decodes to its number; too large a number is refused |
| Linker.SvcNamesItsFunctionIff | src/dyld.rs:642-659 | an allocated SVC number names its function, with and without the flag, exactly while it is below the flag |
| Linker.SvcNumbersRunOut | src/dyld.rs:763-771 | at the flag, the number allocated is the lazy linker's own; beyond it, an earlier function's |
| LinkerSetup.SetupEstablishesInvariant | src/dyld.rs:420-461 | after setting up all binaries every stub is unlinked, with its data words as loaded |
| LinkerOutcomes.SetupSucceedsIff | src/dyld.rs:420-461 | setting up succeeds exactly if every entry of every binary begins with the instructions of its kind, and changes nothing outside the stub sections |
| LinkerOutcomes.LocatesIff | src/dyld.rs:717-740 | what is found at an address: the entry that lies there, or the reason why there is none |
| LinkerOutcomes.LinksIff | src/dyld.rs:742-812 | the first call of an entry links it, unless its symbol is nowhere or the numbers have run out, and then for that reason |
| LinkerOutcomes.HandlerIs | src/dyld.rs:633-660 | which function every SVC number asks for, with and without the flag, and which ask for none |
| LinkerOutcomes.ProcAddressIff | src/dyld.rs:836-870 | a guest function for a host function can be had exactly while it has been made or there is a number for it |
| LinkerInvariant.RestoringKeeps | src/dyld.rs:670-733 | relinking writes the pointer that the restored code loads, changes nothing but that stub and its pointer, and keeps the invariant |
| LinkerInvariant.RestoresWhatSetupOverwrote | src/dyld.rs:670-733 | for 12- and 16-byte stubs relinking undoes exactly what set-up overwrote, but for the pointer |
| LinkerInvariant.LazyLinkKeeps | src/dyld.rs:661-812 | for every entry of a stub section: its first call links it to the host function of its own symbol, or restores it with the address that the first binary exporting it gives, and keeps the invariant |
| LinkerInvariant.EntryIsFound | src/dyld.rs:718-738 | with sections apart, at the address of the k-th entry of any section the linker finds that entry, with its symbol, form and distance to the lazy pointers |
| LinkerInvariant.FoundIsEntry | src/dyld.rs:718-738 | and it finds nothing else |
| LinkerInvariant.FirstExportIs | src/dyld.rs:794-809 | the search for an export gives the address in the first binary that has it, and nothing exactly if none has |
| LinkerInvariant.ProcAddresses | src/dyld.rs:836-868 | a symbol's address is the same guest function every time, and that function calls the symbol |
| LinkerCalls.StubCall | src/dyld.rs:642-812 | executing any entry of a stub section in any state calls its own symbol's host function and returns to LR, or jumps to where the first binary exports it, disturbing only the scratch register |
| LinkerCalls.RoutineCall | src/dyld.rs:850-868 | a guest function made for a host function calls it at any time |
| LinkerCalls.RunKeepsInvariant | src/dyld.rs:642-868 | every instruction, request and unrelated write keeps the invariant, over every run |
| LinkerCalls.EveryCallMeansTheSame | src/dyld.rs:642-868 | from set-up on, after any run, a call through the k-th stub of any binary means what the k-th symbol of its section does |
| Dylds.Dyld.SetupLazyLinking | src/dyld.rs:420-461 | the loops that write stub code in place compute the specification's memory, or find the unexpected instruction |
| Dylds.Dyld.LinkByRestoringStub | src/dyld.rs:670-733 | writing word by word computes the specification's memory |
| Dylds.Dyld.DoLazyLink | src/dyld.rs:661-812 | linking in place does what the specification function does, panics included |
| Dylds.Dyld.GetSvcHandler | src/dyld.rs:634-659 | the same for the dispatch of SVC numbers |
| Dylds.Dyld.CreateProcAddress | src/dyld.rs:836-848 | the same for proc addresses |
| Paths.ResolvedIsCanonical | src/fs.rs:261-299 | a resolved path has only proper names; resolving panics only without an absolute base |
| Paths.PrintThenResolve | src/fs.rs:664-684 | printing components and resolving again is the identity |
| Paths.RelativeResolvesAsJoined | src/fs.rs:279-299 | a relative path resolves as its base joined with it |
| Paths.ParentCancels | src/fs.rs:261-270 | a name followed by `..` cancels, and `.` and extra slashes do not count |
| Paths.ResolvePath | src/fs.rs:279-299 | the loops compute the resolved components |
| FileSystem.LookAfterSetEntry | src/fs.rs:687-732 | changing one leaf entry is seen there and in its directory's names, and nowhere else |
| FileMirror.OpenKeeps | src/fs.rs:979-1097 | opening keeps guest tree and host in agreement and uses the path `host_path_for` names before and after; the host refuses exactly options it always refuses and read-only files that vanished from it |
| FileMirror.RemoveKeeps | src/fs.rs:1101-1174 | removing keeps them in agreement and never panics |
| FileMirror.CreateDirKeeps | src/fs.rs:1195-1243 | creating a directory keeps them in agreement; an error changes nothing |
| FileMirror.CreateDirAllKeeps | src/fs.rs:1177-1192 | success leaves the path existing, its proper prefixes directories, and itself one unless it was a file |
| FileMirror.RenameKeeps | src/fs.rs:927-976 | renaming to another path keeps them in agreement, also when it fails half-way |
| FileMirror.RenameKeepsMirrorIff | src/fs.rs:927-976 | a rename that succeeds keeps them in agreement if and only if it is not onto itself |
| FileOutcomes.RemoveSucceedsIff | src/fs.rs:1101-1174 | removing succeeds exactly for a writeable file or an empty writeable directory in a writeable directory, and then takes away exactly that, in the guest and on the host; otherwise it changes nothing |
| FileOutcomes.OpenSucceedsIff | src/fs.rs:979-1097 | opening succeeds exactly for what is there and allows it, or where there is room to create it; then exactly that file has come, in the guest and on the host |
| FileOutcomes.CreateDirSucceedsIff | src/fs.rs:1195-1243 | making a directory succeeds exactly where there is room, and adds exactly that; otherwise the reason given is the right one |
| FileOutcomes.CreateDirAllSucceedsIff | src/fs.rs:1177-1192 | making all directories of a path succeeds exactly if it is there, or begins with a writeable directory after which nothing is |
| FileOutcomes.RenameSucceedsIff | src/fs.rs:927-976 | renaming to another path succeeds exactly for a writeable file and a place that can receive one, if the host agrees; then exactly that file has moved, in the guest and on the host |
| FileOutcomes.HostPathIs | src/fs.rs:734-755 | which host path a place has: a file's own, or the one it would get where it could be created |
| FileOutcomes.HostPathForesees | src/fs.rs:730-755 | it is the host path that opening or creating the file uses, before and after |
| FileStart.FromHostDirLooks | src/fs.rs:72-110 | the tree built from a host directory looks everywhere as the host does |
| FileStart.BundleIsReadOnly | src/fs/bundle.rs:144-177 | a bundle from a host directory or from any archive is read-only throughout |
| FileStart.StartMirrors | src/fs.rs:509-641 | the filesystem an app starts with agrees with the host, wherever its bundle comes from |
| FileStart.AppIsPlaced | src/fs.rs:507-641 | the directories above the app's, what is in it, and the bundle everywhere as it came |
| FileStart.LibrariesArePlaced | src/fs.rs:560-595 | the bundled libraries and nothing else are in /usr/lib, each name standing for the right one |
| FileStart.AppKeepsMirror | src/fs.rs:927-1243 | after any sequence of operations from the start it still does, and read-only directories have not changed |
| GuestFs.GuestFs.ChangeWorkingDirectory | src/fs.rs:664-684 | the working directory becomes the canonical path of an existing directory, resolving to the same place ever after |
| GuestFs.GuestFs.OpenWithOptions | src/fs.rs:979-1097 | opening by path in place does what the specification does with the resolved components |
| GuestFs.GuestFs.CreateDirAll | src/fs.rs:1177-1192 | the loop over prefixes, each written out and resolved again, does what the specification does |
| GuestFs.GuestFs.Rename | src/fs.rs:927-976 | the same for renaming |
| GuestFs.GuestFs.EnumerateRecursive | src/fs.rs:854-886 | every place below a directory is listed exactly once |
| Listing.ListBelow | src/fs.rs:861-885 | the two-stack loop lists every place once, keeps its stacks one apart and ends with both empty |
| Bundles.BuildIsTree | src/fs/bundle.rs:27-68 | a conflict-free list of entries, in any order, builds the tree it implies |
| Bundles.ParsedPlace | src/fs.rs:181-187 | a path taken apart into directory and name still stands for its non-empty pieces |
| Bundles.OrderDoesNotMatter | src/fs/bundle.rs:19-178 | the same entries in any order, with any repetitions, build the same tree |
| Bundles.ConflictsMatter | src/fs/bundle.rs:34-59 | for a file and a directory of one name the order does matter: one order panics, the other hides the directory |
| BundleOutcomes.ParsesIff | src/fs.rs:181-187 | a directory's path can always be taken apart, a file's exactly if it has a slash and does not end in one |
| BundleOutcomes.BuildSucceedsIff | src/fs/bundle.rs:30-59 | building succeeds exactly if every path can be taken apart, none leads upwards, and no entry comes after a file that lies above it |
| BundleOutcomes.BuiltTreeIs | src/fs/bundle.rs:30-68 | the tree of any archive that can be built, in any order, with conflicts: the last file at a place or above it decides, else the entries' directories |
| Bundles.IntoFsNode | src/fs/bundle.rs:157-178 | taking the entries apart and adding them in place builds the specification's tree, or panics as it does |
| Bundles.ListArchive | src/fs/bundle.rs:157-178 | from the paths of an archive's entries: building and listing gives each entry's place and each directory above one exactly once |
| Bundles.FsNodeBuilder.FindOrMakeDirectory | src/fs/bundle.rs:30-47 | walking the tree in place makes the directories of the specification, or panics as it does |
| LoadOrder.GenerateBinaryLoadOrder | src/environment.rs:155-233 | for every iteration order of the hash tables: succeeds if and only if there is no cycle, with every name once and after what it needs; an error names a node that needs a cycle |
| LoadOrder.OrderCoversAllIffNamesDistinct | src/environment.rs:156-164 | a load order lists every node exactly when no two share a name |
| LoadOrder.NeedsWithDistinctNames | src/environment.rs:172-181 | with distinct names, needing is listing the name, with or without the system prefix |
| Abi.ArgRoundTrip | src/abi.rs:442-562 | every value survives its words, with the casts' sign extension and truncation |
| AbiPlaces.WrittenArgumentsLie | src/abi.rs:390-416 | written arguments lie in r0 to r3 and then on the stack, one after another, low word first, in two's complement |
| AbiPlaces.LyingArgumentsAreRead | src/abi.rs:343-367 | arguments that lie so are read, whoever put them there |
| AbiPlaces.ReadValueIs | src/abi.rs:442-562 | what a word is as a value of each kind: in range, and the same bits as far as the kind has them |
| Abi.WriteThenRead | src/abi.rs:343-410 | written arguments are read back, however spread over registers and stack, and nothing else changes |
| Abi.VariadicTail | src/abi.rs:414-441 | named arguments and then a variadic list read exactly what was written |
| Abi.VariadicAfterCallIff | src/abi.rs:430-441 | after any guest call that leaves the argument area alone, the rest of a list reads what was written if and only if its registers still hold it, as they do once the named arguments fill them |
| Abi.VariadicCanBeLost | src/abi.rs:430-441 | whenever a variadic argument begins in a register, something the guest can leave in that register alone changes the arguments read |
| Abi.RegisterArgumentIsLost | src/abi.rs:430-441 | a variadic argument in r1 is read as whatever r1 holds by then |
| Abi.VaListArgument | src/abi.rs:516-529 | a list passed by pointer reads the arguments lying there |
| AbiCalls.LastSpilledWordSharesBuffer | src/abi.rs:231-245 | with a hidden return pointer only the last spilled word, if any, lies in the return buffer, at its start |
| AbiCalls.Guest.WriteNextArg | src/abi.rs:390-416 | the loop places an argument's words as specified |
| AbiCalls.Guest.ReadNextArg | src/abi.rs:343-367 | the loop reads an argument's words as specified |
| AbiCalls.Guest.CallFromHost | src/abi.rs:222-256 | whatever a host function does to registers and memory, it gets exactly the arguments, the caller exactly the result, SP is restored, and all else is as the function left it |
| AbiCalls.Guest.CallGuestFunction | src/abi.rs:258-316 | the guest finds arguments, frame record and return address; whatever it does, PC, mode, LR, SP and r7 are restored |
| LineBreaking.FindWrapPoints | src/font.rs:195-225 | the loops find exactly the points where a line may be wrapped, in order |
| LineBreaking.BreakLine | src/font.rs:187-296 | the pieces cover the line without gap or overlap, and each fits, reaches as far as it can, or is part of a word too wide |
| LineBreaking.EmittedLinesFitIff | src/font.rs:237-296 | every emitted line fits or is one character, exactly unless the last words do not fit with the white space that ends the line |
| LineBreaking.WordsOverflowIff | src/font.rs:280-289 | a line of whole words is too wide exactly when it ends the text line and is too wide with the white space there; without it, it fits |
| LineBreaking.TrimmedLinesFit | src/font.rs:237-296 | for a line that does not end in white space, every emitted line fits or is one character |
| LineBreaking.NothingLostInText | src/font.rs:179-298 | no character but white space is lost, duplicated or moved, in whole texts |
| LineBreaking.TrailingSpaceOverflows | src/font.rs:280-289 | every line that fits, but not with the white space at its end, is emitted whole and too wide |
| LineBreaking.OverflowsForSomeWidth | src/font.rs:237-296 | from the line alone: if trimming makes it narrower it overflows for some width, and with nothing to trim for none |
| LineBreaking.BreakWithTrailingSpace | src/font.rs:280-289 | breaking "a" and two spaces in a width of two emits one line of width three |
| TextLines.LinesSplit | src/font.rs:187-187 | the lines of a text with their line ends are the text, one for each newline, blank ones included, and one for what follows the last |
| TextLines.SplitIsUnique | src/font.rs:187-187 | no other lines are |
| TextLines.TrimTakesTrailingSpace | src/font.rs:227-236 | trimming takes off all white space at the end and nothing else |
| LineBreaking.SearchWidths | src/font.rs:241-249 | the binary search finds a width equal to the wrap width or the place where it would be |
| StackImage.PrepStackForStart | src/stack.rs:28-112 | for all lists that fit, memory from SP is the table and the strings, each pointer to its own string, all disjoint, SP aligned |
| StackImage.EntryPointReads | src/stack.rs:50-112 | word by word from SP: the number of arguments, a pointer to each, one to each variable, zero, one to each of Apple's strings, zero |
| StackImage.HeightIs | src/stack.rs:60-90 | how high the image is: the strings rounded up to whole words, and a word for each entry |
| StackImage.NoTerminatorAfterArgv | src/stack.rs:56-69 | the word after the argv pointers is null only without an environment |
| Gdb.FrameThenRead | src/gdb.rs:60-127 | a framed packet is read back and exactly it is consumed |
| GdbWire.ChecksumLaws | src/gdb.rs:103-127 | the checksum of nothing is zero, of one character its code, and of two parts the sum of theirs modulo 256 |
| GdbWire.DeliveredIffChecksum | src/gdb.rs:78-121 | a packet written by anybody is delivered, and exactly it consumed, if and only if its two digits stand for the sum of the codes of its body modulo 256; else reading panics |
| GdbWire.NotAPacket | src/gdb.rs:74-88 | acknowledgements are skipped one by one; anything else that is no packet panics |
| GdbWire.UnfinishedWaits | src/gdb.rs:89-102 | a packet without its end, or its checksum, waits, unless the buffer is full |
| Gdb.PartOfFrameWaits | src/gdb.rs:60-107 | a part of a frame is no packet and stays buffered; one that fills the buffer without its end panics |
| Gdb.BufferedFrameDeliveredIff | src/gdb.rs:60-173 | with a part of a frame buffered, whatever arrives later and however often packets are read, its body is delivered if and only if the part is all of it |
| Gdb.ArrivingFrameDeliveredIff | src/gdb.rs:60-173 | the same when the part is the first to arrive |
| Gdb.GdbServer.ReadPacket | src/gdb.rs:60-121 | reading in place does what the specification does with what is buffered |
| Gdb.GdbServer.Poll | src/gdb.rs:167-171 | reading packets again and again in place gives what the specification gives |
| Gdb.GdbServer.PollForFrame | src/gdb.rs:60-171 | among what it gives is the body of a frame of which a part had arrived, if and only if the part is all of it |
| Gdb.GdbServer.ReadRegisters | src/gdb.rs:183-191 | the loop writes each register's bytes, least significant first |
| GdbWire.RegisterDigits | src/gdb.rs:183-191 | which two digits of the reply are which byte of which register |
| GdbWire.WordRead | src/gdb.rs:196-207 | the word stored by `G` has, least significant first, the bytes that pairs of digits stand for |
| Gdb.GdbServer.RestoreRegisters | src/gdb.rs:183-207 | what `g` replied, fed to `G` after the registers have changed to anything, restores them |
| Gdb.GdbServer.WriteMemory | src/gdb.rs:264-292 | `M` stores exactly the given bytes, or reports an inaccessible region |
| GdbWire.BytesRead | src/gdb.rs:274-292 | the bytes taken from `M` are those that pairs of characters stand for, and it takes them if and only if all do |
| Gdb.GdbServer.WriteThenRead | src/gdb.rs:245-292 | `M` and then `m` returns the same bytes |
| Gdb.PiecesMakeWhole | src/gdb.rs:323-351 | reading a document in pieces of any positive length ends and yields all of it |
| Gdb.XferReplyIs | src/gdb.rs:331-351 | the reply to one request: the piece asked for and whether it is the last, or E00 beyond the end |
| Gdb.ReadingEndsIff | src/gdb.rs:331-341 | a client reading piece by piece is ever told that nothing is left if and only if it asks for pieces of positive length |

## Left out

- Environment: guest code is taken to return to the host only from a call the host made, and to leave its start routine only when no such call is left; joins name existing threads; the allocator returns free chunks and nobody else frees a live thread's stack (`Runs.Enabled`).
- Environment: time is an arbitrary reading of the clock per candidate; the debugger, event polling, logging and the CPU error states are not modelled, and the CPU is its registers and CPSR.
- Environment: what guest and host code do is an arbitrary script of events; the guest memory written by the scheduler is only the result of a join.
- Environment: mutex waiter counts are unbounded numbers where the source has 32 bits; semaphore values wrap at 32 bits as in an optimised build, where a debug build would stop; named semaphores are not modelled, of which `sem_close` takes one away as `sem_destroy` does.
- Environments.Environment.Emulate: after a panic only the reason is compared, because the source panics with some fields already changed.
- Runs.Machine: the thread saved with a host call, and the stacks born and freed, are histories that the source does not keep.
- MutexRuns.MutexesAreCounted: runs with condition waits are excluded, because the property fails there (see Findings); everything else is proved with them.
- Linker: memory is a table of aligned words, host functions are identified by symbol, host code is assumed to return with PC, LR and instruction set unchanged, and the instruction cache is not modelled.
- LinkerInvariant.Layout: stub sections and pointers are assumed not to overlap. For 4-byte stubs the pointer used lies two places past the stub's own, so the last two stubs of a section write past the pointer section; only that the address written is the address loaded is claimed.
- Linker: address arithmetic wraps at 32 bits, as in an optimised build; a debug build would stop instead.
- Linker: non-lazy linking, constants, Objective-C classes and the dumps of symbols are not modelled.
- FileSystem: file contents, symbolic links, modification times and sizes; the host is a table of files and directories, a path on it a list of names, and only `/` separates names.
- FileMirror: other programs changing the host's files at the same time.
- Bundles: the ZIP reader; entries are taken as paths, within the bundle, with an identity.
- FileStart: the preparation of the host's directories before the start, and the case without any.
- LoadOrder: the text of the error and the log output.
- Abi: the floating-point types, which pass their bits through the integer kinds, and the types implemented elsewhere.
- AbiCalls.Guest.CallGuestFunction: the nested run itself, which is the subject of `Environments`, is arbitrary here.
- LineBreaking: glyph metrics; widths are real numbers that never shrink when a string is extended, and strings are sequences of characters, so that every index is a character boundary.
- LineBreaking: drawing and the calculation of a text's size.
- StackImage: the rest of the process start.
- Gdb: the commands other than `g`, `G`, `m`, `M` and `qXfer`; acknowledgements and the timing of the connection; packets are ASCII, as the protocol has them without extensions.
- The user interface, graphics, audio, Objective-C runtime, heap allocator and Mach-O parser.
