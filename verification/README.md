# Verified model of the ASM2 1.2.7d loader and its data installer

The repository runs an Android game outside Android: a loader maps the game's
32-bit library, relocates it and answers its calls (threads, files, JNI, audio,
preferences), and a Python installer puts the game data in place.  This project
models the parts of it that are protocols or codecs, and proves what they
promise, for all inputs, all runs and all interleavings.

Code that works by changing things in place is modelled in place: arrays, linked
objects and fields that methods update, each method proved against a function on
values.  The promises are lemmas about those functions.  Where threads meet, one
step is one atomic access or one region under a lock, and a run is any sequence
of such steps.

| part | files |
|---|---|
| Audio player: queue, worker, audio callback, teardown | `SlModel`, `SlRuns`, `SlPlayer`, `SlTeardown` |
| Guest synchronisation: registry, mutex tracking, once | `Registry`, `RegistryRuns`, `RegistryHeap`, `MutexTracking`, `MutexObject`, `Once` |
| Install transaction | `InstallPaths`, `InstallDisk`, `InstallCommit`, `InstallRecovery`, `InstallFinalise`, `Installer` |
| Durable key/value store and preferences | `StoreCrc`, `StoreCodec`, `StoreState`, `Decimal`, `Preferences` |
| SHA-256 and the frame capture | `Sha256`, `Sha256Stream`, `Capture` |
| UTF-8/UTF-16 and JNI interning | `TextCodec`, `TextBuffers`, `Intern` |
| ELF loading and relocation | `ElfLoad`, `ElfImage`, `ElfLink` |
| FILE wrappers | `FileRegistry`, `FileRuns`, `FileHeap` |
| Shared | `Wrappers`, `LittleEndian` |

`dafny verify dfyconfig.toml` checks everything.

## What turned out not to hold

These follow from the code as it is.  Each is stated with the exact condition.

- A crash between a rename of the install transaction and the journal write after
  it: after a backup the old tree is always lost; after an install the old tree
  comes back if and only if there was one (`InstallCommit.RecoversOldExactly`,
  `BackUpGapLoses`, `InstallGap`).
- A rollback that is interrupted, any number of times and anywhere, and run again
  restores the disk of before the commit if and only if no attempt wholly handled
  a path that was both backed up and installed; otherwise not even the game comes
  back (`InstallRecovery.RerunRestoresExactly`, and from every state of a commit
  `CrashedRollbackExactly`).
- A failure after the marker is written rolls back and leaves the marker
  (`InstallCommit.LateFailureLeavesMarker`).  A crash during that rollback finalises:
  a path whose round was done holds the old tree, one between its two renames holds
  nothing and has lost both trees, and one not yet reached holds the new tree
  (`InstallFinalise.LateRollbackCrash`, `LateSurvivors`).
- Closing a FILE wrapper remembers a list place across its wait.  The lists stay
  exact throughout a run if and only if every close that waited finds its wrapper
  still at that place (`FileRuns.ListsExactly`, `FileRegistry.CloseExact`, with a run
  on two concrete streams that loses an open wrapper in `FileRuns.StreamLost`).  The
  lifetime promises hold either way.
- A thread that destroys a player gets stuck for ever if and only if, in its first
  critical section, it holds the callback's mutex more than once and the callback is
  still before its lock (`SlTeardown.StuckExactly`, `StuckForEver`, and a run that
  does in `StuckRun`).
- `pthread_once` completes its initialiser once for every asynchronous cancellation
  that strikes between the initialiser's return and the store of 2, and once more if
  the word is 2 or about to be (`Once.CompletedCount`, `CompletesOnceExactly`, and a
  run that completes it twice in `CompletesTwice`).  All its other promises hold under
  any cancellation.
- A stale audio callback is taken for a fresh one when the generation has been
  bumped a multiple of 2^32 times (`SlRuns.StaleExactly`, with such a run in
  `WrapHidesStaleness`).
- Binding the store reports a failure if its seeded preference cannot be written,
  although the store is bound by then (`Preferences.SetStorageRoot`).

## Model

| member | source | states |
|---|---|---|
| SlRuns.StreamRefinement | asm2_127/src/opensl_bridge.c:236-457 | over any interleaving the bytes output, other than fill zeros, are the accepted Enqueue bytes in order without the dropped ones; accepted = played + queued + dropped; `underrun_bytes` is exactly the zeros output while playing |
| SlRuns.OnlyClearDrops | asm2_127/src/opensl_bridge.c:1065-1080 | of all steps only Clear drops bytes, and it drops exactly what is queued |
| SlRuns.CallbackSound | asm2_127/src/opensl_bridge.c:414-457 | one audio callback outputs a prefix of the queued bytes, empties the queue if it falls short, and counts the shortfall only while playing |
| SlRuns.PlaySound | asm2_127/src/opensl_bridge.c:427-447 | the copy loop moves the queue's bytes out in order, across buffer boundaries, until the output is full or the queue is empty |
| SlRuns.QueueBounds | asm2_127/src/opensl_bridge.c:264-270 | in every reachable state `queued_count` is the queue's length and at most the capacity, and no recovery callback is pending outside the lock |
| SlRuns.StaleExactly | asm2_127/src/opensl_bridge.c:983-1000 | a callback's Enqueue is stale iff the generation was bumped since the callback was taken, but for multiples of 2^32; without wrap none is accepted after a Clear, Stop, RegisterCallback or shutdown |
| SlRuns.BumpsCounted | asm2_127/src/opensl_bridge.c:922-930 | exactly Clear, Stop, RegisterCallback and shutdown bump the generation |
| SlRuns.WrapHidesStaleness | asm2_127/src/opensl_bridge.c:1036-1049 | a run that takes a callback and calls Clear 2^32 times ends with that callback's Enqueue admitted |
| SlPlayer.AudioPlayer.EnqueueReserve | asm2_127/src/opensl_bridge.c:980-1001 | first critical section: refuses a shut-down, stale or full player with the right code and counters; otherwise moves one free buffer into the caller's hands and touches nothing else |
| SlPlayer.AudioPlayer.Fill | asm2_127/src/opensl_bridge.c:1003-1022 | outside the lock the buffer grows and takes the bytes; a failed resize recycles it and counts a failure |
| SlPlayer.AudioPlayer.EnqueuePublish | asm2_127/src/opensl_bridge.c:1035-1061 | second critical section: appends the buffer at the tail, or refuses and recycles it |
| SlPlayer.AudioPlayer.Enqueue | asm2_127/src/opensl_bridge.c:971-1063 | an uninterrupted Enqueue queues or refuses exactly as specified, with every error code, and keeps no buffer |
| SlPlayer.AudioPlayer.Recycle | asm2_127/src/opensl_bridge.c:226-234 | a held buffer goes to the head of the free list, emptied; every live buffer stays in exactly one of queue, free list and hands |
| SlPlayer.AudioPlayer.ClearQueued | asm2_127/src/opensl_bridge.c:236-247 | every queued buffer moves to the free list and the queue is empty |
| SlPlayer.AudioPlayer.BufferClear | asm2_127/src/opensl_bridge.c:1065-1080 | Clear on the linked lists does what Clear on values does |
| SlPlayer.AudioPlayer.PlaySetState | asm2_127/src/opensl_bridge.c:922-931 | a stop bumps the generation and forgets pending callbacks; every call stores the state |
| SlPlayer.AudioPlayer.BufferRegisterCallback | asm2_127/src/opensl_bridge.c:1107-1115 | the new callback belongs to a new generation with nothing pending |
| SlPlayer.AudioPlayer.BeginDestroy | asm2_127/src/opensl_bridge.c:700-719 | shutdown stops the player, bumps the generation and forgets the callback |
| SlPlayer.AudioPlayer.RecoverIfDry | asm2_127/src/opensl_bridge.c:348-357 | a timed-out wait makes one recovery callback pending exactly when the playing queue is dry and no callback is pending or in flight |
| SlPlayer.AudioPlayer.WorkerTake | asm2_127/src/opensl_bridge.c:358-376 | the worker takes one pending callback and records its generation, or nothing after shutdown |
| SlPlayer.AudioPlayer.WorkerFinish | asm2_127/src/opensl_bridge.c:387-396 | the callback is no longer in flight, and is counted as dry iff the enqueue serial has not moved |
| SlPlayer.AudioPlayer.ConsumeRound | asm2_127/src/opensl_bridge.c:429-446 | one round copies min(available, remaining) bytes of the head buffer to the right place and finishes or advances it |
| SlPlayer.AudioPlayer.SdlAudioCallback | asm2_127/src/opensl_bridge.c:414-457 | the stream is filled with what the specification plays, followed by zeros |
| SlTeardown.NoDeadlock | asm2_127/src/opensl_bridge.c:683-767 | in every reachable state of a teardown whose destroyer holds the callback's mutex at most once, somebody can move or waits for another holder of that mutex, and every move lowers a rank |
| SlTeardown.TeardownOutcome | asm2_127/src/opensl_bridge.c:683-767 | the player is freed at most once, and on both paths exactly once by the end; afterwards no thread moves; the joined destroyer returns holding the mutex exactly as on entry |
| SlTeardown.OutsideStepsWait | asm2_127/src/opensl_bridge.c:738-741 | nothing else raises the rank, except that the device may call once more before it is being closed |
| SlTeardown.StuckExactly | asm2_127/src/opensl_bridge.c:700-741 | over any run the destroyer is stuck from its first critical section on iff it held the mutex more than once there and the callback was still before its lock |
| SlTeardown.StuckForEver | asm2_127/src/opensl_bridge.c:758-759 | over any run a stuck destroyer stays stuck and never returns |
| SlTeardown.StuckRun | asm2_127/src/opensl_bridge.c:721-759 | there is a run that gets stuck |
| SlTeardown.NeverStuckLater | asm2_127/src/opensl_bridge.c:700-741 | over any run a shut-down player that is not stuck never becomes stuck |
| SlTeardown.HandoffContracts | asm2_127/src/pthread_bridge.c:816-860 | the handoff steps of the teardown are the handoff operations of the mutex bridge |
| RegistryRuns.Linearizable | asm2_127/src/pthread_bridge.c:107-131 | a lookup without the lock, interleaved with any publishes and retires, returns what an instantaneous lookup would at some moment of the call |
| RegistryRuns.AlwaysFound | asm2_127/src/pthread_bridge.c:107-131 | an object that matches and stays active throughout the call is found |
| RegistryRuns.NeverStale | asm2_127/src/pthread_bridge.c:107-131 | an object that is inactive throughout the call is not returned |
| RegistryRuns.RunKeeps | asm2_127/src/pthread_bridge.c:107-194 | in every reachable state each node ever published, retired or not, still reaches every older linked node of its bucket; heads are youngest; what is unlinked is retired |
| RegistryRuns.LookUpEnds | asm2_127/src/pthread_bridge.c:112-131 | a lookup ends by itself: over any interleaving it makes at most two accesses for every object published before its first load, and two more |
| RegistryRuns.HoldingEnds | asm2_127/src/pthread_bridge.c:121-129 | from any node it holds it makes no more accesses than its rank there, whatever writer and other readers do |
| RegistryRuns.LinkExists | asm2_127/src/pthread_bridge.c:179-188 | the search of a retirement always finds a link to its object |
| Registry.UnlinkKeeps | asm2_127/src/pthread_bridge.c:171-194 | redirecting one live link past a retired node loses no path to any other node |
| Registry.StoreHeadKeeps | asm2_127/src/pthread_bridge.c:159-169 | publishing at the head keeps every path and reaches all older linked nodes |
| Registry.OnlyLink | asm2_127/src/pthread_bridge.c:179-188 | exactly one live link leads to a linked node |
| RegistryHeap.Table.Find | asm2_127/src/pthread_bridge.c:112-131 | on the linked objects, `registry_find` returns the active object with that handle, owner and kind, or null |
| RegistryHeap.Table.Publish | asm2_127/src/pthread_bridge.c:159-169 | publishing stores the next field, the bucket head and the guest slot, as the interleaved writer does |
| RegistryHeap.Table.Retire | asm2_127/src/pthread_bridge.c:171-194 | retiring deactivates, clears the slot, unlinks through the only live link, and pushes on the retired list, leaving the object's own link |
| RegistryHeap.RetireIsRun | asm2_127/src/pthread_bridge.c:171-194 | those four stores are a run of the interleaved writer |
| RegistryHeap.PublishIsRun | asm2_127/src/pthread_bridge.c:159-169 | and so are those of a publication |
| MutexTracking.Tracking | asm2_127/src/pthread_bridge.c:372-415 | for any number of threads a recorded owner holds the host mutex, and a holder outside its own operation is recorded with its recursion count as depth |
| MutexTracking.OperationContract | asm2_127/src/pthread_bridge.c:770-957 | under any interleaving lock, trylock, unlock, handoff begin and end, and cond wait return the specified code for how often the caller held the mutex, change that count as specified, and leave the record exact |
| MutexTracking.HandoffRestores | asm2_127/src/pthread_bridge.c:816-860 | a handoff gives up a mutex held exactly once, and its end holds and records it exactly once again |
| MutexTracking.Exclusive | asm2_127/src/pthread_bridge.c:372-384 | while one thread is recorded no other holds the mutex |
| MutexTracking.RelockBlocks | asm2_127/src/pthread_bridge.c:770-782 | relocking a normal mutex blocks in the host |
| MutexObject.BridgeMutex.RecordAcquired | asm2_127/src/pthread_bridge.c:372-384 | after a host lock the record becomes exact |
| MutexObject.BridgeMutex.RecordReleasing | asm2_127/src/pthread_bridge.c:386-407 | only a recorded owner may release; the record then lacks one level and the old depth is reported |
| MutexObject.BridgeMutex.RecordRestore | asm2_127/src/pthread_bridge.c:409-415 | a failed release is undone exactly |
| MutexObject.BridgeMutex.Lock | asm2_127/src/pthread_bridge.c:770-782 | an uninterrupted lock meets the lock contract and leaves the record exact |
| MutexObject.BridgeMutex.TryLock | asm2_127/src/pthread_bridge.c:784-796 | likewise trylock, with busy for everyone but a recursive holder |
| MutexObject.BridgeMutex.Unlock | asm2_127/src/pthread_bridge.c:798-814 | likewise unlock: EPERM for a non-owner before the host is asked, and a failing host unlock changes nothing |
| MutexObject.BridgeMutex.HandoffBegin | asm2_127/src/pthread_bridge.c:816-845 | likewise handoff begin: 1 only for an owner at depth one, else 0, or the error negated |
| MutexObject.BridgeMutex.HandoffEnd | asm2_127/src/pthread_bridge.c:847-860 | likewise handoff end, which stays active if the lock fails |
| MutexObject.BridgeMutex.WaitPrepare | asm2_127/src/pthread_bridge.c:905-957 | a condition wait reaches the host only at depth one; otherwise the record is restored and EPERM or EINVAL returned |
| Once.OneInitialiser | asm2_127/src/pthread_bridge.c:1136-1179 | under any cancellations at most one thread is inside the initialiser |
| Once.CompletedCount | asm2_127/src/pthread_bridge.c:1121-1179 | from a word at 0 the completions are the late cancellations so far, and one more if the word is 2 or its runner has completed |
| Once.CompletesOnceExactly | asm2_127/src/pthread_bridge.c:1121-1179 | exactly when the initialiser has completed at most once |
| Once.CompletesOnce | asm2_127/src/pthread_bridge.c:1136-1179 | with deferred cancellation it always has |
| Once.SuccessFollowsRun | asm2_127/src/pthread_bridge.c:1153-1157 | under any cancellations success follows a completed run, or a word the guest began with at 2 |
| Once.TwoIsFinal | asm2_127/src/pthread_bridge.c:1173-1176 | under any cancellations state 2 is never left, and nothing completes any more |
| Once.RejectsOtherWords | asm2_127/src/pthread_bridge.c:1158-1162 | under any cancellations the error code is returned exactly for words above 2, which are left alone |
| Once.NotStranded | asm2_127/src/pthread_bridge.c:1149-1150 | in every reachable state a waiter can leave its wait, or the thread it waits for can move |
| Once.WaitEnds | asm2_127/src/pthread_bridge.c:1149-1176 | while the word is 1 every step ends that or leaves its runner as near its end or nearer, which is at most four steps away |
| Once.CancelledIsRetried | asm2_127/src/pthread_bridge.c:1121-1134 | in every reachable state a cancelled initialiser hands the word to the next caller |
| Once.OnTimeIsDeferred | asm2_127/src/pthread_bridge.c:1164-1176 | a run in which no cancellation strikes between completion and the store of 2 is one with deferred cancellation |
| Once.LateCancelRepeats | asm2_127/src/pthread_bridge.c:1121-1134 | any run with a completed, unstored initialiser can go on to complete it once more |
| Once.CompletesTwice | asm2_127/src/pthread_bridge.c:1121-1134 | there is a run of two threads that completes it twice |
| InstallPaths.BelowMeansPrefix | package/sources/nxextract.py:1596-1599 | the string test for "below" is a proper prefix of path components |
| InstallPaths.ExpandCommitPaths | package/sources/nxextract.py:1590-1600 | commit paths are accepted iff all are valid and no one is a component prefix of another |
| InstallPaths.UnderAnyCommit | package/sources/nxextract.py:1603-1607 | a destination is under a commit path iff one is a component prefix of it |
| InstallPaths.BuildPlan | package/sources/nxextract.py:1610-1635 | the plan is refused iff a commit path is, a destination has no root, two different items want one place, or nothing is selected; else it holds the first item of every place, each with exactly one root |
| InstallPaths.FirstsPlace | package/sources/nxextract.py:1624-1632 | the items of a plan have different places, and every selected item's place is among them |
| InstallDisk.ChangeAgrees | package/sources/nxextract.py:2278-2308 | operations on one commit path leave everything under the other paths, and everything elsewhere, alone |
| InstallDisk.UndoAllAgrees | package/sources/nxextract.py:2278-2301 | the rollback loop acts on each path separately |
| InstallCommit.RunKeeps | package/sources/nxextract.py:2349-2423 | at every step of a commit the disk, both journals and the marker are as the step count says |
| InstallCommit.FailureRestores | package/sources/nxextract.py:2380-2415 | an error at any step before the marker is rolled back to exactly the disk before, stage included |
| InstallCommit.LateFailureLeavesMarker | package/sources/nxextract.py:2409-2415 | an error between the marker and the published journal is rolled back too, and leaves the marker |
| InstallCommit.CrashRecovers | package/sources/nxextract.py:2311-2325 | where the journal agrees with the disk a crash recovers to all the old game, or to all the new one once the marker is there |
| InstallCommit.BackUpGapLoses | package/sources/nxextract.py:2385-2389 | a crash between a backup rename and its journal write loses the old tree |
| InstallCommit.InstallGap | package/sources/nxextract.py:2390-2394 | a crash between an install rename and its journal write recovers the old tree if there was one, and otherwise leaves the new one |
| InstallCommit.RecoversOldExactly | package/sources/nxextract.py:2311-2394 | before the marker recovery yields the old game iff the journal agrees, or the gap is after an install over an existing path |
| InstallRecovery.InterruptedAgrees | package/sources/nxextract.py:2278-2304 | what an attempt leaves when it is interrupted in a round, inside a removal, or after the loop |
| InstallRecovery.RerunRestoresExactly | package/sources/nxextract.py:2278-2304 | after any number of interrupted attempts a last one restores game and stage iff no attempt wholly handled a path that was both backed up and installed, and otherwise not even the game |
| InstallRecovery.CrashedRollbackExactly | package/sources/nxextract.py:2278-2415 | from every state of a commit before the marker, through an interrupted rollback in the process and any interrupted recoveries: exactly when the last recovery brings back the game, and when the stage |
| InstallRecovery.FreshRollbackRestarts | package/sources/nxextract.py:2278-2304 | the rollback of a fresh installation, interrupted anywhere any number of times, ends with exactly the disk of before |
| InstallFinalise.FinaliseRepeats | package/sources/nxextract.py:2266-2275 | over any run of single removals and crashes the game never changes, the journal is gone only once backup and stage are empty, recovery means the same at every moment, and the end is the game alone |
| InstallFinalise.AttemptEnds | package/sources/nxextract.py:2266-2275 | an attempt that is not interrupted takes at most one step for each entry left, and four |
| InstallFinalise.CanMove | package/sources/nxextract.py:2266-2275 | from every state that is not over there is a next step |
| InstallFinalise.CleanUpKeepsNew | package/sources/nxextract.py:2417-2422 | from any marked state of a commit, through its own removals and any crashes, every commit path keeps the new tree |
| InstallFinalise.LateRollbackCrash | package/sources/nxextract.py:2289-2323 | a crash anywhere in the rollback of a late failure finalises: a handled path holds the old tree, one between its two renames nothing, any other the new tree, and the backup is gone |
| InstallFinalise.LateSurvivors | package/sources/nxextract.py:2289-2323 | exactly when a path still has any tree then, its old one, or its new one |
| Installer.Workspace.Rollback | package/sources/nxextract.py:2278-2308 | the rollback loop in place does what the specification does, and removes the journal |
| Installer.Workspace.RecoverTransaction | package/sources/nxextract.py:2311-2325 | recovery finalises a published or marked transaction and rolls back any other |
| Installer.Workspace.CommitStage | package/sources/nxextract.py:2349-2423 | success leaves the staged tree under every commit path and nothing else changed; any failure leaves game and stage as they were |
| StoreCrc.SharedCrc32 | asm2_127/src/android_callbacks.c:83-91 | the loops compute the checksum of the bytes |
| StoreCrc.SingleByteChange | asm2_127/src/android_callbacks.c:83-91 | changing any one byte of any data changes its CRC-32 |
| StoreCrc.CheckValue | asm2_127/src/android_callbacks.c:83-91 | the checksum is the published CRC-32: its check value is cbf43926 |
| StoreCodec.LoadFile | asm2_127/src/android_callbacks.c:418-553 | the loader accepts a file iff it is the encoding of a valid store, and then yields that store; every other outcome is named |
| StoreCodec.EncodeInjective | asm2_127/src/android_callbacks.c:392-410 | different valid stores have different encodings |
| StoreCodec.SingleByteCorruption | asm2_127/src/android_callbacks.c:381-553 | changing any one byte of a validly encoded file leaves bytes that encode no store |
| StoreCodec.RecordsSize | asm2_127/src/android_callbacks.c:352-379 | a valid store never outgrows the payload limit, and every record has at least nine bytes |
| StoreState.SharedValues.EncodedSize | asm2_127/src/android_callbacks.c:352-379 | on a valid store the size computation never refuses and no subtraction wraps |
| StoreState.SharedValues.AtomicWrite | asm2_127/src/android_callbacks.c:207-270 | a failed write leaves the store file as it was and no temporary file |
| StoreState.SharedValues.Persist | asm2_127/src/android_callbacks.c:381-416 | a successful write makes the file the encoding of the store |
| StoreState.SharedValues.Set | asm2_127/src/android_callbacks.c:805-873 | a set updates in place or appends; absent failures a size-valid set is refused iff the key is new and 128 entries exist; a failed write leaves keys, values and order as before; memory and file keep agreeing |
| StoreState.SharedValues.Delete | asm2_127/src/android_callbacks.c:887-915 | a delete closes the gap; a failed write puts the entry back where it was; memory and file keep agreeing |
| StoreState.LookupUpdated | asm2_127/src/android_callbacks.c:805-873 | after a set its key reads the new value and every other key what it read before |
| StoreState.LookupRemoved | asm2_127/src/android_callbacks.c:887-915 | after a delete its key reads nothing and every other key what it read before |
| StoreState.BindStorage | asm2_127/src/android_callbacks.c:621-675 | binding loads what the file holds, sets a corrupt file aside, and changes nothing when it fails |
| Preferences.EnsureInstallerPreferences | asm2_127/src/android_callbacks.c:1014-1053 | the seeded preference is left as it is if it reads as a string, and is set otherwise |
| Preferences.SetStorageRoot | asm2_127/src/android_callbacks.c:621-684 | a failure to bind changes nothing; a failure to seed is reported with the store bound to what the file held |
| Preferences.SeedReads | asm2_127/src/android_callbacks.c:1014-1053 | after a successful seed that preference reads as before or as the directory, and no other one changes |
| StoreState.Reopen | asm2_127/src/android_callbacks.c:621-684 | a store reopened from its file has the same entries in the same order |
| Decimal.ParseSigned | asm2_127/src/android_callbacks.c:1080-1102 | parsing the decimal text of a number gives the number |
| Preferences.StorageKeyInjective | asm2_127/src/android_callbacks.c:961-996 | the storage key is injective in preference name and key |
| Preferences.StorageKeyReserved | asm2_127/src/android_callbacks.c:961-996 | storage keys are always in the reserved namespace |
| Preferences.PrefRoundTrip | asm2_127/src/android_callbacks.c:1104-1222 | a stored int, long, boolean or string reads back equal under its own type, and not at all under another |
| Preferences.PreferenceSet | asm2_127/src/android_callbacks.c:1160-1222 | setting a preference stores its typed text under its storage key, or changes nothing |
| Preferences.PreferenceGet | asm2_127/src/android_callbacks.c:1104-1158 | getting one reads it back from the store, or falls to the default |
| Preferences.PublicSet | asm2_127/src/android_callbacks.c:1371-1381 | a public set of a reserved key does nothing; any other is a set |
| Preferences.PublicGet | asm2_127/src/android_callbacks.c:1382-1386 | a public get of a reserved key reads nothing, and of any other key what the store holds |
| Preferences.PublicDelete | asm2_127/src/android_callbacks.c:1391-1395 | a public delete of a reserved key does nothing |
| Preferences.PublicRunKeepsPreferences | asm2_127/src/android_callbacks.c:1371-1396 | no run of public calls changes what any preference reads |
| Preferences.RunReadsLastSet | asm2_127/src/android_callbacks.c:1104-1222 | over any run a preference reads the last value set for exactly its name and key, under its type only |
| Sha256.RoundConstantsAreCubeRoots | asm2_127/src/capture_x86.c:43-66 | the constant table holds the fractional bits of the cube roots of the first 64 primes (section 4.2.2 of FIPS 180-4) |
| Sha256.InitialValuesAreSquareRoots | asm2_127/src/capture_x86.c:134-143 | the initial state holds those of the square roots of the first 8 primes (section 5.3.3) |
| Sha256.ZeroBytesLeast | asm2_127/src/capture_x86.c:163-172 | the padding is the least that leaves room for the length (section 5.1.1) |
| Sha256.LengthFieldValue | asm2_127/src/capture_x86.c:173-175 | the length field is the big-endian bit length modulo 2^64 |
| Sha256Stream.Context.Transform | asm2_127/src/capture_x86.c:74-132 | the transform is the compression of section 6.2.2 of FIPS 180-4 |
| Sha256Stream.Context.Update | asm2_127/src/capture_x86.c:145-161 | an update appends its bytes to the message, whatever is buffered |
| Sha256Stream.Context.Final | asm2_127/src/capture_x86.c:163-184 | the digest is the one-shot hash of all bytes given |
| Sha256Stream.DigestOfParts | asm2_127/src/capture_x86.c:134-184 | any split of a message into updates gives the hash of the concatenation |
| Capture.FlippedPixel | asm2_127/src/capture_x86.c:247-259 | sample c of pixel x in row y of the picture is that sample of the framebuffer's row height - 1 - y |
| Capture.WritePpm | asm2_127/src/capture_x86.c:210-277 | on success the file is the flipped picture and the digest that of exactly its bytes; on failure the output is untouched and no temporary file is left |
| TextCodec.DecodeEncode | asm2_127/src/jni_bridge.c:404-453 | UTF-16 to UTF-8 to UTF-16 is the identity, unpaired surrogates included |
| TextCodec.StringRoundTripExact | asm2_127/src/jni_bridge.c:1563-1595 | through a C string it is the identity iff no unit is zero |
| TextCodec.EncodeDecode | asm2_127/src/jni_bridge.c:1563-1595 | UTF-8 to UTF-16 to UTF-8 is the identity on well-formed UTF-8 (section 4 of RFC 3629) |
| TextCodec.WellFormedFront | asm2_127/src/jni_bridge.c:404-429 | a well-formed sequence is read whole, is the shortest form of its code point, and is no surrogate |
| TextBuffers.ReadCodepoint | asm2_127/src/jni_bridge.c:404-429 | the short-circuit tests read no byte past the terminator on any text |
| TextBuffers.FillUtf16 | asm2_127/src/jni_bridge.c:431-453 | the loop ends, stays inside its 2n + 1 units and never passes the terminator; the units are the decoding of the text |
| TextBuffers.Utf16ToUtf8 | asm2_127/src/jni_bridge.c:1563-1595 | the loop stays inside its 4n + 1 bytes; the bytes are the encoding of the units, terminated |
| Intern.Tables.FindHandle | asm2_127/src/jni_bridge.c:166-174 | the handle chains agree with a map from addresses to handles |
| Intern.Tables.FindInterned | asm2_127/src/jni_bridge.c:236-243 | the intern chains agree with a map from what is interned to its handle |
| Intern.Tables.InternClass | asm2_127/src/jni_bridge.c:230-250 | interning a class gives the handle the map has, or adds a new one; an empty name stands for java/lang/Object |
| Intern.Tables.InternObject | asm2_127/src/jni_bridge.c:252-272 | likewise for objects, apart from classes of the same name |
| Intern.Tables.InternId | asm2_127/src/jni_bridge.c:373-402 | likewise for method and field identifiers, by class, name, signature, kind and staticness |
| Intern.Tables.InternString | asm2_127/src/jni_bridge.c:455-477 | likewise for strings, whose handle carries the decoded units |
| Intern.Tables.NewString | asm2_127/src/jni_bridge.c:1597-1612 | NewString gives a handle whose units are those given, up to the first zero |
| Intern.Tables.SameHandle | asm2_127/src/jni_bridge.c:230-272 | two requests have one handle iff they ask for the same thing |
| ElfLoad.LayOut | asm2_127/src/so_util.c:231-266 | a layout is accepted iff every PT_LOAD fits the file and memory, one is writable, one executable, and the page range is not empty |
| ElfLoad.RangeHolds | asm2_127/src/so_util.c:231-264 | the range is whole pages and holds every PT_LOAD segment |
| ElfLoad.RangeSmallest | asm2_127/src/so_util.c:239-250 | no range of whole pages that does is smaller at either end |
| ElfLoad.CopySegments | asm2_127/src/so_util.c:278-292 | every byte of memory comes from the last segment whose file part covers it, or is zero |
| ElfLoad.SegmentLoaded | asm2_127/src/so_util.c:278-292 | segments that do not overlap get their file bytes and then zeros |
| ElfLoad.LoadSegments | asm2_127/src/so_util.c:231-292 | exactly when the layout, the size limit and the mapping fail, in that order, and the memory on success |
| ElfImage.WriteSlot | asm2_127/src/so_util.c:345-363 | writing one slot changes that word and no other slot or byte |
| ElfImage.TablesKept | asm2_127/src/so_util.c:335-344 | the relocation, symbol and string tables read the same while slots are being written |
| ElfLink.RelocateArm | asm2_127/src/so_util.c:341-364 | the first pass on one entry, with the Arm type codes |
| ElfLink.RelocateI386 | asm2_127/src/so_util_x86.c:338-361 | the first pass on one entry, with the i386 type codes |
| ElfLink.ResolveArm | asm2_127/src/so_util.c:414-463 | the second pass on one entry: table, then host, then weak, over the taint |
| ElfLink.ResolveI386 | asm2_127/src/so_util_x86.c:415-470 | the second pass on one entry: table, then host, then weak, then the trap target |
| ElfLink.Relocate | asm2_127/src/so_util.c:334-369 | over all sections, fatal iff some type is unknown |
| ElfLink.Resolve | asm2_127/src/so_util.c:405-468 | over all sections, returning how many imports have no definition |
| ElfLink.Link | asm2_127/src/so_util.c:334-468 | both passes together leave every slot at its one-pass ELF value, or a missing import's mark, and every other byte unchanged; a result of 0 means every slot has its value (section 4.6 of ELF for the Arm Architecture) |
| ElfLink.NoneUnresolved | asm2_127/src/so_util.c:405-468 | the count is zero iff every slot has an ELF value |
| ElfLink.SameValues | asm2_127/src/so_util_x86.c:331-475 | an entry that corresponds but for its type code has the same value for both loaders |
| ElfLink.SameImages | asm2_127/src/so_util_x86.c:331-475 | in corresponding images both loaders stop or neither, report the same number of missing imports, and leave the same words in every slot with a value |
| FileRuns.NoUseAfterHanding | asm2_127/src/bionic_compat.c:195-222 | a host stream is handed to fclose only when no acquired operation on its wrapper is unreleased, and none is acquired from then on |
| FileRuns.NoAcquireOnceClosing | asm2_127/src/bionic_compat.c:295-308 | once closing has started no acquire succeeds |
| FileRuns.ClosedOnce | asm2_127/src/bionic_compat.c:203-219 | each wrapper is closed at most once |
| FileRuns.Counters | asm2_127/src/bionic_compat.c:213-219 | created = open + closed, and the retired list holds each closed wrapper once |
| FileRuns.ListsExactly | asm2_127/src/bionic_compat.c:195-247 | over a whole run the lists hold exactly the wrappers that are not closed iff every close that waited finds its wrapper still at its place |
| FileRuns.ListsExact | asm2_127/src/bionic_compat.c:195-247 | so they do while no close has waited |
| FileRegistry.CloseExact | asm2_127/src/bionic_compat.c:199-213 | a close leaves the lists exact iff the place it remembered still holds its wrapper |
| FileRegistry.StaleHead | asm2_127/src/bionic_compat.c:212-212 | closing through a stale bucket head drops the open wrapper that is there now |
| FileRegistry.StaleField | asm2_127/src/bionic_compat.c:212-212 | closing through a field of a closed wrapper leaves the closed wrapper on the list |
| FileRuns.StaleClose | asm2_127/src/bionic_compat.c:195-247 | for any two streams of one bucket a run of three threads loses an open wrapper |
| FileRuns.StreamLost | asm2_127/src/bionic_compat.c:168-247 | such streams exist, and so does such a run |
| FileHeap.Table.FindPlace | asm2_127/src/bionic_compat.c:198-202 | the search finds the place that holds the stream, or the end of its bucket |
| FileHeap.Table.WrapStream | asm2_127/src/bionic_compat.c:224-247 | wrapping on the linked list is the step of the interleaved model |
| FileHeap.Table.AcquireFile | asm2_127/src/bionic_compat.c:295-308 | and so is acquiring |
| FileHeap.Table.ReleaseStream | asm2_127/src/bionic_compat.c:311-323 | and so is releasing |
| FileHeap.Table.StartClosing | asm2_127/src/bionic_compat.c:195-208 | and so is closing up to its wait |
| FileHeap.Table.FinishClosing | asm2_127/src/bionic_compat.c:209-219 | and closing after it, through a place that may be stale |

## Left out

- OpenSL peak meter, periodic report, interface tables, realize and priorities: reporting and wide tables; the 50 ms poll is a wake-up at any time.
- OpenSL allocation of a new buffer that fails, and SDL calls that fail: not part of this model; a failed resize is.
- OpenSL pulls while the device is paused or reopened: the device is only open or closed.
- SlTeardown: the callback locks and unlocks the guest mutex once; the resolution of that mutex from the callback's layout is assumed to succeed.
- Registry: creation on first use of a statically initialised mutex, condition or semaphore, and reuse of one guest slot for two kinds of object, are not modelled.
- MutexTracking: one mutex at a time; condition queues are reduced to a wait that may end whenever the mutex is free.
- Once: the cancel-state calls are reduced to where a cancellation can strike; a critical section is one step.
- Thread creation, keys, semaphores, attributes and scheduling of the guest bridge: wrappers of host calls.
- Installer: parent directories, fsync, progress, hooks and the content checks of staged and installed files; a validation failure is an error at that step.
- Installer: an interrupt between a rename and the flag of the same line is no step of its own; its rollback reads the flags that are on disk, as recovery from a crash there does.
- Installer: the choice of input files and rules; the case-folded destination of an item is given with it; the source cache.
- StoreState: allocation failures, and directory creation and renaming details of storage roots; a rename is atomic.
- Capture: directory handling and the framebuffer read; integer sizes are those the caller has checked.
- Intern: Bundle entries, arrays, direct buffers, counters and NULL names.
- ElfLoad: file reading, header and section-table checks, memory protection, and segments whose address range wraps 32 bits.
- ElfLink: symbol snapshots, init arrays and hooks; a fatal error stops the model where it stops the program.
- FileRegistry: standard streams, stream flags and the guest image bytes.
- Standard streams and every wrapper around a single host call of the bionic layer.
