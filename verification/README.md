# Reuse-distance profiler: a Dafny model

The profiler measures reuse distances with debug watchpoints. A kernel module samples execute
breakpoints on hot instructions, watches the bytes each sampled access touched, and on the next touch
records how many memory accesses lay in between. A user-space controller picks the hot instructions,
compiles their operands into address templates, opens and closes the measurement window and pins
threads to CPUs. A stage-1 monitor finds the hot instructions from Arm SPE packets and perf counters.
This project models the logic of all three, plus the post-processing of buckets, and proves what each
of them is for.

`dafny verify dfyconfig.toml` verifies everything. Code that changes state in the original is a class or
a method with loops, proved equal to a function on values; the properties over whole runs are lemmas
about those functions.

| file | what it holds |
|---|---|
| `Machine.dfy` | 64-bit arithmetic, powers of two, sums |
| `Teardown.dfy` | RCU list, refcount and completion: one step per atomic operation, any number of handlers |
| `Engine.dfy`, `EngineProofs.dfy` | the watchpoint engine of one thread as step functions, and its run invariants |
| `ThreadCtx.dfy` | the same engine as in-place updates of slots, tables and counters |
| `Provenance.dfy`, `Tallies.dfy` | which two events a recorded reuse stands for, with their PCs and call contexts; every counter as a count over events, and the raw events field by field |
| `Trace.dfy`, `SeedLives.dfy`, `Phases.dfy` | what a recorded distance means in the thread's own access sequence, what becomes of a seed, and accesses of closed windows |
| `PairTable.dfy`, `ContextTable.dfy`, `Callchain.dfy`, `Buckets.dfy` | the bounded tables, the frame-pointer walk, the log2 buckets |
| `Address.dfy`, `OperandText.dfy` | addressing modes, templates, the operand parser on characters |
| `Device.dfy`, `Window.dfy`, `Controller.dfy`, `History.dfy` | the session ioctls, the auto/explicit window over both sides, CPU bindings, and what a session reports in terms of the requests it was given |
| `Relocation.dfy`, `Targets.dfy` | PC to file offset and back, the hotspot manifest and the target selection |
| `SpePackets.dfy`, `SpeRecords.dfy`, `Sampler.dfy`, `Hotspots.dfy` | SPE bytes, packets, records and per-PC statistics |
| `Pareto.dfy`, `Counters.dfy`, `Grouping.dfy` | hotspot selection, window counters, post-processing groups |

## Where the code differs from its comments, or meets a property only in part

- The comment on slot replacement describes a 1/samples policy. Every arm sets the slot's sample count
  back to 1, so the first roll always replaces: a candidate evicts slot 0 exactly when no slot is idle,
  and nothing is ever rejected (`EngineProofs.ReplacementIsSlotZero`).
- The parser accepts `sp` as an index register and the kernel then refuses the target, and with it the
  whole batch. `OperandText.KernelRefusesOnlySpIndex` and `Targets.KernelTakesBatch` say this happens in
  that case and no other.
- A file mapped twice resolves to its first mapping. `Relocation.RoundTripIff` gives the exact condition
  for the sampled PC to come back, `Relocation.DoubleMappingMisses` an input where it does not.
- The scripts' upper bound of bucket 63 is 2^63 - 1, the controller's is 2^64 - 1
  (`Buckets.PyBoundsAgree`, `Buckets.PyBucketForDeltaAgrees`).
- The latency sums of a hotspot are 64-bit and can wrap. `Hotspots.OrderIff` says from how many samples on
  the execution latency can exceed the total latency; `SpeRecords.StreamOrderFails` is a stream that does it.
- A packet across the end of the AUX ring is read straight on into what lies behind the ring.
  `SpePackets.DecodeIff` says when that is right, `SpePackets.CrossingMisreads` where it is not.
- A stop leaves seeds armed and a later start goes on with them, so a reuse can skip touches made while the
  window was closed. `Phases.PhasedReuseMeaning` says when it is still the first touch.
- `reset()` of the monitor zeroes live counters under the remembered values. `Counters.WindowIsExact` says when
  the next window value is still right, `Counters.ResetMisreports` what it is otherwise.
- Two branches of `rd_thread_live_get_rcu` are dead: the increment never finds a count of zero, and
  undoing a get never completes the teardown (`Teardown.GetNeverFindsZero`).

## Model

| member | source | states |
|---|---|---|
| `Teardown.TeardownSafe` | kernel/rd_wpctl.c:790-908 | in every interleaving of lookup, get, recheck, put and detach: no handler touches live resources after they are freed or the object after it is freed, they are freed only with no reference held and no reader that can see the thread, `complete` fires at most once, and exactly once when they are freed |
| `Teardown.ZeroIsFinal` | kernel/rd_wpctl.c:813-838 | a reference count that reached zero stays zero over every continuation |
| `Teardown.GetNeverFindsZero` | kernel/rd_wpctl.c:813-827 | `refcount_inc_not_zero` never meets zero, and the undo of a get never is the last put: the grace period has not ended while a reader is inside |
| `Teardown.StepUsesRank` | kernel/rd_wpctl.c:1172-1221 | every step other than a new handler entering lowers a rank, so no schedule with finitely many entries runs forever |
| `Teardown.NeverStuck` | kernel/rd_wpctl.c:1470-1497 | short of the release some handler in flight or the detaching side can always step, so the wait never depends on a new handler |
| `Teardown.SchedulesFinish` | kernel/rd_wpctl.c:1470-1497 | from every reachable state every schedule without new handlers has at most rank many steps, and one that cannot be continued has freed the live resources, whatever its order |
| `Teardown.DetachCanFinish` | kernel/rd_wpctl.c:1470-1497 | a finishing schedule exists from every reachable state |
| `Teardown.LiveThreadIsHandled` | kernel/rd_wpctl.c:813-876 | from every reachable state without a detach, after any schedule without one, a handler that has entered and made its nine own steps handles the event of its thread and is one of the references counted |
| `Teardown.HandledIff` | kernel/rd_wpctl.c:813-876 | with a detach under way or not, after nine own steps among any others a handler handles its event iff each of its reads found the thread, at that moment, listed, active, attached and referenced |
| `Teardown.PinnedKeepsIff` | kernel/rd_wpctl.c:813-827 | a pinned handler, at whatever later moments it makes its two re-reads and whatever a detach does meanwhile, keeps the thread iff the first still finds it active and the second not yet detached |
| `EngineProofs.SeedsConserved` | kernel/rd_wpctl.c:919-1150 | in every reachable state accepted = hits + evictions + dropped + armed, and candidates = seen = accepted + rejected |
| `EngineProofs.StepKeepsInv` | kernel/rd_wpctl.c:644-783 | arming, failed arming, replacement, hit, reset and detach each keep seed conservation, sample counts of 1 and named contexts |
| `EngineProofs.ReplacementIsSlotZero` | kernel/rd_wpctl.c:738-783 | every sample count is 1 between handlers; a breakpoint that reaches the reservoir is accepted, takes the first idle slot and changes no other, and evicts (slot 0) exactly when all slots are armed; nothing is rejected |
| `EngineProofs.StoresFollowLog` | kernel/rd_wpctl.c:1084-1108 | histogram, pair table, raw event log and hit count are each the corresponding function of the log of recorded hits since the last reset |
| `EngineProofs.StoreTotalsAgree` | kernel/rd_wpctl.c:1084-1108 | the histogram sum, all pair buckets plus pair drops, and in DWARF mode the raw events plus their drops each equal `hits` |
| `EngineProofs.PairsMatchHistograms` | kernel/rd_wpctl.c:532-573 | with distinct target offsets, pairs summed over reuse sides give each target's histogram bucket less its dropped samples, so exactly the bucket without drops |
| `EngineProofs.PairTableIsExact` | kernel/rd_wpctl.c:532-573 | in every reachable state the pair table is valid, each key present holds the exact count of its hits since the last reset, and the drops are exactly the hits of absent keys |
| `EngineProofs.ContextIdsNameContexts` | kernel/rd_wpctl.c:961-973 | every nonzero context id in a slot or used pair entry names a used context |
| `EngineProofs.ContextsFollowChains` | kernel/rd_wpctl.c:489-527 | the context table of a run is the table of the chains interned since the last reset |
| `EngineProofs.CapturesAreCounted` | kernel/rd_wpctl.c:370-411 | in every reachable state the failure and truncation counters are the failed and the truncated captures since the last reset, zero outside FP mode |
| `EngineProofs.ContextDropsAreCounted` | kernel/rd_wpctl.c:489-527 | in every reachable state the context drop counter is the number of chains that found no room since the last reset |
| `Tallies.StatsAreCounts` | kernel/rd_wpctl.c:919-1150 | in every reachable state candidates, seen and accepted are the breakpoints that reached the reservoir since the last reset, evictions those that found every slot armed, dropped the failed arms, the hits without a counter reading and the slots armed at the detach, hits the recorded reuses; nothing is rejected |
| `Tallies.HistogramsCount` | kernel/rd_wpctl.c:1084-1108 | in every reachable state counter 64 t + b of the histograms is the number of recorded reuses of target t in bucket b |
| `Tallies.GenerationCounts` | kernel/rd_wpctl.c:966-976 | in every reachable state the generation of a slot is the number of times it was taken since the last reset, going from 2^32 - 1 on to 1 |
| `Tallies.RawEventsDescribe` | kernel/rd_wpctl.c:1110-1136 | the k-th raw event of a run holds the target, file offset and counter reading of the seeding breakpoint, the PC and counter reading of the hit, and their distance and bucket |
| `Provenance.SeedTimeIsLast` | kernel/rd_wpctl.c:744-783 | the breakpoint a seed is traced to took its slot, and none took it later |
| `Provenance.HitsDescribeEvents` | kernel/rd_wpctl.c:919-1150 | every recorded reuse is a pair of delivered events, the hit and the last breakpoint before it that took the slot, both with the window open and no reset since the first: target, seed address, both counter readings, distance and bucket, seed offset, reuse PC and both contexts are theirs |
| `Provenance.HitContextsReadBack` | kernel/rd_wpctl.c:1095-1103 | in FP mode a recorded reuse's nonzero seed and reuse ids read back as the chains captured at its seeding breakpoint and at its hit; an id is 0 only when that capture failed or the table is full |
| `Provenance.PairEntriesDescribeEvents` | kernel/rd_wpctl.c:532-573 | every used pair entry has the key of a recorded reuse that describes its two events |
| `Provenance.SeedsRecordedOnce` | kernel/rd_wpctl.c:1014-1150 | no two recorded reuses have the same seed |
| `Provenance.ArmedIsUnrecorded` | kernel/rd_wpctl.c:1014-1150 | the seed of an armed slot is the seed of no recorded reuse |
| `Provenance.EvictedIsNeverRecorded` | kernel/rd_wpctl.c:955-960 | a seed that a later breakpoint evicts is the seed of no recorded reuse, before or after |
| `ThreadCtx.Thread.HandleBpHit` | kernel/rd_wpctl.c:919-1004 | the in-place breakpoint handler is the engine's breakpoint step |
| `ThreadCtx.Thread.OfferCandidate` | kernel/rd_wpctl.c:919-1004 | the reservoir counters, the slot choice and the seeding of one candidate, as one engine step |
| `ThreadCtx.Thread.DecideCandidate` | kernel/rd_wpctl.c:949-1004 | the reservoir decision rejects or takes a slot, with the counters, the eviction and the interned context of each outcome |
| `ThreadCtx.Thread.PickSlot` | kernel/rd_wpctl.c:744-783 | the two scanning loops choose the slot the specification chooses and update sample counts alike |
| `ThreadCtx.Thread.HandleWpHit` | kernel/rd_wpctl.c:1014-1150 | the in-place watchpoint handler is the engine's watchpoint step |
| `ThreadCtx.Thread.CountReuse` | kernel/rd_wpctl.c:1084-1108 | one reuse updates histogram, pair table, raw events and hit count and nothing else |
| `ThreadCtx.Thread.AddPair` | kernel/rd_wpctl.c:532-573 | the scan of the pair array is the table's insert |
| `ThreadCtx.Thread.InternChain` | kernel/rd_wpctl.c:489-527 | the scan of the context array is the table's intern, with the same id |
| `ThreadCtx.Thread.ReserveDwarf` | kernel/rd_wpctl.c:470-484 | appends the raw event of the hit while there is room, else counts a drop; `Tallies.RawEventsDescribe` says what is in it |
| `ThreadCtx.Thread.ClearSlot` | kernel/rd_wpctl.c:644-662 | the slot becomes idle with its generation kept; no other slot changes |
| `ThreadCtx.Thread.ResetThread` | kernel/rd_wpctl.c:670-736 | all counters, tables and slots are as after registration |
| `ThreadCtx.Thread.DetachThread` | kernel/rd_wpctl.c:1470-1497 | every armed slot becomes one drop and the slot arrays go; `Tallies.StatsAreCounts` counts them over runs |
| `Trace.ReuseDistanceMeaning` | kernel/rd_wpctl.c:1014-1150 | over any access sequence, each recorded hit at position j for a seed at i has j as the first access after i touching the watched bytes, its distance is j - i - 1 in the bucket of that distance, and its reuse PC is that of access j |
| `Trace.ArmedSeedsAreUntouched` | kernel/rd_wpctl.c:919-1004 | a seed still armed stems from a sampled access whose bytes nothing has touched since |
| `Trace.SeedFate` | kernel/rd_wpctl.c:919-1150 | one more access evicts a seed, records it or keeps it: evicted iff sampled with all slots taken and in slot 0, otherwise recorded iff touched, kept iff not |
| `SeedLives.RecordedOnce` | kernel/rd_wpctl.c:1014-1150 | no access is the seed of two recorded reuses |
| `SeedLives.ArmedOrRecorded` | kernel/rd_wpctl.c:1014-1150 | an access whose seed is still armed is the seed of no recorded reuse |
| `SeedLives.EvictedIsLost` | kernel/rd_wpctl.c:744-783 | a seed evicted by an access is never recorded, however the sequence goes on |
| `Phases.PhasedReuseMeaning` | kernel/rd_wpctl.c:592-621 | with accesses of closed windows in the sequence, a recorded reuse pairs a sampled access with the first later touch while the window is open, its distance counts the accesses of open windows in between, and it is the first touch of all iff no access of a closed window touched the bytes in between |
| `PairTable.TableRefinesMap` | kernel/rd_wpctl.c:532-573 | over any log of samples the table is a prefix of used entries with distinct keys and exact counts, the rest is zero, and drops are the samples of absent keys |
| `PairTable.KeysAreFirstSeen` | kernel/rd_wpctl.c:532-573 | the keys held are the first distinct ones seen, in that order, up to the capacity: a key dropped once never enters |
| `PairTable.SamplesConserved` | kernel/rd_wpctl.c:532-573 | all bucket counts plus drops equal the number of samples |
| `PairTable.SidesConserved` | kernel/rd_wpctl.c:532-573 | per seed offset and bucket, the pair counts plus the dropped ones equal the samples |
| `ContextTable.InterningIsFaithful` | kernel/rd_wpctl.c:489-527 | two requests get the same id iff their chains are equal or both were turned away, a nonzero id reads back as its chain, and 0 means the table is full |
| `ContextTable.InternAnswers` | kernel/rd_wpctl.c:489-527 | the id just given names the chain in the table, or the table was full |
| `ContextTable.DroppedIsTurnedAway` | kernel/rd_wpctl.c:489-527 | the drop counter is the number of requests that got no id |
| `Callchain.CaptureCallchain` | kernel/rd_wpctl.c:370-411 | the loop ends although the depth need not grow, and computes the capture that `ChainIsWay` and `TruncatedIff` describe |
| `Callchain.CaptureShape` | kernel/rd_wpctl.c:370-411 | a capture is empty iff it failed, which it does iff not in user mode or the PC is 0; it fits the key and never repeats an address in a row |
| `Callchain.TruncationIsReported` | kernel/rd_wpctl.c:370-411 | losing frames always raises the truncation flag, and only a full key can |
| `Callchain.WayExists` | kernel/rd_wpctl.c:370-411 | every frame pointer has a way: the list of mapped, aligned, nonzero frames with a nonzero return address, each the strictly higher predecessor of the one before, up to the first that fails a test |
| `Callchain.ChainIsWay` | kernel/rd_wpctl.c:370-411 | a captured chain is the first eight of the interrupted PC followed by the return addresses along that way, with addresses equal to the one just before left out |
| `Callchain.TruncatedIff` | kernel/rd_wpctl.c:370-411 | a capture is marked truncated iff its eight places are full at some frame of the way that still links upward |
| `Buckets.BucketsPartition` | src/targeted_rd.cc:539-558 | a distance lies within the controller's bounds of bucket b iff b is the kernel's bucket, which is 0 for 0, else the b with 2^(b-1) <= distance < 2^b, everything from 2^62 on in 63 |
| `Buckets.PyIndexInverse` | postproc/resolve_dwarf_pairs.py:489-494 | the index recovered from the scripts' bounds is the bucket they were made from |
| `Buckets.PyBoundsAgree` | postproc/resolve_dwarf_pairs.py:557-560 | the scripts' bounds are the controller's iff the bucket is at most 62 |
| `Buckets.PyBucketForDeltaAgrees` | postproc/plot_rd_hist.py:29-35 | the plotting bucket has the controller's bounds iff the distance is below 2^62 |
| `Buckets.Log2BucketsThrough` | postproc/plot_rd_hist.py:38-47 | the doubling loop lists exactly the consecutive buckets up to the first that reaches the distance |
| `Address.CompilePreservesAddress` | kernel/rd_wpctl.c:244-290 | for every legal mode and register file the kernel's address of the shipped template is the architectural one modulo 2^64, and the kernel accepts the template |
| `Address.ValidatedAddress` | kernel/rd_wpctl.c:1258-1276 | whatever template user space sends, one the kernel validated names existing registers, and its address is base plus immediate plus extended and shifted index modulo 2^64 |
| `OperandText.ParsesExactlySupported` | src/targeted_rd.cc:293-373 | the disassembler's text of a legal operand, zero-register destinations and hexadecimal numbers included, parses iff it is a supported one, and then to that mode's template |
| `OperandText.LiteralIsRefused` | src/targeted_rd.cc:316-319 | a literal load, which has no brackets, is refused whatever place is printed for it |
| `OperandText.TextToAddress` | src/targeted_rd.cc:521-536 | from text to address: parsed, converted and evaluated, a supported operand gives the architectural address and width, and is accepted |
| `OperandText.KernelRefusesOnlySpIndex` | kernel/rd_wpctl.c:1258-1276 | whatever text parses, the kernel accepts the template iff its second address item is not `sp` |
| `OperandText.SpIndexIsRefused` | src/targeted_rd.cc:236-266 | a text that parses and is then refused |
| `Device.CopyTargets` | kernel/rd_wpctl.c:1626-1666 | the copy loop takes the whole batch iff every target validates |
| `Device.ConfigureValid` | kernel/rd_wpctl.c:1598-1621 | an accepted configuration has capacity at least one, and event room in DWARF mode |
| `Device.LoadTargetsValid` | kernel/rd_wpctl.c:1626-1666 | a loaded session has a nonempty list of valid targets |
| `Device.RegisterValid` | kernel/rd_wpctl.c:1515-1574 | registering keeps active thread ids distinct and every thread an engine run |
| `Device.UnregisterValid` | kernel/rd_wpctl.c:1582-1593 | unregistering keeps the session valid |
| `Device.ResetValid` | kernel/rd_wpctl.c:1905-1920 | resetting keeps the session valid, and every thread an engine run |
| `Device.ClosedRecordsNothing` | kernel/rd_wpctl.c:919-937 | a handler delivered while the window is closed changes nothing at all |
| `Device.HistoryIsValid` | kernel/rd_wpctl.c:1925-2020 | every session reached from opening the device by configure, load, register, unregister, start, stop, reset and handlers, in any order and whatever failed, is valid |
| `Device.ConfigureAnswers` | kernel/rd_wpctl.c:1598-1621 | Busy iff set up before, else accepted iff capacity and period are positive, the mode is 0, 1 or 2, the stack size at most 8192, and in mode 2 stack size and event room positive; modes 0, 1, 2 are off, frame pointers, raw events; a refusal changes nothing |
| `Device.LoadAnswers` | kernel/rd_wpctl.c:1626-1666 | a batch is taken, as a whole, iff the session is configured and not yet loaded, and the batch is nonempty and valid throughout; a refusal changes nothing |
| `Device.SetUpOnce` | kernel/rd_wpctl.c:1598-1666 | over every history the session runs under the first sound configuration it was sent and the first valid batch after that, is configured and loaded iff there are such, and keeps both whatever is asked later |
| `Device.SessionSeedsConserved` | kernel/rd_wpctl.c:1689-1733 | over every history of ioctls and handlers since the device was opened, the capacity is at least one and seed conservation holds of every thread, detached or not |
| `History.ThreadIsItsRun` | kernel/rd_wpctl.c:1925-2020 | each thread of each session is in the state its own events lead to: its handlers with the window flag of their time, the resets that were not refused, and its unregistration |
| `History.ReusesAreDelivered` | kernel/rd_wpctl.c:919-1150 | every reuse that any thread of any session reports is a pair of handler requests of that thread, delivered with the window open and after the last reset, and describes them |
| `History.ReportsFollowReuses` | kernel/rd_wpctl.c:1689-1733 | hits, histograms, pairs and raw events of a thread are those of the reuses its own events recorded |
| `History.RawEventsAreDelivered` | kernel/rd_wpctl.c:1110-1136 | every raw event that any thread of any session reports holds the fields of two handler requests of that thread, delivered with the window open and after the last reset |
| `History.SessionStatsAreCounts` | kernel/rd_wpctl.c:1689-1733 | the counters any thread of any session reports are the counts of `Tallies.StatsAreCounts` over its own events |
| `History.NothingRecordedWhileClosed` | kernel/rd_wpctl.c:1014-1036 | over any history, handlers that run while the window is closed leave the whole session as it is |
| `Window.BringUpConstructs` | src/targeted_rd.cc:677-684 | configure, load, register and start, with configuration and targets accepted, lead from the opened device to the constructed state the window results start from |
| `Window.StartIsUndisturbed` | src/targeted_rd.cc:771-790 | a start with any handlers running after its stop and after its reset is the start with none, whatever fails |
| `Window.WindowInSync` | src/targeted_rd.cc:742-801 | over every history, failing ioctls and handlers between the ioctls of a start included, the controller's open flag equals the kernel's `running`, and a start never asks for the reset of an open window |
| `Window.EarlyStopIsIgnored` | src/targeted_rd.cc:793-801 | a stop before the first successful start changes nothing and throws nothing |
| `Window.StartOutcome` | src/targeted_rd.cc:771-790 | exactly which failing ioctl makes a start throw, whether it then counts as the first explicit one, whether the window is open afterwards, and whether the threads are blank or untouched |
| `Window.StopOutcome` | src/targeted_rd.cc:793-801 | a stop closes an open explicit window on both sides and keeps all threads, changes nothing otherwise, and throws iff it had to close and the ioctl failed |
| `Window.FlagsFollowCalls` | src/targeted_rd.cc:742-801 | over every history the four flags and the kernel's `running` are those the list of calls and their failures decide alone |
| `Window.FirstStartBlanks` | src/targeted_rd.cc:771-790 | the first successful explicit start, whatever handlers run between its ioctls, leaves every thread, detached ones included, as if it had recorded nothing |
| `Window.ExplicitWindowForgetsAuto` | kernel/rd_wpctl.c:1905-1920 | systems that differ only in what was recorded before, and in the handlers that ran during the start, are identical from the first successful explicit start on, over every later history |
| `Window.ExplicitDataSurvives` | src/targeted_rd.cc:771-801 | after that no action discards data: threads stay listed and hit counts never go back |
| `History.SystemIsItsHistory` | src/targeted_rd.cc:677-801 | from the opened device on, the session is the one the controller's requests and the handlers lead to, in the order they were made and up to the first that failed |
| `History.ReusesFollowStart` | src/targeted_rd.cc:771-790 | after a successful explicit start both handlers behind every reuse that any thread reports came after that start |
| `Controller.Construct` | src/targeted_rd.cc:576-685 | the constructor's sequence: it yields the constructed state with exactly the given threads bound, only if the ioctls get through, configuration, targets and window are accepted and no more threads than CPUs were given, and fails only if one of these or a registration fails |
| `Controller.Profiler.StartWindow` | src/targeted_rd.cc:742-749 | opens the window once; a failing ioctl changes nothing |
| `Controller.Profiler.StopWindow` | src/targeted_rd.cc:752-759 | closes the window once; a failing ioctl changes nothing |
| `Controller.Profiler.ResetSamples` | src/targeted_rd.cc:762-768 | refuses an open window, else resets the session |
| `Controller.Profiler.KernelStart` | src/targeted_rd.cc:771-790 | the in-place start, with handlers between its ioctls, is the specified one and keeps window, CPU and thread agreement whatever fails |
| `Controller.Profiler.KernelStop` | src/targeted_rd.cc:793-801 | the in-place stop is the specified one and keeps that agreement |
| `Controller.Profiler.RunHandlers` | kernel/rd_wpctl.c:1172-1221 | handlers that run between two calls keep window, CPU and thread agreement |
| `Controller.Profiler.AllocateCpu` | src/targeted_rd.cc:916-933 | takes the first free CPU from the hint upwards, or from 0 when the hint is no CPU, going round after the last; fails iff every CPU is owned, and then changes nothing |
| `Controller.Profiler.RegisterThread` | src/targeted_rd.cc:945-995 | succeeds iff already bound, or a CPU is free and every step succeeds; the thread is then bound to the first free CPU from the hint on and appended, blank, to the kernel's list on that CPU; a failure gives the CPU back and leaves the kernel alone; owned CPUs stay exactly those of active bindings, no two threads share one, and both sides list the same active threads on the same CPUs |
| `Controller.Profiler.UnregisterThread` | src/targeted_rd.cc:1005-1022 | fails only with the ioctl and then changes nothing; otherwise frees exactly this thread's CPU, detaches it in the kernel and keeps the same agreement |
| `Controller.BindKeeps` | src/targeted_rd.cc:945-995 | binding a thread to a free CPU keeps the ledger exclusive |
| `Controller.ReleaseKeeps` | src/targeted_rd.cc:936-940 | releasing a bound thread's CPU keeps the ledger exclusive |
| `Controller.BoundIsOwned` | src/targeted_rd.cc:916-940 | as many CPUs are owned as threads are bound |
| `Relocation.FindModuleMap` | src/monitor.cc:522-529 | the first mapping with vm_start <= PC < vm_end, none iff there is none |
| `Relocation.ResolveAbsolutePc` | src/targeted_rd.cc:435-472 | the PC of the first mapping of the binary whose file range holds the offset, or the exception |
| `Relocation.ResolveMeaning` | src/targeted_rd.cc:435-472 | the first mapping of the path whose part of the file holds the offset decides, and the PC lies as far into it as the offset into that part |
| `Relocation.UnresolvedMeaning` | src/targeted_rd.cc:435-472 | nothing resolves iff no mapping of the path holds the offset |
| `Relocation.RoundTripIff` | src/targeted_rd.cc:435-472 | a recorded offset always resolves in the same run, and to the sampled PC iff the first mapping holding it has the sampled mapping's bias |
| `Relocation.RoundTrip` | src/monitor.cc:594-603 | with disjoint file ranges the sampled PC comes back |
| `Relocation.SlideMovesThePc` | src/monitor.cc:594-603 | in a run whose main-binary mappings are slid, in any order and beside others, the resolved PC is the sampled one plus the slide |
| `Relocation.DoubleMappingMisses` | src/targeted_rd.cc:435-472 | overlapping file ranges where the PC does not come back |
| `Relocation.Remember` | src/monitor.cc:457-475 | lists a mapping once and keeps the earlier ones in place |
| `Relocation.ModuleIdsAreStable` | src/monitor.cc:457-475 | a PC keeps its module id when further mappings are remembered |
| `Targets.Aggregate` | src/targeted_rd.cc:827-850 | the manifest loop computes the per-offset aggregation |
| `Targets.AggregatedIsTotal` | src/targeted_rd.cc:844-850 | one item per offset that occurs, holding the sums over all its lines modulo 2^64 and whether any of them has a score |
| `Targets.CandidatesAreTotals` | src/targeted_rd.cc:844-872 | the sorted candidates are one for each offset listed, with the samples of all its lines and the sum of their scores, or the samples again where no line has a score, modulo 2^64 |
| `Targets.VerdictMeaning` | src/targeted_rd.cc:873-897 | a candidate becomes a target, at the resolved PC with the parsed template, iff it is disassembled as one of the four mnemonics, its operand parses and a mapping of the binary holds it; it ends the load iff it has no disassembly, or decodes and no mapping holds it |
| `Targets.SelectTargets` | src/targeted_rd.cc:873-904 | stops at the first full target list or at the end: the decodable candidates before that in order, the filtered ones apart, the rest reported as truncated; fails only when nothing was taken or a candidate that cannot be located was reached |
| `Targets.StopIsUnique` | src/targeted_rd.cc:877-881 | the stopping point is unique, and excludes having reached a candidate that ends the load |
| `Targets.LoadMeaning` | src/targeted_rd.cc:858-897 | loaded, filtered and truncated add up to all candidates, loaded offsets are distinct, and what is cut off has a lower score than all that was considered, or the same with fewer samples, or both the same and a greater offset |
| `Targets.KernelTakesBatch` | kernel/rd_wpctl.c:1626-1666 | the kernel takes the loaded batch iff no target indexes by `sp` |
| `Targets.SampledPcIsArmed` | src/targeted_rd.cc:873-897 | the PC of a sample that stage 1 filed under a hotspot becomes a target at that PC plus the slide and is never lost to relocation |
| `SpePackets.KindMasks` | src/monitor.cc:77-86 | the address and counter header masks as arithmetic on the byte |
| `SpePackets.EventsMask` | src/monitor.cc:89-92 | the events header mask as arithmetic |
| `SpePackets.IndexMask` | src/monitor.cc:95-98 | the short index field as arithmetic |
| `SpePackets.SizeMask` | src/monitor.cc:101-104 | the payload size field as arithmetic |
| `SpePackets.ConsumedRule` | src/monitor.cc:1510-1586 | the parser's case-by-case payload sizes are one rule: none for padding and end, else what the size field says; counters always carry two bytes |
| `SpePackets.ReadEncoded` | src/monitor.cc:107-112 | reading an encoded short-format packet gives that packet |
| `SpePackets.EncodeRead` | src/monitor.cc:107-112 | encoding what was read gives the bytes, for every header byte |
| `SpePackets.DecodeFindsHeld` | src/monitor.cc:1505-1587 | whatever packets the AUX area holds, read straight on from each header, the parser finds exactly those |
| `SpePackets.DecodedIsHeld` | src/monitor.cc:1505-1587 | whatever bytes there are, they are held as the packets found |
| `SpePackets.DecodeIff` | src/monitor.cc:1505-1587 | the packets the ring holds, byte by byte modulo its size, are the ones found iff each packet across the end has its tail repeated behind the ring |
| `SpePackets.UncrossedIsMirrored` | src/monitor.cc:1508-1510 | that is so of every stream without a packet across the end |
| `SpePackets.CrossingMisreads` | src/monitor.cc:1508-1510 | a counter packet across the end of the ring that is read as another value |
| `SpeRecords.AddressIsRecovered` | src/monitor.cc:126-145 | a packed instruction address decodes to the PC iff its top byte is all ones in non-secure EL1/EL2, zero elsewhere |
| `SpeRecords.OtherAddresses` | src/monitor.cc:126-145 | a data address comes back without its top byte, so unchanged iff that is zero; branch addresses are treated as instruction addresses, others left alone |
| `SpeRecords.LastMeans` | src/monitor.cc:1515-1552 | the last value of a field is carried by a packet no later one overrides, and absent iff none carries it |
| `SpeRecords.FieldsInBytes` | src/monitor.cc:1510-1586 | which header bytes carry the PC, data address, total, issue and translation latency and the events, with the value of their payload, and which two write a record |
| `SpeRecords.ParserMeaning` | src/monitor.cc:635-683 | over any packet list: one record per flush with a PC since the previous flush, holding the last value per field since then; end and time flushes counted apart; the pending sample is what the packets since the last flush say; hotspots come from the records alone |
| `SpeRecords.FlushesConserved` | src/monitor.cc:647-683 | end and timestamp packets = time flushes + end flushes + empty flushes, one record per non-empty flush, every unknown packet counted |
| `SpeRecords.FinishIsExact` | src/monitor.cc:665-671 | the 64-bit test for a valid execution latency is the exact one, because counters carry sixteen bits |
| `SpeRecords.StreamStatsAreExact` | src/monitor.cc:606-623 | over any stream a hotspot exists iff a record belongs to it, its counters are the sums over its records modulo 2^64, exactly so iff the latency sums and the count fit, and exec sum <= total sum and exec count <= total count <= samples while total latency and count fit |
| `SpeRecords.StreamOrderFails` | src/monitor.cc:616-620 | a packet stream after which the execution latency sum of a hotspot exceeds its total latency sum |
| `Sampler.Slot.RecordHotspot` | src/monitor.cc:588-632 | the in-place update of the hotspot table is the specified one, with every early return |
| `Sampler.Slot.FlushPending` | src/monitor.cc:647-683 | the in-place flush is the specified one |
| `Sampler.Slot.TakePacket` | src/monitor.cc:1508-1586 | one turn of the loop feeds the packet at the position and advances by its size |
| `Sampler.Slot.ProcessAux` | src/monitor.cc:1505-1590 | a whole AUX record, wherever it lies in the ring, is the fold over the packets found; a truncated record is skipped |
| `Sampler.BuffersAreInvisible` | src/monitor.cc:1505-1587 | any sequence of buffers gives the state of the packet stream they carry |
| `Sampler.CutAnywhere` | src/monitor.cc:1505-1587 | the same bytes cut at any packet boundary give the same state as read at once |
| `Hotspots.HotspotsAreCounted` | src/monitor.cc:588-632 | a hotspot exists iff some sample belongs to it, and every counter is the sum over those samples modulo 2^64, however many there are; refills, page walks, last-level misses and remote accesses are event bits 3, 5, 9 and 10 |
| `Hotspots.HotspotsAreExact` | src/monitor.cc:588-632 | a hotspot's counters are the exact sums over its samples iff their number and the three latency sums fit 64 bits |
| `Hotspots.HotspotsAreOrdered` | src/monitor.cc:606-623 | exec sum <= total sum, exec count <= total count <= sample count for every hotspot whose total latency and sample count fit 64 bits |
| `Hotspots.OrderIff` | src/monitor.cc:606-623 | the order is guaranteed for a hotspot of n samples iff n is below 2^48 + 2^32 + 2^16 + 2 |
| `Hotspots.OrderFails` | src/monitor.cc:616-620 | samples after which the execution latency sum exceeds the total latency sum, for every number from the bound on |
| `Hotspots.UnmappedIsCounted` | src/monitor.cc:594-598 | the unmapped count is the number of samples with a nonzero PC of a known thread that lies in no mapping |
| `Hotspots.KeyIsRecorded` | src/monitor.cc:594-603 | a sample belongs to a module and file offset iff it has a nonzero PC of a known thread and the first mapping around that PC is this module, one of the main binary, holding the PC at that offset; this is what the relocation results assume |
| `Pareto.CollectHotspots` | src/monitor.cc:686-777 | for any walk of the hash map and any floating-point arithmetic the output is the selection: the first top-k of the ranking |
| `Pareto.SelectionIsUnique` | src/monitor.cc:686-777 | there is one selection, so the output does not depend on the walk |
| `Pareto.SelectionMeaning` | src/monitor.cc:753-777 | its length is min(top-k, n), its flags mark exactly the front, and nothing is output before all that ranks ahead of it, so no other hotspot before the whole front |
| `Pareto.FlagsInFields` | src/monitor.cc:567-573 | an output hotspot is flagged iff it passes both thresholds and no hotspot that passes them has at least its samples and at least its mean latency (exec, else total) with one of the two greater |
| `Pareto.OrderInFields` | src/monitor.cc:576-585 | flagged hotspots come first, then the others that pass the thresholds; within each part the greater latency sum (exec, else total) first, then more samples, then the smaller module and offset |
| `Pareto.FrontDominates` | src/monitor.cc:734-751 | every dominated hotspot is dominated by a member of the front |
| `Pareto.FrontIsNonempty` | src/monitor.cc:734-751 | the front is nonempty when any candidate passes the filter |
| `Pareto.FindDominator` | src/monitor.cc:737-745 | the inner loop finds a dominator iff some candidate dominates |
| `Counters.WindowIsExact` | src/monitor.cc:1707-1752 | over any run of register, unregister, counting, reads and resets, the next window value of a counter is what it counted on all threads since it was last read less what resets threw away since, modulo 2^64; it is exact iff the count is below 2^64 and what was thrown away is a multiple of it |
| `Counters.WindowsAddUp` | src/monitor.cc:1707-1752 | all window values add up to the total at the last read less what resets threw away, modulo 2^64, and without resets exactly while the total fits |
| `Counters.TotalIsEvents` | src/monitor.cc:1707-1752 | in every reachable state retired plus live is everything counted less what resets threw away, for the value and both times |
| `Counters.LiveThreadsCount` | src/monitor.cc:1095-1112 | a thread's counters count iff its events could be opened by a registration after it was last unregistered |
| `Counters.ActiveTimeIsCumulative` | src/monitor.cc:1719-1727 | the reported active time is running divided by enabled time of all threads since they were registered, retired ones included, not of the window, and 0 when the enabled time is 0 |
| `Counters.RetireKeepsTotal` | src/monitor.cc:1251-1272 | retiring a thread leaves the retired plus live total unchanged |
| `Counters.RegisterKeepsTotal` | src/monitor.cc:1095-1112 | so does registering or reopening one |
| `Counters.ResetTakesLive` | src/monitor.cc:1630-1633 | a reset takes exactly the live counts out of the total and leaves the times alone |
| `Counters.ResetMisreports` | src/monitor.cc:1630-1633 | a read, a reset and no event: the next window is reported as minus the live counts |
| `Counters.Monitor.AccumulateRetired` | src/monitor.cc:1251-1272 | the loop adds each of the thread's counts and times to its retired total and nothing else |
| `Counters.Monitor.UnregisterThread` | src/monitor.cc:1302-1316 | retires an active thread once; otherwise changes nothing |
| `Counters.Monitor.ResetCounters` | src/monitor.cc:1612-1633 | empties the counts of active threads and nothing else |
| `Counters.Monitor.ReadOne` | src/monitor.cc:1711-1723 | the 64-bit sums of value and times over active threads are the totals |
| `Counters.Monitor.ReadCounters` | src/monitor.cc:1707-1752 | reports total minus remembered value and the active time for each counter, the samplers' only when asked for, remembers the totals read, and leaves the others alone |
| `Grouping.GroupEvents` | postproc/resolve_dwarf_pairs.py:551-561 | the grouping loop computes the nested counts |
| `Grouping.CellsAreCounts` | postproc/resolve_dwarf_pairs.py:551-561 | a cell exists iff some event falls in it, and holds their number |
| `Grouping.SumBuckets` | postproc/resolve_dwarf_pairs.py:580-599 | the report loop's totals over the listed buckets |
| `Grouping.GroupTotals` | postproc/resolve_dwarf_pairs.py:580-599 | in whatever order the buckets are listed, the totals are the group's number of events and its number of events in long buckets by the kernel's index |

## Left out

- perf_event, hw_breakpoint, kprobe and user-copy calls: rewriting a watchpoint is a call that may fail, and the access counter is a value read by the handler or a failed read.
- Handlers are one atomic step each: a thread's handlers interleaving inside their unlocked windows, and a handler that tested the window flag before a stop and records after it, are not modelled (`wp_generation` is written but never compared).
- The module's event counters (hits, candidates, pair and histogram buckets) are unbounded naturals; their 64-bit and 32-bit wrap-around is not modelled.
- The random stream is a parameter: every sequence of rolls is covered, its distribution is not.
- DWARF stack and register snapshot bytes, the failed-stack-copy counter and the CFI unwinder; `Grouping` takes unwound chains as given.
- Trace.ReuseDistanceMeaning: assumes one count per access and every touch of an armed slot delivered, as the hardware promises; counter skid is not modelled.
- OperandText.ParsesExactlySupported: covers `ldr`, `str`, `ldur` and `stur` operands as objdump and llvm-objdump print them; the running of objdump and the splitting of its output lines are not modelled.
- Sampler.Slot.ProcessAux: two-byte extended headers are read as the unknown packets the code takes them for, not as the standard defines them; at least eight readable bytes are assumed behind the ring.
- Pareto.CollectHotspots: the printed fields of a summary (path, metric name) are not modelled.
- Targets.LoadMeaning: takes the sorted order as given, as what the library sort returns; the candidate and truncation counts are not cut to 32 bits.
- Sampler thread, eventfd and epoll plumbing, perf ring records other than AUX, `PeriodicProfiler` timing.
- `/proc` and manifest parsing and path normalisation: mappings and lines are already-parsed data, and a manifest line of another binary, which ends the load, is not modelled.
- Report writers, symbolisation, source attribution, plotting, environment variables and the benchmarks under `bin/`.
