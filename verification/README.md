# Verified model of luajit2-flame-rs

luajit2-flame-rs profiles a running LuaJIT process. BPF programs follow each thread's
`lua_State` through uprobes, and on every timer sample capture the native stack and walk the
Lua stack out of the target's raw memory. User space unwinds, symbolizes, pairs the two event
streams and folds every sample into one line of a flame graph.

This project models that path end to end in Dafny, from bytes of target memory to folded
counts, and proves it correct. Two theorems carry the whole:

* **The walker reads call stacks.** `LuaLayout` defines logical Lua call stacks and how LuaJIT
  lays them out in FR2 slots, bytecode, compressed line tables and chunk names.
  `LuaLayout.WalkReadsLayout` says that on any such layout, at any depth cap, the walk reports
  exactly the functions among the first n physical frames, leaf first, each with its kind,
  name and line. `LuaWalkSafety` says what remains true on arbitrary bytes.
* **The counts are the samples.** `Pipeline.FoldedCountsAreSampleCounts` says that, however the
  two streams of a run are permuted and interleaved, each folded stack is counted once for every
  sample whose own native stack and own Lua walk fold to it, and a sample goes uncounted only
  when it folds to nothing. `Session.Profile` states the same of the imperative programs run
  one after another, and `Pipeline.SampleFoldsToCallStack` carries every output mode, Lua only
  or mixed with C, down to the logical call stack. `Pipeline.LossyCountsAreSampleCounts` says what
  the counts mean when deliveries are lost, and `Pipeline.UnwinderSeesTarget` that the native half
  of a sample is what an unwinder inside the target would have read.

## Structure

| file | part of the system |
|---|---|
| `Machine.dfy`, `ProbeReads.dfy` | 64-bit arithmetic, target memory, what probe reads return |
| `LuaFrames.dfy`, `LuaWalk.dfy` | the frame decoding layer and the stack walk |
| `LuaWalkSafety.dfy` | the walk on arbitrary memory |
| `LuaLayout.dfy`, `LayoutExample.dfy` | laid-out call stacks, and a concrete one |
| `Snapshot.dfy`, `Unwind.dfy` | the user-stack snapshot and the native unwind loop |
| `Kernel.dfy`, `KernelRuns.dfy` | the BPF programs (class `Probe`), and whole runs of them |
| `Rendering.dfy`, `Levels.dfy`, `Fold.dfy` | rendering frames, sorting by level, folding one sample |
| `Aggregator.dfy` | symbolizing and counting (class `Pending`) |
| `DeliveryOrder.dfy`, `Pipeline.dfy`, `Session.dfy` | delivery order; the composition |
| `Elf.dfy` | load bias, module range, file offsets |
| `MapsPath.dfy`, `MapsFields.dfy`, `MapsFile.dfy` | `/proc/<pid>/maps`: escaped paths, fields, whole lines |

The BPF programs and the aggregator are classes whose methods update maps, counters, event
streams and scratch buffers in place, each proved against a state transformer on values
(`Kernel.After`, `Aggregator.Deliver`); properties of whole runs are proved about those. The
short methods whose whole effect is one update (`NextSeq`, `HandleEntry`, `HandleReturn`,
`HandleLua`) have no row below; what they amount to over runs does.
What the functions of the model compute is stated apart from them as well, in terms of memory
words, program inputs and printed text: which base a sample starts from
(`LuaLayout.TraceIsReadFromItsBase`), which interrupts are sampled (`KernelRuns.WantedAreTaken`),
when an unwind succeeds (`Unwind.UnwoundIsOutcome`), what becomes of an address
(`Aggregator.SlotsAreSymbols`), and that a printed number is the number
(`Rendering.FrameShowsItsNumbers`).
Arithmetic is written out at the source's widths: 64-bit wrapping pointers, 32-bit line and
sequence numbers, 8-bit octal digits, checked and saturating sums.

Parameters stand for what the programs call but do not define: the frame iterator, the
symbolizer, chunk-name rendering, replacement of invalid UTF-8, and target memory itself. A
probe read succeeds exactly when its whole range is mapped user memory. Memory is fixed during
one sample; the walker's own theorems read it through functions of the address that need not
agree between widths.

## What the code does that its documentation does not say

* The caller of a call in progress is charged to its *first* line whenever it is a vararg
  function (every main chunk is): its position is looked for in its own vararg pseudo-frame,
  which holds no return address. `LuaLayout.CallLineReportedExactly` gives the exact condition,
  `LayoutExample.VarargCallerLosesItsLine` a concrete stack.
* A function that is not calling anything is charged to its first line too, although the
  repository's README says that `L:` frames identify the sampled source line
  (`LuaLayout.LeafLineReportedExactly`).
* A frame renders without a line exactly when it is reported on line 0
  (`Pipeline.RendersWithoutLineExactly`), that is, for a call in progress in a function that is not
  vararg, when the line of the call is 0, as in stripped code; and in every other case when the
  function's first line is 0 (`LuaLayout.LineIsZeroExactly`).
* The README of the repository says that `lua_yield` drops a thread's state. A yield drops the
  slot exactly at recorded depth 1; above that it only counts one level down
  (`KernelRuns.YieldDropsExactly`). Either way the handler takes it for a return although the call
  stays open. Over whole runs the recorded depth is how far entries minus returns seen, yields
  included, stand above their lowest point (`KernelRuns.DepthIsNetAboveLowest`); from that follow
  exactly when depth and open calls agree (`KernelRuns.DepthIsOpenCallsExactly`) and when the slot
  is gone while calls are open (`KernelRuns.SlotIsGoneExactly`).
* A return never puts an outer state back. Over every run the slot holds the state last entered
  (`KernelRuns.SlotHoldsLastEntered`), so that is whose stack a sample shows
  (`Pipeline.SampleShowsLastEntered`); whether that is the innermost open call's is
  `KernelRuns.InnermostIsRecordedExactly`, a run where it is not is
  `KernelRuns.InnerCallLeavesItsState`, and which stretches of a run restore the slot is
  `KernelRuns.StretchRestoresExactly`. At depth 0xffff an entry starts counting afresh
  (`KernelRuns.NestedCallRestores`).
* Sample keys repeat once one of the first 10240 threads sampled has more than 2^32 samples, and
  from the second sample on for any other thread, which the full sequence map refuses (`KernelRuns.KeysAreUniqueExactly`,
  `KernelRuns.LongRunRepeatsKey`).
* Counts are kept per joined line, so a frame whose text holds a semicolon, as the chunk name of
  code loaded from a string can, counts like two frames (`Fold.LineGivesFramesExactly`,
  `Fold.SemicolonMergesSamples`); and a chunk whose name ends like a line number renders on line 0
  like another chunk on that line (`Rendering.LuaFramesRenderAlikeExactly`, `Rendering.LineOrName`).
* The load bias is taken from the first segment that shares the mapping's file page, whether or
  not it is executable. A linker that packs segments tightly in the file makes that the wrong
  segment (`Elf.LoadBiasRecoveredExactly`, `Elf.SharedFilePageMisleads`).
* Path decoding undoes every path only if the backslash, or else every octal digit, was escaped
  (`MapsPath.RoundTripExactly`). `MapsPath.PathDecodesExactly` gives the condition on each path for
  every choice of escaped bytes; with only line breaks escaped, the path must hold no literal `\ddd`
  (`MapsPath.PlainEscapingExactly`).
* A path printed with raw white space is put together again from its fields, so runs of spaces,
  tabs and outer spaces are lost, and a linked file whose name ends in " (deleted)" is read
  without that ending. `MapsFile.PathSurvivesExactly` says which paths survive, for every choice
  of escaped bytes.
* Rounding up refuses already aligned values near 2^64 when the alignment does not divide 2^64
  (`Elf.AlignUpGivesUpExactly`); page sizes do.

## Model

| member | source | states |
|---|---|---|
| `Machine.LittleEndianRoundTrip` | src/unwind.rs:386-391 | little-endian decoding, used for every word taken from target memory, undoes encoding |
| `ProbeReads.StaleNameIsInvisible` | bpf/profile.bpf.c:161-194 | the per-CPU name buffer is never cleared, yet what an earlier event left in it never shows in the decoded name |
| `ProbeReads.FaultyAndLongNames` | bpf/profile.bpf.c:189-194 | a name that faults before its NUL reads as empty, one longer than the field is cut to leave room for the NUL, and any other reads in full |
| `LuaFrames.SizedIsWholeSlots` | bpf/lua_state.h:198-201 | clearing the marker bits always leaves a whole number of slots, for every 64-bit value: the walker's alignment test of the size can never fire |
| `LuaFrames.SlotDecodes` | bpf/lua_state.h:182-201 | a frame slot holding a multiple of 8, up or down, and a marker decodes to both |
| `LuaFrames.GcMaskStripsTag` | bpf/lua_state.h:264-272 | a tagged reference gives its 47-bit address whatever the bits above |
| `LuaFrames.OperandAOfInstruction` | bpf/profile.bpf.c:274-276 | operand A is the second byte of an instruction word |
| `LuaFrames.SignedReadsBack` | bpf/profile.bpf.c:92-123 | the signed readings of 32- and 64-bit words are the integers stored there |
| `LuaFrames.OffsetsFollowDeclarations` | bpf/lua_state.h:104-301 | every field offset used is where its declaration, with each field aligned to its size, puts it |
| `LuaWalkSafety.GuardsCatchWrapAround` | bpf/profile.bpf.c:268-290 | in terms of the slot's own word: a step is taken if and only if its return address or size is valid and the unbounded difference stays at or above the stack bottom, although the subtraction wraps |
| `LuaWalkSafety.TurnInWords` | bpf/profile.bpf.c:246-292 | what one turn of the loop does with any frame on any bytes, read off its words: whether it ends the walk, passes over the frame, or reports a function, of which kind and with which entry or id |
| `LuaWalkSafety.NextFrameDescends` | bpf/profile.bpf.c:268-290 | every accepted step goes strictly down, not below the bottom, and keeps alignment |
| `LuaWalkSafety.TrailDescends` | bpf/profile.bpf.c:246-292 | on any bytes, all visited frames are strictly decreasing, inside (bot, maxstack) and aligned |
| `LuaWalkSafety.CapOnlyTruncates` | bpf/profile.bpf.c:247-292 | the loop would end without its cap within frame - bot steps, and a cap only cuts the events to a prefix |
| `LuaWalkSafety.LevelsAreDistinct` | bpf/profile.bpf.c:258-263 | on any bytes, events carry the sample's key and strictly increasing levels, and only level 0 can be tagged JIT |
| `LuaWalkSafety.SlotsReadDecide` | bpf/profile.bpf.c:246-292 | the frame slots listed as read (frame, function, and for a line the frame above or its continuation slot) are all that matter: stacks that agree on them walk alike |
| `LuaWalkSafety.SlotsReadWithin` | bpf/profile.bpf.c:125-148 | on any bytes, every slot read lies in [bot, maxstack) |
| `LuaWalkSafety.WindowSuffices` | bpf/profile.bpf.c:246-292 | so two stacks that agree in that window walk alike |
| `LuaWalkSafety.WalkStateStaysInStack` | bpf/profile.bpf.c:215-292 | for a whole sample with aligned stack, base and maxstack, every frame slot read lies in [bot, maxstack), with bot the slot above the stack's start even where that wraps, and nothing else on the stack decides the events |
| `LuaLayout.LineTableDecodes` | bpf/profile.bpf.c:100-122 | a line table encoded byte by byte in 1, 2 or 4 bytes an entry is read back entry by entry in all three widths |
| `LuaLayout.LineTableLookup` | bpf/profile.bpf.c:92-123 | the lookup in the compressed table is the uncompressed table's line for every instruction but the header, and 0 in stripped code |
| `LuaLayout.LineTableEdges` | bpf/profile.bpf.c:92-108 | outside the table the header instruction is on the first line, the end of the bytecode on the last, and nothing further on has a line |
| `LuaLayout.StrayPositionFallsBack` | bpf/profile.bpf.c:180-188 | a position without a line is charged to the first line |
| `LuaLayout.ReturnAddressPosition` | bpf/profile.bpf.c:143-147 | the position recovered from a return address is the index of the call instruction before it |
| `LuaLayout.PositionOfActivation` | bpf/profile.bpf.c:125-148 | for every kind of frame above, the position found for a function is the index of its call in progress, or none |
| `LuaLayout.LineOfActivation` | bpf/profile.bpf.c:180-188 | position recovery and line lookup composed give the line the activation is charged to |
| `LuaLayout.ChunkNameDecodes` | bpf/profile.bpf.c:189-194 | a terminated name in memory is reported cut to the event field |
| `LuaLayout.WalkReadsLayout` | bpf/profile.bpf.c:246-292 | main result: on every laid-out call stack the walk emits exactly the functions among the first n physical frames, leaf first, a vararg pair once and a dummy thread frame never |
| `LuaLayout.SampleReadsStack` | bpf/profile.bpf.c:207-293 | the same for a sample of a thread's recorded state, from the base of the trace that its words say is active, or else from its own |
| `LuaLayout.TraceIsReadFromItsBase` | bpf/profile.bpf.c:219-239 | in memory words: when the global state names this state as its current one and records a base inside the stack, the call stack laid out below that base is read, its leaf tagged JIT |
| `LuaLayout.StateIsReadFromItsBase` | bpf/profile.bpf.c:219-239 | without such a trace the call stack below the stored base is read, untagged |
| `LuaLayout.StrayBaseReportsNothing` | bpf/profile.bpf.c:235-239 | without a trace and with the stored base outside the stack, nothing is reported |
| `LuaLayout.CallLineReportedExactly` | bpf/profile.bpf.c:258-267 | the call line of a caller is reported if and only if the caller is not vararg or that line is its first |
| `LuaLayout.LeafLineReportedExactly` | bpf/profile.bpf.c:127-129 | a leaf is reported on its function's first line, so its current line is reported if and only if it is that one |
| `LuaLayout.LineIsZeroExactly` | bpf/profile.bpf.c:180-188 | a Lua activation is reported on line 0 if and only if its call's line is 0 (call in progress, not vararg) or else its first line is; with a positive first line, if and only if it is such a call in stripped code |
| `LayoutExample.CallStackHeld` | bpf/profile.bpf.c:215-244 | the layout predicate holds of a concrete memory |
| `LayoutExample.VarargCallerLosesItsLine` | bpf/profile.bpf.c:125-147 | on that memory a call on line 12 is reported on line 10 |
| `Snapshot.SnapshotIsNearMaximal` | bpf/profile.bpf.c:302-338 | the captured length is at most, and more than half of, what was readable, and whole chunks once one chunk is readable |
| `Snapshot.ReadChunks` | bpf/profile.bpf.c:306-313 | the chunk loop captures all whole chunks of the readable prefix, under wrapping addresses |
| `Snapshot.ReadShortPrefix` | bpf/profile.bpf.c:315-336 | the fallback captures the largest power-of-two prefix from 8 to 256 bytes |
| `Snapshot.ReadUserStackSnapshot` | bpf/profile.bpf.c:302-338 | the used part of the buffer equals target memory, and the rest holds old bytes or zeros |
| `Snapshot.SnapshotRefinesMemory` | src/unwind.rs:386-391 | after capture, partial delivery and clamping, a word is answered exactly when it lies in the delivered part of the capture, and is the word the target held |
| `Unwind.UnwindSample` | src/unwind.rs:125-165 | the loop ends with the outcome described over the iterator's calls: which frames are kept, and when each flag is set |
| `Unwind.UnwoundIsOutcome` | src/unwind.rs:125-165 | an attempt succeeds exactly with ip, sp, a word of stack and frames from the first two calls; its addresses are theirs up to the first call without a frame or to 32; truncated means exactly that a call made asked outside the snapshot, or that there was less than a word |
| `Unwind.DepthIs` | src/unwind.rs:146-158 | the number of frames kept is the iterator's first non-frame, cut at 32 |
| `Unwind.UntruncatedReadsTarget` | src/unwind.rs:136-142 | for every iterator whose questions depend on earlier answers: an attempt not marked truncated is the attempt of an unwinder that reads target memory directly |
| `Kernel.Probe.EmitLua` | bpf/profile.bpf.c:151-203 | whatever the scratch buffer held, the decoded event is the one of the frame |
| `Kernel.Probe.WalkLuaStack` | bpf/profile.bpf.c:207-293 | the loop with its mutable frame, previous frame and level emits exactly the walk of the recorded state |
| `Kernel.Probe.EmitNative` | bpf/profile.bpf.c:376-408 | the event, though built over stale scratch bytes and fixed-size arrays, decodes in user space to the sample's own addresses, registers and snapshot |
| `Kernel.ReceivedInFull` | src/main.rs:263-281 | an event whose used bytes were delivered, however long the delivery, decodes to its used prefixes |
| `Kernel.PrefixFollowsDeclaration` | bpf/common.h:30-41 | the sizes of the native event and of its fixed part follow from its declared fields |
| `Kernel.Probe.DoPerfEvent` | bpf/profile.bpf.c:359-415 | the sampler filters, numbers, and emits both stacks under one key |
| `Kernel.Probe.Handle` | bpf/profile.bpf.c:359-459 | every program run is the state transformer used for whole runs |
| `KernelRuns.WantedAreTaken` | bpf/profile.bpf.c:359-374 | over every run and configuration, the samples taken are, in order, exactly the interrupts whose process, thread and idleness were asked for |
| `KernelRuns.TargetIsSampled` | bpf/profile.bpf.c:359-374 | with a target process alone: exactly the interrupts of its threads other than thread 0 |
| `KernelRuns.NativeEventCarries` | bpf/profile.bpf.c:376-400 | the native event of every sample of every run holds its key, its addresses, each register under its own name and the stack found at sp, the last two only if native stacks are collected |
| `KernelRuns.DepthNeverExceedsOpenCalls` | bpf/profile.bpf.c:418-459 | over every bracketed run, with yields, refused inserts and other threads interleaved, recorded depth never exceeds open calls, and no slot survives the last return |
| `KernelRuns.DepthIsNetAboveLowest` | bpf/profile.bpf.c:418-459 | over every run, bracketed or not, with yields and null states, recorded depth is entries minus returns seen above their lowest point so far, given room in the map and depths within the limit |
| `KernelRuns.DepthIsOpenCallsExactly` | bpf/profile.bpf.c:418-459 | on such runs depth equals open calls if and only if as many calls were lost to yields and null states as returns outran entries |
| `KernelRuns.SlotIsGoneExactly` | bpf/profile.bpf.c:443-459 | on such runs the slot is gone exactly at the lowest point, and gone with calls open exactly when calls were lost beyond it |
| `KernelRuns.DepthIsOpenCalls` | bpf/profile.bpf.c:418-459 | without yields, null states and refusals and within the limit, depth equals open calls |
| `KernelRuns.YieldDropsExactly` | src/main.rs:131-136 | a yield drops the slot if and only if its depth is 1 or there was none; otherwise it counts down and keeps the state |
| `KernelRuns.YieldInFirstCallLosesSlot` | src/main.rs:131-136 | a resumed thread that yields at once has no slot although its call is open |
| `KernelRuns.YieldLosesExactly` | src/main.rs:131-136 | from a state whose depth is exact, one yield makes it wrong if and only if a call is open |
| `KernelRuns.OtherThreadsUntouched` | bpf/profile.bpf.c:418-459 | no program run changes another thread's slot |
| `KernelRuns.SlotHoldsLastEntered` | bpf/profile.bpf.c:430-438 | over every run without exception, a slot holds the state the thread last entered |
| `KernelRuns.InnermostIsRecordedExactly` | bpf/profile.bpf.c:443-459 | a slot holds the innermost open call's state if and only if that is the state last entered |
| `KernelRuns.InnerCallLeavesItsState` | bpf/profile.bpf.c:443-459 | a run whose inner call on another state has returned and whose slot still holds that state |
| `KernelRuns.SlotIsExactly` | bpf/profile.bpf.c:418-459 | over every run with room, whether there is a slot, and which state and depth it holds |
| `KernelRuns.StretchRestoresExactly` | bpf/profile.bpf.c:418-459 | a stretch of a run, such as a nested call with anything inside, leaves the slot as it was if and only if it leaves depth and, unless there is no slot, the state last entered as they were |
| `KernelRuns.NestedCallRestores` | bpf/profile.bpf.c:418-459 | an entry and the return right after it restore the slot if and only if there was none or the call ran on the recorded state below the depth limit |
| `KernelRuns.RunNumbersSamples` | bpf/profile.bpf.c:341-347 | over every run, a tracked thread's samples are numbered consecutively modulo 2^32 and a refused thread's all get 1 |
| `KernelRuns.MapHoldsTracked` | bpf/profile.bpf.c:341-347 | over every run the sequence map holds exactly the first MAX_ENTRIES threads sampled |
| `KernelRuns.KeysAreUniqueExactly` | bpf/profile.bpf.c:374-386 | keys are distinct if and only if none of the first MAX_ENTRIES threads sampled has more than 2^32 samples and no other thread has two |
| `KernelRuns.KeysAreUnique` | bpf/common.h:4-5 | with at most MAX_ENTRIES threads and 2^32 samples each, keys never repeat |
| `KernelRuns.LongRunRepeatsKey` | bpf/profile.bpf.c:341-347 | 2^32 + 1 accepted samples of one thread do repeat a key |
| `KernelRuns.RunEmits` | bpf/profile.bpf.c:374-415 | the streams of every run are, sample by sample, its native stack and its walk under its key |
| `Rendering.RenderingTellsApart` | src/main.rs:399-425 | frames that render alike are of one kind, and among C functions and builtins are the same function |
| `Rendering.DigitsAreNumeral` | src/main.rs:421-422 | a printed number, read back digit by digit, is the number, without a leading zero unless it is 0 |
| `Rendering.FrameShowsItsNumbers` | src/main.rs:399-425 | a Lua or JIT frame shows its tag, name and positive line, a C frame its address in hexadecimal and a builtin its id, each number by value; other events show nothing |
| `Rendering.LuaFramesRenderAlikeExactly` | src/main.rs:401-422 | Lua frames of one kind render alike if and only if they show the same; with both lines positive, if and only if chunk and line agree |
| `Rendering.LineOrName` | src/main.rs:401-422 | a chunk named "a:5" on line 0 and a chunk named "a" on line 5 render alike |
| `Levels.SortDescends` | src/main.rs:366-370 | the stable sort orders events root first |
| `Levels.SortIgnoresArrival` | src/main.rs:366-370 | events of distinct levels sort alike in whatever order they arrived |
| `Levels.SortIsStable` | src/main.rs:366-370 | events of one level keep the order they arrived in |
| `Fold.MergeSlots` | src/main.rs:372-384 | the slot loop with its running index computes the recursive merge |
| `Fold.FoldSymbolizedStack` | src/main.rs:359-397 | both loops, the sort and the join compute the fold of a sample |
| `Fold.MergeKeepsFrames` | src/main.rs:372-390 | with C stacks on, the merge keeps the named natives in order and the formattable Lua events in order, and its length accounts for every unnamed slot without an event |
| `Fold.UnnamedSlotTakesItsEvent` | src/main.rs:376-380 | the k-th unnamed native slot holds the k-th Lua event, between what precedes and what follows it |
| `Fold.MergeSplits` | src/main.rs:372-390 | cut anywhere, the slots before the cut take the first events and those behind it the rest |
| `Fold.LeftoverGoesOnTop` | src/main.rs:386-390 | events that no slot asks for come after everything else |
| `Fold.NamedSlotIsItself` | src/main.rs:372-384 | a named slot, wherever it stands, is one frame of its own with C stacks on, and none without |
| `Fold.SlotsShowThemselves` | src/main.rs:372-384 | without Lua events every slot shows its name, or "[unknown]" |
| `Fold.EventsShowThemselves` | src/main.rs:386-390 | Lua frames show what their events render to, in order |
| `Fold.LuaOnlyIgnoresNatives` | src/main.rs:372-390 | in Lua-only output the native frames leave no trace |
| `Fold.FoldIgnoresArrival` | src/main.rs:359-397 | a sample folds the same in whatever order its Lua events arrived |
| `Fold.LineGivesFramesExactly` | src/main.rs:392-396 | a folded line cut at its semicolons gives back its frames if and only if there are frames and none holds a semicolon |
| `Fold.LineDeterminesFrames` | src/main.rs:392-396 | stacks without semicolons share a line if and only if all their frames render alike |
| `Fold.SemicolonMerges` | src/main.rs:392-396 | one frame with a semicolon and two frames that give the same line |
| `Fold.SemicolonMergesSamples` | src/main.rs:359-397 | one event that renders with a semicolon and two events fold to the same line |
| `Aggregator.Pending.HandleNative` | src/main.rs:283-311 | stores unwound or fallback addresses under the key and counts the outcome |
| `Aggregator.Pending.Finalize` | src/main.rs:207-228 | in whatever order the map yields samples, the counts handed over are the tally of all folded samples; natives are taken, their Lua queues removed |
| `Aggregator.SlotsReverse` | src/main.rs:327-337 | native addresses, leaf first, become slots root first |
| `Aggregator.SlotsAreSymbols` | src/main.rs:327-337 | by index: slot i is what the symbolizer says of the i-th address from the end, null ones left out |
| `Aggregator.WithoutNull` | src/main.rs:328-331 | leaving null addresses out keeps all others, and everything when there are none |
| `Aggregator.BuildStackIsFold` | src/main.rs:318-341 | for every sample: its line is the join of frames whose native ones are the names found for its addresses and whose Lua ones are its renderable events, both root first |
| `Aggregator.AddressesKept` | src/main.rs:283-311 | the addresses stored are the frames of an unwind that succeeds, the condition spelled out over the sample and the iterator, and the kernel's own in every other case |
| `Aggregator.FoldSample` | src/main.rs:318-341 | the loop over the addresses and the fold give the line of the sample's names and Lua events, as described for every sample |
| `Aggregator.CountsAreConserved` | src/main.rs:207-215 | the counts sum to the number of samples that fold to anything |
| `Aggregator.StatsAccountForSamples` | src/main.rs:303-310 | in every reachable state successes and fallbacks add up to the native events handled, and depth limits to at most the successes |
| `Aggregator.StatsCountOutcomes` | src/main.rs:289-310 | over all deliveries each statistic counts exactly the attempts it is named after |
| `DeliveryOrder.QueuedIsDelivered` | src/main.rs:313-316 | a key's queue is what was delivered under the key, in order |
| `DeliveryOrder.NativeIsKept` | src/main.rs:301-302 | with distinct keys no native insert overwrites another sample |
| `DeliveryOrder.DeliveryOrderIsIrrelevant` | src/main.rs:157-179 | every permutation and interleaving of the deliveries gives the same counts and statistics |
| `Pipeline.BuildSeesCanonical` | src/types.rs:76-85 | bytes behind a name's NUL never change a folded stack |
| `Pipeline.StreamHoldsWalk` | bpf/profile.bpf.c:164-167 | under a sample's key the Lua stream holds exactly that sample's walk |
| `Pipeline.FoldedCountsAreSampleCounts` | src/main.rs:188-228 | main result: in any delivery order, the folded counts of a run say of every stack how many samples fold to it, and miss only samples that fold to nothing |
| `Pipeline.LossyCountsAreSampleCounts` | src/main.rs:207-228 | when any deliveries are lost, exactly the samples whose native event arrived are counted, each once and folded with what arrived of its own walk |
| `Pipeline.UnwinderSeesTarget` | src/main.rs:289-300 | a sample's unwound addresses, unless marked truncated, are those of an unwinder reading its target memory directly |
| `Pipeline.SampleFoldsToCallStack` | src/main.rs:318-397 | main result: in every output mode a sample of a laid-out call stack folds to its functions, root first, merged with its native slots, both kinds of frames complete and in order; with Lua only, to its functions alone |
| `Pipeline.SampleShowsLastEntered` | bpf/profile.bpf.c:209-213 | in any run, a sample shows the call stack of the state its thread last entered |
| `Pipeline.RendersWithoutLineExactly` | src/main.rs:399-425 | a Lua frame renders without a line if and only if it is reported on line 0, and with that line otherwise |
| `Pipeline.StrippedCallRendersWithoutLine` | src/main.rs:399-425 | a call in progress in stripped code that is not vararg is reported on line 0 and renders as its chunk name alone |
| `Session.RunPrograms` | bpf/profile.bpf.c:359-459 | the programs run in sequence leave the streams of the run |
| `Session.Aggregate` | src/main.rs:157-228 | decoding, queueing and folding two drained streams gives their tally |
| `Session.Profile` | src/main.rs:153-228 | a whole session of the imperative programs counts each stack as often as samples fold to it, and the counts plus the samples that fold to nothing add up to the interrupts asked for |
| `Elf.AlignDownIsGreatest` | src/unwind.rs:278-280 | rounding down gives the greatest multiple not above the value |
| `Elf.AlignUpIsLeast` | src/unwind.rs:282-286 | what rounding up returns is the least multiple not below the value |
| `Elf.AlignUpGivesUpExactly` | src/unwind.rs:282-286 | rounding up refuses only what does not fit, for all values, if and only if the alignment divides 2^64 |
| `Elf.PageAlignmentIsExact` | src/unwind.rs:282-286 | so for every power of two it returns nothing exactly when the least multiple does not fit |
| `Elf.LoadBiasRecoveredExactly` | src/unwind.rs:288-305 | the loader's bias is recovered from a segment's mapping if and only if no earlier segment shares its file page without sharing its memory page |
| `Elf.BiasFoundExactly` | src/unwind.rs:288-305 | for any mapping, a bias is found exactly when some segment can be loaded there, and it is one of the first such segment |
| `Elf.OneLoadOneModule` | src/unwind.rs:87-94 | the executable mappings of one load yield exactly the one real bias if and only if each segment has a file page of its own |
| `Elf.SharedFilePageMisleads` | src/unwind.rs:288-305 | a concrete two-segment image for which the recovered bias is a page off |
| `Elf.ModuleAvmaRange` | src/unwind.rs:307-321 | the loop finds the least page-aligned interval around all segments, moved to the bias, and gives up exactly when that is empty or does not fit |
| `Elf.ModuleRangeIsUnique` | src/unwind.rs:307-321 | that range depends on the set of segments, not on their order |
| `Elf.OffsetFoundExactly` | src/syms.rs:76-93 | a file offset is found exactly for the addresses some executable segment holds, none of which can be the last of all |
| `Elf.AddressesAgreeExactly` | src/syms.rs:76-93 | the file offset taken back through the mapping is the loaded address if and only if address and offset agree modulo the page size |
| `Elf.ProbeAndUnwinderAgree` | src/unwind.rs:278-321 | probe address, recovered bias and module range agree on every code address |
| `MapsPath.UnescapeMapsPath` | src/unwind.rs:230-247 | the index loop computes the recursive decoding |
| `MapsPath.OctalByteIsValue` | src/unwind.rs:235-241 | three digits stand for their octal value, cut to a byte |
| `MapsPath.PathDecodesExactly` | src/unwind.rs:230-247 | for every path and every set of escaped bytes, decoding gives the path back if and only if it holds no escape of its own that was printed bare; each such escape shortens it |
| `MapsPath.UnescapeUndoesEscape` | src/unwind.rs:230-247 | decoding undoes every escaping that covers the backslash, for all byte strings, in 8-bit arithmetic |
| `MapsPath.PlainEscapingExactly` | src/unwind.rs:230-247 | where neither backslash nor digits are escaped, exactly the paths without a literal escape survive |
| `MapsPath.UnescapeKeepsPlain` | src/unwind.rs:230-247 | text without a backslash is left alone |
| `MapsPath.RoundTripExactly` | src/unwind.rs:230-247 | an escaping survives for all byte strings if and only if it escapes the backslash or every octal digit |
| `MapsFields.FieldsOfText` | src/unwind.rs:200-207 | splitting finds the fields of a line however it is spaced |
| `MapsFields.SeparatorsExactly` | src/unwind.rs:200-207 | exactly tab, line feed, form feed, carriage return and space separate fields |
| `MapsFields.SqueezedExactly` | src/unwind.rs:206-206 | splitting a text and joining its fields leaves it alone if and only if its only white space is single inner spaces |
| `MapsFields.SqueezingShows` | src/unwind.rs:206-209 | joining never makes the decoded path longer, and whatever it changes still shows after decoding |
| `MapsFile.NumberRoundTrip` | src/unwind.rs:204-222 | 64-bit numbers, zero-padded to any width, read back in both bases |
| `MapsFile.NumberReadsExactly` | src/unwind.rs:204-222 | for every text: it is read as a number exactly when it is digits of the base, with an optional plus sign, within 64 bits, and then as the number they spell |
| `MapsFile.LineReadsExactly` | src/unwind.rs:200-228 | for every line: it is read exactly when it has five fields with a range, an offset and an inode in the right bases, and as those numbers |
| `MapsFile.MapLineReads` | src/unwind.rs:200-228 | for every line and every absolute path, all other fields read back, and what the path becomes |
| `MapsFile.PathSurvivesExactly` | src/unwind.rs:206-214 | for every path and every set of escaped bytes, the path is recovered if and only if its printed form has only single inner spaces, it holds no bare escape, and it does not look unlinked while linked |
| `MapsFile.MapLineSurvivesExactly` | src/unwind.rs:200-228 | a printed mapping parses back to itself when its path survives, and only then if UTF-8 replacement yields that path from nothing but itself |
| `MapsFile.MapLineRoundTrip` | src/unwind.rs:200-228 | where white space and backslash are escaped, every mapping parses back, even one whose path ends in " (deleted)" |
| `MapsFile.OddNameMisread` | src/unwind.rs:208-210 | with only line breaks escaped, the linked file "/x (deleted)" is read as "/x" |

## Left out

- `Kernel.Probe`: programs run one at a time with one scratch buffer each; the BPF verifier, per-CPU buffers and preemption between programs are not modelled.
- `Kernel.Received`: an event is a value with a delivered length, its fixed-size part taken as a whole; structure padding and the unsafe byte copies are not modelled.
- `Session.Profile`: the programs run first and the streams are drained afterwards; other schedules are covered by the permutations of `Pipeline.FoldedCountsAreSampleCounts`. Lost events are covered by `Pipeline.LossyCountsAreSampleCounts`.
- `Aggregator.Env`: the frame iterator is any function of the registers and of the answers it had, with a bound on the questions of one call; the unwinder's cache, and what symbolizer and iterator compute, are not modelled.
- `Aggregator.Stats`: counters are unbounded rather than 64-bit.
- `Elf.Segment`: an ELF file is its list of loadable segments; section data, architecture tests, the grouping of mappings by file and reading the file itself are left out.
- `MapsFile.ParseMapLine`: text is UTF-8 bytes, and replacing invalid UTF-8 is a parameter. Cutting the file into lines comes first and is not modelled.
- `MapsFile.MapLineSurvivesExactly`: its second half is not stated for paths that contain the replacement character U+FFFD, since replacement, a parameter, could yield those from other bytes; `MapsFile.PathSurvivesExactly` covers them before replacement.
- `KernelRuns.DepthIsNetAboveLowest`: asks for room in the map and depths within 0xffff; refused inserts are covered by `KernelRuns.DepthNeverExceedsOpenCalls`, the limit by `KernelRuns.NestedCallRestores`.
- `LuaWalk.Walk`: the build for 32-bit GC references is left out; the walker itself is only built with 64-bit ones.
- perf_event_open, uprobe attachment, limits, signals, polling, argument parsing, file output and SVG rendering are I/O.
- Choosing which symbols name functions, shortening chunk names, finding the LuaJIT library and its symbols are simple lookups that would add only easy members.
