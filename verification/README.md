# Verified models of the recorder's core

DistFuzz drives a vendored copy of the `rr` recorder and debugger. This project models the
parts of `rr` whose correctness is least obvious from reading them, and proves what they are
for. Verify everything with `dafny verify dfyconfig.toml`.

- **Trace compression** (`CompressedWriter.dfy`, `WriterSafety.dfy`, `WriterRuns.dfy`,
  `WriterLiveness.dfy`). One producer and any number of compression threads share a ring
  buffer, a mutex and a condition variable. The model is a step relation, one step per
  section under the mutex, with separate unlocked steps for the producer's copy, the
  encoder's reads and the pieces of `write_all`, and with spurious wakeups. Every result is
  about every run, whatever the schedule and whichever compressions fail.
- **Trace decompression** (`CompressedReader.dfy`, `RoundTrip.dfy`). The block reader is a
  class that changes its fields in place; it refines a plain cursor, and together with the
  writer it gives the end-to-end round trip.
- **Tracee memory** (`MemoryRange.dfy`, `MemoryMap.dfy`, `MapWalk.dfy`, `TraceeMemory.dfy`,
  `FreeMemory.dfy`, `WatchRegisters.dfy`). The interval map of an address space against a
  naive page table, madvise ranges and fork, the two searches for free memory, and the
  splitting of watchpoints over debug registers.
- **Trace packing** (`TraceNames.dfy`, `Packing.dfy`). Deduplication by hash and the crash
  safety of the switch-over, stated over the history of every file system state.
- **Debugger protocol** (`AgentBytecode.dfy`, `AgentVariants.dfy`, `MemorySearch.dfy`,
  `GdbPackets.dfy`). Agent bytecode and its variants, memory search, packet framing.
- **Syscall-buffer descriptor classes** (`FdTables.dfy`). Fd tables shared by tasks of several
  address spaces.

## Assumptions

- Brotli is a pair of functions with `decompress(compress(x)) == x` on what fits a block; a
  compression may fail at any time. Every call of the encoder and every `write` moves at least
  one byte: the loops around them would spin if one moved none. BLAKE2b is a collision-free function. `random()` becomes
  parameters, so results hold for every choice.
- Sums of addresses and lengths do not wrap around 64 bits. Differences do, where stack growth
  is subtracted from a small address or a huge length from the end of the address space.
- Iteration over hash tables and sets is modelled by picking elements in any order; where the
  order of a `std::map` matters it is any strict order of the keys.
- A trace can be read when packing starts: it has an index, and the files this names exist.

## Where the code does not do what it seems to promise

- `at_end()` and `get_buffer()` of the reader miss the end of the stream when a skip ran to the
  end after the buffer of a saved position was put aside for it, also when that position is
  discarded afterwards, and on an empty file after `rewind()`. `Reader.AtEnd` and
  `Reader.GetBuffer` state the exact condition; `HiddenEnd`, `HiddenBuffer` and `RewoundEmpty`
  are sessions.
- `madvise` with length 0 puts an empty range into the set of ranges, so "all ranges are
  non-empty" is kept exactly by calls with a non-zero length (`AddRange`, `Advise`), and the
  child of a fork keeps such a range (`DidForkInto`).
- `is_in_trace_dir` is a prefix test, so a file of a neighbouring directory passes it
  (`NeighbourPassesPrefixTest`). Replacing a path by its last component is right exactly for
  direct entries (`RelativeNameIsRight`). Packing keeps a trace consistent if and only if the
  files it leaves where they are can be found by their last component (`Trace.Pack`); one stray
  file is enough to break a trace (`StrayIsNotRight`).
- A crash between the creation of `pack_mmaps` and the rename leaves a file that makes every
  later `rr pack` fail, because it is created exclusively. Every run passes through such a state
  (`Trace.Pack`), and packing again succeeds exactly when that file is absent
  (`Trace.PackAgain`). The comment in the source says that a retry cleans up.
- `chaos_mode_find_free_memory` does not check that the length fits into its window, and its
  caller passes what the tracee asked for. A result lies in the window if and only if the length
  fits (`ChaosFindFreeMemory`); `OversizedBlock` is a length that does not fit and gets an
  address.
- `search_memory` finds the empty pattern wherever something is mapped, at the right place
  exactly under `EmptyFits` (`SearchMemory`); `EmptyPatternMisses` finds it where nothing is.
- What `mprotect` with PROT_GROWSDOWN does depends on where segments start, and so on which
  neighbours were coalesced (`SegmentsMatter`). Two maps of the same pages are treated alike if and
  only if all pages between the two starts already have the new protection (`SegmentsMatterIff`);
  all other calls have a meaning on pages alone (`TableIsNaive`).
- All large descriptors share the last slot. After an update the slot of a descriptor that must
  be traced is traced, unless the one task that has a say monitors the owner of the slot as a
  `/proc/<pid>/mem` file (`TracedUnlessAlone`, `SlotTracedUnlessAlone`, `LargeFdLosesItsSlot`);
  it is never untraced. The initial classes do not have this gap (`InitFdsDisabled`).
- `replace_monitor` does not refresh the slot of a descriptor that is monitored already
  (`ReplacedMonitorIsStale`). A slot that held the join still holds it if and only if the class is
  the same, the task is not the only one that has a say, or the slot is not the descriptor's own
  in an address space that uses the table (`ReplaceMonitor`).
- The instructions of an agent expression are found before its widths are varied. All variants
  take the same steps from them if and only if no varied byte is read as a jump target or as an
  opcode that does not just lead to the next byte (`SameStepsIff`); `UntidyProgram` is a program
  with a variant that has other instructions.
- The header of the compressor says zlib, the code uses brotli. The interpreter's `rot` reverses
  the top three values where appendix F.2 of the GDB manual rotates them; the two agree if and
  only if the lower two values are equal (`RotIsManualIff`).

## Model

| member | source | states |
|---|---|---|
| WriterSafety.InvStep | rr/src/CompressedWriter.cc:97-252 | every step of the producer, of any thread and every spurious wakeup keeps the invariant of positions, claimed blocks, ring contents, file contents and sleepers |
| WriterSafety.InvReachable | rr/src/CompressedWriter.cc:97-252 | the invariant holds in every state of every run |
| WriterRuns.OneThreadWrites | rr/src/CompressedWriter.cc:186-213 | in every reachable state at most one thread is inside `write_all` |
| WriterRuns.FileIsAlwaysPrefix | rr/src/CompressedWriter.cc:165-213 | at every moment, failures included, the file is a prefix of the sequential encoding, and ends at a frame boundary when nobody is writing |
| WriterRuns.ReservationBounded | rr/src/CompressedWriter.cc:121-150 | the reservation never exceeds the oldest unreleased position plus the ring size |
| WriterRuns.CopyNeverRaces | rr/src/CompressedWriter.cc:97-119 | the unlocked copy never touches a ring slot of a published or claimed byte |
| WriterRuns.EncoderSeesItsBlock | rr/src/CompressedWriter.cc:254-285 | the wrapping read loop feeds the encoder exactly the bytes of its block, in order |
| WriterRuns.CloseTellsTheTruth | rr/src/CompressedWriter.cc:225-252 | when `close` returns, there is no error if and only if the file is the complete encoding of everything written and no requested sync failed |
| WriterRuns.ScheduleIndependent | rr/src/CompressedWriter.cc:97-252 | two error-free runs over the same bytes give the same file, for any schedules, thread counts and splittings of the writes |
| WriterRuns.NoFailureNoError | rr/src/CompressedWriter.cc:179-204 | in a run in which no compression fails no thread ever sees an error, and the producer at most that of a failed sync |
| WriterLiveness.NoLostWakeup | rr/src/CompressedWriter.cc:121-223 | whoever sleeps, sleeps because its wake condition is false |
| WriterLiveness.NoDeadlock | rr/src/CompressedWriter.cc:121-239 | until `close` has returned, some step that is neither a spurious wakeup nor a failure is possible |
| WriterLiveness.StepMeasure | rr/src/CompressedWriter.cc:97-252 | every step lowers a measure, but a spurious wakeup raises it by one |
| WriterLiveness.RunsAreBounded | rr/src/CompressedWriter.cc:97-252 | a run is no longer than a bound known at its start plus two steps per spurious wakeup |
| WriterLiveness.StuckMeansFinished | rr/src/CompressedWriter.cc:225-252 | a run that cannot go on has all threads exited and `close` returned |
| WriterLiveness.EveryRunCanFinish | rr/src/CompressedWriter.cc:97-252 | every run, wherever it stands, can be continued without a failure until `close` returns |
| WriterLiveness.FinishedRunsExist | rr/src/CompressedWriter.cc:97-252 | for all writes, block sizes and thread counts a finished run exists, so the results above are about something |
| BlockFormat.WordRoundTrip | rr/src/CompressedWriter.h:45-48 | a header field reads back as the number written |
| CompressedReader.BlockHere | rr/src/CompressedReader.cc:129-174 | on a well-formed file the header and data at the offset of block k are those of block k |
| CompressedReader.Reader.constructor | rr/src/CompressedReader.cc:23-36 | a new reader stands at position 0 of the stream |
| CompressedReader.Reader.CopyOf | rr/src/CompressedReader.cc:38-48 | a copy is an independent cursor at the same position |
| CompressedReader.Reader.Refill | rr/src/CompressedReader.cc:129-174 | loads the next block or skips whole blocks without decompressing, without moving the cursor; fails exactly at the end |
| CompressedReader.Reader.ProcessSkip | rr/src/CompressedReader.cc:90-103 | a pending skip inside the stream is carried out completely and equals reading and discarding |
| CompressedReader.Reader.Read | rr/src/CompressedReader.cc:105-127 | succeeds if and only if that many bytes are left, and returns exactly those |
| CompressedReader.Reader.Skip | rr/src/CompressedReader.h:39-41 | advances the cursor by the amount |
| CompressedReader.Reader.AtEnd | rr/src/CompressedReader.h:28-31 | true at the end of the stream, exactly unless the end is hidden |
| CompressedReader.Reader.GetBuffer | rr/src/CompressedReader.cc:71-88 | before the end a non-empty run of the bytes at the cursor; at the end no bytes if and only if the end is not hidden, a negative size for a lost buffer, an error on a rewound empty file |
| CompressedReader.Reader.SaveState | rr/src/CompressedReader.cc:187-194 | remembers the cursor without moving it |
| CompressedReader.Reader.RestoreState | rr/src/CompressedReader.cc:196-209 | resumes at the saved position whatever was read or skipped meanwhile |
| CompressedReader.Reader.DiscardState | rr/src/CompressedReader.cc:211-217 | forgets the saved position and stays |
| CompressedReader.Reader.Rewind | rr/src/CompressedReader.cc:176-183 | back to position 0 |
| CompressedReader.Reader.UncompressedBytes | rr/src/CompressedReader.cc:219-228 | the sum over the headers is the length of the stream |
| RoundTrip.EncodeIsFrames | rr/src/CompressedWriter.cc:165-213 | the sequential encoding is a well-formed file of the blocks of the stream |
| RoundTrip.ChunksAreFull | rr/src/CompressedWriter.cc:165-175 | every block but the last holds exactly `block_size` bytes |
| RoundTrip.WrittenFileIsGood | rr/src/CompressedWriter.cc:97-252 | every error-free run leaves a well-formed file whose blocks concatenate to the writes |
| RoundTrip.ReadBack | rr/src/CompressedReader.cc:105-174 | reading the file of any error-free run in pieces of any sizes yields the concatenated writes |
| RoundTrip.Perform | rr/src/CompressedReader.cc:90-217 | one operation of the reader is one move of a plain cursor |
| RoundTrip.Session | rr/src/CompressedReader.cc:90-217 | any session of reads, skips, saves, restores and discards returns what a plain cursor returns |
| RoundTrip.HiddenEnd | rr/src/CompressedReader.h:28-31 | sessions, with and without the saved position, after which the cursor is at the end and `at_end` is false |
| RoundTrip.HiddenBuffer | rr/src/CompressedReader.cc:71-88 | the same sessions, after which `get_buffer` returns a negative size |
| RoundTrip.RewoundEmpty | rr/src/CompressedReader.cc:176-183 | on an empty file after `rewind`, `at_end` is false and `get_buffer` fails |
| MemoryRange.RemoveRange | rr/src/AddressSpace.cc:706-737 | the covered addresses become the set difference; order, disjointness, non-emptiness and alignment are kept |
| MemoryRange.AddRange | rr/src/AddressSpace.cc:739-744 | the covered addresses become the union; non-emptiness is kept exactly when the added range is not empty |
| MemoryMap.PiecesAt | rr/src/AddressSpace.cc:893-954 | splitting a mapping around a range rewrites exactly the pages in the range, file offsets included |
| MemoryMap.ChainPage | rr/src/AddressSpace.cc:1449-1472 | real-device file offsets and all other page data telescope along a chain of coalescable neighbours |
| MemoryMap.MergeAt | rr/src/AddressSpace.cc:1923-1965 | replacing a chain by one mapping changes no page table entry |
| MapWalk.StepKeeps | rr/src/AddressSpace.cc:2004-2041 | one callback of the walk rewrites its mapping and keeps the invariant of the walk |
| MapWalk.WalkEnds | rr/src/AddressSpace.cc:2004-2041 | when the walk stops, for whichever reason, the whole region has been dealt with |
| TraceeMemory.AddressSpace.LowerBound | rr/src/AddressSpace.h:193-197 | the comparator's lower bound is the first mapping that ends behind the start of the range |
| TraceeMemory.AddressSpace.ForEachInRange | rr/src/AddressSpace.cc:2004-2041 | the page table after the walk: munmap deletes the region, mprotect rewrites the contiguous mapped run from its start |
| TraceeMemory.AddressSpace.CoalesceAround | rr/src/AddressSpace.cc:1923-1965 | a maximal chain around the mapping becomes one mapping and no page changes |
| TraceeMemory.AddressSpace.Protect | rr/src/AddressSpace.cc:883-963 | mprotect on the page table, PROT_GROWSDOWN included, keeping the map ordered, disjoint, non-empty and aligned |
| TraceeMemory.AddressSpace.Unmap | rr/src/AddressSpace.cc:1290-1352 | munmap on the page table and on both sets of advised ranges |
| TraceeMemory.AddressSpace.Map | rr/src/AddressSpace.cc:746-787 | mmap overwrites the pages, on both sides, and drops the advice on them |
| TraceeMemory.AddressSpace.Perform | rr/src/AddressSpace.cc:746-963 | from any memory map, before and after each of any sequence of calls it stands for the naive page table over the one it started with |
| TraceeMemory.TableIsNaive | rr/src/AddressSpace.cc:883-963 | without PROT_GROWSDOWN that table does not depend on how the maps in between were split into segments |
| TraceeMemory.SegmentsMatterIff | rr/src/AddressSpace.cc:897-910 | a call treats two maps of the same pages alike if and only if it is no `mprotect` of anything or all pages between its two starting points already have the protection it sets |
| TraceeMemory.SegmentsMatter | rr/src/AddressSpace.cc:897-910 | two maps with the same pages and a call that treats them differently |
| TraceeMemory.AddressSpace.Advise | rr/src/AddressSpace.cc:1354-1376 | each advice is the union or difference on its own set and nothing else |
| TraceeMemory.AddressSpace.DidForkInto | rr/src/AddressSpace.cc:1378-1404 | the child has the parent's pages and wipe-on-fork addresses without the dont-fork ones, and no dont-fork address; its set of ranges is empty if and only if the parent's holds no empty range |
| FreeMemory.Overlapping | rr/src/AddressSpace.cc:2262-2289 | reports nothing only if the block is free, and otherwise something that touches it |
| FreeMemory.SearchOneWay | rr/src/AddressSpace.cc:2255-2308 | terminates in either direction from anywhere; finds the nearest free block, in the window if it started there, or everything on that side is taken |
| FreeMemory.ChaosFindFreeMemory | rr/src/AddressSpace.cc:2209-2314 | for every random choice and length: it ends; a result touches no mapping, rr page or excluded range and lies in the window if and only if the length fits; a start that is not taken is the result; none is returned only if every place in the window is taken |
| FreeMemory.OversizedBlock | rr/src/AddressSpace.cc:2249-2290 | a length that does not fit the window and still gets an address |
| FreeMemory.BelowMeetsAgainIff | rr/src/AddressSpace.cc:2274-2300 | the block just below a range in the way meets that range again if and only if the length is no multiple of the page size |
| FreeMemory.FindFreeMemory | rr/src/AddressSpace.cc:2316-2353 | the result is free and usable; it fails if and only if no mapping it may look at is followed by enough room |
| WatchRegisters.Minimal | rr/src/AddressSpace.cc:1776-1788 | no tiling by naturally aligned pieces has fewer pieces than the greedy split |
| WatchRegisters.SplitRange | rr/src/AddressSpace.cc:1766-1788 | the pieces tile the range exactly and are as few as any tiling can have |
| WatchRegisters.AlignedPieces | rr/src/AddressSpace.cc:1799-1824 | every requested byte is watched, no other for exec and read-write, none outside the enclosing blocks for write, never more registers than the exact split, and fewer whenever another byte is watched |
| WatchRegisters.ConfigureWatchRegisters | rr/src/AddressSpace.cc:1790-1832 | the registers are added behind the others with their kind and their numbers are noted; unaligned, one register takes the range as it is |
| TraceNames.RelativeNameIsRight | rr/src/PackCommand.cc:383-390 | the last component leads back to the file if and only if the file is an entry of the directory |
| TraceNames.NeighbourPassesPrefixTest | rr/src/PackCommand.cc:218-220 | the prefix test accepts a file for which that fails |
| TraceNames.CopyPathInjective | rr/src/PackCommand.cc:246-250 | different indices give different names, so the search for a free name ends |
| Packing.StrayIsNotRight | rr/src/PackCommand.cc:218-220 | a trace that maps one file which passes the prefix test without being an entry can be read and its names are not right |
| Packing.ChildrenAreRight | rr/src/PackCommand.cc:383-390 | names are right if whatever passes the prefix test is an entry |
| Packing.ChooseNames | rr/src/PackCommand.cc:359-370 | each hash gets a file that has it, and the first that can stay in the trace if there is one |
| Packing.Trace.CopyIntoTrace | rr/src/PackCommand.cc:237-291 | a new entry with the contents of the file; in every state on the way the original trace is all there |
| Packing.Trace.CopyMissing | rr/src/PackCommand.cc:372-380 | copies are made for exactly the hashes none of whose files can stay |
| Packing.Trace.CanonicalFiles | rr/src/PackCommand.cc:355-393 | every record is supplied if and only if names are right, and then the map is total, sends equal contents to one in-trace file that is no hardlink, and copies exactly where needed |
| Packing.Trace.RewriteMmaps | rr/src/PackCommand.cc:397-442 | the index is replaced in one step behind two states with `pack_mmaps`, unless that exists before |
| Packing.Trace.DeleteUnnecessaryFiles | rr/src/PackCommand.cc:445-476 | removes exactly the `mmap_` entries that are nobody's target, and at no moment anything else |
| Packing.Trace.Pack | rr/src/PackCommand.cc:478-516 | success if and only if no `pack_mmaps` was left over; every record of every state names an existing file with the recorded contents if and only if it fails or names are right; then the result is packed and packing can start again from every state; every run has a state with `pack_mmaps`; nothing outside the directory changes |
| Packing.Trace.PackAgain | rr/src/PackCommand.cc:425-441 | packing again after a crash succeeds if and only if `pack_mmaps` is absent, and every state still stands for the first trace |
| AgentBytecode.StepFollows | rr/src/GdbExpression.cc:142-289 | a step of the interpreter goes to a successor of the static walk |
| AgentBytecode.InterpreterStaysReachable | rr/src/GdbExpression.cc:142-289 | for any arithmetic, memory and registers, the interpreter only stands at reachable places |
| AgentBytecode.RunAbove | rr/src/GdbExpression.cc:142-289 | a run that does not fail neither reads nor changes what lies below the values it starts with, at any number of steps |
| AgentBytecode.RotIsManualIff | rr/src/GdbExpression.cc:236-243 | `rot` agrees with the manual if and only if the lower two of the three values are equal |
| AgentVariants.FindInstructions | rr/src/GdbExpression.cc:332-387 | the worklist ends, marks exactly the reachable instructions, and gives up if and only if they make up more than 64 programs |
| AgentVariants.ExpandAll | rr/src/GdbExpression.cc:394-417 | every program is replaced by itself and its narrower versions at one operand, narrow first |
| AgentVariants.Variants | rr/src/GdbExpression.cc:332-420 | the programs are the full product of widths at the marked operands, each once, the original among them, or none if there are more than 64 |
| AgentVariants.SameStepsIff | rr/src/GdbExpression.cc:332-420 | all variants step from the instructions of the program as the program does if and only if no varied byte is read as a jump target or as an opcode that does not lead to the next byte |
| AgentVariants.VariantsKeepInstructions | rr/src/GdbExpression.cc:332-420 | then every variant has exactly the instructions that were marked |
| AgentVariants.VariantStaysReachable | rr/src/GdbExpression.cc:427-455 | then every run of every variant only stands at instructions of the program |
| AgentVariants.UntidyProgram | rr/src/GdbExpression.cc:332-420 | a program that jumps into a width, and a variant that lacks one of its instructions |
| AgentVariants.RunProgram | rr/src/GdbExpression.cc:434-445 | the value a program leaves if it ends within 10000 steps without error |
| AgentVariants.Evaluate | rr/src/GdbExpression.cc:427-455 | a value if and only if there are programs and all of them leave it |
| MemorySearch.NothingInWindow | rr/src/GdbServer.cc:340-355 | a window without a hit rules out every match that begins in its page |
| MemorySearch.SearchRange | rr/src/GdbServer.cc:335-356 | the windows of one mapping find the lowest match in it; the empty pattern is always found, at the start exactly if that can be read or there is nothing to read |
| MemorySearch.SearchMemory | rr/src/GdbServer.cc:330-359 | the result is the lowest place that starts in a mapping and begins a readable match, and none only if there is none; for the empty pattern if and only if it fits the first mapping |
| MemorySearch.EmptyPatternMisses | rr/src/GdbServer.cc:330-359 | the empty pattern looked for before everything mapped is found where there is none |
| GdbPackets.Connection.SkipToPacketStart | rr/src/GdbConnection.cc:255-277 | drops noise without changing the next token |
| GdbPackets.Connection.ReadPacket | rr/src/GdbConnection.cc:288-340 | brings a complete token to the front of the buffer, or the stream has none |
| GdbPackets.Connection.TakePacket | rr/src/GdbConnection.cc:1104-1115 | takes exactly the first token of the stream and leaves exactly what follows it |
| GdbPackets.Connection.ReadAll | rr/src/GdbConnection.cc:255-340 | however the socket splits the input, the tokens are those of the whole stream |
| GdbPackets.EscapeRoundTrip | rr/src/GdbConnection.cc:175-205 | escaped data decodes to the original |
| GdbPackets.WritePacketBytes | rr/src/GdbConnection.cc:158-169 | frames the bytes with their checksum |
| GdbPackets.FrameChecksum | rr/src/GdbConnection.cc:158-169 | the two digits at the end are the sum of the bytes modulo 256 |
| GdbPackets.WriteBinaryPacket | rr/src/GdbConnection.cc:175-209 | nothing is cut off: the packet holds the prefix and all of the escaped data |
| GdbPackets.ReadBinaryData | rr/src/GdbConnection.cc:342-353 | the loop computes the decoding, or fails on a dangling escape |
| GdbPackets.BinaryPacketArrives | rr/src/GdbConnection.cc:158-209 | tokenising a written binary packet yields that one packet, and its data decodes to what was sent |
| FdTables.JoinIs | rr/src/FdTable.cc:163-179 | the joined class: untraced if no task has a say, the class of the only one, traced if there are more |
| FdTables.TracedIff | rr/src/FdTable.cc:163-179 | with any say the join is traced if and only if it is not a single say of another class |
| FdTables.TracedUnlessAlone | rr/src/FdTable.cc:163-179 | the join at the slot of a descriptor that must be traced is traced if and only if it is not the case that one task has a say and monitors the owner of the slot as a `/proc/<pid>/mem` file |
| FdTables.LargeFdLosesItsSlot | rr/src/FdTable.cc:163-216 | operations after which the slot of a large traced descriptor is not traced |
| FdTables.JoinFrame | rr/src/FdTable.cc:163-179 | the join at a slot depends on no descriptor of another slot and no table of another address space |
| FdTables.SumIsJoin | rr/src/FdTable.cc:163-253 | below the last slot the initial class is the join |
| FdTables.Tracees.constructor | rr/src/FdTable.cc:23-27 | empty tables for the tasks, and no address space initialised |
| FdTables.Tracees.InitFdsDisabled | rr/src/FdTable.cc:218-253 | every slot is untraced if nothing folded into it is monitored, traced if one such descriptor is or there are two, `/proc/<pid>/mem` otherwise; below the last slot it is the join |
| FdTables.Tracees.SlotTracedUnlessAlone | rr/src/FdTable.cc:181-216 | the same condition for the slot itself |
| FdTables.Tracees.JoinFdClasses | rr/src/FdTable.cc:163-179 | the loop computes the join |
| FdTables.Tracees.UpdateFdsDisabled | rr/src/FdTable.cc:181-216 | the slot of the descriptor becomes the join in every address space that uses the table, no other slot changes, and every slot is untraced exactly where nobody monitors |
| FdTables.Tracees.AddMonitor | rr/src/FdTable.cc:49-62 | adds the monitor, refreshes exactly its slot to the join, keeps the counts and every slot that held the join |
| FdTables.ReplacedJoin | rr/src/FdTable.cc:64-70 | replacing a monitor leaves the join at a slot as it is if and only if the slot is not its own in an address space that uses the table, the class is the same, or more than one task has a say |
| FdTables.Tracees.ReplaceMonitor | rr/src/FdTable.cc:64-70 | adds the monitor if there is none; otherwise sets it and leaves all slots as they are, and a slot that held the join still holds it under exactly that condition |
| FdTables.ReplacedMonitorIsStale | rr/src/FdTable.cc:64-70 | operations after which a descriptor must be traced and its slot still says `/proc/<pid>/mem` |
| FdTables.Tracees.DidDup | rr/src/FdTable.cc:131-144 | copies or drops the monitor, refreshes exactly the slot to the join, keeps the counts and every slot that held the join |
| FdTables.Tracees.DidClose | rr/src/FdTable.cc:146-153 | drops the monitor, refreshes exactly its slot to the join, keeps the counts and every slot that held the join |
| FdTables.Tracees.NeverUntraced | rr/src/FdTable.cc:181-216 | the slot of a descriptor monitored by any task of a ready address space is not untraced, large descriptors folded into the last slot |
| FdTables.Tracees.Run | rr/src/FdTable.cc:49-153 | over any sequence of operations the monitors are those of the operations, the counts are exact, a slot is untraced if and only if nobody monitors a descriptor folded into it, and slots that hold the join keep holding it while monitors are only replaced by others of their class |

## Left out

- Brotli, BLAKE2b, `pread`, `write_all`, thread creation: foreign calls, taken as functions or steps.
- A writer whose file could not be opened: it only drops what it is given.
- The names and priorities of compression threads, and the destructor of the writer.
- `compressed_bytes` and `close` of the reader: one-line accessors.
- Local mappings, monitored shared memory, emulated files and stat copies of a mapping: resource bookkeeping.
- `remap`, `brk`, `populate_address_space` and the comparison with `/proc/<pid>/maps`: kernel-facing.
- TraceeMemory.AddressSpace.Protect: maximal coalescing is not an invariant, because only the last overlap is coalesced.
- FreeMemory.ChaosFindFreeMemory: lengths are multiples of the page size, as the mmap path rounds them; with others the backward search meets the same range again (`BelowMeetsAgainIff`).
- The loop over all watchpoints, breakpoints and watchpoint values: they would add only bookkeeping around the register split.
- The choice of the global exclusion range, which is a parameter here.
- The symlink mode of packing, hashing in threads, and truncation of file names at PATH_MAX.
- Arithmetic, shifts, memory and registers of the bytecode interpreter: parameters of the model.
- The parsing and handling of gdb requests inside a packet, acknowledgements and the output buffer.
- Inserting and erasing tasks of an fd table: the tasks of a model are fixed.
- DWARF and ELF readers, performance counters, registers, command-line commands, and the fuzzer's own `core`, `bpf` and `fuzz` directories: formats and process plumbing with only easy properties.
