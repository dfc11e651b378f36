# Verified model of rust-selftests

A Dafny model of the parts of the repository whose correctness is not obvious from reading them, with
proofs over every input, every run or every reachable state.

**The equivalence checker** (`equiv/bpfsym.py`, `equiv/check.py`) lifts two BPF objects to symbolic terms and
reports EQUIV when no input can tell them apart. `Terms` gives the term language its meaning. `Memory` holds
the executor's loads and stores, with the shadow that keeps spilled pointers whole, beside a block memory of
data bytes, pointer fragments and bytes that a cut pointer left behind. `Machine` is a concrete BPF machine
(sections 4.1 to 4.3 and 5.1 to 5.3 of RFC 9669); `SymbolicStep` is the executor's step. `Arithmetic`, `Atomics`
(byte swaps and atomic operations) and `Simulation` show that one symbolic step
describes one machine step, `Exactness` that the worklist's paths describe every run and overlap nowhere, `Refusals` on exactly which steps
the executor gives up, `Trace` that the trace array stands for the event list, and `Verdict` that the folded summaries decide what
they claim to decide. `MemoryLimits` says exactly where the memory model stops being exact, and `StoreRuns`
what the shadow holds after any run of stores.

**The CO-RE engine** (`equiv/bpfcore.py`, `equiv/bpfelf.py`): `Btf` is the type graph, `TypesMatch` the recursive
type matcher, `CoreSpec` parsing and matching of field specs, `Bitfield` the load window of a bitfield, and
`BtfReaders` the two independent parsers.

**The arena programs**: `ArenaHeap` holds the allocator and the hash table as they work on one flat memory,
`ArenaAlloc` what the allocator keeps, `ArenaTable` the back-linked lists, `ArenaUpdate` one table update,
`ArenaRuns` whole runs as a finite map. `Glob` is the backtracking matcher of `progs/arena_strsearch.rs`, and
`GlobSyntax` the pattern language it reads, byte by byte.

**Arithmetic and protocol cores**: `CubicRoot`, `Dctcp`, `SpinLock`, `Fifo`, and `CallGraph` for the closure in
`codegen/insns.py`. `Words` holds machine words and bits.

Each method that models a loop or an in-place update is proved against a function of its inputs or of the
old state, and the theorems are about that function.

## What turned out false

- A store that overlaps a spilled pointer without replacing it drops the pointer's slot. Outside the stack the
  bytes left behind are those of the pointer's identity; on the stack they read as the array's old contents.
  `TornPointerReadsResidue` is such a run. On the machine those bytes are lost: the store itself is fine, and
  only a load that reads one traps. A store loses a byte if and only if it cuts a pointer on the stack
  (`StoreExactIff`; which bytes: `LostIff`). The machine also traps when an access runs past the last address
  (`WrappedLoadMissesSlot`).
- Two programs whose paths differ need not behave differently: the record of a `bpf_loop` call carries the trip
  count only when the solver's test finds a numeral. `LoopRecordAlone` is such a pair, one with the numeral 0 and
  one with a context byte that is 0. The paths agree exactly when the outcomes do and the loop records are equal
  (`InequivIsReal`).
- Updating a key that lies more than 256 entries deep in its bucket leaves it there twice: 257 insertions and
  one update from the fresh arena (`DeepKeyStaysTwice`; exactly when: `ReplaceDistinctIff`). With the open-ended
  walk of the assembly program it cannot happen (`OpenRunStaysDistinct`).
- Releasing the only block on the page still being carved leaves the allocator's slot naming a page that was
  handed back: one allocation and its release (`OneBlockDangles`; exactly when: `FreeDanglesIff`). A table
  update never does this.
- `[!...]` at the end of the string makes the glob matcher read past the string's NUL, exactly when `RunsOff`
  holds (`GlobMatch`, `InvertedClassRunsOff`).
- Below 64 the cube root is the nearest integer except at 42.
- With two members of one name, one inside an anonymous member, a spec matched against its own types can come
  back with another offset (`ShadowedNameMoves`; a member comes back exactly when: `SelfStepIff`). When every
  member on the way is the first one found, it fails exactly when some member there has a type no field can have
  (`SelfMatch`), such as a function (`OddMemberUnmatched`).
- The two BTF readers disagree on the size of data sections (`SectionSizesDiffer`) and behind chains of 32 to 63
  modifiers (`ChainSizesDiffer`; exactly when: `SizesAgreeIff`).
- DCTCP's window times alpha can wrap at 32 bits; the threshold stays within its bounds, but is the promised
  fraction exactly when the product fits (`SsthreshExactIff`). Likewise a full estimate with every packet
  marked stays full exactly when 64 times the packets fits (`AllMarkedRises`; it drops at 2^26 packets,
  `AllMarkedDrops`).
- Resetting the FIFO leaves its byte count as it was: one packet, then a reset (`OnePacketCleared`; exactly when:
  `ResetLeavesBacklog`; over a whole history, `BacklogRightIff`).

Where the comments and the code differ the model follows the code: a call saves all caller registers, not only
r10 as the comment at the worklist says (`equiv/bpfsym.py:2165`); `whole_program` tests its depth
parameter but never lowers it.

## Model

| member | source | states |
|---|---|---|
| Arithmetic.ArithAgrees | equiv/bpfsym.py:585-625 | for every arithmetic code and width, the term built evaluates to what the machine computes, shift masking, zero divisors and signed division included |
| Arithmetic.AluAgrees | equiv/bpfsym.py:566-625 | the same for whole ALU operations on data and pointers; an accepted operation on undefined registers is the only other case |
| Arithmetic.CondTermAgrees | equiv/bpfsym.py:690-717 | every jump code's condition term holds exactly when the machine's comparison does |
| Arithmetic.CondAgrees | equiv/bpfsym.py:690-717 | the same for conditions that involve pointers |
| Words.BitwiseMeans | equiv/bpfsym.py:593-624 | and, or and exclusive or, bit by bit |
| Words.TruncMeans | equiv/bpfsym.py:593-624 | signed division rounds toward zero: the remainder is smaller than the divisor and has the dividend's sign |
| Terms.SignedMeans | equiv/bpfsym.py:566-624 | sign extension of 8, 16 and 32 bits and the signed reading of words, in numbers |
| Machine.FetchIff | equiv/bpfsym.py:2177-2182 | every instruction inside its section is fetched, except second halves, what was not decoded, registers above r10 and access sizes other than 1, 2, 4 and 8 |
| Machine.OracleHelpers | equiv/bpfsym.py:47-62 | the fifteen helpers without arguments answer with the oracle's word, cut to 32 bits for three of them and masked for one, and show nothing |
| Machine.EventHelpers | equiv/bpfsym.py:158-191 | which registers and memory blocks each modelled helper with side effects shows, in order, and its sign-extended answer |
| Machine.CallsCounted | equiv/bpfsym.py:1041-1042 | each call of a helper asks the oracle a new question |
| Machine.OtherHelpers | equiv/bpfsym.py:1039-1052 | no other helper has a meaning |
| Atomics.SwapTwice | equiv/bpfsym.py:627-639 | reversing the low bytes twice truncates the word to them |
| Atomics.EndianAgrees | equiv/bpfsym.py:627-639 | byte swaps and truncations of every width evaluate to what the machine computes, in both instruction classes |
| Atomics.LowBits | equiv/bpfsym.py:676-681 | the low bits of or, and, xor of words are or, and, xor of their low bits |
| Atomics.AtomicTermAgrees | equiv/bpfsym.py:674-683 | the new value, which the executor computes on 64 bits whatever the size, is the machine's in all bytes that are stored |
| Atomics.ReadModifyMeans | equiv/bpfsym.py:674-686 | for each immediate 0x00, 0x01, 0x40, 0x41, 0x50, 0x51, 0xA0, 0xA1 and 0xE1: what is stored, at the width of the access, and that the old value goes to the source register exactly for the odd ones |
| Atomics.ExchangeMeans | equiv/bpfsym.py:668-673 | immediate 0xF1 stores the source exactly if the old value equals r0 at the width of the access, and the old value goes to r0; 0x110 stores the source |
| Atomics.LoadAcquireMeans | equiv/bpfsym.py:649-655 | immediate 0x100 loads through the source register into the destination |
| Atomics.OtherImmediates | equiv/bpfsym.py:661-682 | any other immediate has no meaning |
| Simulation.OrderedAgrees | equiv/bpfsym.py:648-662 | load-acquire and store-release do what a load and a store do |
| Simulation.ExchangeAgrees | equiv/bpfsym.py:668-673 | compare-and-exchange stores, compares at the access's width and returns as the machine does |
| Simulation.ReadModifyAgrees | equiv/bpfsym.py:663-686 | exchange, add, or, and, xor, with and without fetch, leave the machine's registers and memory |
| Memory.LoadAgrees | equiv/bpfsym.py:392-409 | an accepted load returns what the block memory holds, unless it reads residue, past the last address or a lost byte: a pointer exactly when all eight of its fragments are there, otherwise the little-endian value of data bytes |
| Memory.StoreAgrees | equiv/bpfsym.py:411-474 | an accepted store, whether or not it cuts stored pointers, leaves a symbolic memory that again describes every cell of the machine's memory that is not lost, slots disjoint |
| Memory.StoreStored | equiv/bpfsym.py:411-474 | what an accepted store does to each cell, also when it cuts stored pointers |
| Memory.OverwriteAgrees | equiv/bpfsym.py:411-474 | what the machine leaves of overwritten cells and cut pointers is what the stored-to memory describes: new cells, identities outside the stack, everything else as before |
| StoreRuns.SlotIsLastStore | equiv/bpfsym.py:411-474 | in every memory reached by accepted stores, a slot is live exactly when the last store overlapping its eight bytes stored a pointer there, and holds that pointer |
| StoreRuns.SlotsAreDisjoint | equiv/bpfsym.py:411-474 | in every memory reached by accepted stores that do not wrap, slots hold pointers, lie in the address space and do not overlap |
| StoreRuns.LoadIsLastStore | equiv/bpfsym.py:392-409 | in every such memory an accepted load returns a pointer exactly when it is eight bytes wide and the last overlapping store stored that pointer at that offset; one that returns data reads no byte of a live slot |
| MemoryLimits.LostIff | equiv/bpfsym.py:458-466 | a store loses exactly the cells it does not overwrite of the stack pointers it overlaps |
| MemoryLimits.StoreExactIff | equiv/bpfsym.py:411-474 | a store keeps a memory free of lost bytes if and only if it cuts no stored pointer of the stack |
| MemoryLimits.TornPointerReadsResidue | equiv/bpfsym.py:411-474 | a concrete run in which the leftover of a cut pointer reads as the stack's old byte, and is lost on the machine |
| MemoryLimits.WrappedLoadMissesSlot | equiv/bpfsym.py:392-409 | a concrete load past the last address that is not checked against the slot it wraps onto |
| MemoryLimits.CopyPreservingPointers | equiv/bpfsym.py:1596-1620 | a copy that does not give up, between disjoint ranges, of bytes that are not lost, reproduces every source cell, data and pointers alike, cuts the pointers that cross an end of the destination, and changes nothing else |
| Simulation.LoopExitStep | equiv/bpfsym.py:2398-2449 | the fork at the end of a callback iteration decides, on every input, whether the machine goes round again |
| Simulation.StepAgrees | equiv/bpfsym.py:2168-2486 | whenever a machine state fits a path and its conditions hold, one machine step fits exactly one of the paths one symbolic step makes of it |
| Exactness.StepSplits | equiv/bpfsym.py:2168-2486 | of the paths a step makes of a path, every input takes exactly as many as it took before |
| Exactness.StepReaches | equiv/bpfsym.py:2168-2486 | every path on the worklist or finished describes the machine after some number of steps from the start |
| Exactness.StepSized | equiv/bpfsym.py:736-750 | no step records an event the trace layout cannot hold |
| Exactness.Executor.constructor | equiv/bpfsym.py:282-311 | an executor starts with no paths and no fresh names used |
| Exactness.Executor.Run | equiv/bpfsym.py:2141-2486 | if it succeeds, every input takes exactly one returned path, and the machine started there ends with that path's return value, memory and events, or traps; inlined subprograms, loop callbacks and reused pointer slots included; if not, some reached path could not be stepped, or more than 4096 paths were open, or a path went on for more than 50000 steps, or the budget ran out |
| Refusals.LoadRefusedIff | equiv/bpfsym.py:386-411 | unless it traps, a load is refused exactly when the machine has no meaning for it, a spilled pointer read in part or an opaque block, or the region holds a spilled pointer and the address is not a number |
| Refusals.StoreRefusedIff | equiv/bpfsym.py:413-469 | the same for stores; a pointer is spilled to a known address only |
| Refusals.AtomicRefusedIff | equiv/bpfsym.py:643-686 | the same for atomic instructions |
| Refusals.PayloadRefusedIff | equiv/bpfsym.py:1241-1246 | event arguments are refused exactly when the machine cannot form them, or a length or address is not a number, or a block is longer than 8192 bytes |
| Refusals.StepRefusedIff | equiv/bpfsym.py:2168-2486 | on any described state, a step that does not trap is refused exactly when the machine has no meaning for the instruction or a limit is hit: an unknown address or length, 8192 bytes, eight frames, an eighth callback round |
| Trace.EncodeInjective | equiv/bpfsym.py:736-750 | event lists with ids below 256 and payloads below 65536 bytes that are laid out alike are equal |
| Trace.TraceComparisonExact | equiv/bpfsym.py:736-750 | two traces are equal for all initial contents if and only if the event lists are equal |
| Trace.EmitEvent | equiv/bpfsym.py:736-750 | the store loop writes id, length and payload at the cursor and moves it behind them |
| Trace.RecordedIff | equiv/bpfsym.py:736-750 | two logs record the same exactly when they stand for the same events and their loop records agree |
| Trace.TraceIsEncoding | equiv/bpfsym.py:736-750 | the array the executor builds is, at every address, the encoded event list over the initial contents |
| Verdict.SummarizeRet | equiv/check.py:147-152 | the fold, which drops the last path's condition, evaluates to the taken path's return value on every input |
| Verdict.Summarize | equiv/check.py:138-144 | the same for a region's final contents, at every address |
| Verdict.SummarizeTrace | equiv/check.py:138-144 | the same for the trace |
| Verdict.CheckProgram | equiv/check.py:314-381 | EQUIV and EQUIV32 mean that paths taken by one input agree on everything compared; INEQUIV carries an input on which they do not; a width of 0 compares no return value, up to 32 bits the low half, more all of it, and none is compared without a width if one program never sets r0; UNKNOWN and BAIL come from a solver that gave up or residue in the query |
| Verdict.EquivIsSound | equiv/check.py:329-355 | if the paths always agree, the two machines agree on every input: same return value as far as the mode says, same observable memory, same events |
| Verdict.OutcomeIff | equiv/check.py:329-355 | of two halting runs and the paths that describe them: matching paths mean the same outcome, and, if what is compared was returned, the paths match exactly when outcome and loop records are the same |
| Verdict.InequivIsReal | equiv/check.py:357-381 | for the paths two inputs take and any halting runs on them that return what is compared: the paths agree, whatever the trace held before, if and only if the outcomes are the same and the loop records are equal |
| Verdict.Distinguishes | equiv/check.py:357-381 | paths that disagree are distinguished by their runs: one traps, leaves a compared r0 undefined, or outcomes or loop records differ; without loop records it is the outcomes |
| Verdict.SkippedPaths | equiv/bpfsym.py:2080-2113 | the paths of the next row are what the executor's two steps from the call make |
| Verdict.LoopRecordAlone | equiv/bpfsym.py:2080-2113 | a loop called with the numeral 0 and one called with a context byte that is 0: one halted machine fits both paths, their loop records differ |
| Verdict.ObservableRegions | equiv/check.py:325-331 | every observable region any path wrote is among those compared |
| Verdict.ObservableIff | equiv/check.py:325-331 | observable is exactly what holds bytes and is no stack frame: the context, kernel memory, globals and map values |
| Verdict.Check | equiv/check.py:314-381 | end to end: EQUIV implies that on every input the two programs agree, at every address of the context, kernel memory, each global and each map value, in their events, and in as much of the return value as the declared width says; INEQUIV comes with one input to both on which the runs differ or a loop record of the paths they take does, and without bpf_loop, or with a numeral test that recognises no truncated term, the runs differ |
| TypesMatch.NamesMatchTransitive | equiv/bpfcore.py:436-441 | name matching composes, flavours and unnamed types included |
| TypesMatch.EnumsMatchTransitive | equiv/bpfcore.py:511-517 | enumerator matching composes |
| TypesMatch.MatchTransitive | equiv/bpfcore.py:444-508 | matching composes across three type graphs at the same depth, forward declarations standing in for composites included |
| TypesMatch.MatchedFits | equiv/bpfcore.py:444-508 | a type that matches anything fits the depth limit |
| TypesMatch.SelfMatchIff | equiv/bpfcore.py:444-508 | a type matches itself exactly when it fits the depth limit |
| TypesMatch.FitsIffPathsFit | equiv/bpfcore.py:444-508 | fitting means: every path into the type is at most depth long and ends in a comparable type |
| TypesMatch.MatchGrows | equiv/bpfcore.py:444-508 | a larger depth, or a pointer in between, never loses a match |
| TypesMatch.MatchIffPathsMatch | equiv/bpfcore.py:444-508 | a local type matches a target type exactly when a target type can be chosen for every path into the local one so that, along every path, names match, kinds are equal or a forward declaration stands behind a pointer, sizes, signs, array lengths and parameter counts are equal, enumerators are covered, and each member leads to a member of the same name in the chosen type |
| TypesMatch.NamesMatchIff | equiv/bpfcore.py:436-441 | two names match exactly when one is missing or they agree up to the first three underscores |
| Btf.ResolveLoop | equiv/bpfcore.py:181-190 | the bounded loop finds the type behind modifiers, void if there is none |
| Btf.ResolveFollows | equiv/bpfcore.py:181-190 | the resolved type is the end of the chain of typedefs, volatile, const, restrict and type tags if that chain has at most 64 records, and void for longer chains and unknown ids |
| CoreSpec.FieldsAreCompat | equiv/bpfcore.py:287-314 | the bounded loop over array levels computes leaf compatibility |
| CoreSpec.CompatWithItself | equiv/bpfcore.py:287-314 | a type is compatible with itself exactly when a field can have it |
| CoreSpec.CompatIff | equiv/bpfcore.py:287-314 | two types are compatible exactly when under equally many array levels, fewer than the bound, lie two composites, two pointers, integers or floats, or two enums of any width or forward declarations whose names do not differ |
| CoreSpec.SizeIs | equiv/bpfcore.py:192-204 | the size of a type is that of the leaf under its array levels times their lengths, eight bytes for a pointer, none for what has no size |
| CoreSpec.ElementsAreSpaced | equiv/bpfcore.py:258-282 | the elements of an array, and the places a root index selects, lie one element size apart from zero on; a fixed length bounds the index |
| CoreSpec.ParseIs | equiv/bpfcore.py:239-284 | a type access is the single index 0, an enumerator access one index into an enum; a step into a composite adds its member's bit offset; nothing leads into other kinds |
| CoreSpec.IndexStepIs | equiv/bpfcore.py:376-401 | a step by index on the target: to a member of a compatible type, or to an element within a fixed length, at its distance |
| CoreSpec.EnumTargetIs | equiv/bpfcore.py:349-361 | an enumerator is matched to the first one of its essential name in a target enum, if there is one |
| CoreSpec.MatchMember | equiv/bpfcore.py:317-341 | a failed search leaves the spec as it was; a successful one adds one step and the whole distance through anonymous members |
| CoreSpec.FoundIsLeaf | equiv/bpfcore.py:317-341 | whatever is found lies on a path of anonymous members, at exactly the sum of their offsets, with a compatible type |
| CoreSpec.LeafIsFound | equiv/bpfcore.py:317-341 | a name reachable once is found exactly when its type is compatible |
| CoreSpec.ParseSpec | equiv/bpfcore.py:239-284 | the spec built step by step, or an error, for type, enumerator and field relocations |
| CoreSpec.MatchSpec | equiv/bpfcore.py:344-402 | the target spec built step by step, or none; the local spec is unchanged |
| CoreSpec.SelfMatch | equiv/bpfcore.py:239-402 | when every named member on the way is the first one found, a field spec matched against its own types comes back with the same steps and bit offset exactly when every member on the way has a type a field can have |
| CoreSpec.SelfEnumMatch | equiv/bpfcore.py:344-362 | an enumerator comes back at its own index exactly when no earlier one shares its essential name |
| CoreSpec.SelfStepIff | equiv/bpfcore.py:317-341 | a named member matched against its own composite comes back exactly when it is the first one found and a field can have its type, or the first one found has the same index, type and distance |
| CoreSpec.UniqueIsForemost | equiv/bpfcore.py:317-341 | a name reachable once is the first one found |
| CoreSpec.OddMemberUnmatched | equiv/bpfcore.py:287-341 | a structure with a function for a member: the access parses and matches nothing |
| CoreSpec.ShadowedIsLayered | equiv/bpfcore.py:317-341 | the composite of the next row contains no type inside itself |
| CoreSpec.ShadowedNameMoves | equiv/bpfcore.py:317-341 | two members of one name: the second is matched to the first, at another offset |
| Bitfield.FieldWindow | equiv/bpfcore.py:558-566 | for every declared size, the widening loop ends in the smallest window tried that covers the field; an error exactly when none does |
| Bitfield.TriedLoads | equiv/bpfcore.py:558-566 | for declared sizes 1, 2, 4 and 8 the windows tried are the load sizes from there on |
| Bitfield.WiderCoversToo | equiv/bpfcore.py:558-566 | windows nest: the error means the field crosses an eight-byte boundary |
| Bitfield.ReadThroughWindow | equiv/bpfcore.py:558-582 | both shift counts are non-negative, and load, shift left, shift right yields exactly the field's bits, or their sign-extended reading |
| BtfReaders.BtfTypes | equiv/bpfelf.py:141-164 | one compact record per id, at the offsets the record lengths give, with array shape, member names and types, section variables, integer encoding or tag component |
| BtfReaders.RecordLengthIs | equiv/bpfelf.py:141-164 | the length of a record in terms of the bytes of its info word, kind by kind |
| BtfReaders.ReadTail | equiv/bpfcore.py:110-164 | for every kind the cursor ends behind what follows the header, and the record holds it, in agreement with the other reader |
| BtfReaders.ReadRecord | equiv/bpfcore.py:99-166 | reading a record field by field ends exactly one record length further, and each field is the word at its place |
| BtfReaders.BtfInit | equiv/bpfcore.py:98-166 | the cursor reader's table has the same ids as the other reader's and agrees on offset, kind, name, size or type, array shape, member names and types, and integer encoding |
| BtfReaders.BtfTypeSize | equiv/bpfelf.py:166-185 | the loop over modifiers with recursion for arrays computes the compact size |
| BtfReaders.SizesAgreeIff | equiv/bpfelf.py:166-185 | the readers' sizes agree exactly on plain or unsizeable types; whenever the object reader has a size the engine has the same |
| BtfReaders.SectionSizesDiffer | equiv/bpfelf.py:166-185 | twelve bytes of BTF: a data section that only the engine sizes, whatever its reader adds to the common table |
| BtfReaders.ChainSizesDiffer | equiv/bpfelf.py:166-185 | four hundred bytes of BTF: 32 qualifiers in front of an integer, which only the engine sees through |
| ArenaHeap.RoundUpIsMultiple | progs/arena_htab.rs:220-222 | the rounding is the next multiple of eight |
| ArenaHeap.BucketIsMasked | progs/arena_htab.rs:353-360 | masking the unsigned key with the number of buckets less one is the key modulo that number |
| ArenaHeap.Arena.BpfAllocRefill | progs/arena_htab.rs:224-244 | a granted page becomes the current one with a zero count; without one nothing changes |
| ArenaHeap.Arena.BpfAlloc | progs/arena_htab.rs:246-288 | the allocation in place is the allocation function of the old heap |
| ArenaHeap.Arena.BpfAllocRetry | progs/arena_htab_asm.rs:231-282 | the retry loop goes round at most twice and computes the same allocation |
| ArenaHeap.Arena.BpfFree | progs/arena_htab.rs:290-297 | the count word drops by one, and the page goes back when it reaches zero |
| ArenaHeap.Arena.ListAddHead | progs/arena_htab.rs:309-329 | linking in place is the linking function of the old heap |
| ArenaHeap.Arena.ListDel | progs/arena_htab.rs:331-349 | unlinking and poisoning in place is the unlinking function of the old heap |
| ArenaHeap.Arena.LookupElemRaw | progs/arena_htab.rs:362-378 | the loop is the bounded walk |
| ArenaHeap.Arena.LookupElemOpen | progs/arena_htab_asm.rs:347-364 | the open-ended loop is the walk with its budget |
| ArenaHeap.Arena.LookupElem | progs/arena_htab_asm.rs:386-397 | the lookup returns the value the walk finds, or 0 |
| ArenaHeap.Arena.UpdateElem | progs/arena_htab.rs:380-399 | the update in place is the update function of the old heap |
| ArenaHeap.Arena.UpdateElemOpen | progs/arena_htab_asm.rs:399-421 | the same with the open-ended walk and the retrying allocator |
| ArenaAlloc.AllocKeeps | progs/arena_htab.rs:246-288 | a new block is aligned, disjoint from all live ones and below the count word; counts stay exact; only the count word changes; failure changes nothing |
| ArenaAlloc.AllocExact | progs/arena_htab.rs:246-288 | the answer is 0 exactly when the rounded size is 4088 or more, or no page is granted and there is no current page or not enough of it; a block that fits lies at the low end of the free part of the current page, which stays current |
| ArenaAlloc.LastBlockFits | progs/arena_htab.rs:274-287 | with 56 bytes left and no page to be had, 32 bytes are given at offset 24 |
| ArenaAlloc.FreeKeeps | progs/arena_htab.rs:290-297 | unless the block is the last on the page being carved, the invariant stays; the page goes back exactly when it is empty |
| ArenaAlloc.FreeDanglesIff | progs/arena_htab.rs:290-297 | the slot is left naming a returned page exactly when the last block of the current page is released |
| ArenaAlloc.OneBlockDangles | progs/arena_htab.rs:246-297 | one allocation and its release from the empty heap: the next block is cut from the page that went back |
| ArenaTable.AddHeadChain | progs/arena_htab.rs:309-329 | linking a new element keeps the list linked both ways and puts the pair in front |
| ArenaTable.UnlinkChain | progs/arena_htab.rs:331-349 | unlinking anywhere keeps the list linked both ways and removes exactly that pair |
| ArenaTable.WalkFinds | progs/arena_htab.rs:362-378 | the pointer walk finds the first position in reach that holds the key |
| ArenaUpdate.UpdateKeeps | progs/arena_htab.rs:380-399 | an update keeps allocator and table invariant, replaces the key's first entry in reach by one in front, leaks nothing, never hands back the page being carved; -ENOMEM changes nothing |
| ArenaRuns.ReachedIff | progs/arena_htab.rs:362-378 | the bounded walk misses a present key exactly when all its entries lie beyond the bound |
| ArenaRuns.ReplaceIsPut | progs/arena_htab.rs:380-399 | to an unbounded lookup, an update is a map update |
| ArenaRuns.ReplaceDistinctIff | progs/arena_htab.rs:362-399 | keys stay distinct exactly when the key is not hidden beyond the bound |
| ArenaRuns.UpdateFailsIff | progs/arena_htab.rs:380-399 | an update returns -12 exactly when no page is granted and the current one has no room for 32 bytes, and 0 otherwise |
| ArenaRuns.DeepKeyStaysTwice | progs/arena_htab.rs:362-399 | from the fresh arena 257 insertions succeed and fill one bucket; updating the deepest key then leaves it there twice |
| ArenaRuns.RunIsMap | progs/arena_htab.rs:380-399 | over any run, whatever the walk's bound, the invariant holds, nothing leaks, and a key's value is its last successful write |
| ArenaRuns.RunStaysReachable | progs/arena_htab.rs:362-399 | over any run on keys of which no more share a bucket than the walk visits, no key occurs twice and the bounded walk finds every last successful write |
| ArenaRuns.OpenRunStaysDistinct | progs/arena_htab_asm.rs:347-421 | over any run whose walks end by themselves no key occurs twice, whatever the keys |
| ArenaRuns.ConsecutiveKeysAreRoomy | progs/arena_htab.rs:102 | the program's keys 0 to 99999 never put more than 98 into a bucket |
| ArenaRuns.FreshStarts | progs/arena_htab.rs:402-415 | the empty table starts every invariant |
| ArenaRuns.LookupIsMapped | progs/arena_htab_asm.rs:386-397 | lookup with a sufficient budget returns the key's value, or 0 if it has none |
| Glob.ScanClass | progs/arena_strsearch.rs:223-253 | the inner loop decides malformed, membership and where the pattern goes on |
| Glob.Take | progs/arena_strsearch.rs:222-311 | one byte against a class, escape or literal, the string's NUL included |
| Glob.GlobMatch | progs/arena_strsearch.rs:195-319 | true exactly when the pattern matches under the nondeterministic definition; reads past the string exactly when an inverted class follows the longest prefix that matches it whole |
| Glob.PlainPatternsStayInside | progs/arena_strsearch.rs:195-319 | without inverted classes nothing past either NUL is read |
| Glob.InvertedClassRunsOff | progs/arena_strsearch.rs:223-253 | the pattern [!a] runs off the empty string |
| GlobSyntax.PatternIsRead | progs/arena_strsearch.rs:196-300 | the bytes of a written pattern, question mark, star, brackets with ranges and exclamation mark, backslash, dash and closing bracket as numbers, are read back as its pieces |
| GlobSyntax.PatternIsWritten | progs/arena_strsearch.rs:196-300 | every NUL-terminated pattern is a written one, unclosed brackets and a backslash at the end included |
| GlobSyntax.PatternMeans | progs/arena_strsearch.rs:196-300 | a written pattern matches exactly the strings its pieces stand for, read from the front |
| GlobSyntax.RangeMatches | progs/arena_strsearch.rs:223-253 | [lo-hi] matches a byte exactly when it lies between the ends, [!lo-hi] exactly when it does not |
| GlobSyntax.WildcardsMatch | progs/arena_strsearch.rs:209-222 | a question mark matches exactly the one-byte strings, a star every string |
| GlobSyntax.LiteralsMatch | progs/arena_strsearch.rs:255-300 | an escaped byte, an ordinary byte and a bracket that is never closed match exactly themselves |
| CubicRoot.HighBitsClear | progs/bpf_cubic.rs:289-310 | a word has no bit at or above k exactly when it is below 2^k |
| CubicRoot.Fls64 | progs/bpf_cubic.rs:283-313 | the exact bit length of every 64-bit word |
| CubicRoot.TableGuess | progs/bpf_cubic.rs:320-328 | the table index is below 64, and the guess x brackets the argument: 55/64 x^3 <= a <= 65/64 (x+1)^3 |
| CubicRoot.NothingWraps | progs/bpf_cubic.rs:320-334 | for every argument that reaches the table: shift counts below the word width, index below 64, divisor not zero, and no product, sum or difference leaves its word |
| CubicRoot.CubicRoot | progs/bpf_cubic.rs:315-335 | for every 64-bit a the result is within 1/512 of the real root plus 4/3, r^3 <= 2a and a <= 2(r+1)^3; below 64 it is the nearest integer except at 42 |
| CubicRoot.BicK | progs/bpf_cubic.rs:362-369 | the product handed to the root never overflows, so the root is that of the true product (section 4.2 of RFC 9438) |
| Dctcp.UnmarkedDrops | progs/bpf_dctcp.rs:229-242 | without a mark a positive estimate strictly drops, to zero at once below 16 |
| Dctcp.UnmarkedReachesZero | progs/bpf_dctcp.rs:229-242 | enough unmarked round trips bring the estimate to zero |
| Dctcp.AllMarkedRises | progs/bpf_dctcp.rs:243-253 | when every packet is marked the estimate does not drop exactly when the truncated ratio makes up for the decay; it rises if the scaled count fits in 32 bits, and full stays full exactly then |
| Dctcp.AllMarkedDrops | progs/bpf_dctcp.rs:243-253 | with 2^26 packets, all marked, a full estimate drops |
| Dctcp.MarkedMean | progs/bpf_dctcp.rs:229-253 | with some packets marked the new estimate is the moving average of the old one and the marked fraction with weight 1/16, to less than one unit, as long as the scaled count fits in 32 bits (section 3.3 of RFC 8257) |
| Dctcp.BeforeIff | progs/bpf_dctcp.rs:135-137 | a sequence number comes before exactly those at most 2^31 ahead of it |
| Dctcp.AckedMeans | progs/bpf_dctcp.rs:220-258 | an acknowledgement changes nothing before the mark; after it the estimate moves by what was marked and delivered since, also across a wrap, and the counters restart |
| Dctcp.SsthreshBounds | progs/bpf_dctcp.rs:202-215 | for every window the threshold is at least half the window and two, at most the window or two |
| Dctcp.SsthreshExactIff | progs/bpf_dctcp.rs:202-215 | the reduction is the promised fraction exactly when the product fits in 32 bits |
| Dctcp.WrappedWindowIsNotReduced | progs/bpf_dctcp.rs:202-215 | a window of 2^22 with a full estimate is not reduced |
| Dctcp.AlphaStays | progs/bpf_dctcp.rs:185-258 | over every event sequence the estimate stays within [0, 1024] and the threshold within its bounds (section 3.3 of RFC 8257) |
| Dctcp.DctcpCa.constructor | progs/bpf_dctcp.rs:184-197 | initialisation starts the estimate full and the counters at the socket's |
| Dctcp.DctcpCa.ResetTo | progs/bpf_dctcp.rs:140-145 | the counters restart and nothing else changes |
| Dctcp.DctcpCa.UpdateAlpha | progs/bpf_dctcp.rs:220-258 | the handler in place is the acknowledgement function of the old state |
| Dctcp.DctcpCa.SsthreshFor | progs/bpf_dctcp.rs:202-215 | returns the threshold and records the window |
| SpinLock.StepKeeps | progs/arena_spin_lock.rs:159-225 | every step of every CPU keeps the invariant |
| SpinLock.SpinLockIsSafe | progs/arena_spin_lock.rs:154-225 | under every schedule at most one CPU is between acquire and release, a call that gave up changed nothing, and while the lock is free counter = min(limit, initial + successful calls) |
| SpinLock.CallReturns | progs/arena_spin_lock.rs:159-225 | whatever the others do, a call returns within a bounded number of its own steps, so every holder lets go |
| SpinLock.FreeLockIsTaken | progs/arena_spin_lock.rs:173-225 | a call that finds the lock free and is left alone returns 0, with the lock free again and the counter one higher, or unchanged at its limit |
| SpinLock.CallEnds | progs/arena_spin_lock.rs:159-225 | a call ends with -95 exactly when more than 1024 CPUs are configured, with -110 exactly after 8388608 tries, and with 0 exactly at the release |
| Fifo.FifoQdisc.constructor | progs/bpf_qdisc_fifo.rs:243-253 | an initialised queue is empty with limit 1000 |
| Fifo.FifoQdisc.Enqueue | progs/bpf_qdisc_fifo.rs:172-211 | the handler in place is the enqueue function of the old state |
| Fifo.FifoQdisc.Dequeue | progs/bpf_qdisc_fifo.rs:213-241 | the handler in place is the dequeue function of the old state |
| Fifo.FifoQdisc.Reset | progs/bpf_qdisc_fifo.rs:255-291 | the draining loop frees as many packets as the length says, in order, and zeroes the length only |
| Fifo.RunKeeps | progs/bpf_qdisc_fifo.rs:172-291 | over any history length, order, accounting and the modular byte count hold |
| Fifo.FifoIsFaithful | progs/bpf_qdisc_fifo.rs:172-291 | from init: length right and at most 1000, first come first served, every packet in exactly one of queued, dropped, delivered, freed |
| Fifo.EventsAre | progs/bpf_qdisc_fifo.rs:172-291 | after any history an arrival is refused exactly when there is no list node or 1000 packets wait, a departure takes the packet in front unless there is none, and a reset frees all |
| Fifo.BacklogRightIff | progs/bpf_qdisc_fifo.rs:172-291 | over any history the byte count is that of the queue exactly when the bytes freed by resets are zero modulo 2^32 |
| Fifo.ResetLeavesBacklog | progs/bpf_qdisc_fifo.rs:255-291 | after a reset the byte count is right exactly when the queue held no bytes |
| Fifo.OnePacketCleared | progs/bpf_qdisc_fifo.rs:172-291 | one packet of 60 bytes, then a reset: empty queue, 60 bytes counted |
| CallGraph.FunctionAt | codegen/insns.py:163-168 | the first named function at a place, or none if there is none |
| CallGraph.CallsIff | codegen/insns.py:122-169 | a function calls exactly the known functions that its slots with opcode 0x85, 0x86, 0x8D or 0x8E and source register 1 name, relative to the next slot or, through a relocation, to a symbol counted in eight-byte slots |
| CallGraph.ClosedHoldsAll | codegen/insns.py:139-169 | a set closed under calls that holds the entry holds everything reachable |
| CallGraph.WholeProgram | codegen/insns.py:139-169 | terminates on every call graph and returns exactly the functions reachable from the entry, each once with its own size, and their instructions, as many as their sizes add up to |

## Left out

- Exactness.Executor.Run: carries a budget on the items taken off the worklist, which the program's own limits on paths and on instructions per path leave open.
- Verdict.Check: UNKNOWN and BAIL say nothing about the programs; that they have a cause is all that is promised.
- Simulation.StepAgrees: the machine traps on reading undefined registers, on addresses past 2^64 and on loading what a cut stack pointer left behind; agreement is claimed for runs that do not trap.
- Simulation.ReadModifyAgrees: an atomic instruction runs alone, as everything in the executor does.
- SpinLock.SpinLockIsSafe: memory accesses interleave one at a time; weaker memory orders are not modelled.
- ArenaRuns.RunIsMap: one CPU and one table; the arena grants only pages that are not in use.
- Bitfield.ReadThroughWindow: windows of 1, 2, 4 or 8 bytes only; other sizes have no load.
- CallGraph.WholeProgram: function spans lie inside their sections, as decoding demands.
- CoreSpec.SelfMatch: types do not contain themselves by value, and the access string is taken as already split into numbers.
- BtfReaders.BtfInit: names are string offsets; decoding the string table and split BTF are not modelled.
- Tail calls, kfuncs, callback entry points, printk and the long tail of helper models of the executor; one oracle helper pattern, one event pattern, the nullable lookup and `bpf_loop` stand for them.
- Pointer identities by crc32, read-only and kconfig sections, and the tracking of written bytes.
- The SMT solver: a satisfiability test whose "no" is right, and simplifiers that keep meaning.
- The `may_goto` escape branch, in the executor and in the arena programs.
- `types_are_compat`, candidate search, instruction patching and the non-bitfield half of field info.
- HyStart and the rest of the CUBIC window update; DCTCP's CE state machine and loss reaction; `FuncStats` and `classify`.
- ELF reading, report generation, and the programs that are thin wrappers over kernel helpers.
