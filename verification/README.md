# Verified models of the emulator's core

This project models the parts of a win32 emulator whose correctness rests on invariants rather than on single
functions, and proves what they promise. The emulator interprets x86 code (halfix) or translates it to native
code. The models are in Dafny 4.11; `dafny verify dfyconfig.toml` checks them all.

**Trace cache and self-modifying code.** The interpreter keeps decoded runs of instructions in a direct-mapped
table over a bump-allocated buffer, and a bitmap with one bit per 128-byte chunk of guest memory that holds
decoded code. `TraceCache` is that state as one object with arrays, with the source's loops; `CacheState` and
`MachineState` are the same state as a value, with the coherence invariant and the TLB (bits of a chunk word are
booleans there; `SmcMask` shows that the word masks do the same); `Traces` says what a trace means, for a decoder
that is any function of the bytes it reads, of the mode and of the segment override in force. `TraceRuns` has the
result, over every interleaving of writes, mode switches, translations and fetches: what a fetch hands out is the
decoding of the bytes that memory holds at that moment, for every trace that the bitmap covers; and all traces are
covered exactly if the code that is decoded is tidy: the bytes that decide each instruction end on the page, in a chunk
that the trace reaches. For x86 that is a condition on bytes and address which only five opcodes at the end of a page,
and instructions with more than five prefixes, can fail. `Interpreter` is the class performing such runs: it returns
the elements the interpreter runs, and its states satisfy the relation that `TraceRuns` is about. `X86Length` and
`X86Decoder` supply a decoder: what the x86 opcode handlers read (ModR/M, SIB, displacement, immediates), the separate
length tables that keep traces inside one page, and the prefix decoder's checks; `X86Encoding` writes instructions by
the rules of the instruction set and shows that they are read back; `X86Runs` states the result for that decoder, from
the start, in terms of the instructions met.

**Undo log.** `GuestMemory` has the log of overwritten values that the JIT's self-check replays backwards; `RunLog`
says which writes are logged and exactly when replaying restores memory. `RunFaults` has a run on which the cache
serves a stale trace, one that stops at its first fetch, and one that the rollback does not undo.

**Executable memory allocator.** `XmemHeap`, `XmemList` and `XmemSteps` describe memory words, blocks and the
free list and what each elementary step keeps; `XmemOps` and `XmemTheorems` compose them to `alloc`, `free` and
`free_unused_regions` and to statements over whole runs; `ExecutableMemory` is the allocator rewriting headers
and links in place, each load and store proved to hit mapped memory, and each method proved equal to its function.

**SoftFloat.** `Rounding` states correct rounding (sections 4.3 and 7.4 to 7.6 of IEEE 754-2008) on exact
fractions, independently of any algorithm. `SoftFloat32`, `Float32Arith`, `FloatInt`, `Words128`, `Floatx80Pack` and
`Remainder` are the source's word algorithms, proved to meet it, down to the extended format's partial remainder packed
without rounding.

**Lazy flags.** `Eflags` has the getters that reconstruct flags from the last result, the setters that patch
them, and the meaning of every condition after a comparison. `ArithFlags` and `DoubleShifts` have the handlers that
leave those results, and say what the six flags read after each of them, in terms of the exact result: carry and
borrow, signed overflow, the carry out of the low nibble, and the last bit that shifting one place at a time pushes out.

**Block cache.** `BlockCache` is the graph of compiled blocks and the links predicted branches use.

**Text.** `TargetPath` normalises guest file names; `IniText`, `IniFile` and `Ini` load and save ini files.

## What the proofs brought to light

- Five two-byte opcodes (0F 18, C2, C4, C5, C6) read further than the length tables allow for
  (`X86Length.LengthCovers`). Near the end of a page their traces can reach into the next one, and a write to a byte
  there does not drop them: `RunFaults.ServeStaleShufps` is such a run. SHUFPS of two registers is affected exactly
  three bytes before the end (`X86Decoder.ShufpsIsOrdinary`). With more than five prefixes the too-many-prefixes
  check can also look further than the page or the trace's chunks. `X86Decoder.TidyExactly` is the exact condition
  on an instruction and its place, `TraceRuns.WatchedIffTidy` and `TraceRuns.CoveredExactly` say that the condition
  on the code is the exact one.
- A LOCK prefix on an opcode that does not allow it makes decode_prefix return without resetting the segment
  override. An override prefix before it stays in force, and decides the segment of memory operands decoded later
  (`X86Decoder.RejectedLockKeepsFs`, `X86Decoder.LeavesOverride`); decoding is a function of bytes and mode exactly
  along code that leaves none (`X86Decoder.UnlockedCodeIsClean`, `TraceRuns.TidyRunIsExact`).
- A fetch at physical address 0 in mode 0 stops the emulator as long as its table entry is as a flush leaves it, so the
  first fetch after initialization does if it is at address 0 (`CacheState.FatalExactly`,
  `RunFaults.FirstFetchAtZeroStops`, `RunFaults.StopAtZero`).
- Writes on the fast path of the cpu_write macros are not logged, so the self-check's rollback does not undo them
  unless the log holds their bytes already (`RunLog.WriteIsUndoneExactly`; `RunFaults.KeepWrite` is such a run).
  cpu_mmu_translate passes its write and user arguments in the opposite order; this is what keeps user-mode writes
  off the fast path until a page is translated for writing (`RunLog.UserRunIsRestored`).
- cpu_smc_invalidate asks for the exit only if a dropped trace holds the written address itself. A write that begins
  before a trace's first byte and reaches into it drops the trace and asks for nothing on its account
  (`CacheState.ReachingInAsksNot`); a write to a byte of a live watched trace always asks
  (`TraceRuns.WrittenTraceExits`).
- The length tables count other lengths than the handlers read on exactly the opcodes of `X86Length.CountsExactly`: too
  few bytes on the five above, and two too many on ENTER and on the far return that pops bytes with 32-bit operands.
  The LOCK column allows neither NOT nor NEG (`X86Encoding.LockExactly`), so `lock neg` of memory is rejected
  (`X86Encoding.LockNegIsRejected`).
- Because of the exchanged arguments a page read in user mode stays closed to the user's reads, so that every fetch
  from another page translates again (`MachineState.FetchTranslates`).
- After a 16-bit SHRD by 16 the carry reads as clear, whatever bit was shifted out (`DoubleShifts.Shrd16`).
- The allocator's size computation wraps for requests above 2^64 - 65592 bytes (`XmemOps.SizesFit`); one within 31
  bytes of 2^64 is served with a block that holds none of it (`XmemTheorems.WrappedRequestIsServed`).
- Packing the word 0 with an exponent beyond the range gives infinity (`SoftFloat32.PackedZero`).
- cpu_set_pf sets the opposite flag when bit 7 of `laux` is set (`Eflags.ParityForcedIs`).
- Blocks compiled at the depth limit of the block cache's recursion keep null predictions for good, and exactly these
  (`BlockCache.RunLinksBut`), although the limit is not a bound on the distance from the program's start: in a program
  of blocks that each go on to the next, block 32 stays unlinked even after block 33 is compiled
  (`BlockCache.LimitStaysUnlinked`).
- The bare root is the one normalised path that is not read back as itself, so changing to it tests another
  directory (`TargetPath.NormalIsFixed`, `TargetPath.BareRoot`).
- In an ini file a property without a value takes the rest of the file as its value, because an empty
  string is passed on as length zero, which ini.h documents as up to the terminator; names behave likewise
  (`IniFile.EmptyValueOverruns`).

## Model

| member | source | states |
|---|---|---|
| `Interpreter.Execution` | src/halfix/trace.c:26-63 | over any sequence of writes, mode switches, translations and fetches the object goes through states of a run in `TraceRuns`' sense and returns, for each fetch, its result and the elements the interpreter runs; these are right for memory as it then is, and over tidy code every one from the table is its exact decoding |
| `Interpreter.RunAndRollBack` | src/uwin-jit/basic_block.cpp:185-212 | after interpreting and rolling back each byte is what it was when first logged, so memory is restored if and only if each byte still had its old value then; in particular in user mode without a page entered for writing |
| `TraceRuns.RunIsFresh` | src/halfix/trace.c:26-63 | at every fetch of every run: a trace from the table has an instruction and is the decoding of present memory if the bitmap covers it or it was decoded just now, and then it is as long as it can be; an instruction is decoded alone exactly if it is not known to end on its page, and is the present decoding unless it needs a sixteenth byte; a stop exactly at address 0 in mode 0 while its entry is as flushed |
| `TraceRuns.TidyRunIsExact` | src/halfix/decoder.c:3399-3488 | if the code decoded at each miss is tidy where it stands, every trace from the table is the decoding of present memory, one instruction at least, under the override in force when it was decoded; if none leaves an override, a function of bytes and mode alone |
| `TraceRuns.CoveredExactly` | src/halfix/decoder.c:3399-3488 | a run that begins with covered entries keeps every entry covered if and only if all the code that it decodes is tidy |
| `TraceRuns.WatchedIffTidy` | src/halfix/smc.c:33-89 | where nothing else is marked, every write to a byte that the decoding of a new trace looked at drops it if and only if the code, before the fetch, was tidy |
| `X86Runs.OrdinaryRunIsExact` | src/halfix/trace.c:26-63 | from initialization on, over code whose instructions, as decoding visits them, are ordinary where they stand and strand no override, every trace from the table is the decoding of the bytes that memory holds, in the mode in force |
| `X86Runs.CoveredIffOrdinary` | src/halfix/decoder.c:3399-3488 | over x86 code every entry stays covered throughout a run if and only if each instruction visited by its decodings is ordinary where it stands |
| `TraceRuns.NextKeeps` | src/halfix/access.c:65-135 | a write, switch, translation or fetch keeps coherence of the cache, the TLB and the log, and changes memory as the event says |
| `TraceRuns.WrittenOnlyDrops` | src/halfix/access.c:65-135 | a guest write of any kind leaves every table entry as it is or drops it |
| `TraceRuns.WrittenTraceExits` | src/halfix/smc.c:66-88 | a write of any width and alignment, in any mode, to an address that a live trace holds on its page in a marked chunk drops it and asks for the exit |
| `TraceRuns.FetchKeepsEntries` | src/halfix/trace.c:26-63 | a fetch leaves the entries of all other slots alone, unless it decodes with less than a full trace's room left in the buffer: then it drops all |
| `TraceRuns.HitChangesLittle` | src/halfix/trace.c:26-48 | a fetch that finds its trace changes nothing but the translation, and on the page of the last fetch nothing at all |
| `RunLog.RestoredExactly` | src/uwin-jit/basic_block.cpp:192-211 | for every run: the log leads back to the memory before it if and only if each byte had its old value when first logged, or at the end if it never was |
| `RunLog.WriteIsUndoneExactly` | src/uwin-jit/basic_block.cpp:53-63 | a write is undone if and only if it takes the slow path, or the log holds every byte it changes |
| `RunLog.UserRunIsRestored` | src/halfix/mmu.c:67-83 | a run in user mode in which no page was or is entered for writing is undone |
| `RunFaults.ShufpsIsStale` | src/halfix/smc.c:33-89 | SHUFPS with its immediate on the next page: after that byte is written the old instruction is handed out, and memory decodes to another |
| `RunFaults.ServeStaleShufps` | src/halfix/trace.c:41-48 | that run performed by the object |
| `RunFaults.FirstFetchAtZeroStops` | src/halfix/trace.c:41-47 | from initialization, whatever the decoder and memory, a first fetch at address 0 stops the emulator |
| `RunFaults.StopAtZero` | src/halfix/trace.c:41-47 | that run performed by the object |
| `RunFaults.KeepWrite` | src/halfix/ops/simd.c:160-165 | after a page is translated for writing in user mode, a write to it survives the rollback |
| `TraceCache.Cpu.GetTrace` | src/halfix/trace.c:26-63 | the state after a fetch is exactly that of the lookup: the entry served as it is on a hit, on a miss a flush if the buffer could overflow and one trace or one instruction appended beyond all live ones |
| `TraceCache.Cpu.Miss` | src/halfix/trace.c:51-63 | a trace that is cached, or the first instruction alone exactly if it is not known to end on its page |
| `TraceCache.Cpu.DecodeLoop` | src/halfix/decoder.c:3408-3488 | at most MAX_TRACE_SIZE elements are written, none below the used part, and they are the trace of memory from the start address, as long as it can be, with the bytes it looked at and the override it leaves |
| `TraceCache.Cpu.DecodeSplit` | src/halfix/decoder.c:3418-3455 | an instruction that may cross the page is decoded from a fifteen-byte copy and not cached |
| `TraceCache.Cpu.Read` | src/halfix/decoder.c:3472-3476 | the elements from an index up to the first that leaves the trace |
| `TraceCache.Cpu.SetSmc` | src/halfix/decoder.c:3390-3396 | exactly the chunks from the first byte to the one after the last are marked, and writes to the page leave the fast path |
| `TraceCache.Cpu.SmcInvalidate` | src/halfix/smc.c:33-89 | the nested loops drop exactly the traces of the page that start in marked chunks up to the written one; the exit is asked for if and only if one of the entries forgotten held the written address |
| `TraceCache.Cpu.DropTraces` | src/halfix/smc.c:66-80 | the address-by-address loops equal the set description of the dropped entries |
| `TraceCache.Cpu.AccessWrite` | src/halfix/access.c:65-135 | a write of any width and alignment stores the little-endian bytes, keeps coherence, logs the values it overwrites, and asks for the exit if one of its invalidations does |
| `TraceCache.Cpu.AccessRead` | src/halfix/access.c:16-63 | byte-wise and whole reads give the same little-endian value |
| `TraceCache.Cpu.Write` | include/halfix/cpu/cpu.h:477-505 | fast and slow guest writes store the bytes and keep coherence; exactly slow ones are logged, and only they ask for the exit |
| `TraceCache.Cpu.Rollback` | src/uwin-jit/basic_block.cpp:192-211 | the reverse loop writes memory back to what the log leads to |
| `MachineState.UserWritesAreSlow` | include/halfix/cpu/cpu.h:388-390 | user-mode writes take the slow path while no page was entered for writing |
| `MachineState.MapKeeps` | src/halfix/mmu.c:104-118 | translating a page keeps coherence, and keeps user writes slow unless it was for writing |
| `MachineState.TranslationMeans` | src/halfix/mmu.c:40-83 | which reads and writes a translation allows to supervisor and user, by page, marks, direction and privilege, with the arguments exchanged |
| `MachineState.FetchTranslates` | src/halfix/trace.c:29-38 | a fetch translates its page unless the tag allows the read and execution is not forbidden; the user's always do, but on pages entered for user writing |
| `CacheState.WatchedExactly` | src/halfix/smc.c:33-89 | every write to a byte that a trace's decoding looked at drops it if and only if those bytes lie on its page in marked chunks; covered traces are such |
| `CacheState.DroppedExactly` | src/halfix/smc.c:33-89 | which slow writes drop a given live trace, and that the others leave its entry as it is |
| `CacheState.ExitMeans` | src/halfix/smc.c:66-88 | the exit is asked for if and only if some entry whose address became invalid held the written address within its recorded length |
| `CacheState.WatchedAsks` | src/halfix/smc.c:66-88 | an invalidation at an address that a live watched trace holds forgets the trace and asks for the exit |
| `CacheState.ReachingInAsksNot` | src/halfix/smc.c:66-88 | a write from before a trace's first byte into it drops the trace without asking |
| `CacheState.InvalidateKeeps` | src/halfix/smc.c:33-89 | dropping the chunks up to the written one keeps coherence and leaves no live trace that looked at the written chunk |
| `CacheState.StoreKeeps` | src/halfix/access.c:65-81 | a store into a chunk that no live trace looked at keeps coherence |
| `CacheState.ByteStoresKeep` | src/halfix/access.c:83-135 | an unaligned write done byte by byte, with an invalidation before each, keeps coherence and equals one store |
| `CacheState.CommitKeeps` | src/halfix/decoder.c:3474-3488 | entering a new trace keeps coherence, displaces at most one entry, and keeps live traces in disjoint slices |
| `CacheState.NewTraceKeeps` | src/halfix/decoder.c:3408-3488 | a decoded trace beyond the used buffer, once entered, is served, and all others stay |
| `CacheState.SplitDecodes` | src/halfix/decoder.c:3446-3453 | the copy's decoding is that of memory unless it needs sixteen bytes |
| `CacheState.FlushKeeps` | src/halfix/trace.c:13-17 | an emptied table is coherent |
| `CacheState.ServedIsFresh` | src/halfix/trace.c:41-48 | the elements read off from a served entry are its trace, and if it is covered the present decoding |
| `CacheState.FatalExactly` | src/halfix/trace.c:41-47 | the lookup takes an entry without a trace for a match if and only if the address and the mode are 0 and entry 0 is as flushed |
| `CacheState.TagKeeps` | src/halfix/mmu.c:40-83 | new TLB tags keep coherence because pages with code stay off the fast write path |
| `Traces.TraceIsStable` | src/halfix/decoder.c:3399-3488 | a trace stays the decoding of memory while the bytes it looked at stay |
| `Traces.ProgressStep` | src/halfix/decoder.c:3408-3470 | each round keeps the chain decoded so far, the bytes it looked at, and the equivalence between tidy code and these bytes ending on the page in the trace's chunks; along clean code no override is left |
| `Traces.ReadsTrace` | src/halfix/decoder.c:3472-3476 | reading off a trace gives it whole |
| `SmcMask.MaskClearsUpTo` | src/halfix/smc.c:53-84 | the word mask clears exactly the bits of the chunks up to the written one |
| `X86Length.LengthCovers` | src/halfix/decoder.c:114-248 | for all prefixes, ModR/M and SIB bytes and modes, the length decoder covers what the decoder reads if and only if the opcode is not one of five |
| `X86Length.CountsAgree` | src/halfix/decoder.c:183-230 | the length decoder's switch over MOD and RM counts the bytes that parse_modrm takes |
| `X86Length.CountsExactly` | src/halfix/decoder.c:66-108 | the tables count exactly the bytes that the handlers read if and only if the opcode, with its extension and mode, is not one of those listed |
| `X86Length.TableAdmits0F` | src/halfix/decoder.c:89-108 | the two-byte length table accounts for the handler's operands exactly outside these five |
| `X86Length.ShufpsCrossesThePage` | src/halfix/decoder.c:114-248 | SHUFPS of two registers has tabled length three, and four bytes are read |
| `X86Length.FindInstructionLength` | src/halfix/decoder.c:114-248 | the counting-down code returns the instruction's tabled length, or -1 if it exceeds the bytes allowed, having looked at exactly the bytes stated |
| `X86Decoder.TidyExactly` | src/halfix/decoder.c:507-610 | wherever decoding goes on, for all prefixes, modes and bytes: the bytes that decide the instruction end on the page, in a chunk that the trace reaches, if and only if, with at most five prefixes, it is not one of the five opcodes reading beyond a page that ends within sixteen bytes, and with more neither the length check nor the decoder reads too far |
| `X86Decoder.OrdinaryCodeIsTidy` | src/halfix/decoder.c:3408-3488 | code is tidy if and only if each instruction that decoding visits is ordinary where it stands |
| `X86Decoder.PaddingIsOrdinary` | src/halfix/decoder.c:507-610 | the fifteen-byte padding NOP with seven prefixes is ordinary wherever it lies on a page |
| `X86Decoder.ShufpsIsOrdinary` | src/halfix/decoder.c:3408-3417 | SHUFPS of two registers is ordinary everywhere but three bytes before the end of a page |
| `X86Decoder.X86IsDetermined` | src/halfix/decoder.c:299-451 | the outcome is a function of the bytes looked at, which are bounded, of the mode, and of the segment override in force |
| `X86Decoder.LeavesOverride` | src/halfix/decoder.c:580-609 | an instruction leaves an override in force that was not there if and only if it is not too long, is rejected for its LOCK prefix and has a segment prefix |
| `X86Decoder.RejectedLockKeepsFs` | src/halfix/decoder.c:580-609 | 64 F0 90 leaves FS in force |
| `X86Decoder.UnlockedCodeIsClean` | src/halfix/decoder.c:580-609 | decoding begins and goes on without an override if and only if it begins so and no instruction it visits is of that kind |
| `X86Decoder.Reader.DecodePrefixed` | src/halfix/decoder.c:507-610 | how far the cursor moves, which fields the handler reads, and which mode and override each exit of the prefix decoder leaves |
| `X86Decoder.Reader.ParseModrm` | src/halfix/decoder.c:299-451 | parse_modrm's reads at the cursor give base, index, scale, default segment and displacement as the parsing function has them, and move the cursor behind them |
| `X86Decoder.Reader.ReadOperands` | src/halfix/decoder.c:299-451 | every handler's reads give the fields of its kind of operands, and move the cursor by the bytes counted for it |
| `X86Decoder.LastOverride` | src/halfix/decoder.c:556-576 | of several segment prefixes the last decides, and which register it names |
| `X86Encoding.InstructionIsRead` | src/halfix/decoder.c:299-451 | for any prefixes, opcode, addressing form, displacement and immediates, and whatever follows: decoding the encoding moves the cursor by its length and gives back the register field, the operand with its displacement, and the immediates |
| `X86Encoding.AddressIsRead` | src/halfix/decoder.c:299-451 | every addressing form of 16 and 32 bits is read back by parse_modrm, its displacement sign-extended |
| `X86Encoding.EveryForm` | src/halfix/decoder.c:299-451 | every ModR/M, SIB and displacement is the encoding of a form |
| `X86Encoding.HandlerHasFormat` | src/halfix/decoder.c:3490-3880 | each opcode's handler reads ModR/M and immediates as the instruction format of the opcode has them |
| `X86Encoding.StepIsEncoding` | src/halfix/decoder.c:3426-3470 | in a trace an accepted instruction is one step as long as its encoding |
| `X86Encoding.LockExactly` | src/halfix/decoder.c:66-108 | the table allows LOCK on the opcodes with a lockable form, but NOT, NEG and opcode 82 |
| `X86Encoding.LockNegIsRejected` | src/halfix/decoder.c:588-609 | F0 F7 18 is rejected |
| `GuestMemory.LogThenStore` | src/uwin-jit/basic_block.cpp:53-63 | logging the old value before a store leaves what the log leads back to unchanged, overlaps included |
| `GuestMemory.UnloggedStore` | src/uwin-jit/basic_block.cpp:192-211 | a store that is not logged is undone if and only if the log holds each byte it changes |
| `XmemTheorems.EveryRun` | src/uwin-jit/executable_memory_allocator.cpp:198-346 | after any run of calls and client stores the structure is valid, and a block nobody freed or stored into is in place with its contents |
| `XmemTheorems.EveryRunIsValid` | src/uwin-jit/executable_memory_allocator.cpp:198-346 | after any run every chunk is tiled by its blocks up to the terminator, each recording its predecessor's size |
| `XmemTheorems.ChunksAreTiled` | src/uwin-jit/executable_memory_allocator.cpp:35-62 | walking the size words of a chunk visits its blocks to the terminator, each prev_size being right |
| `XmemTheorems.FreeListIsExact` | src/uwin-jit/executable_memory_allocator.cpp:175-196 | memory holds a doubly linked list of exactly the blocks whose size word is 0, each once |
| `XmemTheorems.PayloadsAreDisjoint` | src/uwin-jit/executable_memory_allocator.cpp:198-276 | payloads are 8-aligned, inside their chunk, and disjoint from every other block |
| `XmemTheorems.AllocIsSound` | src/uwin-jit/executable_memory_allocator.cpp:198-276 | alloc fails only if nothing fits and the system refuses, else returns a block that was not in use, holds what was asked for and wastes at most 64 bytes |
| `XmemTheorems.WrappedRequestIsServed` | src/uwin-jit/executable_memory_allocator.cpp:207-234 | a request within 31 bytes of the word's range is given the first free block, as if it asked for nothing |
| `XmemTheorems.FreeReleases` | src/uwin-jit/executable_memory_allocator.cpp:309-319 | free returns the chunk exactly if nothing else in it is used and more than half of the allocated size stays free |
| `XmemTheorems.TrimReleases` | src/uwin-jit/executable_memory_allocator.cpp:324-346 | free_unused_regions returns exactly the chunks without used blocks and leaves used blocks alone |
| `XmemTheorems.FreeUndoesTake` | src/uwin-jit/executable_memory_allocator.cpp:278-307 | freeing what was just taken restores blocks and counters, the list up to order, and its order too if the block was cut off a larger one |
| `XmemTheorems.ClientStoresAreHarmless` | src/uwin-jit/executable_memory_allocator.cpp:158-158 | stores into one's own payload keep the structure and all other payloads |
| `XmemTheorems.ExecutableOffset` | src/uwin-jit/executable_memory_allocator.cpp:348-350 | the offset field of a block in use is its chunk's distance to the executable mapping |
| `XmemOps.FreeKeepsValid` | src/uwin-jit/executable_memory_allocator.cpp:278-322 | free keeps tiling, links, counters and the absence of adjacent free blocks |
| `XmemOps.TakeKeepsValid` | src/uwin-jit/executable_memory_allocator.cpp:211-234 | so does serving from a free block, cut or whole |
| `XmemOps.GrowKeepsValid` | src/uwin-jit/executable_memory_allocator.cpp:236-275 | so does laying out a new chunk |
| `XmemOps.SizesFit` | src/uwin-jit/executable_memory_allocator.cpp:207-237 | the 64-bit size computation covers the request if and only if it is at most MAX_REQUEST |
| `XmemOps.WrappedSizes` | src/uwin-jit/executable_memory_allocator.cpp:207-237 | beyond it, the request is taken for a block smaller than any, or for one whose chunk has the least size |
| `ExecutableMemory.Xmem.Alloc` | src/uwin-jit/executable_memory_allocator.cpp:198-276 | the in-place code equals the function of heap and request that the theorems are about |
| `ExecutableMemory.Xmem.Free` | src/uwin-jit/executable_memory_allocator.cpp:278-322 | likewise for free, with its coalescing on both sides |
| `ExecutableMemory.Xmem.FreeUnusedRegions` | src/uwin-jit/executable_memory_allocator.cpp:324-346 | likewise, terminating although the list shrinks while it is walked |
| `ExecutableMemory.Xmem.RemoveFreeBlock` | src/uwin-jit/executable_memory_allocator.cpp:186-196 | unlinking rewrites exactly the neighbours' links or the head |
| `ExecutableMemory.LaidOut` | src/uwin-jit/executable_memory_allocator.cpp:245-273 | alloc's stores in their own order build what cutting and inserting describe |
| `Rounding.RoundsUnique` | src/halfix/softfloat.c:4800-4887 | the specification of rounding has one result |
| `Rounding.NearestIsClosest` | src/halfix/softfloat.c:4800-4887 | rounding to nearest has no closer encoding, and ties go to the even one |
| `Rounding.DirectedIsTightest` | src/halfix/softfloat.c:4800-4887 | directed rounding gives the nearest encoding on its side |
| `Rounding.DownIsGreatest` | src/halfix/softfloat.c:4834-4843 | rounding down delivers the greatest number of either sign not above the signed value |
| `Rounding.UpIsLeast` | src/halfix/softfloat.c:4834-4843 | rounding up delivers the least number not below it |
| `Rounding.ToZeroIsShortest` | src/halfix/softfloat.c:4834-4843 | rounding to zero delivers the greatest magnitude not beyond the value's, never infinity |
| `Rounding.NearestHasNoCloser` | src/halfix/softfloat.c:4834-4843 | rounding to nearest delivers a number with none of either sign closer, the even one of two, and infinity beyond the range |
| `SoftFloat32.Status.RoundAndPackFloat32` | src/halfix/softfloat.c:4823-4887 | for every word and exponent the packed number and exceptions are those stated on the word; for a normalized word they are the correct rounding of the exact value it stands for, in every mode and for every choice of masked exceptions and flushing |
| `SoftFloat32.PackedIsCorrect` | src/halfix/softfloat.c:4845-4887 | that rounding through carries, subnormals, overflow, flushing and the bias of an unmasked underflow, with exactly the exceptions of the exact value |
| `SoftFloat32.PackedBySign` | src/halfix/softfloat.c:4834-4887 | what the packed number is to the signed value delivered, in each mode and against every finite number; a flushed result is zero |
| `SoftFloat32.PackedZero` | src/halfix/softfloat.c:4845-4887 | the word 0 packs to zero if and only if its exponent is at most 0xFD, and raises nothing exactly from exponent 0 on or where underflow is masked and not flushed |
| `SoftFloat32.RoundedIsCorrect` | src/halfix/softfloat.c:4879-4887 | adding the increment, clearing ties and summing fields is correct rounding, inexact exactly if the value differs |
| `SoftFloat32.DenormalIsCorrect` | src/halfix/softfloat.c:4856-4878 | shifting with jamming before rounding loses nothing that matters |
| `SoftFloat32.OverflowIsCorrect` | src/halfix/softfloat.c:4845-4855 | the overflow test is met exactly by values that round to infinity or the largest number, by mode |
| `Words.JamStands` | include/halfix/softfloat/softfloat-macros.h:71-111 | a jammed word stands for the shifted exact value |
| `Float32Arith.Float32Mul` | src/halfix/softfloat.c:1058-1121 | special operands as the standard has them; otherwise the exact product, correctly rounded, with its exceptions, for every mode, mask and flushing |
| `Float32Arith.Float32Div` | src/halfix/softfloat.c:1130-1192 | the same for the exact quotient |
| `Float32Arith.QuotientWord` | src/halfix/softfloat.c:1188-1192 | a sticky bit set only when the low six quotient bits are zero suffices |
| `Float32Arith.ExactProduct` | src/halfix/softfloat.c:1112-1121 | significands and exponents combine to the exact product in units of the smallest subnormal |
| `Float32Arith.ExactQuotient` | src/halfix/softfloat.c:1181-1188 | likewise for the quotient |
| `Float32Arith.NormalizeRoundAndPack` | src/halfix/softfloat.c:4898-4902 | an unnormalized word is rounded as the value it has, under every setting; the word 0 gives zero exactly up to exponent 0x11C |
| `Float32Arith.PropagateNaN` | src/halfix/softfloat.c:4346-4376 | the quieted operand that the handling mode prefers: the quiet NaN, then the larger significand, then the positive one, or the first; invalid raised exactly for signaling ones |
| `FloatInt.IntRoundingMeans` | src/halfix/softfloat.c:4562-4643 | the rounded integer is nearest, ties to even, or tightest on the mode's side |
| `FloatInt.DownIsFloor` | src/halfix/softfloat.c:4562-4643 | rounding down gives the greatest integer not above the signed value |
| `FloatInt.UpIsCeiling` | src/halfix/softfloat.c:4562-4643 | rounding up gives the least one not below it |
| `FloatInt.ToZeroIsIntegerPart` | src/halfix/softfloat.c:4562-4643 | rounding to zero drops the fraction |
| `FloatInt.NearestHasNoCloserInteger` | src/halfix/softfloat.c:4562-4643 | rounding to nearest has no closer integer, and an even one of two |
| `FloatInt.RoundAndPackInt32` | src/halfix/softfloat.c:4562-4594 | the rounded integer, or the indefinite one with invalid exactly if it does not fit |
| `FloatInt.RoundAndPackInt64` | src/halfix/softfloat.c:4607-4643 | the same for 64 bits |
| `FloatInt.Floatx80ToInt64` | src/halfix/softfloat.c:2819-2850 | every extended value converts to its rounded integer or the indefinite one |
| `FloatInt.RoundTrip` | src/halfix/softfloat.c:2669-2676 | every 64-bit integer survives conversion and back with no exception, in every mode |
| `Floatx80Pack.RoundAndPackFloatx80` | src/halfix/softfloat.c:5060-5238 | for every normalized pair and exponent the packed number and exceptions are those stated on the exact significand, overflow, subnormal results and trapped exceptions included |
| `Floatx80Pack.PackedIsRounded` | src/halfix/softfloat.c:5125-5212 | in range the packed number has the magnitude of the exact value rounded to a multiple of the unit in its last place, through carries and subnormals |
| `Floatx80Pack.DownIsGreatest80` | src/halfix/softfloat.c:5125-5212 | the packed extended number is, rounding down, the greatest of all not above the signed value |
| `Floatx80Pack.UpIsLeast80` | src/halfix/softfloat.c:5125-5212 | rounding up, the least not below it |
| `Floatx80Pack.ToZeroIsShortest80` | src/halfix/softfloat.c:5125-5212 | to zero, the greatest in magnitude not beyond it |
| `Floatx80Pack.NearestHasNoCloser80` | src/halfix/softfloat.c:5125-5212 | to nearest, none is closer, and it is the even one of two |
| `Floatx80Pack.PackedExactly` | src/halfix/softfloat.c:5125-5238 | a value that fits is packed exactly in every rounding mode, subnormal or not; if it is subnormal and underflow unmasked, scaled up by 2^24576 with underflow raised |
| `Floatx80Pack.NormalizeRoundAndPackFloatx80` | src/halfix/softfloat.c:5247-5261 | any pair is packed as its normalized form |
| `Floatx80Pack.NormalizedExactly` | src/halfix/softfloat.c:5247-5261 | a pair of at most 64 significant bits in the range of exponents of the remainder is delivered exactly |
| `FloatInt.ShiftExtraRightJamming` | include/halfix/softfloat/softfloat-macros.h:130-154 | shifting a pair right with jamming keeps what it rounds to, in every direction, and whether it is exact |
| `Words128.EstimateDiv128To64` | include/halfix/softfloat/softfloat-macros.h:213-242 | the estimate is the quotient or at most two more, and its correction loop ends |
| `Words128.Mul64To128` | include/halfix/softfloat/softfloat-macros.h:191-211 | four partial products with carries give the full product |
| `Remainder.RemainderKernel` | src/halfix/softfloat.c:6837-6851 | the exact quotient and a remainder below the divisor |
| `Remainder.Fprem` | src/halfix/softfloat.c:6924-6988 | truncated remainder, or the one of the nearest quotient with ties to even, or a partial remainder with a smaller exponent; of at most 64 significant bits |
| `Remainder.FullRemainder` | src/halfix/softfloat.c:6853-6993 | calling it again on its packed result until it is complete, with underflow masked, gives the remainder of the original operands, the last call the low three bits of the quotient, and nothing but the denormal-operand exception |
| `Remainder.DoFprem` | src/halfix/softfloat.c:6853-6993 | for every pair of operands the packed result, the quotient bits and the exceptions: the default NaN, the preferred operand NaN made quiet, the dividend, or for two numbers the remainder of their magnitudes, or a partial one at least 31 bits shorter, delivered exactly |
| `Eflags.ConditionMeans` | src/halfix/eflags.c:276-306 | after comparing any two 8, 16 or 32-bit values each condition decides the relation it is named after |
| `Eflags.JumpMeans` | src/halfix/opcodes.c:435-565 | each conditional jump is taken exactly if its relation holds, and agrees with cpu_cond for its code |
| `Eflags.ForcedIs` | src/halfix/eflags.c:129-135 | setting OF, AF or CF from any lazy state changes that flag of the guest's view and no other |
| `Eflags.SignForcedIs` | src/halfix/eflags.c:20-25 | the same for SF, which is patched through the result's correction bit |
| `Eflags.ParityForcedIs` | src/halfix/eflags.c:36-40 | cpu_set_pf changes PF alone, as asked, if and only if bit 7 of `laux` was clear; else it sets the opposite |
| `Eflags.LoadedIs` | src/halfix/eflags.c:309-324 | reading the flags after loading them gives the loaded value on every valid flag and keeps the rest |
| `Eflags.ZeroForcedIs` | src/halfix/eflags.c:256-260 | cpu_set_zf changes ZF alone |
| `Eflags.Flags.Compare` | src/halfix/opcodes.c:927-1065 | the CMP handlers' updates, after which all conditional jumps decide the operands' relations |
| `Eflags.Flags.SetEflags` | src/halfix/eflags.c:309-324 | the in-place load, asking to leave the loop exactly if the interrupt flag changed |
| `ArithFlags.Arith` | src/halfix/ops/arith.c:7-133 | ADD, OR, ADC, SBB, AND, SUB and XOR of 8, 16 and 32 bits: the result, and all six flags in terms of the exact one, with the carry in force before for ADC and SBB |
| `ArithFlags.AddFlags` | src/halfix/ops/arith.c:11-15 | after ADD the carry is that of the exact sum, OF its signed overflow, AF the carry out of the low nibbles |
| `ArithFlags.AddCarryFlags` | src/halfix/ops/arith.c:20-26 | the same after ADC for the sum with the carry |
| `ArithFlags.SubtractBorrowFlags` | src/halfix/ops/arith.c:27-33 | after SBB borrow, signed overflow and nibble borrow of the difference with the carry |
| `ArithFlags.SubtractFlags` | src/halfix/ops/arith.c:37-41 | after SUB, CMP and NEG all six flags, AF among them |
| `ArithFlags.Increment` | src/halfix/ops/arith.c:652-677 | INC keeps the carry that was in force and sets the other five flags as adding one does |
| `ArithFlags.Decrement` | src/halfix/ops/arith.c:678-704 | DEC keeps the carry and sets the others as subtracting one does |
| `ArithFlags.Negate` | src/halfix/ops/arith.c:558-572 | NEG: the flags of the difference from zero |
| `ArithFlags.CombineFlags` | src/halfix/ops/arith.c:16-19 | the logical operations clear CF, OF and AF |
| `ArithFlags.Multiply` | src/halfix/ops/arith.c:401-545 | MUL: both halves of the product, CF and OF exactly if the high one is not zero |
| `ArithFlags.SignedMultiply` | src/halfix/ops/arith.c:719-748 | IMUL: both halves of the signed product, CF and OF exactly if it does not fit the width |
| `ArithFlags.Shift` | src/halfix/ops/arith.c:134-398 | SHL, SHR and SAR by any count: the result and the carry are those of shifting one place at a time, also beyond the width; OF for each, AF clear |
| `ArithFlags.ShiftLeftFlags` | src/halfix/ops/arith.c:182-192 | SHL: the carry is the last bit pushed out, OF whether it differs from the sign |
| `ArithFlags.ShiftRightFlags` | src/halfix/ops/arith.c:193-201 | SHR: the last bit pushed out, OF the operand's sign for one place |
| `ArithFlags.ShiftSignedFlags` | src/halfix/ops/arith.c:202-210 | SAR: the last bit pushed out while the sign stays, OF clear |
| `DoubleShifts.Shld16` | src/halfix/ops/arith.c:614-634 | SHLD of 16 bits by any count: result and carry are those of moving the destination, source and destination as one word |
| `DoubleShifts.Shld32` | src/halfix/ops/arith.c:635-650 | the same for 32 bits |
| `DoubleShifts.Shrd16` | src/halfix/ops/arith.c:575-596 | SHRD of 16 bits likewise, but for a count of 16, where the carry reads as clear and the bit shifted out was the sign |
| `DoubleShifts.Shrd32` | src/halfix/ops/arith.c:597-613 | SHRD of 32 bits likewise |
| `DoubleShifts.OnePlace` | src/halfix/ops/arith.c:575-650 | by one place OF says whether the sign changes |
| `BlockCache.EveryRun` | src/uwin-jit/basic_block_cache.cpp:15-43 | along any run of lookups links lead to cached blocks, blocks are wholly linked or not at all, and what was compiled stays and is never compiled again |
| `BlockCache.RunFromEmpty` | src/uwin-jit/basic_block_cache.cpp:15-17 | from the empty cache, there are as many compilations as cached addresses, and each block predicts what the compiler said when it was compiled |
| `BlockCache.VisitReaches` | src/uwin-jit/basic_block_cache.cpp:23-41 | a lookup compiles only blocks within the depth limit, and leaves unlinked only blocks at the end of a path of exactly that length |
| `BlockCache.ShallowGraphsAreLinked` | src/uwin-jit/basic_block_cache.cpp:21-41 | without such a path every block gets linked |
| `BlockCache.VisitLinksBut` | src/uwin-jit/basic_block_cache.cpp:23-41 | a lookup links every prediction of each block it compiles, except exactly of the blocks compiled at the depth limit of its recursion |
| `BlockCache.RunLinksBut` | src/uwin-jit/basic_block_cache.cpp:15-43 | after any run exactly the blocks that some lookup compiled at its limit are without links, and no block changes any more |
| `BlockCache.LimitStaysUnlinked` | src/uwin-jit/basic_block_cache.cpp:21-41 | a concrete program in which block 32 stays unlinked whatever runs later |
| `BlockCache.Jit.Recur` | src/uwin-jit/basic_block_cache.cpp:23-41 | the recursion over the object graph, cycles included, terminates in the state the functions describe and changes no block that existed |
| `BlockCache.Block.GetPredicted` | include/uwin-jit/basic_block.h:72-81 | the predicted lookup returns the block and leaves the state that the plain lookup does |
| `BlockCache.Jit.Next` | src/uwin/jit_cpu_loop.cpp:98-109 | whichever lookup the execution loop uses, it gets the cached block of the address |
| `TargetPath.Files.RealPath` | src/uwin/file.cpp:69-171 | the character loop equals a fold of the components over a stack, failing exactly where the drive assertion does |
| `TargetPath.Files.DropLast` | src/uwin/file.cpp:130-142 | the backward scan always finds a slash and removes exactly the last component; at the root nothing |
| `TargetPath.StackIsProper` | src/uwin/file.cpp:122-157 | no component of a result is empty, a dot, two dots or holds a slash of either kind |
| `TargetPath.NormalIsFixed` | src/uwin/file.cpp:69-171 | normalising a result again gives the same name if and only if it is not the bare root |
| `TargetPath.FromNormalCurrent` | src/uwin/file.cpp:79-90 | a relative name means the same from the normalised current directory |
| `TargetPath.UpUndoesDown` | src/uwin/file.cpp:130-142 | entering a directory and going up again changes nothing, anywhere in a path |
| `TargetPath.DotsAndSlashes` | src/uwin/file.cpp:109-157 | a dot, or two slashes in a row, anywhere in a path change nothing |
| `TargetPath.RelativeJoined` | src/uwin/file.cpp:79-90 | a relative name means the current directory's components followed by its own |
| `TargetPath.OtherDrives` | src/uwin/file.cpp:79-98 | normalising fails exactly for an absolute name on another drive |
| `TargetPath.BareRoot` | src/uwin/file.cpp:79-90 | what the bare root means as a name |
| `TargetPath.Files.TranslatePath` | src/uwin/file.cpp:173-211 | a host name exactly for names that begin with the program's directory after normalisation |
| `TargetPath.Files.SetCurrent` | src/uwin/file.cpp:300-328 | the current directory stays one that names resolve against, and unless it is the bare root it is the directory that was found |
| `IniFile.RoundTrip` | include/ini.h:495-638 | loading what was saved gives the same sections and, in each, the same properties in order, if and only if the contents are well formed |
| `IniText.TextSaysItsItems` | include/ini.h:506-562 | a written text is read as the items it was written from if and only if all are good |
| `IniText.BadIsLost` | include/ini.h:506-562 | an item that is not good is never read back as itself, whatever follows it |
| `IniText.ReadBack` | include/ini.h:506-562 | a good item is read back, followed by what the rest of the text says |
| `IniText.FirstIsLoaded` | include/ini.h:506-562 | what any text whatever can yield first |
| `IniText.CommentIsSkipped` | include/ini.h:520-524 | a comment line anywhere says nothing: the rest is read as without it |
| `IniText.BlanksAreSkipped` | include/ini.h:512-518 | blanks and empty lines before anything say nothing |
| `IniText.BareLineIsSkipped` | include/ini.h:540-562 | a line without an equals sign says nothing |
| `IniText.UnclosedHeaderIsSkipped` | include/ini.h:525-538 | a section header that its line does not close says nothing |
| `IniText.HeaderIsRead` | include/ini.h:525-538 | a closed header adds its section, and what follows on its line is read as if it stood on the next |
| `IniText.PaddingIsDropped` | include/ini.h:540-562 | blanks on either side of a value are not part of it |
| `IniFile.BuiltItems` | include/ini.h:772-858 | contents built from items hold exactly these items |
| `IniFile.Rebuilt` | include/ini.h:772-858 | contents are rebuilt from their items |
| `IniFile.EmptyValueOverruns` | include/ini.h:550-558 | a concrete file with an empty value that is not read back |
| `Ini.Contents.Load` | include/ini.h:495-565 | the scanning loops build the contents that the text's items describe, and end |
| `Ini.Contents.Save` | include/ini.h:568-638 | the buffer receives exactly the prefix of the text that fits, and the result is the full length for every size and without a buffer |
| `Ini.Contents.PropertyIndex` | include/ini.h:455-474 | the index found is that of the section's k-th property, and not-found exactly if there is none |
| `Ini.ScanBack` | include/ini.h:555-557 | the backward scan stops at the value's last character or at the equals sign |

## Left out

- Opcode semantics other than the flag-setting arithmetic, CMP, the conditional jumps and what the decoder reads: wide tables with shallow facts. Rotates and the bit operations, which set single flags by `Eflags.Flags.SetCf` and the like, the division instructions, CMPXCHG and XADD are among them.
- The sign extension of immediates and the packing of the operand into the flag bits of a decoded instruction: fields are read as unsigned numbers.
- cpu_smc_invalidate_page (src/halfix/smc.c:90-113): its loop stops before the last chunk and it never clears the bitmap, so it does not keep coherence.
- Stores through get_write_ptr (MMX and SSE, src/halfix/ops/simd.c), the rollback's own stores and JIT stores: they bypass the bitmap and the log, so traces over bytes they change may be stale; a run in `TraceRuns` has the translations that get_write_ptr makes, and none of these stores.
- The page-table walk of src/halfix/mmu.c and paging faults: get_lin_ram_ptr always yields a pointer, so memory is identity-mapped.
- The exit request that cpu_smc_invalidate makes is a result here; the execution loop's reaction to it is not modelled.
- The decoded operation itself: `Traces.Decoder` and `X86Decoder.X86` are open in it; the 0F D0 handler, which indexes its table with -1, is taken by the bytes it reads.
- TraceCache.Cpu.GetTrace: what host memory holds beyond the guest's, which a fetch in its last bytes reads, is a parameter.
- Locks, threads and the spinlock: the allocator is used one operation at a time; the block cache has no lock in the source, and only its single-threaded behaviour is modelled.
- uw_jitmem_alloc is a parameter: a refusal, or a fresh 8-aligned region with its executable offset.
- ExecutableMemory.Xmem.Alloc: leaves out the requests above 2^64 - 65592 bytes for which a wrapped size is used, for the block handed out or the region asked for; what the source computes then is `XmemOps.WrappedSizes` and `XmemTheorems.WrappedRequestIsServed`, not the damage that follows. The wrap-around of three times allocated_size in free is not modelled, sizes being bounded by memory.
- The final assertion of free_unused_regions: a fully used chunk falsifies it, so it is not an invariant.
- Float32Arith.NormalizeRoundAndPack: exponents are integers in a range that 16 bits hold.
- FloatInt.RoundAndPackInt32: bit 63 of the word is clear, as its documentation demands.
- Remainder.DoFprem: where an unmasked underflow or overflow was raised before the call (fpu.c clears the exceptions first), the result is what `Floatx80Pack.Packed80` says of the reduction, and not stated in terms of the operands.
- Remainder.FullRemainder: states the repetition for masked underflow; unmasked, a subnormal partial remainder is delivered scaled up with the exception (`Floatx80Pack.PackedExactly`), and the program is not meant to go on with it.
- Floatx80Pack.RoundAndPackFloatx80: rounding precision 80 only; pairs are normalized or zero, not the unnormalized ones with exponent 0 that its documentation mentions.
- XmemTheorems.AllocIsSound: takes the same requests as `ExecutableMemory.Xmem.Alloc`.
- Double precision, addition, square root, the transcendental functions, and fpu.c, whose packed-decimal load and store disagree about byte order.
- Eflags.ConditionMeans: operands and results are numbers of which single bits are read, while flag words are bit-vectors; a shift distance that is undefined in C is taken modulo 32, and method numbers the source stops on read the stored flags.
- Code generation, Zydis and vixl: the branches predicted for a block are an arbitrary function of address and time.
- System calls behind file names, and the case-insensitive search: the host's directories are a parameter of `TargetPath.Files.SetCurrent`. An empty name is read as if followed by zeros.
- IniText.Items: bytes from 128 up count as blanks, as with a signed `char`; with an unsigned one they would be ordinary characters.
- Growth of the ini lists by reallocation and their inline buffers for short strings: lists and strings are values. Removal, renaming and search of ini entries are left out; ini_property_name_set and ini_property_value_set clear a field of the wrong slot.
- handletable.cpp, the loader, logging, SDL and the win32 libraries.
