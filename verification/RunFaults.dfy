/** Three runs on which the code does not do what it is meant to: a trace served after the bytes it was decoded from
    were overwritten, a fetch that stops the emulator, and a write that a rollback does not undo. */
module RunFaults {
  import opened GuestMemory
  import opened Traces
  import opened CacheState
  import opened MachineState
  import opened TraceCache
  import opened TraceRuns
  import opened RunLog
  import opened X86Length
  import opened X86Decoder
  import Interpreter

  // --- A stale trace ---

  /** A fetch that was served or kept from the table leaves the table serving it. */
  lemma KeptInTable<Op(!new)>(a: Machine<Op>, p: nat, nx: bool, nextNx: bool, beyond: seq<byte>, f: Fetch,
                              b: Machine<Op>)
    requires Sound(a) && p < TARGET_ADDRESS_SPACE_SIZE && p < |a.cache.mem| && |beyond| >= PREFETCH
             && |a.cache.info| > 0
    requires TlbOk(TlbOf(a)) && Fetched(a, p, nx, nextNx, beyond, f, b) && f.Trace? && f.cached
    ensures Serves(b.cache, p, a.hash, f.ptr) && b.hash == a.hash
  {
    LocatedKeeps(a, p, nx);
    var l := Located(a, p, nx);
    if !Matches(l.cache, p, a.hash) {
      RoomKeeps(l.cache);
      var s := MadeRoom(l.cache);
      NewTraceKeeps(s, b.cache, p, ContextOf(l));
      hide Coherent, NewTrace, MadeRoom, Located, AtEnd, Leaves, ReadOff, SplitTrace;
    }
  }

  /** A served entry is handed out as it is. */
  lemma HandedOut<Op(!new)>(a: Machine<Op>, p: nat, nx: bool, nextNx: bool, beyond: seq<byte>, ptr: nat, f: Fetch,
                            b: Machine<Op>)
    requires Sound(a) && p < TARGET_ADDRESS_SPACE_SIZE && p < |a.cache.mem| && |beyond| >= PREFETCH
             && |a.cache.info| > 0
    requires TlbOk(TlbOf(a)) && Fetched(a, p, nx, nextNx, beyond, f, b) && Serves(a.cache, p, a.hash, ptr)
    ensures f == Trace(ptr, true) && b.cache.buf == a.cache.buf
  {
    LocatedKeeps(a, p, nx);
    hide Coherent, Located, Missed;
  }

  /** A one-byte write drops no trace that starts on another page. */
  lemma OtherPage<Op(!new)>(a: Machine<Op>, w: nat, v: nat, p: nat, ptr: nat)
    requires Sound(a) && Ready(a) && w < |a.cache.mem| && w / PAGE != p / PAGE && Serves(a.cache, p, a.hash, ptr)
    ensures var b := AfterWrite(a, w, 1, v);
            b.cache.buf == a.cache.buf && b.hash == a.hash && Serves(b.cache, p, a.hash, ptr)
  {
    assert w % 1 == 0;
    hide Coherent, LittleEndian, Store, ClearChunks;
  }

  /** The three steps: a fetch that is kept in the table, a write on another page, and the same fetch again. */
  lemma ServedAgain<Op(!new)>(states: seq<Machine<Op>>, events: seq<Event>, outcomes: seq<Outcome<Op>>, e: Event,
                              w: nat, v: nat)
    requires Run(states, events, outcomes) && e.Execute? && events == [e, Write(w, 1, v), e]
    requires w / PAGE != e.addr / PAGE && outcomes[0].Handed? && outcomes[0].fetch.Trace? && outcomes[0].fetch.cached
    ensures outcomes[2] == outcomes[0]
  {
    assert StepAt(states, events, outcomes, 0) && StepAt(states, events, outcomes, 1)
           && StepAt(states, events, outcomes, 2);
    RunIsSound(states, events, outcomes, 1);
    RunIsSound(states, events, outcomes, 2);
    var p, ptr := e.addr, outcomes[0].fetch.ptr;
    hide Run, Sound, Fetched, Serves, AfterWrite, MemoryAfter;
    SoundTable(states[0]);
    KeptInTable(states[0], p, e.nx, e.nextNx, e.beyond, outcomes[0].fetch, states[1]);
    OtherPage(states[1], w, v, p, ptr);
    SoundTable(states[2]);
    HandedOut(states[2], p, e.nx, e.nextNx, e.beyond, ptr, outcomes[2].fetch, states[3]);
  }

  lemma SoundTable<Op(!new)>(a: Machine<Op>)
    requires Sound(a)
    ensures |a.cache.info| > 0 && |a.cache.mem| <= TARGET_ADDRESS_SPACE_SIZE
  {
  }

  /** Decoded operations as the bytes they were decoded from. */
  function Bytes(b: seq<byte>, h: Context): seq<byte> { b }

  predicate Never(b: seq<byte>, hash: nat) { false }

  function ByteDecoder(): Decoder<Operation<seq<byte>>> { X86(Bytes, Never) }

  const NO_OVERRIDE := Context(0, 0)

  predicate IsShufps(s: seq<byte>, imm: byte) {
    |s| >= 4 && s[0] == 0x0F && s[1] == 0xC6 && s[2] == 0xC1 && s[3] == imm
  }

  /** SHUFPS XMM0, XMM1 with its immediate: four bytes, of which the length decoder counts three. */
  lemma ShufpsStep(s: seq<byte>, imm: byte)
    requires IsShufps(s, imm)
    ensures ByteDecoder().step(s, NO_OVERRIDE) == Step(Insn([0x0F, 0xC6, 0xC1, imm]), 4, 4, false, 0)
    ensures ByteDecoder().fits(s, 0, 3)
  {
    var m := ModeOf(0);
    ShufpsCrossesThePage(s, m);
    assert m == Mode(false, false);
    assert !BadLock(s) && !Rewinds(s) by {
      ShufpsHead(s);
    }
    assert FirstBytes(s, 4) == [0x0F, 0xC6, 0xC1, imm];
    hide HeadAt, TableLength, BytesRead, BadLock, Rewinds, LengthReach, ModeOf;
  }

  lemma ShufpsHead(s: seq<byte>)
    requires |s| >= 2 && s[0] == 0x0F && s[1] == 0xC6
    ensures HeadAt(s, 0) == Head(0, true, 0xC6, 2) && PrefixCount(s, 0) == 0
    ensures !BadLock(s) && !Rewinds(s)
  {
    assert At(s, 0) == 0x0F && At(s, 1) == 0xC6;
    assert HeadAt(s, 0) == Head(0, true, 0xC6, 2);
    hide HeadAt;
  }

  const SHUFPS_AT := 0xFFD

  function FetchShufps(): Event { Execute(SHUFPS_AT, false, false, seq(PREFETCH, _ => 0)) }

  /** The first fetch decodes and keeps the instruction that crosses the page. */
  lemma ShufpsIsKept(a: Machine<Operation<seq<byte>>>, o: Outcome<Operation<seq<byte>>>,
                     b: Machine<Operation<seq<byte>>>, m: seq<byte>)
    requires |m| == 2 * PAGE && IsShufps(m[SHUFPS_AT..], 0)
    requires a == Blank(ByteDecoder(), m, 1, 64) && Next(a, FetchShufps(), o, b)
    ensures o.Handed? && o.fetch.Trace? && o.fetch.cached && o.trace != []
    ensures o.trace[0] == Decoded(Insn([0x0F, 0xC6, 0xC1, 0]), false)
  {
    ShufpsStep(m[SHUFPS_AT..], 0);
    assert SHUFPS_AT / PAGE == 0 / PAGE;
    assert PageLimit(SHUFPS_AT) == PAGE;
    assert ContextOf(a) == NO_OVERRIDE;
    hide ByteDecoder, SplitTrace;
    assert !AtEnd(a.cache.dec, 0, m, SHUFPS_AT, PAGE);
    NewTraceReads(a.cache, b.cache, SHUFPS_AT, NO_OVERRIDE);
  }

  /** SHUFPS at the end of a page, its immediate the first byte of the next: after a write to that byte the old
      instruction is served, which is not the decoding of memory any more. */
  lemma ShufpsIsStale(states: seq<Machine<Operation<seq<byte>>>>, outcomes: seq<Outcome<Operation<seq<byte>>>>,
                      m: seq<byte>)
    requires |m| == 2 * PAGE && IsShufps(m[SHUFPS_AT..], 0)
    requires Run(states, [FetchShufps(), Write(PAGE, 1, 5), FetchShufps()], outcomes)
    requires states[0] == Blank(ByteDecoder(), m, 1, 64)
    ensures outcomes[2].Handed? && outcomes[2].trace != []
    ensures outcomes[2].trace[0] == Decoded(Insn([0x0F, 0xC6, 0xC1, 0]), false)
    ensures states[2].cache.mem == m[PAGE := 5] && SHUFPS_AT < |states[2].cache.mem|
    ensures SlotOf(ByteDecoder().step(states[2].cache.mem[SHUFPS_AT..], NO_OVERRIDE))
            == Decoded(Insn([0x0F, 0xC6, 0xC1, 5]), false)
  {
    var events := [FetchShufps(), Write(PAGE, 1, 5), FetchShufps()];
    assert StepAt(states, events, outcomes, 0);
    hide Sound, MemoryAfter, ByteDecoder, Blank, FetchShufps, Next, Run;
    ShufpsIsKept(states[0], outcomes[0], states[1], m);
    AfterTheWrite(states, events, outcomes, m);
    ServedAgain(states, events, outcomes, FetchShufps(), PAGE, 5);
    assert IsShufps(m[PAGE := 5][SHUFPS_AT..], 5);
    ShufpsStep(m[PAGE := 5][SHUFPS_AT..], 5);
  }

  lemma AfterTheWrite(states: seq<Machine<Operation<seq<byte>>>>, events: seq<Event>,
                      outcomes: seq<Outcome<Operation<seq<byte>>>>, m: seq<byte>)
    requires |m| == 2 * PAGE && Run(states, events, outcomes) && |events| >= 2 && states[0].cache.mem == m
    requires events[0].Execute? && events[1] == Write(PAGE, 1, 5)
    ensures states[2].cache.mem == m[PAGE := 5]
  {
    assert StepAt(states, events, outcomes, 0) && StepAt(states, events, outcomes, 1);
    RunIsSound(states, events, outcomes, 1);
    hide Sound, MemoryAfter, Run, Next;
    NextKeeps(states[0], events[0], outcomes[0], states[1]);
    NextKeeps(states[1], events[1], outcomes[1], states[2]);
    StoreByte(m, PAGE, 5);
  }

  lemma StoreByte(m: seq<byte>, a: nat, v: byte)
    requires a < |m|
    ensures Store(m, a, LittleEndian(1, v)) == m[a := v]
  {
    assert LittleEndian(1, v) == [v];
  }

  /** The run, performed: the second fetch hands out the first one's instruction, and memory decodes to another. */
  method ServeStaleShufps() returns (cpu: Cpu<Operation<seq<byte>>>, outcomes: seq<Outcome<Operation<seq<byte>>>>)
    ensures |outcomes| == 3 && outcomes[2].Handed? && outcomes[2].trace != [] && cpu.mem.Length > SHUFPS_AT
    ensures outcomes[2].trace[0] != SlotOf(ByteDecoder().step(cpu.mem[..][SHUFPS_AT..], NO_OVERRIDE))
  {
    var guest := new byte[2 * PAGE](i => if i == SHUFPS_AT then 0x0F else if i == SHUFPS_AT + 1 then 0xC6
                                          else if i == SHUFPS_AT + 2 then 0xC1 else 0);
    ghost var m := guest[..];
    X86IsDetermined(Bytes, Never);
    cpu := new Cpu(ByteDecoder(), guest, 1, 64);
    hide Coherent, Sound, Blank, Run, ByteDecoder;
    ghost var states;
    outcomes, states := Interpreter.Perform(cpu, [FetchShufps(), Write(PAGE, 1, 5), FetchShufps()]);
    assert IsShufps(m[SHUFPS_AT..], 0);
    ShufpsIsStale(states, outcomes, m);
    LastFetchKeepsMemory(states, outcomes);
  }

  lemma LastFetchKeepsMemory(states: seq<Machine<Operation<seq<byte>>>>, outcomes: seq<Outcome<Operation<seq<byte>>>>)
    requires Run(states, [FetchShufps(), Write(PAGE, 1, 5), FetchShufps()], outcomes)
    ensures states[3].cache.mem == states[2].cache.mem
  {
    var events := [FetchShufps(), Write(PAGE, 1, 5), FetchShufps()];
    assert StepAt(states, events, outcomes, 2);
    RunIsSound(states, events, outcomes, 2);
    hide Sound, MemoryAfter, Run, Next;
    NextKeeps(states[2], events[2], outcomes[2], states[3]);
  }

  // --- A fetch that stops the emulator ---

  function FetchAt(p: nat): Event { Execute(p, false, false, seq(PREFETCH, _ => 0)) }

  /** From initialization, whatever the decoder and the bytes: a first fetch at address 0 finds the entry that was
      never filled, and stops. */
  lemma FirstFetchAtZeroStops<Op(!new)>(dec: Decoder<Op>, m: seq<byte>, infoEntries: nat, bufSize: nat,
                                        states: seq<Machine<Op>>, events: seq<Event>, outcomes: seq<Outcome<Op>>)
    requires Run(states, events, outcomes) && states[0] == Blank(dec, m, infoEntries, bufSize)
    requires events != [] && events[0].Execute? && events[0].addr == 0
    ensures outcomes[0] == Handed(Fatal, [])
  {
    assert StepAt(states, events, outcomes, 0);
    SoundTable(states[0]);
    assert NullTrace(states[0].cache, 0, 0);
    RunIsFresh(states, events, outcomes, 0);
    hide Sound, Fetched, FromTable, FromCopy, Blank, Shape;
  }

  /** The run, performed. */
  method StopAtZero<Op(!new)>(dec: Decoder<Op>, guest: array<byte>) returns (outcomes: seq<Outcome<Op>>)
    requires Determined(dec) && Bounded(dec)
    requires 0 < guest.Length <= TARGET_ADDRESS_SPACE_SIZE && guest.Length % PAGE == 0
    modifies guest
    ensures outcomes == [Handed(Fatal, [])]
  {
    var cpu := new Cpu(dec, guest, 1, 64);
    ghost var m := guest[..];
    hide Coherent, Sound, Blank, Run, Determined, Bounded;
    ghost var states;
    outcomes, states := Interpreter.Perform(cpu, [FetchAt(0)]);
    FirstFetchAtZeroStops(dec, m, 1, 64, states, [FetchAt(0)], outcomes);
    assert Run(states, [FetchAt(0)], outcomes);
    OneOutcome(states, [FetchAt(0)], outcomes);
  }

  lemma OneOutcome<Op(!new)>(states: seq<Machine<Op>>, events: seq<Event>, outcomes: seq<Outcome<Op>>)
    requires Run(states, events, outcomes)
    ensures |outcomes| == |events|
  {
  }

  // --- A write that is not undone ---

  /** A decoder for a machine that fetches nothing. */
  function Idle(): Decoder<()> {
    Decoder((s: seq<byte>, h: Context) => Step((), 0, 1, true, 0), (s: seq<byte>, hash: nat, max: nat) => true)
  }

  lemma IdleIsDetermined()
    ensures Determined(Idle()) && Bounded(Idle())
  {
  }

  const DATA_PAGE := 2

  /** User mode; an instruction translates a page for writing, as the string and vector handlers do to get a host
      pointer; and a byte on that page is written. */
  function WriteTranslated(): seq<Event> {
    [Switch(0, true), Translate(DATA_PAGE, true), Write(DATA_PAGE * PAGE, 1, 7)]
  }

  /** Entering the page for writing in user mode makes user writes to it fast. */
  lemma TranslatedIsFast(t: Tlb, smc: seq<bool>)
    requires TlbOk(t) && t.entries == [] && !PageHasCode(smc, DATA_PAGE)
    ensures var u := Map(t, smc, DATA_PAGE, true, true);
            TlbOk(u) && u.tags[DATA_PAGE] == 0 && !IsSlow(u.tags[DATA_PAGE], true, DATA_PAGE * PAGE, 1)
  {
    assert NewTag(DATA_PAGE, false, true, true) == 0;
    assert IsSlow(0, true, DATA_PAGE * PAGE, 1) == (DATA_PAGE * PAGE % 1 != 0);
  }

  /** The write leaves no record, so that nothing undoes it. */
  lemma WriteIsNotLogged(states: seq<Machine<()>>, outcomes: seq<Outcome<()>>, m: seq<byte>)
    requires |m| == 3 * PAGE && Run(states, WriteTranslated(), outcomes) && states[0] == Blank(Idle(), m, 1, 64)
    ensures states[3].log == [] && states[3].cache.mem == m[DATA_PAGE * PAGE := 7]
  {
    var events := WriteTranslated();
    assert StepAt(states, events, outcomes, 0) && StepAt(states, events, outcomes, 1)
           && StepAt(states, events, outcomes, 2);
    assert !PageHasCode(states[0].cache.smc, DATA_PAGE);
    StoreByte(m, DATA_PAGE * PAGE, 7);
    hide Run, Sound, Map, IsSlow, PageHasCode, Store, LittleEndian, Shape;
    TranslatedIsFast(TlbOf(states[1]), states[1].cache.smc);
  }

  /** The run, performed and rolled back: memory has changed. */
  method KeepWrite() returns (before: seq<byte>, cpu: Cpu<()>)
    ensures cpu.mem.Length == |before| == 3 * PAGE && cpu.dirtyMem == []
    ensures cpu.mem[..] == before[DATA_PAGE * PAGE := 7] && cpu.mem[..] != before
  {
    var guest := new byte[3 * PAGE](_ => 0);
    before := guest[..];
    IdleIsDetermined();
    cpu := new Cpu(Idle(), guest, 1, 64);
    cpu.ValidParts();
    hide Coherent, Sound, Blank, Run, Idle, Shape;
    ghost var outcomes, states;
    outcomes, states := Interpreter.Perform(cpu, WriteTranslated());
    WriteIsNotLogged(states, outcomes, before);
    assert cpu.dirtyMem == [] && cpu.mem[..] == before[DATA_PAGE * PAGE := 7];
    cpu.Rollback();
    assert before[DATA_PAGE * PAGE] == 0;
  }
}
