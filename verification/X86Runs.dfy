/** Runs over x86 code from the start: the trace cache's promise in terms of the instructions met. */
module X86Runs {
  import opened GuestMemory
  import opened Traces
  import opened CacheState
  import opened MachineState
  import opened TraceRuns
  import X86Length
  import opened X86Decoder

  /** If the event makes the cache decode, each instruction that decoding visits is ordinary where it
      stands, and none strands a segment override. */
  ghost predicate MeetsOrdinary<I(!new)>(a: Machine<Operation<I>>, e: Event)
    requires InMemory(e, |a.cache.mem|)
  {
    Missing(a, e) ==>
      var s, p := a.cache, e.addr;
      && OrdinaryCode(s.dec, ContextOf(a), s.mem, p, PageLimit(p))
      && UnlockedAhead(s.dec, ContextOf(a), s.mem, p, PageLimit(p), MAX_TRACE_SIZE - 1)
      && (AtEnd(s.dec, a.hash, s.mem, p, PageLimit(p)) ==>
            !Strands(Prefetch(s.mem, e.beyond, p), X86Length.ModeOf(a.hash)))
  }

  ghost predicate OrdinaryRun<I(!new)>(states: seq<Machine<Operation<I>>>, events: seq<Event>) {
    |states| == |events| + 1 && forall i: nat :: i < |events| ==> OrdinaryAt(states[i], events[i])
  }

  ghost predicate OrdinaryAt<I(!new)>(a: Machine<Operation<I>>, e: Event) {
    InMemory(e, |a.cache.mem|) && MeetsOrdinary(a, e)
  }

  lemma OrdinaryMeets<I(!new)>(insn: (seq<byte>, Context) -> I, ends: (seq<byte>, nat) -> bool,
                               a: Machine<Operation<I>>, e: Event)
    requires a.cache.dec == X86(insn, ends) && OrdinaryAt(a, e)
    ensures MeetsTidy(a, e) && (a.left == 0 ==> MeetsClean(a, e))
  {
    hide TidyCode, CleanCode, OrdinaryCode, UnlockedAhead, AtEnd, Strands, Prefetch, X86, KeepsUnlessStranded;
    if Missing(a, e) {
      OrdinaryCodeIsTidy(insn, ends, ContextOf(a), a.cache.mem, e.addr, PageLimit(e.addr));
      UnlockedCodeIsClean(insn, ends, ContextOf(a), a.cache.mem, e.addr, PageLimit(e.addr));
      if a.left == 0 {
        CopyKeeps(insn, ends, Prefetch(a.cache.mem, e.beyond, e.addr), ContextOf(a));
      }
    }
  }

  ghost predicate DecodesOrdinary<I(!new)>(a: Machine<Operation<I>>, e: Event) {
    Missing(a, e) ==> OrdinaryCode(a.cache.dec, ContextOf(a), a.cache.mem, e.addr, PageLimit(e.addr))
  }

  /** The bitmap covers every entry throughout a run exactly if all the code that the run decodes is ordinary. */
  lemma CoveredIffOrdinary<I(!new)>(insn: (seq<byte>, Context) -> I, ends: (seq<byte>, nat) -> bool,
      states: seq<Machine<Operation<I>>>, events: seq<Event>, outcomes: seq<Outcome<Operation<I>>>)
    requires Run(states, events, outcomes) && states[0].cache.dec == X86(insn, ends) && AllCovered(states[0].cache)
    ensures (forall i: nat :: i <= |events| ==> AllCovered(states[i].cache))
       <==> (forall i: nat :: i < |events| ==> DecodesOrdinary(states[i], events[i]))
  {
    CoveredExactly(states, events, outcomes);
    hide TidyCode, OrdinaryCode, X86, AllCovered, Sound, MemoryAfter, ModeAfter, Missing;
    forall i: nat | i < |events| ensures DecodesOrdinary(states[i], events[i]) <==> MeetsTidy(states[i], events[i]) {
      RunIsSound(states, events, outcomes, i);
      var a, e := states[i], events[i];
      if Missing(a, e) {
        OrdinaryCodeIsTidy(insn, ends, ContextOf(a), a.cache.mem, e.addr, PageLimit(e.addr));
      }
    }
  }

  lemma CopyKeeps<I(!new)>(insn: (seq<byte>, Context) -> I, ends: (seq<byte>, nat) -> bool, s: seq<byte>, h: Context)
    requires h.left == 0
    ensures X86(insn, ends).step(s, h).left == 0 <==> !Strands(s, X86Length.ModeOf(h.hash))
  {
    hide X86, Strands;
    X86Keeps(insn, ends);
  }

  lemma BlankTable<Op(!new)>(dec: Decoder<Op>, m: seq<byte>, infoEntries: nat, bufSize: nat)
    ensures var a := Blank(dec, m, infoEntries, bufSize); AllCovered(a.cache) && AllClean(a.cache) && a.left == 0
  {
  }

  lemma {:induction false} OrdinaryTable<I(!new)>(insn: (seq<byte>, Context) -> I, ends: (seq<byte>, nat) -> bool,
      states: seq<Machine<Operation<I>>>, events: seq<Event>, outcomes: seq<Outcome<Operation<I>>>, i: nat)
    requires Run(states, events, outcomes) && OrdinaryRun(states, events) && i <= |events|
    requires states[0].cache.dec == X86(insn, ends)
    requires AllCovered(states[0].cache) && AllClean(states[0].cache) && states[0].left == 0
    ensures AllCovered(states[i].cache) && AllClean(states[i].cache) && states[i].left == 0
    decreases i
  {
    if i > 0 {
      OrdinaryTable(insn, ends, states, events, outcomes, i - 1);
      RunIsSound(states, events, outcomes, i - 1);
      assert StepAt(states, events, outcomes, i - 1) && OrdinaryAt(states[i - 1], events[i - 1]);
      hide Run, OrdinaryRun, OrdinaryAt, Sound, Next, AllCovered, AllClean, MeetsTidy, MeetsClean, MemoryAfter, X86;
      OrdinaryStep(insn, ends, states[i - 1], events[i - 1], outcomes[i - 1], states[i]);
    }
  }

  lemma OrdinaryStep<I(!new)>(insn: (seq<byte>, Context) -> I, ends: (seq<byte>, nat) -> bool,
      a: Machine<Operation<I>>, e: Event, o: Outcome<Operation<I>>, b: Machine<Operation<I>>)
    requires Sound(a) && Next(a, e, o, b) && OrdinaryAt(a, e) && a.cache.dec == X86(insn, ends)
    requires AllCovered(a.cache) && AllClean(a.cache) && a.left == 0
    ensures AllCovered(b.cache) && AllClean(b.cache) && b.left == 0
  {
    assert InMemory(e, |a.cache.mem|);
    hide Sound, Next, AllCovered, AllClean, MeetsTidy, MeetsClean, MeetsOrdinary, X86, InMemory;
    OrdinaryMeets(insn, ends, a, e);
    NextTable(a, e, o, b);
  }

  /** From the start, over ordinary code in which no override is stranded: every trace from the table is the decoding
      of the bytes that memory holds, in the mode in force and without an override. */
  lemma OrdinaryRunIsExact<I(!new)>(insn: (seq<byte>, Context) -> I, ends: (seq<byte>, nat) -> bool,
      m: seq<byte>, infoEntries: nat, bufSize: nat,
      states: seq<Machine<Operation<I>>>, events: seq<Event>, outcomes: seq<Outcome<Operation<I>>>, i: nat)
    requires Run(states, events, outcomes) && states[0] == Blank(X86(insn, ends), m, infoEntries, bufSize)
    requires OrdinaryRun(states, events) && i < |events|
    ensures Exact(states[i], events[i], outcomes[i], Context(states[i].hash, 0))
  {
    BlankTable(X86(insn, ends), m, infoEntries, bufSize);
    assert |states| == |events| + 1;
    hide Run, OrdinaryRun, AllCovered, AllClean, X86, Blank, Exact;
    OrdinaryTable(insn, ends, states, events, outcomes, i + 1);
    FreshIsExact(states, events, outcomes, i);
  }
}
