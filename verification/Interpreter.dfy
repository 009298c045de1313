/** The class of TraceCache.dfy performing runs, and undoing the writes of one. */
module Interpreter {
  import opened GuestMemory
  import opened Traces
  import opened CacheState
  import opened MachineState
  import opened TraceCache
  import opened TraceRuns
  import opened RunLog

  /** A fetch, and the elements the interpreter runs from there. */
  method DoFetch<Op(!new)>(cpu: Cpu<Op>, p: nat, nx: bool, nextNx: bool, beyond: seq<byte>) returns (o: Outcome<Op>)
    requires cpu.Valid() && p < cpu.mem.Length && |beyond| >= PREFETCH
    modifies cpu, cpu.info, cpu.buf, cpu.smc, cpu.tags
    ensures cpu.Valid() && Next(old(cpu.State()), Execute(p, nx, nextNx, beyond), o, cpu.State())
  {
    cpu.ValidParts();
    ghost var a := cpu.State();
    hide Sound, Coherent, Fetched, ReadOff;
    var f := cpu.GetTrace(p, nx, nextNx, beyond);
    FetchInBuffer(a, p, nx, nextNx, beyond, f, cpu.State());
    var t := [];
    if f.Trace? {
      t := cpu.Read(f.ptr);
    }
    o := Handed(f, t);
  }

  method DoWrite<Op(!new)>(cpu: Cpu<Op>, addr: nat, n: nat, v: nat) returns (exit: bool)
    requires cpu.Valid() && n in {1, 2, 4} && addr + n <= cpu.mem.Length
    modifies cpu, cpu.mem, cpu.info, cpu.smc, cpu.tags
    ensures cpu.Valid() && Ready(old(cpu.State())) && InMemory(Write(addr, n, v), cpu.mem.Length)
    ensures cpu.State() == AfterWrite(old(cpu.State()), addr, n, v)
    ensures exit == ExitAsked(old(cpu.State()), addr, n, v)
  {
    cpu.ValidParts();
    PageInTlb(addr);
    hide Sound, Coherent, Written, WriteAsks, Records, IsSlow, Store;
    exit := cpu.Write(addr, n, v);
  }

  /** One event of a run. */
  method Do<Op(!new)>(cpu: Cpu<Op>, e: Event) returns (o: Outcome<Op>)
    requires cpu.Valid() && InMemory(e, cpu.mem.Length)
    modifies cpu, cpu.mem, cpu.info, cpu.buf, cpu.smc, cpu.tags
    ensures cpu.Valid() && Next(old(cpu.State()), e, o, cpu.State())
  {
    cpu.ValidParts();
    o := Quiet;
    match e
    case Write(addr, n, v) =>
      hide Coherent, AfterWrite, ExitAsked;
      var exit := DoWrite(cpu, addr, n, v);
      o := Stored(exit);
    case Switch(h, user) =>
      hide Coherent;
      cpu.stateHash, cpu.user := h, user;
      cpu.ValidWhole();
    case Translate(page, write) =>
      hide Coherent, Map;
      cpu.MmuTranslate(page, write);
    case Execute(p, nx, nextNx, beyond) =>
      hide Coherent, Next;
      o := DoFetch(cpu, p, nx, nextNx, beyond);
  }

  /** Any sequence of events. The outcomes are what the interpreter got at each event; `states` are the states the
      class went through. */
  method Execution<Op(!new)>(cpu: Cpu<Op>, events: seq<Event>)
    returns (outcomes: seq<Outcome<Op>>, ghost states: seq<Machine<Op>>)
    requires cpu.Valid() && AllInMemory(events, cpu.mem.Length)
    modifies cpu, cpu.mem, cpu.info, cpu.buf, cpu.smc, cpu.tags
    ensures cpu.Valid() && Run(states, events, outcomes)
    ensures states[0] == old(cpu.State()) && states[|events|] == cpu.State()
    ensures cpu.mem[..] == MemoryAfter(old(cpu.mem[..]), events)
    ensures forall i: nat :: i < |events| ==> FreshAt(states, events, outcomes, i)
    ensures TidyRun(states, events) && AllCovered(states[0].cache) ==>
              forall i: nat :: i < |events| ==> Exact(states[i], events[i], outcomes[i], DecodedIn(states, events, i))
  {
    outcomes, states := Perform(cpu, events);
    RunIsSound(states, events, outcomes, |events|);
    assert events[..|events|] == events;
    hide Run, FreshAt, TidyRun, AllCovered, Exact, DecodedIn, MemoryAfter, Sound;
    forall i: nat | i < |events| ensures FreshAt(states, events, outcomes, i) {
      RunIsFresh(states, events, outcomes, i);
    }
    if TidyRun(states, events) && AllCovered(states[0].cache) {
      forall i: nat | i < |events| ensures Exact(states[i], events[i], outcomes[i], DecodedIn(states, events, i)) {
        TidyRunIsExact(states, events, outcomes, i);
      }
    }
  }

  method Perform<Op(!new)>(cpu: Cpu<Op>, events: seq<Event>)
    returns (outcomes: seq<Outcome<Op>>, ghost states: seq<Machine<Op>>)
    requires cpu.Valid() && AllInMemory(events, cpu.mem.Length)
    modifies cpu, cpu.mem, cpu.info, cpu.buf, cpu.smc, cpu.tags
    ensures cpu.Valid() && Run(states, events, outcomes)
    ensures states[0] == old(cpu.State()) && states[|events|] == cpu.State()
  {
    outcomes, states := [], [cpu.State()];
    ghost var a := cpu.State();
    hide Next, Sound, Coherent, InMemory;
    assert Sound(a) && |a.cache.mem| == cpu.mem.Length;
    for i := 0 to |events|
      invariant cpu.Valid() && i == |outcomes| && |states| == i + 1
      invariant states[0] == a && states[i] == cpu.State()
      invariant forall j: nat :: j < i ==> Next(states[j], events[j], outcomes[j], states[j + 1])
    {
      var o := Do(cpu, events[i]);
      outcomes, states := outcomes + [o], states + [cpu.State()];
    }
  }

  /** The JIT's self-check: the interpreter runs, then its writes are rolled back. Each byte is then what it was when
      it was first logged; so memory is as before the run if and only if each byte still had its old value then, and
      in particular if the run stays in user mode, where no page was or is entered for writing. */
  method RunAndRollBack<Op(!new)>(cpu: Cpu<Op>, events: seq<Event>)
    returns (outcomes: seq<Outcome<Op>>, ghost states: seq<Machine<Op>>)
    requires cpu.Valid() && AllInMemory(events, cpu.mem.Length) && cpu.dirtyMem == []
    modifies cpu, cpu.mem, cpu.info, cpu.buf, cpu.smc, cpu.tags
    ensures cpu.dirtyMem == [] && Run(states, events, outcomes) && states[0] == old(cpu.State())
    ensures forall x: nat :: x < cpu.mem.Length ==>
              var m := states[LastFree(states, x, |events|)].cache.mem; x < |m| && cpu.mem[x] == m[x]
    ensures cpu.mem[..] == old(cpu.mem[..]) <==> LoggedInTime(states, |events|)
    ensures UserRun(events) && Logging(old(cpu.State())) ==> cpu.mem[..] == old(cpu.mem[..])
  {
    outcomes, states := Perform(cpu, events);
    ghost var end := cpu.State();
    RestoredExactly(states, events, outcomes);
    if UserRun(events) && Logging(states[0]) {
      UserRunIsRestored(states, events, outcomes);
    }
    hide Run, UserRun, Logging, LoggedInTime, LastFree, Undo, Coherent;
    forall x: nat | x < cpu.mem.Length
      ensures var m := states[LastFree(states, x, |events|)].cache.mem; x < |m| && Rewound(end)[x] == m[x]
    {
      RewoundAt(states, events, outcomes, |events|, x);
    }
    cpu.Rollback();
  }
}
