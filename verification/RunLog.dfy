/** What the log of overwritten values leads back to, over whole runs: which writes are logged, and exactly when a
    rollback restores memory. */
module RunLog {
  import opened GuestMemory
  import opened Traces
  import opened CacheState
  import opened MachineState
  import opened TraceRuns

  // --- One write ---

  lemma BytesThenStore(m: seq<byte>, log: seq<Dirty>, a: nat, n: nat, v: nat)
    requires WellLogged(|m|, log) && a + n <= |m|
    ensures WellLogged(|m|, log + ByteRecords(m, a, n))
    ensures Undo(Store(m, a, LittleEndian(n, v)), log + ByteRecords(m, a, n)) == Undo(m, log)
    decreases n
  {
    BytesInMemory(m, a, n);
    if n == 0 {
      assert log + ByteRecords(m, a, 0) == log && Store(m, a, LittleEndian(0, v)) == m;
    } else {
      FirstByteThenStore(m, log, a, n, v);
      var m', log' := Store(m, a, [v % 256]), log + Records(m, a, 1);
      hide Undo, Store, ByteRecords, LittleEndian, Records, WellLogged;
      BytesThenStore(m', log', a + 1, n - 1, v / 256);
    }
  }

  lemma FirstByteThenStore(m: seq<byte>, log: seq<Dirty>, a: nat, n: nat, v: nat)
    requires WellLogged(|m|, log) && n > 0 && a + n <= |m|
    ensures var m', log' := Store(m, a, [v % 256]), log + Records(m, a, 1);
            && WellLogged(|m|, log') && |m'| == |m| && Undo(m', log') == Undo(m, log)
            && log' + ByteRecords(m', a + 1, n - 1) == log + ByteRecords(m, a, n)
            && Store(m', a + 1, LittleEndian(n - 1, v / 256)) == Store(m, a, LittleEndian(n, v))
  {
    LogThenStore(m, log, a, [v % 256]);
    ByteRecordsAfter(m, a, n, v % 256, log);
    StoreTwice(m, a, LittleEndian(n, v));
    assert LittleEndian(n, v)[..1] == [v % 256] && LittleEndian(n, v)[1..] == LittleEndian(n - 1, v / 256);
    hide Undo, Store, ByteRecords;
  }

  /** A logged write of any width and alignment leaves what the log leads back to unchanged. */
  lemma LoggedWrite(m: seq<byte>, log: seq<Dirty>, a: nat, n: nat, v: nat)
    requires WellLogged(|m|, log) && n in {1, 2, 4} && a + n <= |m|
    ensures WellLogged(|m|, log + Records(m, a, n))
    ensures Undo(Store(m, a, LittleEndian(n, v)), log + Records(m, a, n)) == Undo(m, log)
  {
    hide Undo, Store, ByteRecords, LittleEndian, WellLogged, Value;
    if a % n == 0 {
      LogThenStore(m, log, a, LittleEndian(n, v));
    } else {
      BytesThenStore(m, log, a, n, v);
    }
  }

  ghost function Rewound<Op(!new)>(a: Machine<Op>): (m: seq<byte>)
    requires Sound(a)
    ensures |m| == |a.cache.mem|
  {
    Undo(a.cache.mem, a.log)
  }

  predicate SlowAt<Op>(a: Machine<Op>, addr: nat, n: nat)
    requires Ready(a) && n > 0 && addr + n <= |a.cache.mem|
  {
    PageInTlb(addr);
    IsSlow(a.cache.tags[addr / PAGE], a.user, addr, n)
  }

  /** A guest write will be undone if and only if it takes the slow path, or every byte it changes has been logged
      before. */
  lemma WriteIsUndoneExactly<Op(!new)>(a: Machine<Op>, addr: nat, n: nat, v: nat)
    requires Sound(a) && Ready(a) && n in {1, 2, 4} && addr + n <= |a.cache.mem|
    ensures Sound(AfterWrite(a, addr, n, v))
    ensures Rewound(AfterWrite(a, addr, n, v)) == Rewound(a)
            <==> SlowAt(a, addr, n) || Remembered(a.cache.mem, a.log, addr, LittleEndian(n, v))
  {
    AfterWriteKeeps(a, addr, n, v);
    LoggedWrite(a.cache.mem, a.log, addr, n, v);
    UnloggedStore(a.cache.mem, a.log, addr, LittleEndian(n, v));
    assert a.log + [] == a.log;
    hide Coherent, Undo, Store, Written, Records, Remembered, IsSlow;
  }

  lemma UnloggedWriteAt<Op(!new)>(a: Machine<Op>, addr: nat, n: nat, v: nat, x: nat)
    requires Sound(a) && Ready(a) && n in {1, 2, 4} && addr + n <= |a.cache.mem| && x < |a.cache.mem|
    requires !SlowAt(a, addr, n)
    ensures Sound(AfterWrite(a, addr, n, v)) && AfterWrite(a, addr, n, v).log == a.log
    ensures InLog(a.log, x) ==> Rewound(AfterWrite(a, addr, n, v))[x] == Rewound(a)[x]
  {
    AfterWriteKeeps(a, addr, n, v);
    UnloggedByte(a.cache.mem, a.log, addr, LittleEndian(n, v), x);
    assert a.log + [] == a.log;
    hide Coherent, Undo, Store, Written, Records, IsSlow;
  }

  // --- Runs ---

  /** The log only grows, and a byte that it holds keeps its logged value. */
  lemma NextRewound<Op(!new)>(a: Machine<Op>, e: Event, o: Outcome<Op>, b: Machine<Op>, x: nat)
    requires Sound(a) && Next(a, e, o, b) && x < |a.cache.mem|
    ensures Sound(b) && |b.cache.mem| == |a.cache.mem| && a.log <= b.log
    ensures e.Write? && !SlowAt(a, e.addr, e.width) ==> b.log == a.log
    ensures !e.Write? || SlowAt(a, e.addr, e.width) ==> Rewound(b) == Rewound(a)
    ensures InLog(b.log, x) ==> Rewound(b)[x] == Rewound(a)[x]
  {
    NextKeeps(a, e, o, b);
    match e
    case Write(addr, n, v) =>
      WriteIsUndoneExactly(a, addr, n, v);
      if !SlowAt(a, addr, n) {
        UnloggedWriteAt(a, addr, n, v, x);
      }
      hide Sound, Rewound, SlowAt, InLog, Written;
    case Switch(_, _) =>
      hide Coherent, InLog, WellLogged, Undo;
    case Translate(_, _) =>
      hide Coherent, InLog, WellLogged, Undo, Map;
    case Execute(p, nx, nextNx, beyond) =>
      FetchedKeeps(a, p, nx, nextNx, beyond, o.fetch, b);
      hide Coherent, InLog, WellLogged, Undo, Fetched;
  }

  /** The last of the first `n` steps of a run before which the byte at `x` was not in the log. */
  function LastFree<Op>(states: seq<Machine<Op>>, x: nat, n: nat): (j: nat)
    requires n < |states|
    ensures j <= n
  {
    if n == 0 || !InLog(states[n].log, x) then n else LastFree(states, x, n - 1)
  }

  /** The log leads each byte back to what it was when it was first logged, or to what it is if it never was. */
  lemma {:induction false} RewoundAt<Op(!new)>(states: seq<Machine<Op>>, events: seq<Event>,
                                               outcomes: seq<Outcome<Op>>, n: nat, x: nat)
    requires Run(states, events, outcomes) && n <= |events| && states[0].log == [] && x < |states[0].cache.mem|
    ensures Sound(states[n])
            && |states[n].cache.mem| == |states[0].cache.mem| == |states[LastFree(states, x, n)].cache.mem|
    ensures Rewound(states[n])[x] == states[LastFree(states, x, n)].cache.mem[x]
    decreases n
  {
    RunIsSound(states, events, outcomes, n);
    if !InLog(states[n].log, x) {
      UndoAt(states[n].cache.mem, states[n].cache.mem, states[n].log, x);
    } else {
      RewoundAt(states, events, outcomes, n - 1, x);
      assert StepAt(states, events, outcomes, n - 1);
      NextRewound(states[n - 1], events[n - 1], outcomes[n - 1], states[n], x);
    }
    hide Coherent, Next, Undo, InLog, MemoryAfter, ModeAfter, WellLogged;
  }

  /** Every byte has its old value when it is first logged, or at the end if it never is. */
  ghost predicate LoggedInTime<Op>(states: seq<Machine<Op>>, n: nat)
    requires n < |states|
  {
    forall x: nat :: x < |states[0].cache.mem| ==> HadOldValue(states, n, x)
  }

  ghost predicate HadOldValue<Op>(states: seq<Machine<Op>>, n: nat, x: nat)
    requires n < |states| && x < |states[0].cache.mem|
  {
    var m := states[LastFree(states, x, n)].cache.mem;
    x < |m| && m[x] == states[0].cache.mem[x]
  }

  /** Exactly when rolling back a run restores memory. */
  lemma RestoredExactly<Op(!new)>(states: seq<Machine<Op>>, events: seq<Event>, outcomes: seq<Outcome<Op>>)
    requires Run(states, events, outcomes) && states[0].log == []
    ensures Sound(states[|events|])
    ensures Rewound(states[|events|]) == states[0].cache.mem <==> LoggedInTime(states, |events|)
  {
    var n := |events|;
    RunIsSound(states, events, outcomes, n);
    hide Run, Sound, Rewound, LastFree, MemoryAfter, ModeAfter;
    forall x: nat | x < |states[0].cache.mem|
      ensures HadOldValue(states, n, x) <==> Rewound(states[n])[x] == states[0].cache.mem[x]
    {
      RewoundAt(states, events, outcomes, n, x);
    }
  }

  /** Every write of the run takes the slow path. */
  ghost predicate AllSlow<Op(!new)>(states: seq<Machine<Op>>, events: seq<Event>) {
    |states| == |events| + 1 && forall i: nat :: i < |events| ==> WritesSlowly(states[i], events[i])
  }

  predicate WritesSlowly<Op>(a: Machine<Op>, e: Event) {
    e.Write? ==> Ready(a) && InMemory(e, |a.cache.mem|) && SlowAt(a, e.addr, e.width)
  }

  /** A run on the slow path is undone at every moment. */
  lemma {:induction false} SlowRunIsUndone<Op(!new)>(states: seq<Machine<Op>>, events: seq<Event>,
                                                     outcomes: seq<Outcome<Op>>, i: nat)
    requires Run(states, events, outcomes) && AllSlow(states, events) && i <= |events|
    ensures Sound(states[0]) && Sound(states[i]) && Rewound(states[i]) == Rewound(states[0])
    decreases i
  {
    if i > 0 {
      SlowRunIsUndone(states, events, outcomes, i - 1);
      assert StepAt(states, events, outcomes, i - 1) && WritesSlowly(states[i - 1], events[i - 1]);
      hide Sound, Rewound, SlowAt, MemoryAfter, ModeAfter;
      RunIsSound(states, events, outcomes, i - 1);
      MemoryIsThere(states[i - 1]);
      NextRewound(states[i - 1], events[i - 1], outcomes[i - 1], states[i], 0);
    }
  }

  lemma MemoryIsThere<Op(!new)>(a: Machine<Op>)
    requires Sound(a)
    ensures |a.cache.mem| > 0
  {
  }

  // --- User mode ---

  /** The event does not leave user mode or enter a page for writing. */
  predicate StaysUser(e: Event) { (e.Switch? ==> e.user) && (e.Translate? ==> !e.write) }

  predicate UserRun(events: seq<Event>) {
    forall i :: 0 <= i < |events| ==> StaysUser(events[i])
  }

  /** User mode with every page's user writes on the slow path. */
  predicate Logging<Op>(a: Machine<Op>) { a.user && UserSlow(a.cache.tags) }

  lemma NextLogging<Op(!new)>(a: Machine<Op>, e: Event, o: Outcome<Op>, b: Machine<Op>)
    requires Sound(a) && Next(a, e, o, b) && Logging(a) && StaysUser(e)
    ensures Logging(b) && WritesSlowly(a, e)
  {
    match e
    case Write(addr, n, v) =>
      PageInTlb(addr);
      UserWritesAreSlow(a.cache.tags, addr, n);
      WrittenKeepsUserSlow(a.cache, true, addr, n, v);
      hide Sound, UserSlow, IsSlow, Written, Records;
    case Switch(_, _) =>
    case Translate(page, write) =>
      MapKeeps(a.cache, a.entries, page, write, a.user);
      hide Coherent, UserSlow, Map, WellLogged;
    case Execute(p, nx, nextNx, beyond) =>
      FetchedKeeps(a, p, nx, nextNx, beyond, o.fetch, b);
      hide Coherent, UserSlow, Fetched, WellLogged;
  }

  lemma {:induction false} UserRunLogs<Op(!new)>(states: seq<Machine<Op>>, events: seq<Event>,
                                                 outcomes: seq<Outcome<Op>>, i: nat)
    requires Run(states, events, outcomes) && UserRun(events) && Logging(states[0]) && i <= |events|
    ensures Logging(states[i])
    decreases i
  {
    if i > 0 {
      UserRunLogs(states, events, outcomes, i - 1);
      UserStep(states, events, outcomes, i - 1);
    }
    hide Run, Logging, UserRun;
  }

  lemma UserStep<Op(!new)>(states: seq<Machine<Op>>, events: seq<Event>, outcomes: seq<Outcome<Op>>, i: nat)
    requires Run(states, events, outcomes) && i < |events| && UserRun(events) && Logging(states[i])
    ensures Logging(states[i + 1]) && WritesSlowly(states[i], events[i])
  {
    RunIsSound(states, events, outcomes, i);
    assert StepAt(states, events, outcomes, i) && StaysUser(events[i]);
    hide Run, Sound, Logging, Next, WritesSlowly, MemoryAfter, ModeAfter, StaysUser, UserRun;
    NextLogging(states[i], events[i], outcomes[i], states[i + 1]);
  }

  /** In user mode, where no page was or is entered for writing, a rollback restores memory. */
  lemma UserRunIsRestored<Op(!new)>(states: seq<Machine<Op>>, events: seq<Event>, outcomes: seq<Outcome<Op>>)
    requires Run(states, events, outcomes) && UserRun(events) && Logging(states[0]) && states[0].log == []
    ensures Sound(states[|events|]) && Rewound(states[|events|]) == states[0].cache.mem
  {
    assert |states| == |events| + 1;
    hide Run, Sound, Logging, WritesSlowly, UserRun;
    forall i: nat | i < |events| ensures WritesSlowly(states[i], events[i]) {
      UserRunLogs(states, events, outcomes, i);
      UserStep(states, events, outcomes, i);
    }
    SlowRunIsUndone(states, events, outcomes, |events|);
  }
}
