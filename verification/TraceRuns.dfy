/** Whole runs of the interpreter over the trace cache: any interleaving of guest writes, mode switches,
    translations and instruction fetches, as a relation between states, and performed by the class. */
module TraceRuns {
  import opened GuestMemory
  import opened Traces
  import opened CacheState
  import opened MachineState

  /** A guest write of some width, a switch of the decoding mode and privilege level, the translation of a page for
      data accesses, or a fetch. `nx` and `nextNx` are the no-execute attributes of the fetched page and of the one
      fifteen bytes on, `beyond` what host memory holds after the guest's. */
  datatype Event =
    | Write(addr: nat, width: nat, data: nat)
    | Switch(hash: nat, user: bool)
    | Translate(page: nat, write: bool)
    | Execute(addr: nat, nx: bool, nextNx: bool, beyond: seq<byte>)

  /** What the interpreter gets: nothing, after a write the request to leave its loop or not, or a fetch with the
      elements it runs from there. */
  datatype Outcome<Op> = Quiet | Stored(exit: bool) | Handed(fetch: Fetch, trace: seq<Slot<Op>>)

  predicate InMemory(e: Event, size: nat) {
    match e
    case Write(a, n, _) => n in {1, 2, 4} && a + n <= size
    case Switch(_, _) => true
    case Translate(page, _) => page < TLB_PAGES
    case Execute(p, _, _, beyond) => p < size && |beyond| >= PREFETCH
  }

  predicate AllInMemory(events: seq<Event>, size: nat) {
    forall i :: 0 <= i < |events| ==> InMemory(events[i], size)
  }

  function Applied(m: seq<byte>, e: Event): (n: seq<byte>)
    requires InMemory(e, |m|)
    ensures |n| == |m|
  {
    match e
    case Write(a, n, v) => Store(m, a, LittleEndian(n, v))
    case _ => m
  }

  /** Memory after a run, whatever the cache does. */
  function MemoryAfter(m: seq<byte>, events: seq<Event>): (n: seq<byte>)
    requires AllInMemory(events, |m|)
    ensures |n| == |m|
    decreases |events|
  {
    if events == [] then m else Applied(MemoryAfter(m, events[..|events| - 1]), events[|events| - 1])
  }

  // --- One step ---

  predicate Ready<Op>(a: Machine<Op>) { Shape(a.cache) && TlbOk(TlbOf(a)) }

  function AfterWrite<Op>(a: Machine<Op>, addr: nat, n: nat, v: nat): Machine<Op>
    requires Ready(a) && n in {1, 2, 4} && addr + n <= |a.cache.mem|
  {
    PageInTlb(addr);
    var slow := IsSlow(a.cache.tags[addr / PAGE], a.user, addr, n);
    a.(cache := Written(a.cache, slow, addr, n, v), log := a.log + if slow then Records(a.cache.mem, addr, n) else [])
  }

  /** Whether the write asks to leave the interpreter's loop. */
  predicate ExitAsked<Op>(a: Machine<Op>, addr: nat, n: nat, v: nat)
    requires Ready(a) && n in {1, 2, 4} && addr + n <= |a.cache.mem|
  {
    PageInTlb(addr);
    WriteAsks(a.cache, IsSlow(a.cache.tags[addr / PAGE], a.user, addr, n), addr, n, v)
  }

  /** What the interpreter reads off the buffer after a fetch. */
  function Given<Op>(f: Fetch, buf: seq<Slot<Op>>): seq<Slot<Op>> {
    match f
    case Fatal => []
    case Trace(ptr, _) => ReadOff(buf, ptr)
  }

  /** One event takes state `a` to `b` and hands out `o`. */
  ghost predicate Next<Op(!new)>(a: Machine<Op>, e: Event, o: Outcome<Op>, b: Machine<Op>) {
    Ready(a) && InMemory(e, |a.cache.mem|) &&
    match e
    case Write(addr, n, v) => o == Stored(ExitAsked(a, addr, n, v)) && b == AfterWrite(a, addr, n, v)
    case Switch(h, user) => o == Quiet && b == a.(hash := h, user := user)
    case Translate(page, write) => o == Quiet && b == WithTlb(a, Map(TlbOf(a), a.cache.smc, page, write, a.user))
    case Execute(p, nx, nextNx, beyond) =>
      && o.Handed? && Fetched(a, p, nx, nextNx, beyond, o.fetch, b)
      && o.trace == Given(o.fetch, b.cache.buf)
  }

  lemma AfterWriteKeeps<Op(!new)>(a: Machine<Op>, addr: nat, n: nat, v: nat)
    requires Sound(a) && n in {1, 2, 4} && addr + n <= |a.cache.mem|
    ensures Ready(a) && Sound(AfterWrite(a, addr, n, v))
    ensures AfterWrite(a, addr, n, v).cache.mem == Store(a.cache.mem, addr, LittleEndian(n, v))
    ensures AfterWrite(a, addr, n, v).cache.dec == a.cache.dec
  {
    PageInTlb(addr);
    var slow := IsSlow(a.cache.tags[addr / PAGE], a.user, addr, n);
    WrittenKeeps(a.cache, a.user, addr, n, v);
    LogGrows(|a.cache.mem|, a.log, a.cache.mem, addr, n);
    hide Coherent, Written, IsSlow, Records, WellLogged, Store;
  }

  lemma WrittenKeeps<Op(!new)>(s: Cache<Op>, user: bool, addr: nat, n: nat, v: nat)
    requires Coherent(s) && n in {1, 2, 4} && addr + n <= |s.mem|
    ensures addr / PAGE < |s.tags|
    ensures var t := Written(s, IsSlow(s.tags[addr / PAGE], user, addr, n), addr, n, v);
            Coherent(t) && t.mem == Store(s.mem, addr, LittleEndian(n, v)) && SameShape(s, t)
  {
    PageInTlb(addr);
    var slow := IsSlow(s.tags[addr / PAGE], user, addr, n);
    WrittenSameShape(s, slow, addr, n, v);
    if !slow {
      FastWriteKeeps(s, user, addr, n, v);
    } else if addr % n == 0 {
      AlignedInChunk(addr, n);
      SlowStoreKeeps(s, addr, LittleEndian(n, v));
      hide Coherent, SlowStore, Store;
    } else {
      ByteStoresKeep(s, addr, LittleEndian(n, v));
      hide Coherent, ByteStores, Store;
    }
  }

  lemma FastWriteKeeps<Op(!new)>(s: Cache<Op>, user: bool, addr: nat, n: nat, v: nat)
    requires Coherent(s) && n in {1, 2, 4} && addr + n <= |s.mem| && addr / PAGE < |s.tags|
    requires !IsSlow(s.tags[addr / PAGE], user, addr, n)
    ensures Coherent(s.(mem := Store(s.mem, addr, LittleEndian(n, v))))
  {
    ValidTagIsUnmarked(s.tags[addr / PAGE]);
    AlignedInChunk(addr, n);
    FastPathUnlooked(s, addr);
    StoreKeeps(s, addr, LittleEndian(n, v));
    hide Coherent, Store;
  }

  /** A fetch keeps the cache coherent, memory and the log; what it hands out is described by Fresh below. */
  lemma FetchedKeeps<Op(!new)>(a: Machine<Op>, p: nat, nx: bool, nextNx: bool, beyond: seq<byte>, f: Fetch,
                               b: Machine<Op>)
    requires Sound(a) && p < TARGET_ADDRESS_SPACE_SIZE && p < |a.cache.mem| && |beyond| >= PREFETCH
             && |a.cache.info| > 0
    requires Fetched(a, p, nx, nextNx, beyond, f, b)
    ensures Sound(b) && b.cache.mem == a.cache.mem && b.cache.dec == a.cache.dec
    ensures b.hash == a.hash && b.user == a.user && b.log == a.log
    ensures KeepsUserSlow(a.cache.tags, b.cache.tags)
  {
    LocatedKeeps(a, p, nx);
    var l := Located(a, p, nx);
    hide Coherent, Located, Missed, MadeRoom, WellLogged, UserSlow, TlbOk;
    if !Matches(l.cache, p, a.hash) {
      RoomKeeps(l.cache);
      MissedKeeps(l.(cache := MadeRoom(l.cache)), p, nextNx, beyond, f, b);
    }
  }

  lemma LocatedKeeps<Op(!new)>(a: Machine<Op>, p: nat, nx: bool)
    requires Sound(a) && p < TARGET_ADDRESS_SPACE_SIZE
    ensures Sound(Located(a, p, nx)) && Located(a, p, nx) == a.(cache := a.cache.(tags := Located(a, p, nx).cache.tags),
                                                                entries := Located(a, p, nx).entries,
                                                                lastEip := Located(a, p, nx).lastEip)
    ensures KeepsUserSlow(a.cache.tags, Located(a, p, nx).cache.tags)
  {
    PageInTlb(p);
    CheckKeeps(a.cache, a.entries, p / PAGE, a.user, nx);
    assert a.cache.(tags := a.cache.tags) == a.cache;
    hide Coherent, Check, UserSlow, WellLogged;
  }

  /** A fetch leaves the entries of all other table slots as they are, unless it has to decode while less than the room
      of a full trace is left in the buffer: then it drops them all. */
  lemma FetchKeepsEntries<Op(!new)>(a: Machine<Op>, p: nat, nx: bool, nextNx: bool, beyond: seq<byte>,
                                    o: Outcome<Op>, b: Machine<Op>, k: nat)
    requires Sound(a) && Next(a, Execute(p, nx, nextNx, beyond), o, b)
    requires k < |a.cache.info| && k != p % |a.cache.info|
    ensures |b.cache.info| == |a.cache.info|
    ensures if Matches(a.cache, p, a.hash) || a.cache.usage + 32 < |a.cache.buf| then b.cache.info[k] == a.cache.info[k]
            else !Live(b.cache.info[k])
  {
    LocatedKeeps(a, p, nx);
    hide Coherent, Check, SplitTrace, Finished, MarkChunks, ReadOff, Leaves, AtEnd, Prefetch;
    var l := Located(a, p, nx);
    assert Matches(l.cache, p, a.hash) == Matches(a.cache, p, a.hash);
    if !Matches(a.cache, p, a.hash) {
      var m := l.(cache := MadeRoom(l.cache));
      assert Missed(m, p, nextNx, beyond, o.fetch, b);
      MissKeepsEntries(m, p, nextNx, beyond, o.fetch, b, k);
    }
  }

  /** A fetch that finds its trace changes nothing but the translation, and on the page of the last fetch nothing. */
  lemma HitChangesLittle<Op(!new)>(a: Machine<Op>, p: nat, nx: bool, nextNx: bool, beyond: seq<byte>,
                                   o: Outcome<Op>, b: Machine<Op>)
    requires Sound(a) && Next(a, Execute(p, nx, nextNx, beyond), o, b) && Matches(a.cache, p, a.hash)
    ensures b == a.(cache := a.cache.(tags := b.cache.tags), entries := b.entries, lastEip := b.lastEip)
    ensures p / PAGE == a.lastEip / PAGE ==> b == a
  {
    LocatedKeeps(a, p, nx);
    hide Coherent, Check;
  }

  lemma MissKeepsEntries<Op(!new)>(l: Machine<Op>, p: nat, nextNx: bool, beyond: seq<byte>, f: Fetch, b: Machine<Op>,
                                   k: nat)
    requires TlbOk(TlbOf(l)) && p < TARGET_ADDRESS_SPACE_SIZE && p < |l.cache.mem| && |beyond| >= PREFETCH
    requires Missed(l, p, nextNx, beyond, f, b) && k < |l.cache.info| && k != p % |l.cache.info|
    ensures |b.cache.info| == |l.cache.info| && b.cache.info[k] == l.cache.info[k]
  {
    hide Check, Finished, MarkChunks, ReadOff, Leaves, AtEnd, Prefetch;
  }

  lemma RoomKeeps<Op(!new)>(s: Cache<Op>)
    requires Coherent(s)
    ensures Coherent(MadeRoom(s))
    ensures MadeRoom(s).mem == s.mem && MadeRoom(s).dec == s.dec && MadeRoom(s).tags == s.tags
            && MadeRoom(s).smc == s.smc
    ensures |MadeRoom(s).info| == |s.info| && |MadeRoom(s).buf| == |s.buf|
  {
    FlushKeeps(s);
    hide Coherent;
  }

  lemma MissedKeeps<Op(!new)>(a: Machine<Op>, p: nat, nextNx: bool, beyond: seq<byte>, f: Fetch, b: Machine<Op>)
    requires Sound(a) && p < TARGET_ADDRESS_SPACE_SIZE && p < |a.cache.mem| && |beyond| >= PREFETCH
    requires Missed(a, p, nextNx, beyond, f, b)
    ensures Sound(b) && b.cache.mem == a.cache.mem && b.cache.dec == a.cache.dec
    ensures b.hash == a.hash && b.user == a.user && b.log == a.log
    ensures KeepsUserSlow(a.cache.tags, b.cache.tags)
  {
    if AtEnd(a.cache.dec, a.hash, a.cache.mem, p, PageLimit(p)) {
      SplitMissKeeps(a, p, nextNx, beyond, b);
      hide Missed, SplitTrace, Check, Coherent;
    } else {
      NewTraceKeeps(a.cache, b.cache, p, ContextOf(a));
      NewTraceKeepsRest(a.cache, b.cache, p, ContextOf(a));
      hide NewTrace, Coherent, AtEnd, UserSlow, WellLogged, TlbOk, Leaves;
    }
  }

  lemma NewTraceKeepsRest<Op(!new)>(s: Cache<Op>, t: Cache<Op>, p: nat, h: Context)
    requires NewTrace(s, t, p, h)
    ensures t.mem == s.mem && t.dec == s.dec && |t.tags| == |s.tags| && |t.buf| == |s.buf|
            && KeepsUserSlow(s.tags, t.tags)
  {
    var k := p % |s.info|;
    CommitKeepsUserSlow(s.(buf := t.buf), t.info[k], t.count[k], t.reach[k], h.left);
    hide Finished, UserSlow, MarkChunks;
  }

  lemma SplitMissKeeps<Op(!new)>(a: Machine<Op>, p: nat, nextNx: bool, beyond: seq<byte>, b: Machine<Op>)
    requires Sound(a) && p < TARGET_ADDRESS_SPACE_SIZE && p < |a.cache.mem| && |beyond| >= PREFETCH
    requires (p + PREFETCH) / PAGE < TLB_PAGES
    requires var l := WithTlb(a, Check(TlbOf(a), a.cache.smc, (p + PREFETCH) / PAGE, a.user, nextNx));
             SplitTrace(l.cache, b.cache, p, ContextOf(a), beyond) && b == l.(cache := b.cache, left := b.left)
    ensures Sound(b) && b.cache.mem == a.cache.mem && b.cache.dec == a.cache.dec
    ensures b.hash == a.hash && b.user == a.user && b.log == a.log
    ensures KeepsUserSlow(a.cache.tags, b.cache.tags)
  {
    CheckKeeps(a.cache, a.entries, (p + PREFETCH) / PAGE, a.user, nextNx);
    var l := WithTlb(a, Check(TlbOf(a), a.cache.smc, (p + PREFETCH) / PAGE, a.user, nextNx));
    hide Coherent, Check, UserSlow, WellLogged;
    SplitKeeps(l.cache, b.cache, p, ContextOf(a), beyond);
  }

  /** Every step keeps the invariant, and memory is what the events make of it. */
  lemma NextKeeps<Op(!new)>(a: Machine<Op>, e: Event, o: Outcome<Op>, b: Machine<Op>)
    requires Sound(a) && Next(a, e, o, b)
    ensures Sound(b) && b.cache.mem == Applied(a.cache.mem, e) && b.cache.dec == a.cache.dec
    ensures b.hash == if e.Switch? then e.hash else a.hash
  {
    match e
    case Write(addr, n, v) =>
      AfterWriteKeeps(a, addr, n, v);
      hide Sound, AfterWrite, Store;
    case Switch(h, user) =>
      hide Coherent, WellLogged;
    case Translate(page, write) =>
      MapKeeps(a.cache, a.entries, page, write, a.user);
      hide Coherent, WellLogged, Map;
    case Execute(p, nx, nextNx, beyond) =>
      FetchedKeeps(a, p, nx, nextNx, beyond, o.fetch, b);
      hide Sound, Fetched;
  }

  // --- What a fetch hands out ---

  /** The trace handed out from the table for address `p`: if the bitmap covers what its decoding looked at, or if
      it was decoded just now, its elements are what decoding memory gives at present, in the mode in force and
      under the override that was in force when it was decoded. One decoded just now is as long as it can be. */
  ghost predicate FromTable<Op(!new)>(a: Machine<Op>, p: nat, t: seq<Slot<Op>>, b: Machine<Op>)
    requires |b.cache.info| == |b.cache.reach| == |b.cache.left| > 0 && |a.cache.info| > 0
  {
    var k := p % |b.cache.info|;
    var i, r := b.cache.info[k], b.cache.reach[k];
    && i.phys == p && i.hash == a.hash && Live(i) && Runnable(t)
    && (!Matches(a.cache, p, a.hash) ==> b.cache.left[k] == a.left)
    && (Covered(i, r) || !Matches(a.cache, p, a.hash) ==>
          IsTrace(a.cache.dec, Context(a.hash, b.cache.left[k]), t, a.cache.mem, p, p + i.flags, r))
    && (!Matches(a.cache, p, a.hash) ==> Maximal(a.cache.dec, a.hash, t, a.cache.mem, p + i.flags, PageLimit(p)))
  }

  /** The page of `p` is known to hold the instruction there: sixteen bytes are left, or its counted length. */
  ghost predicate EndsOnPage<Op(!new)>(a: Machine<Op>, p: nat)
    requires p <= |a.cache.mem|
  {
    p + LONGEST <= PageLimit(p) || a.cache.dec.fits(a.cache.mem[p..], a.hash, PageLimit(p) - p)
  }

  /** The single instruction decoded from the copy of the next fifteen bytes: the present decoding, unless it needs
      a sixteenth. */
  ghost predicate FromCopy<Op(!new)>(a: Machine<Op>, p: nat, beyond: seq<byte>, t: seq<Slot<Op>>)
    requires p < |a.cache.mem| && |beyond| >= PREFETCH
  {
    var st := a.cache.dec.step(Prefetch(a.cache.mem, beyond, p), ContextOf(a));
    && t == (if st.last then [SlotOf(st)] else [SlotOf(st), TraceEnd])
    && (st.looked < LONGEST ==> a.cache.dec.step((a.cache.mem + beyond)[p..], ContextOf(a)) == st)
  }

  /** What the interpreter gets is right for memory as it is. */
  ghost predicate Fresh<Op(!new)>(a: Machine<Op>, e: Event, o: Outcome<Op>, b: Machine<Op>)
    requires Shape(a.cache) && Shape(b.cache) && InMemory(e, |a.cache.mem|)
  {
    match e
    case Execute(p, _, _, beyond) =>
      o.Handed? &&
      (match o.fetch
       case Fatal => NullTrace(a.cache, p, a.hash)
       case Trace(_, cached) =>
         && !NullTrace(a.cache, p, a.hash)
         && (if cached then FromTable(a, p, o.trace, b) else FromCopy(a, p, beyond, o.trace))
         && (!Matches(a.cache, p, a.hash) ==> (cached <==> EndsOnPage(a, p))))
    case _ => true
  }

  lemma HitIsFresh<Op(!new)>(a: Machine<Op>, p: nat, l: Machine<Op>, ptr: nat)
    requires Sound(a) && Sound(l) && p < TARGET_ADDRESS_SPACE_SIZE && Serves(l.cache, p, a.hash, ptr)
    requires l.cache == a.cache.(tags := l.cache.tags)
    ensures FromTable(a, p, ReadOff(l.cache.buf, ptr), l)
  {
    hide IsTrace, ReadOff, Covered, Runnable, WellLogged, TlbOk, SlotOk, Disjoint, Determined, Bounded;
    ServedIsFresh(l.cache, p, a.hash, ptr);
    LiveRuns(l.cache, p % |l.cache.info|);
  }

  lemma LiveRuns<Op(!new)>(s: Cache<Op>, k: nat)
    requires Coherent(s) && k < |s.info| && Live(s.info[k])
    ensures s.info[k].ptr.value + s.count[k] <= |s.buf| && Runnable(TraceOf(s, k))
  {
    assert SlotOk(s, k);
    hide IsTrace, Disjoint, Determined, Bounded, Marked;
  }

  lemma MissIsFresh<Op(!new)>(a: Machine<Op>, s: Cache<Op>, p: nat, b: Machine<Op>)
    requires Coherent(s) && p < TARGET_ADDRESS_SPACE_SIZE && |a.cache.info| > 0 && !Matches(a.cache, p, a.hash)
    requires NewTrace(s, b.cache, p, ContextOf(a)) && s.mem == a.cache.mem && s.dec == a.cache.dec
    ensures |b.cache.info| == |b.cache.reach| == |b.cache.left| > 0
    ensures FromTable(a, p, ReadOff(b.cache.buf, s.usage), b)
  {
    NewTraceKeeps(s, b.cache, p, ContextOf(a));
    NewTraceReads(s, b.cache, p, ContextOf(a));
    NewTraceIsMaximal(s, b.cache, p, ContextOf(a));
    hide Coherent, IsTrace, ReadOff, Covered, Runnable, Finished, MarkChunks, TidyCode, CleanCode;
  }

  lemma NewTraceReads<Op(!new)>(s: Cache<Op>, t: Cache<Op>, p: nat, h: Context)
    requires NewTrace(s, t, p, h)
    ensures var k := p % |t.info|;
            && IsTrace(s.dec, h, ReadOff(t.buf, s.usage), s.mem, p, p + t.info[k].flags, t.reach[k])
            && Runnable(ReadOff(t.buf, s.usage))
            && (Covered(t.info[k], t.reach[k]) <==> TidyCode(s.dec, h, s.mem, p, PageLimit(p)))
            && (CleanCode(s.dec, h, s.mem, p, PageLimit(p))
               ==> Leaves(s.dec, h, ReadOff(t.buf, s.usage), s.mem, p) == 0)
  {
    hide NewTrace, Finished, Maximal, IsTrace, ReadOff, Runnable, TidyCode, TraceEnds, CleanCode, Leaves, LooksTo,
         Inside;
    NewTraceIsFinished(s, t, p, h);
    var k := p % |s.info|;
    var n, r, length := t.count[k], t.reach[k], t.info[k].flags;
    FinishedReads(s.dec, h, t.buf, s.usage, n, s.mem, p, p + length, r);
    FinishedFits(s.dec, h, t.buf[s.usage..s.usage + n], s.mem, p, p + length, r);
    FinishedRuns(s.dec, h, t.buf[s.usage..s.usage + n], s.mem, p, p + length, r, PageLimit(p));
    FinishedLeaves(s.dec, h, t.buf[s.usage..s.usage + n], s.mem, p, p + length, r, PageLimit(p));
  }

  lemma FinishedLeaves<Op(!new)>(dec: Decoder<Op>, h: Context, t: seq<Slot<Op>>, m: seq<byte>, p: nat, rawp: nat,
                                 r: nat, limit: nat)
    requires Finished(dec, h, t, m, p, rawp, r, limit)
    ensures t != [] && Maximal(dec, h.hash, t, m, rawp, limit)
    ensures CleanCode(dec, h, m, p, limit) ==> Leaves(dec, h, t, m, p) == 0
  {
    hide Maximal, TidyCode, TraceEnds, CleanCode, Leaves, LooksTo, Inside;
  }

  lemma NewTraceIsMaximal<Op(!new)>(s: Cache<Op>, t: Cache<Op>, p: nat, h: Context)
    requires NewTrace(s, t, p, h)
    ensures 0 < |t.info| && ReadOff(t.buf, s.usage) != []
    ensures Maximal(s.dec, h.hash, ReadOff(t.buf, s.usage), s.mem, p + t.info[p % |t.info|].flags, PageLimit(p))
  {
    hide NewTrace, Finished, ReadOff, Maximal, TidyCode, TraceEnds, CleanCode, Leaves, LooksTo, Inside;
    NewTraceIsFinished(s, t, p, h);
    var k := p % |s.info|;
    FinishedReads(s.dec, h, t.buf, s.usage, t.count[k], s.mem, p, p + t.info[k].flags, t.reach[k]);
    FinishedLeaves(s.dec, h, t.buf[s.usage..s.usage + t.count[k]], s.mem, p, p + t.info[k].flags, t.reach[k],
                   PageLimit(p));
  }

  lemma NewTraceIsFinished<Op(!new)>(s: Cache<Op>, t: Cache<Op>, p: nat, h: Context)
    requires NewTrace(s, t, p, h)
    ensures 0 < |s.info| == |t.info| == |t.count| == |t.reach|
    ensures var k := p % |s.info|;
            && s.usage + t.count[k] <= |t.buf| && t.info[k].phys == p
            && Finished(s.dec, h, t.buf[s.usage..s.usage + t.count[k]], s.mem, p, p + t.info[k].flags, t.reach[k],
                        PageLimit(p))
  {
    hide Finished, MarkChunks;
  }

  /** The condition on the code is the exact one: if the bitmap had no mark, then after the trace is entered every
      write to a byte that its decoding looked at drops it if and only if the code is tidy. */
  lemma WatchedIffTidy<Op(!new)>(s: Cache<Op>, t: Cache<Op>, p: nat, h: Context)
    requires Coherent(s) && NewTrace(s, t, p, h) && p < TARGET_ADDRESS_SPACE_SIZE && !AnyMark(s.smc)
    requires t.reach[p % |t.info|] <= |t.mem|
    ensures Shape(t) && (forall a: nat | p <= a < t.reach[p % |t.info|] :: Drops(t, p % |t.info|, a))
            <==> TidyCode(s.dec, h, s.mem, p, PageLimit(p))
  {
    var k := p % |t.info|;
    var r := t.reach[k];
    NewTraceKeeps(s, t, p, h);
    NewTraceReads(s, t, p, h);
    NewTraceLooks(s, t, p, h);
    hide Finished, TidyCode, CleanCode, IsTrace, ReadOff, Runnable, Leaves, Coherent, Drops;
    CoherentParts(t);
    WatchedExactly(t, k);
    if (forall a: nat | p <= a < r :: Watched(t, k, a)) {
      assert Watched(t, k, r - 1);
      assert t.smc[(r - 1) / CHUNK];
    }
  }

  predicate AnyMark(smc: seq<bool>) {
    exists c: nat :: c < |smc| && smc[c]
  }

  lemma NewTraceLooks<Op(!new)>(s: Cache<Op>, t: Cache<Op>, p: nat, h: Context)
    requires NewTrace(s, t, p, h)
    ensures p < t.reach[p % |t.info|] && t.mem == s.mem
  {
    hide IsTrace, TidyCode, TraceEnds, CleanCode, Leaves, MarkChunks, LooksTo, Shape;
  }

  /** Every fetch of a sound state is fresh. */
  lemma FetchIsFresh<Op(!new)>(a: Machine<Op>, p: nat, nx: bool, nextNx: bool, beyond: seq<byte>, f: Fetch,
                               b: Machine<Op>)
    requires Sound(a) && Sound(b) && Shape(a.cache) && Shape(b.cache) && TlbOk(TlbOf(a))
    requires p < |a.cache.mem| && |beyond| >= PREFETCH && Fetched(a, p, nx, nextNx, beyond, f, b)
    ensures Fresh(a, Execute(p, nx, nextNx, beyond), Handed(f, Given(f, b.cache.buf)), b)
  {
    LocatedKeeps(a, p, nx);
    var l := Located(a, p, nx);
    assert Matches(l.cache, p, a.hash) == Matches(a.cache, p, a.hash);
    FatalExactly(a.cache, p, a.hash);
    if Matches(l.cache, p, a.hash) {
      if f.Trace? {
        HitIsFresh(a, p, l, f.ptr);
      }
      hide Sound, FromTable, Located;
    } else {
      RoomKeeps(l.cache);
      hide Coherent, Located, MadeRoom;
      MissOutcome(a, l.(cache := MadeRoom(l.cache)), p, nextNx, beyond, f, b);
    }
  }

  lemma MissOutcome<Op(!new)>(a: Machine<Op>, l: Machine<Op>, p: nat, nextNx: bool, beyond: seq<byte>, f: Fetch,
                              b: Machine<Op>)
    requires Coherent(l.cache) && |a.cache.info| > 0 && TlbOk(TlbOf(l)) && !Matches(a.cache, p, a.hash)
    requires p < TARGET_ADDRESS_SPACE_SIZE && p < |l.cache.mem| && |beyond| >= PREFETCH
    requires l.cache.mem == a.cache.mem && l.cache.dec == a.cache.dec && ContextOf(l) == ContextOf(a)
    requires Missed(l, p, nextNx, beyond, f, b)
    ensures f.Trace? && if f.cached then |b.cache.info| == |b.cache.reach| == |b.cache.left| > 0
                                         && FromTable(a, p, ReadOff(b.cache.buf, f.ptr), b)
                        else FromCopy(a, p, beyond, ReadOff(b.cache.buf, f.ptr))
    ensures f.cached <==> EndsOnPage(a, p)
  {
    if AtEnd(l.cache.dec, l.hash, l.cache.mem, p, PageLimit(p)) {
      CheckKeeps(l.cache, l.entries, (p + PREFETCH) / PAGE, l.user, nextNx);
      var c := WithTlb(l, Check(TlbOf(l), l.cache.smc, (p + PREFETCH) / PAGE, l.user, nextNx));
      CoherentDetermined(l.cache);
      hide Coherent, Check, ReadOff, Determined;
      SplitKeeps(c.cache, b.cache, p, ContextOf(l), beyond);
      SplitDecodes(l.cache.dec, l.cache.mem, beyond, p, ContextOf(l));
    } else {
      hide Coherent, NewTrace, FromTable, AtEnd, Leaves;
      MissIsFresh(a, l.cache, p, b);
    }
  }

  lemma FetchInBuffer<Op(!new)>(a: Machine<Op>, p: nat, nx: bool, nextNx: bool, beyond: seq<byte>, f: Fetch,
                                b: Machine<Op>)
    requires Sound(a) && p < TARGET_ADDRESS_SPACE_SIZE && p < |a.cache.mem| && |beyond| >= PREFETCH
             && |a.cache.info| > 0
    requires TlbOk(TlbOf(a)) && Fetched(a, p, nx, nextNx, beyond, f, b)
    ensures f.Trace? ==> f.ptr < |b.cache.buf|
  {
    FetchedKeeps(a, p, nx, nextNx, beyond, f, b);
    FetchIsFresh(a, p, nx, nextNx, beyond, f, b);
    hide Coherent, Fetched, IsTrace, Covered;
  }

  lemma CoherentDetermined<Op(!new)>(s: Cache<Op>)
    requires Coherent(s)
    ensures Determined(s.dec)
  {
  }

  // --- Leaving the loop ---

  lemma CodeIsSlow<Op(!new)>(s: Cache<Op>, user: bool, a: nat, n: nat, k: nat)
    requires Coherent(s) && k < |s.info| && Live(s.info[k]) && a < |s.mem| && Watched(s, k, a) && n in {1, 2, 4}
    ensures a / PAGE < |s.tags| && IsSlow(s.tags[a / PAGE], user, a, n)
  {
    assert SlotOk(s, k);
    PageInTlb(a);
    ValidTagIsUnmarked(s.tags[a / PAGE]);
    hide IsTrace, Runnable, Marked, Disjoint, Determined, Bounded, Covered;
  }

  lemma FirstByteDrops<Op(!new)>(s: Cache<Op>, k: nat, a: nat, data: seq<byte>)
    requires Coherent(s) && k < |s.info| && Live(s.info[k]) && Watched(s, k, a) && a + |data| <= |s.mem| && data != []
    requires s.info[k].phys <= a <= s.info[k].phys + s.info[k].flags
    ensures Asks(s, a) && !Live(SlowStore(s, a, data).info[k])
    ensures ByteAsks(s, a, data) && k < |ByteStores(s, a, data).info| && !Live(ByteStores(s, a, data).info[k])
  {
    WatchedAsks(s, k, a);
    CoherentParts(s);
    hide Coherent, Asks, Watched;
    var t := SlowStore(s, a, data[..1]);
    assert t.info[k].phys == INVALID_PHYS;
    ByteStoresOnlyDrops(t, a + 1, data[1..]);
    hide ClearChunks, KillAll;
    assert SameOrDead(t.info[k], ByteStores(t, a + 1, data[1..]).info[k]);
  }

  lemma WriteDrops<Op(!new)>(s: Cache<Op>, user: bool, a: nat, n: nat, v: nat, k: nat)
    requires Coherent(s) && k < |s.info| && Live(s.info[k]) && n in {1, 2, 4} && a + n <= |s.mem| && Watched(s, k, a)
    requires s.info[k].phys <= a <= s.info[k].phys + s.info[k].flags
    ensures a / PAGE < |s.tags|
    ensures var slow := IsSlow(s.tags[a / PAGE], user, a, n); var t := Written(s, slow, a, n, v);
            WriteAsks(s, slow, a, n, v) && k < |t.info| && !Live(t.info[k])
  {
    CodeIsSlow(s, user, a, n, k);
    WrittenSameShape(s, IsSlow(s.tags[a / PAGE], user, a, n), a, n, v);
    FirstByteDrops(s, k, a, LittleEndian(n, v));
    hide Coherent, IsSlow, SlowStore, ByteStores, Asks, ByteAsks, LittleEndian, Watched;
  }

  /** A write to a byte of a live trace, on its page and in a marked chunk, drops the trace and asks to leave the loop,
      in every mode and whatever its width and alignment: so that the trace, if it is running, does not go on. */
  lemma WrittenTraceExits<Op(!new)>(a: Machine<Op>, addr: nat, n: nat, v: nat, o: Outcome<Op>, b: Machine<Op>, k: nat)
    requires Sound(a) && Next(a, Write(addr, n, v), o, b) && k < |a.cache.info| && Live(a.cache.info[k])
    requires Watched(a.cache, k, addr) && a.cache.info[k].phys <= addr <= a.cache.info[k].phys + a.cache.info[k].flags
    ensures o == Stored(true) && k < |b.cache.info| && !Live(b.cache.info[k])
  {
    hide Coherent, IsSlow, Written, WriteAsks, Watched, Records, Live;
    WriteDrops(a.cache, a.user, addr, n, v, k);
  }

  // --- Traces that the bitmap covers, and traces decoded without a leftover override ---

  predicate EntryCovered<Op>(s: Cache<Op>, k: nat)
    requires k < |s.info| == |s.reach|
  {
    Live(s.info[k]) ==> Covered(s.info[k], s.reach[k])
  }

  predicate AllCovered<Op>(s: Cache<Op>) {
    |s.info| == |s.reach| && forall k: nat :: k < |s.info| ==> EntryCovered(s, k)
  }

  predicate EntryClean<Op>(s: Cache<Op>, k: nat)
    requires k < |s.info| == |s.left|
  {
    Live(s.info[k]) ==> s.left[k] == 0
  }

  predicate AllClean<Op>(s: Cache<Op>) {
    |s.info| == |s.left| && forall k: nat :: k < |s.info| ==> EntryClean(s, k)
  }

  /** The table of `t` is that of `s` with some entries dropped. */
  predicate OnlyDrops<Op>(s: Cache<Op>, t: Cache<Op>) {
    && t.reach == s.reach && t.left == s.left && |t.info| == |s.info|
    && forall k: nat :: k < |s.info| ==> SameOrDead(s.info[k], t.info[k])
  }

  predicate SameOrDead(i: TraceInfo, j: TraceInfo) { j == i || !Live(j) }

  lemma OnlyDropsKeeps<Op>(s: Cache<Op>, t: Cache<Op>)
    requires OnlyDrops(s, t)
    ensures AllCovered(s) ==> AllCovered(t)
    ensures AllClean(s) ==> AllClean(t)
  {
    if AllCovered(s) {
      forall k: nat | k < |t.info| ensures EntryCovered(t, k) {
        assert EntryCovered(s, k) && SameOrDead(s.info[k], t.info[k]);
      }
    }
    if AllClean(s) {
      forall k: nat | k < |t.info| ensures EntryClean(t, k) {
        assert EntryClean(s, k) && SameOrDead(s.info[k], t.info[k]);
      }
    }
  }

  lemma OnlyDropsTwice<Op>(s: Cache<Op>, t: Cache<Op>, u: Cache<Op>)
    requires OnlyDrops(s, t) && OnlyDrops(t, u)
    ensures OnlyDrops(s, u)
  {
    forall k: nat | k < |s.info| ensures SameOrDead(s.info[k], u.info[k]) {
      assert SameOrDead(s.info[k], t.info[k]) && SameOrDead(t.info[k], u.info[k]);
    }
  }

  lemma SlowStoreOnlyDrops<Op>(s: Cache<Op>, a: nat, data: seq<byte>)
    requires Shape(s) && a + |data| <= |s.mem| && a < |s.mem|
    ensures OnlyDrops(s, SlowStore(s, a, data))
  {
  }

  lemma {:induction false} ByteStoresOnlyDrops<Op>(s: Cache<Op>, a: nat, data: seq<byte>)
    requires Shape(s) && a + |data| <= |s.mem|
    ensures OnlyDrops(s, ByteStores(s, a, data))
    decreases |data|
  {
    if data != [] {
      var t := SlowStore(s, a, data[..1]);
      SlowStoreOnlyDrops(s, a, data[..1]);
      ByteStoresOnlyDrops(t, a + 1, data[1..]);
      OnlyDropsTwice(s, t, ByteStores(t, a + 1, data[1..]));
    }
  }

  /** A guest write only ever drops entries. */
  lemma WrittenOnlyDrops<Op>(s: Cache<Op>, slow: bool, a: nat, n: nat, v: nat)
    requires Shape(s) && 0 < n && a + n <= |s.mem|
    ensures OnlyDrops(s, Written(s, slow, a, n, v))
  {
    SlowStoreOnlyDrops(s, a, LittleEndian(n, v));
    ByteStoresOnlyDrops(s, a, LittleEndian(n, v));
    hide SlowStore, ByteStores, Store, Shape;
  }

  lemma RoomOnlyDrops<Op>(s: Cache<Op>)
    ensures OnlyDrops(s, MadeRoom(s))
  {
  }

  lemma SameTableOnlyDrops<Op>(s: Cache<Op>, t: Cache<Op>)
    requires t.info == s.info && t.reach == s.reach && t.left == s.left
    ensures OnlyDrops(s, t)
  {
  }

  /** The table of `t` is that of `s` with some entries dropped and one for `p` entered. */
  lemma NewEntry<Op(!new)>(s: Cache<Op>, t: Cache<Op>, p: nat, h: Context)
    requires NewTrace(s, t, p, h) && p < TARGET_ADDRESS_SPACE_SIZE
    ensures AllCovered(s) ==> (AllCovered(t) <==> TidyCode(s.dec, h, s.mem, p, PageLimit(p)))
    ensures h.left == 0 && AllClean(s) ==> AllClean(t)
  {
    NewTraceReads(s, t, p, h);
    hide Finished, TidyCode, Covered, IsTrace, ReadOff, Runnable, Leaves, MarkChunks;
    assert EntryCovered(t, p % |t.info|) <==> TidyCode(s.dec, h, s.mem, p, PageLimit(p));
    if TidyCode(s.dec, h, s.mem, p, PageLimit(p)) && AllCovered(s) {
      forall k: nat | k < |t.info| ensures EntryCovered(t, k) {
        assert EntryCovered(s, k);
      }
    }
    if h.left == 0 && AllClean(s) {
      forall k: nat | k < |t.info| ensures EntryClean(t, k) {
        assert EntryClean(s, k);
      }
    }
  }

  predicate Missing<Op>(a: Machine<Op>, e: Event) {
    e.Execute? && |a.cache.info| > 0 && !Matches(a.cache, e.addr, a.hash)
  }

  /** If the event makes the cache decode, then what it decodes is tidy. */
  ghost predicate MeetsTidy<Op(!new)>(a: Machine<Op>, e: Event) {
    Missing(a, e) ==> TidyCode(a.cache.dec, ContextOf(a), a.cache.mem, e.addr, PageLimit(e.addr))
  }

  /** If the event makes the cache decode, then no decoded instruction leaves a segment override in force. */
  ghost predicate MeetsClean<Op(!new)>(a: Machine<Op>, e: Event)
    requires InMemory(e, |a.cache.mem|)
  {
    Missing(a, e) ==>
      && CleanCode(a.cache.dec, ContextOf(a), a.cache.mem, e.addr, PageLimit(e.addr))
      && (AtEnd(a.cache.dec, a.hash, a.cache.mem, e.addr, PageLimit(e.addr)) ==>
            a.cache.dec.step(Prefetch(a.cache.mem, e.beyond, e.addr), ContextOf(a)).left == 0)
  }

  lemma SplitIsTidy<Op(!new)>(dec: Decoder<Op>, h: Context, m: seq<byte>, p: nat, limit: nat)
    requires AtEnd(dec, h.hash, m, p, limit)
    ensures TidyCode(dec, h, m, p, limit)
  {
    hide TraceEnds, AtEnd;
  }

  lemma MissedTable<Op(!new)>(l: Machine<Op>, p: nat, nextNx: bool, beyond: seq<byte>, f: Fetch, b: Machine<Op>)
    requires TlbOk(TlbOf(l)) && p < TARGET_ADDRESS_SPACE_SIZE && p < |l.cache.mem| && |beyond| >= PREFETCH
    requires Missed(l, p, nextNx, beyond, f, b)
    ensures AllCovered(l.cache) ==>
              (AllCovered(b.cache) <==> TidyCode(l.cache.dec, ContextOf(l), l.cache.mem, p, PageLimit(p)))
    ensures l.left == 0 && AllClean(l.cache) ==> AllClean(b.cache)
    ensures CleanCode(l.cache.dec, ContextOf(l), l.cache.mem, p, PageLimit(p))
            && (AtEnd(l.cache.dec, l.hash, l.cache.mem, p, PageLimit(p)) ==>
                  l.cache.dec.step(Prefetch(l.cache.mem, beyond, p), ContextOf(l)).left == 0)
            ==> b.left == 0
  {
    hide TidyCode, CleanCode, Check, AllCovered, AllClean, Leaves, ReadOff;
    if AtEnd(l.cache.dec, l.hash, l.cache.mem, p, PageLimit(p)) {
      SplitIsTidy(l.cache.dec, ContextOf(l), l.cache.mem, p, PageLimit(p));
      SameTableOnlyDrops(l.cache, b.cache);
      OnlyDropsKeeps(l.cache, b.cache);
    } else {
      NewEntry(l.cache, b.cache, p, ContextOf(l));
      NewTraceReads(l.cache, b.cache, p, ContextOf(l));
    }
  }

  lemma FetchedTable<Op(!new)>(a: Machine<Op>, e: Event, f: Fetch, b: Machine<Op>)
    requires Sound(a) && e.Execute? && InMemory(e, |a.cache.mem|) && Ready(a)
    requires Fetched(a, e.addr, e.nx, e.nextNx, e.beyond, f, b)
    ensures AllCovered(a.cache) ==> (AllCovered(b.cache) <==> MeetsTidy(a, e))
    ensures MeetsClean(a, e) && a.left == 0 && AllClean(a.cache) ==> b.left == 0 && AllClean(b.cache)
  {
    var p := e.addr;
    var l := Located(a, p, e.nx);
    LocatedKeeps(a, p, e.nx);
    SameTableOnlyDrops(a.cache, l.cache);
    OnlyDropsKeeps(a.cache, l.cache);
    RoomOnlyDrops(l.cache);
    OnlyDropsKeeps(l.cache, MadeRoom(l.cache));
    RoomKeeps(l.cache);
    hide Sound, Located, AllCovered, AllClean, TidyCode, CleanCode, AtEnd, Prefetch, MadeRoom, Missed;
    if !Matches(l.cache, p, a.hash) {
      MissedTable(l.(cache := MadeRoom(l.cache)), p, e.nextNx, e.beyond, f, b);
    }
  }

  /** Exactly tidy code keeps every entry covered, and clean code every entry clean, whatever is written. */
  lemma NextTable<Op(!new)>(a: Machine<Op>, e: Event, o: Outcome<Op>, b: Machine<Op>)
    requires Sound(a) && Next(a, e, o, b)
    ensures AllCovered(a.cache) ==> (AllCovered(b.cache) <==> MeetsTidy(a, e))
    ensures MeetsClean(a, e) && a.left == 0 && AllClean(a.cache) ==> b.left == 0 && AllClean(b.cache)
  {
    match e
    case Write(addr, n, v) =>
      PageInTlb(addr);
      WrittenOnlyDrops(a.cache, IsSlow(a.cache.tags[addr / PAGE], a.user, addr, n), addr, n, v);
      OnlyDropsKeeps(a.cache, b.cache);
      hide Sound, Written, AllCovered, AllClean, Records, IsSlow;
    case Switch(_, _) =>
    case Translate(page, write) =>
      SameTableOnlyDrops(a.cache, b.cache);
      OnlyDropsKeeps(a.cache, b.cache);
      hide Sound, Map, AllCovered, AllClean;
    case Execute(_, _, _, _) =>
      FetchedTable(a, e, o.fetch, b);
      hide Sound, Fetched, AllCovered, AllClean, MeetsTidy, MeetsClean;
  }

  // --- Runs ---

  ghost predicate StepAt<Op(!new)>(states: seq<Machine<Op>>, events: seq<Event>, outcomes: seq<Outcome<Op>>, i: nat)
    requires i < |events| == |outcomes| && |states| == |events| + 1
  {
    Next(states[i], events[i], outcomes[i], states[i + 1])
  }

  /** The events take a sound state through `states`, handing out `outcomes`. */
  ghost predicate Run<Op(!new)>(states: seq<Machine<Op>>, events: seq<Event>, outcomes: seq<Outcome<Op>>) {
    && |events| == |outcomes| && |states| == |events| + 1 && Sound(states[0])
    && AllInMemory(events, |states[0].cache.mem|)
    && forall i: nat :: i < |events| ==> StepAt(states, events, outcomes, i)
  }

  /** The decoding mode after a run. */
  function ModeAfter(h: nat, events: seq<Event>): nat
    decreases |events|
  {
    if events == [] then h
    else
      match events[|events| - 1]
      case Switch(h', _) => h'
      case _ => ModeAfter(h, events[..|events| - 1])
  }

  /** Every state of a run is sound, and its memory and mode are what the events so far make of them. */
  lemma {:induction false} RunIsSound<Op(!new)>(states: seq<Machine<Op>>, events: seq<Event>,
                                                outcomes: seq<Outcome<Op>>, i: nat)
    requires Run(states, events, outcomes) && i <= |events|
    ensures Sound(states[i]) && states[i].cache.dec == states[0].cache.dec
    ensures states[i].cache.mem == MemoryAfter(states[0].cache.mem, events[..i])
    ensures states[i].hash == ModeAfter(states[0].hash, events[..i])
    decreases i
  {
    if i > 0 {
      RunIsSound(states, events, outcomes, i - 1);
      assert StepAt(states, events, outcomes, i - 1);
      assert events[..i][..i - 1] == events[..i - 1];
      hide Sound, Next, Applied;
      NextKeeps(states[i - 1], events[i - 1], outcomes[i - 1], states[i]);
    }
  }

  ghost predicate FreshAt<Op(!new)>(states: seq<Machine<Op>>, events: seq<Event>, outcomes: seq<Outcome<Op>>, i: nat)
    requires i < |events| == |outcomes| && |states| == |events| + 1
  {
    && Shape(states[i].cache) && Shape(states[i + 1].cache) && InMemory(events[i], |states[i].cache.mem|)
    && Fresh(states[i], events[i], outcomes[i], states[i + 1])
  }

  /** Over any run, every fetch hands out what is right for memory as it is at that moment. */
  lemma RunIsFresh<Op(!new)>(states: seq<Machine<Op>>, events: seq<Event>, outcomes: seq<Outcome<Op>>, i: nat)
    requires Run(states, events, outcomes) && i < |events|
    ensures FreshAt(states, events, outcomes, i)
  {
    RunIsSound(states, events, outcomes, i);
    RunIsSound(states, events, outcomes, i + 1);
    assert StepAt(states, events, outcomes, i);
    hide Coherent, Fetched, FromTable, FromCopy, MemoryAfter, ModeAfter, Run;
    match events[i]
    case Execute(p, nx, nextNx, beyond) =>
      FetchIsFresh(states[i], p, nx, nextNx, beyond, outcomes[i].fetch, states[i + 1]);
    case _ =>
  }

  /** Each decoding of the run is of tidy code. */
  ghost predicate TidyRun<Op(!new)>(states: seq<Machine<Op>>, events: seq<Event>) {
    |states| == |events| + 1 && forall i: nat :: i < |events| ==> MeetsTidy(states[i], events[i])
  }

  ghost predicate CleanRun<Op(!new)>(states: seq<Machine<Op>>, events: seq<Event>) {
    |states| == |events| + 1 && states[0].left == 0 &&
    forall i: nat :: i < |events| ==> InMemory(events[i], |states[i].cache.mem|) && MeetsClean(states[i], events[i])
  }

  lemma {:induction false} RunTable<Op(!new)>(states: seq<Machine<Op>>, events: seq<Event>,
                                              outcomes: seq<Outcome<Op>>, i: nat)
    requires Run(states, events, outcomes) && i <= |events|
    ensures TidyRun(states, events) && AllCovered(states[0].cache) ==> AllCovered(states[i].cache)
    ensures CleanRun(states, events) && AllClean(states[0].cache) ==> states[i].left == 0 && AllClean(states[i].cache)
    decreases i
  {
    if i > 0 {
      RunTable(states, events, outcomes, i - 1);
      RunIsSound(states, events, outcomes, i - 1);
      assert StepAt(states, events, outcomes, i - 1);
      hide Sound, Next, AllCovered, AllClean, MeetsTidy, MeetsClean, InMemory, MemoryAfter, ModeAfter;
      NextTable(states[i - 1], events[i - 1], outcomes[i - 1], states[i]);
    }
  }

  /** A run that begins with covered entries keeps them covered exactly as long as what it decodes is tidy. */
  lemma CoveredExactly<Op(!new)>(states: seq<Machine<Op>>, events: seq<Event>, outcomes: seq<Outcome<Op>>)
    requires Run(states, events, outcomes) && AllCovered(states[0].cache)
    ensures TidyRun(states, events) <==> forall i: nat :: i <= |events| ==> AllCovered(states[i].cache)
  {
    if TidyRun(states, events) {
      forall i: nat | i <= |events| ensures AllCovered(states[i].cache) {
        RunTable(states, events, outcomes, i);
      }
    }
    if forall i: nat :: i <= |events| ==> AllCovered(states[i].cache) {
      forall i: nat | i < |events| ensures MeetsTidy(states[i], events[i]) {
        RunIsSound(states, events, outcomes, i);
        assert StepAt(states, events, outcomes, i);
        assert AllCovered(states[i].cache) && AllCovered(states[i + 1].cache);
        hide Sound, Next, AllCovered, AllClean, MeetsTidy, MeetsClean, MemoryAfter, ModeAfter, Run;
        NextTable(states[i], events[i], outcomes[i], states[i + 1]);
      }
    }
  }

  /** What a fetch from the table hands out is the decoding of memory as it is, in context `h`, of one instruction
      at least. */
  ghost predicate Exact<Op(!new)>(a: Machine<Op>, e: Event, o: Outcome<Op>, h: Context) {
    e.Execute? && o.Handed? && o.fetch.Trace? && o.fetch.cached ==>
      Runnable(o.trace) && exists end: nat, r: nat :: IsTrace(a.cache.dec, h, o.trace, a.cache.mem, e.addr, end, r)
  }

  /** The context in which the trace handed out by event `i` was decoded. */
  ghost function DecodedIn<Op>(states: seq<Machine<Op>>, events: seq<Event>, i: nat): Context
    requires i < |events| && |states| == |events| + 1
  {
    var s := states[i + 1].cache;
    if events[i].Execute? && 0 < |s.info| == |s.left| then Context(states[i].hash, s.left[events[i].addr % |s.info|])
    else ContextOf(states[i])
  }

  /** Where every entry is covered, a fetch from the table hands out the present decoding. */
  lemma FreshIsExact<Op(!new)>(states: seq<Machine<Op>>, events: seq<Event>, outcomes: seq<Outcome<Op>>, i: nat)
    requires Run(states, events, outcomes) && i < |events| && AllCovered(states[i + 1].cache)
    ensures Exact(states[i], events[i], outcomes[i], DecodedIn(states, events, i))
    ensures AllClean(states[i + 1].cache) ==> Exact(states[i], events[i], outcomes[i], Context(states[i].hash, 0))
  {
    RunIsFresh(states, events, outcomes, i);
    hide Run, IsTrace, Covered, Shape, FromCopy, Runnable, NullTrace;
    var e, o, b := events[i], outcomes[i], states[i + 1];
    if e.Execute? && o.Handed? && o.fetch.Trace? && o.fetch.cached {
      assert EntryCovered(b.cache, e.addr % |b.cache.info|);
      if AllClean(b.cache) {
        assert EntryClean(b.cache, e.addr % |b.cache.info|);
      }
    }
  }

  /** In a run over tidy code every trace from the table is the decoding of memory as it is, under the override in
      force when it was decoded; over clean code that is none, and the decoding is a function of the bytes and the
      mode. */
  lemma TidyRunIsExact<Op(!new)>(states: seq<Machine<Op>>, events: seq<Event>, outcomes: seq<Outcome<Op>>, i: nat)
    requires Run(states, events, outcomes) && i < |events|
    requires TidyRun(states, events) && AllCovered(states[0].cache)
    ensures Exact(states[i], events[i], outcomes[i], DecodedIn(states, events, i))
    ensures CleanRun(states, events) && AllClean(states[0].cache) ==>
              Exact(states[i], events[i], outcomes[i], Context(states[i].hash, 0))
  {
    RunTable(states, events, outcomes, i + 1);
    hide Run, TidyRun, CleanRun, AllCovered, AllClean, Exact, DecodedIn;
    FreshIsExact(states, events, outcomes, i);
  }
}
