/** The state shared by the trace cache and the guest's writes, its coherence invariant, and what
    every transition keeps. The class in TraceCache.dfy performs these transitions in place. */
module CacheState {
  import opened GuestMemory
  import opened Traces

  const CHUNKS_PER_PAGE := 32
  const INVALID_PHYS := 0xFFFF_FFFF
  const TLB_PAGES := 0x10_0000
  const TARGET_ADDRESS_SPACE_SIZE := 0x8000_0000

  /** struct trace_info; `flags` is the byte length of the trace, `ptr` an index into the buffer. */
  datatype TraceInfo = TraceInfo(phys: nat, hash: nat, ptr: Option<nat>, flags: nat)

  /** What cpu_trace_flush leaves in every entry. */
  const FLUSHED := TraceInfo(0, 0, None, 0)

  predicate Live(i: TraceInfo) {
    i.ptr.Some? && i.phys != INVALID_PHYS
  }

  /** `count`, `reach` and `left` record, per table entry, how many buffer elements its trace has, the first
      address its decoding did not look at, and the segment override in force when decoding began. */
  datatype Cache<!Op> = Cache(dec: Decoder<Op>, mem: seq<byte>, smc: seq<bool>, info: seq<TraceInfo>,
                              buf: seq<Slot<Op>>, usage: nat, tags: seq<bv8>, count: seq<nat>, reach: seq<nat>,
                              left: seq<nat>)

  predicate HasCode(smc: seq<bool>, a: nat) {
    a / CHUNK < |smc| && smc[a / CHUNK]
  }

  /** Everything the decoder looked at lies in the trace's page, in chunks that set_smc marked. */
  predicate Covered(i: TraceInfo, reach: nat) {
    i.phys < reach && (reach - 1) / CHUNK <= (i.phys + i.flags) / CHUNK && (reach - 1) / PAGE == i.phys / PAGE
  }

  predicate Marked(smc: seq<bool>, i: TraceInfo) {
    forall c: nat | i.phys / CHUNK <= c <= (i.phys + i.flags) / CHUNK && c / CHUNKS_PER_PAGE == i.phys / PAGE ::
      c < |smc| && smc[c]
  }

  predicate Shape<Op>(s: Cache<Op>) {
    && 0 < |s.smc| && |s.smc| % CHUNKS_PER_PAGE == 0
    && |s.mem| == CHUNK * |s.smc| <= TARGET_ADDRESS_SPACE_SIZE
    && 0 < |s.info| == |s.count| == |s.reach| == |s.left|
    && s.usage <= |s.buf|
    && |s.tags| == TLB_PAGES
  }

  /** The buffer slice of entry `k`. */
  function TraceOf<Op>(s: Cache<Op>, k: nat): seq<Slot<Op>>
    requires k < |s.info| == |s.count| && s.info[k].ptr.Some? && s.info[k].ptr.value + s.count[k] <= |s.buf|
  {
    s.buf[s.info[k].ptr.value..s.info[k].ptr.value + s.count[k]]
  }

  ghost predicate SlotOk<Op(!new)>(s: Cache<Op>, k: nat)
    requires Shape(s) && k < |s.info|
  {
    && (s.info[k].ptr.None? ==> s.info[k].hash == 0 && s.info[k].phys in {0, INVALID_PHYS})
    && (Live(s.info[k]) ==> LiveOk(s, k))
  }

  ghost predicate LiveOk<Op(!new)>(s: Cache<Op>, k: nat)
    requires Shape(s) && k < |s.info| && Live(s.info[k])
  {
    var i := s.info[k];
    && i.phys < |s.mem|
    && i.phys % |s.info| == k && i.flags < LENGTH_RANGE
    && i.ptr.value + s.count[k] <= s.usage
    && Marked(s.smc, i)
    && s.tags[i.phys / PAGE] & 0x44 == 0x44
    && Runnable(TraceOf(s, k))
    && (Covered(i, s.reach[k]) ==>
          IsTrace(s.dec, Context(i.hash, s.left[k]), TraceOf(s, k), s.mem, i.phys, i.phys + i.flags, s.reach[k]))
  }

  predicate Apart<Op>(s: Cache<Op>, j: nat, k: nat)
    requires Shape(s) && j < |s.info| && k < |s.info|
  {
    Live(s.info[j]) && Live(s.info[k]) && j != k ==>
      || s.info[j].ptr.value + s.count[j] <= s.info[k].ptr.value
      || s.info[k].ptr.value + s.count[k] <= s.info[j].ptr.value
  }

  predicate Disjoint<Op>(s: Cache<Op>)
    requires Shape(s)
  {
    forall j: nat, k: nat | j < |s.info| && k < |s.info| :: Apart(s, j, k)
  }

  /** The invariant: every live entry describes a trace that is still the decoding of memory. */
  ghost predicate Coherent<Op(!new)>(s: Cache<Op>) {
    && Shape(s)
    && Determined(s.dec)
    && Bounded(s.dec)
    && Disjoint(s)
    && forall k: nat | k < |s.info| :: SlotOk(s, k)
  }

  // --- Stores ---

  /** No live, covered trace looked at a byte of chunk `c`. */
  predicate Unlooked<Op>(s: Cache<Op>, c: nat)
    requires Shape(s)
  {
    forall k: nat | k < |s.info| :: UnlookedBy(s, c, k)
  }

  predicate UnlookedBy<Op>(s: Cache<Op>, c: nat, k: nat)
    requires Shape(s) && k < |s.info|
  {
    Live(s.info[k]) && Covered(s.info[k], s.reach[k]) ==>
      c < s.info[k].phys / CHUNK || (s.reach[k] - 1) / CHUNK < c
  }

  lemma SamePageBound(x: nat, y: nat, pages: nat)
    requires x / PAGE == y / PAGE && y < PAGE * pages
    ensures x < PAGE * pages
  {
    assert y / PAGE < pages;
  }

  lemma CoveredReach<Op>(s: Cache<Op>, k: nat)
    requires Shape(s) && k < |s.info| && s.info[k].phys < |s.mem| && Covered(s.info[k], s.reach[k])
    ensures s.reach[k] <= |s.mem|
  {
    SamePageBound(s.reach[k] - 1, s.info[k].phys, |s.smc| / CHUNKS_PER_PAGE);
  }

  lemma StoreElsewhere(m: seq<byte>, a: nat, data: seq<byte>, p: nat, r: nat)
    requires a + |data| <= |m| && |data| > 0 && p < r <= |m|
    requires (a + |data| - 1) / CHUNK < p / CHUNK || (r - 1) / CHUNK < a / CHUNK
    ensures m[p..r] == Store(m, a, data)[p..r]
  {
    var n := Store(m, a, data);
    forall j | p <= j < r ensures n[j] == m[j] {
      assert j < a || a + |data| <= j;
    }
  }

  lemma StoreKeepsSlot<Op(!new)>(s: Cache<Op>, a: nat, data: seq<byte>, k: nat)
    requires Coherent(s) && k < |s.info|
    requires a + |data| <= |s.mem| && |data| > 0 && a / CHUNK == (a + |data| - 1) / CHUNK
    requires UnlookedBy(s, a / CHUNK, k)
    ensures SlotOk(s.(mem := Store(s.mem, a, data)), k)
  {
    hide Store, IsTrace, Marked, Disjoint, Covered, Runnable;
    assert SlotOk(s, k);
    if Live(s.info[k]) && Covered(s.info[k], s.reach[k]) {
      StoreKeepsTrace(s, a, data, k);
    }
  }

  lemma StoreKeepsTrace<Op(!new)>(s: Cache<Op>, a: nat, data: seq<byte>, k: nat)
    requires Shape(s) && Determined(s.dec) && k < |s.info| && Live(s.info[k]) && LiveOk(s, k)
             && Covered(s.info[k], s.reach[k])
    requires a + |data| <= |s.mem| && |data| > 0 && a / CHUNK == (a + |data| - 1) / CHUNK
    requires UnlookedBy(s, a / CHUNK, k)
    ensures var i, r := s.info[k], s.reach[k];
            IsTrace(s.dec, Context(i.hash, s.left[k]), TraceOf(s, k), Store(s.mem, a, data), i.phys,
                i.phys + i.flags, r)
  {
    var i, r := s.info[k], s.reach[k];
    var n := Store(s.mem, a, data);
    CoveredReach(s, k);
    StoreElsewhere(s.mem, a, data, i.phys, r);
    hide Store, IsTrace, Marked, Determined, Runnable;
    TraceIsStable(s.dec, Context(i.hash, s.left[k]), TraceOf(s, k), s.mem, n, i.phys, i.phys, i.phys + i.flags, r);
  }

  /** A store into a chunk nobody looked at keeps the cache coherent. */
  lemma StoreKeeps<Op(!new)>(s: Cache<Op>, a: nat, data: seq<byte>)
    requires Coherent(s)
    requires a + |data| <= |s.mem| && |data| > 0 && a / CHUNK == (a + |data| - 1) / CHUNK
    requires Unlooked(s, a / CHUNK)
    ensures Coherent(s.(mem := Store(s.mem, a, data)))
  {
    var s' := s.(mem := Store(s.mem, a, data));
    forall k: nat | k < |s.info| ensures SlotOk(s', k) {
      assert UnlookedBy(s, a / CHUNK, k);
      StoreKeepsSlot(s, a, data, k);
    }
    forall j: nat, k: nat | j < |s.info| && k < |s.info| ensures Apart(s', j, k) {
      assert Apart(s, j, k);
    }
  }

  lemma SamePage(i: TraceInfo, r: nat, c: nat)
    ensures Covered(i, r) && i.phys / CHUNK <= c <= (r - 1) / CHUNK ==> c / CHUNKS_PER_PAGE == i.phys / PAGE
  {
  }

  /** A chunk without its bit was looked at by no live trace. */
  lemma NoCodeUnlooked<Op(!new)>(s: Cache<Op>, a: nat)
    requires Coherent(s) && a < |s.mem| && !HasCode(s.smc, a)
    ensures Unlooked(s, a / CHUNK)
  {
    forall k: nat | k < |s.info| ensures UnlookedBy(s, a / CHUNK, k) {
      assert SlotOk(s, k);
      var i, r, c := s.info[k], s.reach[k], a / CHUNK;
      SamePage(i, r, c);
    }
  }

  /** A page whose write TLB entry is valid for some privilege level holds no live trace. */
  lemma FastPathUnlooked<Op(!new)>(s: Cache<Op>, a: nat)
    requires Coherent(s) && a < |s.mem| && s.tags[a / PAGE] & 0x44 != 0x44
    ensures Unlooked(s, a / CHUNK)
  {
    forall k: nat | k < |s.info| ensures UnlookedBy(s, a / CHUNK, k) {
      assert SlotOk(s, k);
      var i, r, c := s.info[k], s.reach[k], a / CHUNK;
      SamePage(i, r, c);
      assert a / PAGE == c / CHUNKS_PER_PAGE;
    }
  }

  // --- Invalidation ---

  /** Whether cpu_smc_invalidate for address `a` drops entry `k`. */
  predicate Kills(smc: seq<bool>, info: seq<TraceInfo>, a: nat, k: nat)
    requires k < |info|
  {
    var i := info[k];
    && i.phys / PAGE == a / PAGE
    && i.phys / CHUNK <= a / CHUNK
    && HasCode(smc, i.phys)
    && i.phys % |info| == k
  }

  function KillAll(smc: seq<bool>, info: seq<TraceInfo>, a: nat): (r: seq<TraceInfo>)
  {
    seq(|info|, k requires 0 <= k < |info| =>
      if Kills(smc, info, a, k) then info[k].(phys := INVALID_PHYS) else info[k])
  }

  /** The same set of entries, address by address, as the loops of cpu_smc_invalidate visit them. */
  predicate KilledBetween(smc: seq<bool>, info: seq<TraceInfo>, lo: nat, hi: nat, k: nat)
    requires k < |info|
  {
    lo <= info[k].phys < hi && HasCode(smc, info[k].phys) && info[k].phys % |info| == k
  }

  function KillBetween(smc: seq<bool>, info: seq<TraceInfo>, lo: nat, hi: nat): (r: seq<TraceInfo>)
    ensures |r| == |info|
  {
    seq(|info|, k requires 0 <= k < |info| =>
      if KilledBetween(smc, info, lo, hi, k) then info[k].(phys := INVALID_PHYS) else info[k])
  }

  /** The test for a dropped trace that contains the written byte; TRACE_LENGTH keeps ten bits. */
  predicate Hits(i: TraceInfo, phys: nat) {
    i.phys <= phys <= i.phys + i.flags % LENGTH_RANGE
  }

  predicate RunningBetween(smc: seq<bool>, info: seq<TraceInfo>, lo: nat, hi: nat, phys: nat) {
    exists k: nat | k < |info| :: KilledBetween(smc, info, lo, hi, k) && Hits(info[k], phys)
  }

  /** Some dropped trace contains the written byte. */
  predicate RunningTraceHit(smc: seq<bool>, info: seq<TraceInfo>, phys: nat) {
    exists k: nat | k < |info| :: Kills(smc, info, phys, k) && Hits(info[k], phys)
  }

  /** The entry was in use before, and is marked invalid afterwards. */
  predicate Forgotten(before: TraceInfo, after: TraceInfo) {
    before.phys != INVALID_PHYS && after.phys == INVALID_PHYS
  }

  /** An entry that was forgotten held the byte at `a`, by its recorded length. */
  predicate ForgotHolding(before: seq<TraceInfo>, after: seq<TraceInfo>, a: nat)
    requires |after| == |before|
  {
    exists k: nat | k < |before| ::
      Forgotten(before[k], after[k]) && before[k].phys <= a <= before[k].phys + before[k].flags % 0x400
  }

  /** The exit is asked for exactly if a trace forgotten on this occasion held the written byte. */
  lemma ExitMeans(smc: seq<bool>, info: seq<TraceInfo>, a: nat)
    requires |smc| * CHUNK <= TARGET_ADDRESS_SPACE_SIZE
    ensures RunningTraceHit(smc, info, a) <==> ForgotHolding(info, KillAll(smc, info, a), a)
  {
    forall k: nat | k < |info| ensures Kills(smc, info, a, k) <==> Forgotten(info[k], KillAll(smc, info, a)[k]) {
    }
  }

  predicate AnyCode(smc: seq<bool>, lo: nat, hi: nat)
    requires hi < |smc|
  {
    exists c | lo <= c <= hi :: smc[c]
  }

  /** A write into a chunk with code never takes the early exit. */
  lemma CodeIsCode(smc: seq<bool>, a: nat)
    requires HasCode(smc, a)
    ensures a / PAGE * CHUNKS_PER_PAGE + a / CHUNK % CHUNKS_PER_PAGE == a / CHUNK
    ensures AnyCode(smc, a / PAGE * CHUNKS_PER_PAGE, a / CHUNK)
  {
    assert a / PAGE == a / CHUNK / CHUNKS_PER_PAGE;
  }

  lemma KillStep(smc: seq<bool>, info: seq<TraceInfo>, lo: nat, q: nat, phys: nat)
    requires |info| > 0 && lo <= q && HasCode(smc, q) && q != INVALID_PHYS
    ensures var k := q % |info|;
            var before := KillBetween(smc, info, lo, q);
            && KillBetween(smc, info, lo, q + 1) ==
                 (if before[k].phys == q then before[k := before[k].(phys := INVALID_PHYS)] else before)
            && (before[k].phys == q ==> before[k] == info[k])
            && (RunningBetween(smc, info, lo, q + 1, phys) <==>
                  RunningBetween(smc, info, lo, q, phys) || (before[k].phys == q && Hits(info[k], phys)))
  {
    var k := q % |info|;
    assert forall j: nat | j < |info| && j != k ::
             KilledBetween(smc, info, lo, q + 1, j) <==> KilledBetween(smc, info, lo, q, j);
    assert KilledBetween(smc, info, lo, q + 1, k) <==> KilledBetween(smc, info, lo, q, k) || info[k].phys == q;
  }

  lemma NothingToKill(smc: seq<bool>, info: seq<TraceInfo>, lo: nat, q: nat, phys: nat)
    requires q % CHUNK == 0 && !HasCode(smc, q)
    ensures KillBetween(smc, info, lo, q + CHUNK) == KillBetween(smc, info, lo, q)
    ensures RunningBetween(smc, info, lo, q + CHUNK, phys) <==> RunningBetween(smc, info, lo, q, phys)
  {
    assert forall a: nat | q <= a < q + CHUNK :: a / CHUNK == q / CHUNK;
    assert forall j: nat | j < |info| ::
             KilledBetween(smc, info, lo, q + CHUNK, j) <==> KilledBetween(smc, info, lo, q, j);
  }

  lemma KillsIsKilledBetween(smc: seq<bool>, info: seq<TraceInfo>, a: nat, k: nat)
    requires k < |info|
    ensures Kills(smc, info, a, k) <==> KilledBetween(smc, info, a / PAGE * PAGE, (a / CHUNK + 1) * CHUNK, k)
  {
    UpToChunk(info[k].phys, a);
  }

  lemma KillAllIsKillBetween(smc: seq<bool>, info: seq<TraceInfo>, a: nat)
    ensures var lo, hi := a / PAGE * PAGE, (a / CHUNK + 1) * CHUNK;
            && KillAll(smc, info, a) == KillBetween(smc, info, lo, hi)
            && (RunningTraceHit(smc, info, a) <==> RunningBetween(smc, info, lo, hi, a))
    ensures (a / CHUNK + 1) * CHUNK == a / PAGE * PAGE + (a / CHUNK % CHUNKS_PER_PAGE + 1) * CHUNK
  {
    assert a / CHUNK / CHUNKS_PER_PAGE == a / PAGE;
    var lo, hi := a / PAGE * PAGE, (a / CHUNK + 1) * CHUNK;
    hide Kills, KilledBetween;
    forall k: nat | k < |info| ensures Kills(smc, info, a, k) <==> KilledBetween(smc, info, lo, hi, k) {
      KillsIsKilledBetween(smc, info, a, k);
    }
  }

  lemma UpToChunk(x: nat, a: nat)
    ensures x / PAGE == a / PAGE && x / CHUNK <= a / CHUNK <==> a / PAGE * PAGE <= x < (a / CHUNK + 1) * CHUNK
  {
    assert x / CHUNK <= a / CHUNK <==> x < (a / CHUNK + 1) * CHUNK;
  }

  lemma NothingKilled(smc: seq<bool>, info: seq<TraceInfo>, lo: nat, phys: nat)
    ensures KillBetween(smc, info, lo, lo) == info && !RunningBetween(smc, info, lo, lo, phys)
  {
  }

  function ClearChunks(smc: seq<bool>, a: nat): seq<bool> {
    seq(|smc|, c requires 0 <= c < |smc| => smc[c] && !(a / PAGE * CHUNKS_PER_PAGE <= c <= a / CHUNK))
  }

  predicate PageHasCode(smc: seq<bool>, page: nat) {
    exists c: nat | c < |smc| :: c / CHUNKS_PER_PAGE == page && smc[c]
  }

  /** cpu_smc_invalidate for an address whose chunk holds code. */
  function Invalidate<Op>(s: Cache<Op>, a: nat): Cache<Op>
    requires Shape(s) && a < |s.mem|
  {
    var smc := ClearChunks(s.smc, a);
    s.(info := KillAll(s.smc, s.info, a), smc := smc,
       tags := if PageHasCode(smc, a / PAGE) then s.tags else s.tags[a / PAGE := 0xFF])
  }

  lemma InvalidateKeepsMarks(smc: seq<bool>, i: TraceInfo, a: nat)
    requires Marked(smc, i) && !(i.phys / PAGE == a / PAGE && i.phys / CHUNK <= a / CHUNK)
    ensures Marked(ClearChunks(smc, a), i)
  {
    var t := ClearChunks(smc, a);
    forall c: nat | i.phys / CHUNK <= c <= (i.phys + i.flags) / CHUNK && c / CHUNKS_PER_PAGE == i.phys / PAGE
      ensures c < |t| && t[c]
    {
      assert c < |smc| && smc[c];
    }
  }

  /** A live entry that survives starts on another page or beyond the written chunk. */
  lemma Survivor<Op(!new)>(s: Cache<Op>, a: nat, k: nat)
    requires Coherent(s) && a < |s.mem| && k < |s.info| && Live(Invalidate(s, a).info[k])
    ensures Live(s.info[k]) && Invalidate(s, a).info[k] == s.info[k]
    ensures !(s.info[k].phys / PAGE == a / PAGE && s.info[k].phys / CHUNK <= a / CHUNK)
  {
    var i := s.info[k];
    assert SlotOk(s, k);
    if Live(i) {
      var c := i.phys / CHUNK;
      assert c / CHUNKS_PER_PAGE == i.phys / PAGE;
      assert c < |s.smc| && s.smc[c];
    }
  }

  lemma InvalidateKeepsSlot<Op(!new)>(s: Cache<Op>, a: nat, k: nat)
    requires Coherent(s) && a < |s.mem| && k < |s.info|
    ensures SlotOk(Invalidate(s, a), k)
    ensures UnlookedBy(Invalidate(s, a), a / CHUNK, k)
  {
    var i, t := s.info[k], Invalidate(s, a);
    assert SlotOk(s, k);
    if Live(t.info[k]) {
      Survivor(s, a, k);
      InvalidateKeepsMarks(s.smc, i, a);
      assert TraceOf(t, k) == TraceOf(s, k);
      hide ClearChunks, KillAll, IsTrace;
      SamePage(i, s.reach[k], a / CHUNK);
      assert a / CHUNK / CHUNKS_PER_PAGE == a / PAGE;
    }
  }

  /** Dropping the chunks up to the written one keeps the cache coherent and leaves no live trace
      that looked at the written chunk. */
  lemma InvalidateKeeps<Op(!new)>(s: Cache<Op>, a: nat)
    requires Coherent(s) && a < |s.mem|
    ensures Coherent(Invalidate(s, a)) && Unlooked(Invalidate(s, a), a / CHUNK)
  {
    var t := Invalidate(s, a);
    forall k: nat | k < |s.info| ensures SlotOk(t, k) && UnlookedBy(t, a / CHUNK, k) {
      InvalidateKeepsSlot(s, a, k);
    }
    forall j: nat, k: nat | j < |s.info| && k < |s.info| ensures Apart(t, j, k) {
      assert Apart(s, j, k);
    }
  }

  // --- Guest writes ---

  /** The slow path of an aligned write: forget the traces, then store. */
  function SlowStore<Op>(s: Cache<Op>, a: nat, data: seq<byte>): Cache<Op>
    requires Shape(s) && a + |data| <= |s.mem| && a < |s.mem|
  {
    var t := if HasCode(s.smc, a) then Invalidate(s, a) else s;
    t.(mem := Store(s.mem, a, data))
  }

  /** Whether a slow write of an aligned word, or of a byte, at `a` asks to leave the execution loop. */
  predicate Asks<Op>(s: Cache<Op>, a: nat)
    requires Shape(s) && a < |s.mem|
  {
    HasCode(s.smc, a) && ForgotHolding(s.info, Invalidate(s, a).info, a)
  }

  lemma SlowStoreKeeps<Op(!new)>(s: Cache<Op>, a: nat, data: seq<byte>)
    requires Coherent(s)
    requires a + |data| <= |s.mem| && |data| > 0 && a / CHUNK == (a + |data| - 1) / CHUNK
    ensures Coherent(SlowStore(s, a, data))
  {
    if HasCode(s.smc, a) {
      InvalidateKeeps(s, a);
      StoreKeeps(Invalidate(s, a), a, data);
    } else {
      NoCodeUnlooked(s, a);
      StoreKeeps(s, a, data);
    }
  }

  /** An unaligned write: one byte at a time. */
  function ByteStores<Op>(s: Cache<Op>, a: nat, data: seq<byte>): (t: Cache<Op>)
    requires Shape(s) && a + |data| <= |s.mem|
    ensures Shape(t) && |t.mem| == |s.mem|
    decreases |data|
  {
    if data == [] then s
    else ByteStores(SlowStore(s, a, data[..1]), a + 1, data[1..])
  }

  /** Whether one of these bytes asks for it. */
  predicate ByteAsks<Op>(s: Cache<Op>, a: nat, data: seq<byte>)
    requires Shape(s) && a + |data| <= |s.mem|
    decreases |data|
  {
    data != [] && (Asks(s, a) || ByteAsks(SlowStore(s, a, data[..1]), a + 1, data[1..]))
  }

  lemma {:induction false} ByteStoresKeep<Op(!new)>(s: Cache<Op>, a: nat, data: seq<byte>)
    requires Coherent(s) && a + |data| <= |s.mem|
    ensures Coherent(ByteStores(s, a, data))
    ensures ByteStores(s, a, data).mem == Store(s.mem, a, data)
    decreases |data|
  {
    if data != [] {
      SlowStoreKeeps(s, a, data[..1]);
      var t := SlowStore(s, a, data[..1]);
      ByteStoresKeep(t, a + 1, data[1..]);
      StoreTwice(s.mem, a, data);
    }
  }

  /** A guest write: on the fast path a store only, on the slow path in one piece or byte by byte. */
  function Written<Op>(s: Cache<Op>, slow: bool, a: nat, n: nat, v: nat): Cache<Op>
    requires Shape(s) && 0 < n && a + n <= |s.mem|
  {
    if !slow then s.(mem := Store(s.mem, a, LittleEndian(n, v)))
    else if a % n == 0 then SlowStore(s, a, LittleEndian(n, v))
    else ByteStores(s, a, LittleEndian(n, v))
  }

  /** Whether a guest write asks to leave the execution loop. */
  predicate WriteAsks<Op>(s: Cache<Op>, slow: bool, a: nat, n: nat, v: nat)
    requires Shape(s) && 0 < n && a + n <= |s.mem|
  {
    slow && if a % n == 0 then Asks(s, a) else ByteAsks(s, a, LittleEndian(n, v))
  }

  /** What no write changes. */
  ghost predicate SameShape<Op>(s: Cache<Op>, t: Cache<Op>) {
    t.dec == s.dec && |t.mem| == |s.mem| && |t.info| == |s.info| && |t.buf| == |s.buf| && |t.tags| == |s.tags|
  }

  lemma SlowStoreSameShape<Op>(s: Cache<Op>, a: nat, data: seq<byte>)
    requires Shape(s) && a + |data| <= |s.mem| && a < |s.mem|
    ensures SameShape(s, SlowStore(s, a, data)) && Shape(SlowStore(s, a, data))
  {
  }

  lemma {:induction false} ByteStoresSameShape<Op>(s: Cache<Op>, a: nat, data: seq<byte>)
    requires Shape(s) && a + |data| <= |s.mem|
    ensures SameShape(s, ByteStores(s, a, data))
    decreases |data|
  {
    if data != [] {
      SlowStoreSameShape(s, a, data[..1]);
      var t := SlowStore(s, a, data[..1]);
      hide SlowStore, Shape;
      ByteStoresSameShape(t, a + 1, data[1..]);
    }
  }

  lemma WrittenSameShape<Op>(s: Cache<Op>, slow: bool, a: nat, n: nat, v: nat)
    requires Shape(s) && 0 < n && a + n <= |s.mem|
    ensures SameShape(s, Written(s, slow, a, n, v))
  {
    SlowStoreSameShape(s, a, LittleEndian(n, v));
    ByteStoresSameShape(s, a, LittleEndian(n, v));
    hide SlowStore, ByteStores, Store;
  }

  lemma ByteStoresStep<Op>(s: Cache<Op>, a: nat, n: nat, v: nat)
    requires Shape(s) && n > 0 && a + n <= |s.mem|
    ensures ByteStores(s, a, LittleEndian(n, v)) ==
            ByteStores(SlowStore(s, a, [v % 256]), a + 1, LittleEndian(n - 1, v / 256))
  {
    assert LittleEndian(n, v)[..1] == [v % 256];
    assert LittleEndian(n, v)[1..] == LittleEndian(n - 1, v / 256);
  }

  lemma ByteAsksStep<Op>(s: Cache<Op>, a: nat, n: nat, v: nat)
    requires Shape(s) && n > 0 && a + n <= |s.mem|
    ensures ByteAsks(s, a, LittleEndian(n, v)) ==
            (Asks(s, a) || ByteAsks(SlowStore(s, a, [v % 256]), a + 1, LittleEndian(n - 1, v / 256)))
  {
    assert LittleEndian(n, v)[..1] == [v % 256];
    assert LittleEndian(n, v)[1..] == LittleEndian(n - 1, v / 256);
  }

  lemma ByteAsksDone<Op>(s: Cache<Op>, a: nat, v: nat)
    requires Shape(s) && a <= |s.mem|
    ensures !ByteAsks(s, a, LittleEndian(0, v))
  {
  }

  lemma ByteStoresDone<Op>(s: Cache<Op>, a: nat, v: nat)
    requires Shape(s) && a <= |s.mem|
    ensures ByteStores(s, a, LittleEndian(0, v)) == s
  {
  }

  lemma StoreTwice(m: seq<byte>, a: nat, data: seq<byte>)
    requires a + |data| <= |m| && |data| > 0
    ensures Store(Store(m, a, data[..1]), a + 1, data[1..]) == Store(m, a, data)
  {
    assert data == data[..1] + data[1..];
  }

  // --- Caching a new trace ---

  function MarkChunks(smc: seq<bool>, lo: nat, hi: int): (r: seq<bool>)
    ensures |r| == |smc|
  {
    seq(|smc|, c requires 0 <= c < |smc| => smc[c] || lo <= c <= hi)
  }

  lemma SliceOfPrefix<T>(a: seq<T>, n: nat, lo: nat, hi: nat)
    requires lo <= hi <= n <= |a|
    ensures a[lo..hi] == a[..n][lo..hi]
  {
  }

  /** Buffer elements at and beyond `usage` belong to nobody. */
  lemma SpareBufferKeeps<Op(!new)>(s: Cache<Op>, buf: seq<Slot<Op>>)
    requires Coherent(s) && |buf| == |s.buf| && buf[..s.usage] == s.buf[..s.usage]
    ensures Coherent(s.(buf := buf))
  {
    var t := s.(buf := buf);
    forall k: nat | k < |s.info| ensures SlotOk(t, k) {
      assert SlotOk(s, k);
      if Live(s.info[k]) {
        var lo, hi := s.info[k].ptr.value, s.info[k].ptr.value + s.count[k];
        SliceOfPrefix(s.buf, s.usage, lo, hi);
        SliceOfPrefix(buf, s.usage, lo, hi);
      }
    }
    forall j: nat, k: nat | j < |s.info| && k < |s.info| ensures Apart(t, j, k) {
      assert Apart(s, j, k);
    }
  }

  /** The bookkeeping at the end of cpu_decode, set_smc, and the caller's `usage +=`. */
  function Commit<Op>(s: Cache<Op>, i: TraceInfo, n: nat, reach: nat, left: nat): Cache<Op>
    requires Shape(s) && i.phys < |s.mem|
  {
    var k := i.phys % |s.info|;
    s.(info := s.info[k := i], count := s.count[k := n], reach := s.reach[k := reach], left := s.left[k := left],
       usage := s.usage + n,
       smc := MarkChunks(s.smc, i.phys / CHUNK, (i.phys + i.flags) / CHUNK),
       tags := s.tags[i.phys / PAGE := s.tags[i.phys / PAGE] | 0x44])
  }

  lemma CommitMarks(smc: seq<bool>, i: TraceInfo, lo: nat, hi: int)
    ensures Marked(smc, i) ==> Marked(MarkChunks(smc, lo, hi), i)
    ensures (exists pages: nat :: |smc| == pages * CHUNKS_PER_PAGE && i.phys < pages * PAGE) ==>
              Marked(MarkChunks(smc, i.phys / CHUNK, (i.phys + i.flags) / CHUNK), i)
  {
  }

  lemma CommitKeepsOther<Op(!new)>(s: Cache<Op>, i: TraceInfo, n: nat, reach: nat, left: nat, k: nat)
    requires Coherent(s) && i.phys < |s.mem| && k < |s.info| && k != i.phys % |s.info|
    requires s.usage + n <= |s.buf|
    ensures SlotOk(Commit(s, i, n, reach, left), k)
  {
    var t := Commit(s, i, n, reach, left);
    assert SlotOk(s, k);
    if Live(s.info[k]) {
      CommitMarks(s.smc, s.info[k], i.phys / CHUNK, (i.phys + i.flags) / CHUNK);
      assert TraceOf(t, k) == TraceOf(s, k);
    }
  }

  /** The new entry itself. */
  lemma CommitEntry<Op(!new)>(s: Cache<Op>, i: TraceInfo, n: nat, reach: nat, left: nat)
    requires Shape(s) && i.phys < |s.mem| && i.ptr == Some(s.usage) && i.flags < LENGTH_RANGE
    requires s.usage + n <= |s.buf| && Runnable(s.buf[s.usage..s.usage + n])
    requires Covered(i, reach) ==>
               IsTrace(s.dec, Context(i.hash, left), s.buf[s.usage..s.usage + n], s.mem, i.phys, i.phys + i.flags,
                   reach)
    ensures SlotOk(Commit(s, i, n, reach, left), i.phys % |s.info|)
  {
    hide IsTrace, Runnable, Covered, Marked, MarkChunks;
    var t := Commit(s, i, n, reach, left);
    var pages := |s.smc| / CHUNKS_PER_PAGE;
    assert |s.smc| == pages * CHUNKS_PER_PAGE;
    CommitMarks(s.smc, i, i.phys / CHUNK, (i.phys + i.flags) / CHUNK);
    assert TraceOf(t, i.phys % |s.info|) == s.buf[s.usage..s.usage + n];
  }

  lemma CommitKeeps<Op(!new)>(s: Cache<Op>, i: TraceInfo, n: nat, reach: nat, left: nat)
    requires Coherent(s) && i.phys < |s.mem| && i.ptr == Some(s.usage) && i.flags < LENGTH_RANGE
    requires s.usage + n <= |s.buf| && Runnable(s.buf[s.usage..s.usage + n])
    requires Covered(i, reach) ==>
               IsTrace(s.dec, Context(i.hash, left), s.buf[s.usage..s.usage + n], s.mem, i.phys, i.phys + i.flags,
                   reach)
    ensures Coherent(Commit(s, i, n, reach, left))
  {
    var t := Commit(s, i, n, reach, left);
    var p := i.phys % |s.info|;
    forall k: nat | k < |s.info| ensures SlotOk(t, k) {
      if k != p {
        CommitKeepsOther(s, i, n, reach, left, k);
      } else {
        CommitEntry(s, i, n, reach, left);
      }
    }
    forall j: nat, k: nat | j < |s.info| && k < |s.info| ensures Apart(t, j, k) {
      assert Apart(s, j, k);
      assert SlotOk(s, j) && SlotOk(s, k);
    }
  }

  lemma PageEnd(p: nat, size: nat)
    requires p < size && size % PAGE == 0
    ensures p < p - p % PAGE + PAGE <= size && (p - p % PAGE) % PAGE == 0
  {
    assert p / PAGE < size / PAGE;
  }

  /** Where the cursor can be when the loop comes round: within the page, or barely beyond it. */
  lemma CursorOnPage<Op(!new)>(dec: Decoder<Op>, h: Context, t: seq<Slot<Op>>, m: seq<byte>, p: nat,
                               k: Context, rawp: nat, r: nat, limit: nat)
    requires Progress(dec, h, t, m, p, k, rawp, r, limit) && p < limit == p - p % PAGE + PAGE
    ensures p <= rawp && limit <= |m|
    ensures rawp < limit ==> PAGE - rawp % PAGE == limit - rawp
    ensures rawp >= limit ==> PAGE - rawp % PAGE >= LONGEST && rawp > limit - LONGEST
  {
    hide Chain, Onward, CleanCode, CleanAhead;
    var base := p - p % PAGE;
    assert base % PAGE == 0;
    if rawp < limit {
      assert rawp % PAGE == rawp - base;
    } else {
      assert rawp % PAGE == rawp - limit;
    }
  }

  lemma CursorInside<Op(!new)>(dec: Decoder<Op>, m: seq<byte>, rawp: nat, limit: nat)
    requires (exists hash: nat :: !AtEnd(dec, hash, m, rawp, limit)) && limit >= LONGEST
    ensures rawp < limit
  {
  }

  lemma PageInTlb(p: nat)
    ensures p < TARGET_ADDRESS_SPACE_SIZE ==> p / PAGE < TLB_PAGES
  {
  }

  function PageLimit(p: nat): nat { p - p % PAGE + PAGE }

  /** What the loop's result means for the table entry: it is covered exactly if the code is tidy. */
  lemma FinishedFits<Op(!new)>(dec: Decoder<Op>, h: Context, t: seq<Slot<Op>>, m: seq<byte>, p: nat, rawp: nat, r: nat)
    requires Finished(dec, h, t, m, p, rawp, r, PageLimit(p))
    ensures p <= rawp && IsTrace(dec, h, t, m, p, rawp, r)
    ensures Covered(TraceInfo(p, h.hash, None, rawp - p), r) <==> TidyCode(dec, h, m, p, PageLimit(p))
  {
    hide IsTrace, TidyCode, TraceEnds, CleanCode, LooksTo;
    OnPage(p, r - 1);
  }

  lemma OnPage(p: nat, a: nat)
    requires p <= a
    ensures a / PAGE == p / PAGE <==> a < PageLimit(p)
  {
    assert p - p % PAGE == p / PAGE * PAGE;
  }

  /** State `t` is `s` with one new trace for address `p`, decoded in context `h` into the unused part of the
      buffer and entered into the table and the bitmap. */
  ghost predicate NewTrace<Op(!new)>(s: Cache<Op>, t: Cache<Op>, p: nat, h: Context) {
    && Shape(s) && p < |s.mem| && |t.info| == |t.count| == |t.reach| == |s.info| && |t.buf| == |s.buf|
    && var k := p % |s.info|;
    && var n, r, length := t.count[k], t.reach[k], t.info[k].flags;
    && 1 <= n <= MAX_TRACE_SIZE && s.usage + n <= |s.buf|
    && t.buf[..s.usage] == s.buf[..s.usage]
    && Finished(s.dec, h, t.buf[s.usage..s.usage + n], s.mem, p, p + length, r, PageLimit(p))
    && t == Commit(s.(buf := t.buf), TraceInfo(p, h.hash, Some(s.usage), length), n, r, h.left)
  }

  lemma NewTraceKeeps<Op(!new)>(s: Cache<Op>, t: Cache<Op>, p: nat, h: Context)
    requires Coherent(s) && NewTrace(s, t, p, h)
    ensures Coherent(t) && Serves(t, p, h.hash, s.usage)
  {
    var k := p % |s.info|;
    var n, r, length := t.count[k], t.reach[k], t.info[k].flags;
    var u := t.buf[s.usage..s.usage + n];
    SpareBufferKeeps(s, t.buf);
    FinishedFits(s.dec, h, u, s.mem, p, p + length, r);
    FinishedRuns(s.dec, h, u, s.mem, p, p + length, r, PageLimit(p));
    hide Coherent, Finished, IsTrace, Runnable, TidyCode, Marked;
    CommitKeeps(s.(buf := t.buf), TraceInfo(p, h.hash, Some(s.usage), length), n, r, h.left);
  }

  lemma FinishedReads<Op(!new)>(dec: Decoder<Op>, h: Context, buf: seq<Slot<Op>>, ptr: nat, n: nat, m: seq<byte>,
                                p: nat, rawp: nat, r: nat)
    requires ptr + n <= |buf| && Finished(dec, h, buf[ptr..ptr + n], m, p, rawp, r, PageLimit(p))
    ensures ReadOff(buf, ptr) == buf[ptr..ptr + n]
  {
    TraceTerminates(dec, h, buf[ptr..ptr + n], m, p, rawp, r);
    hide IsTrace, Terminated, ReadOff;
    ReadsTrace(buf, ptr, n);
  }

  /** Committing a decoded trace enters a new one. */
  lemma CommitIsNew<Op(!new)>(s0: Cache<Op>, s: Cache<Op>, t: Cache<Op>, p: nat, h: Context, n: nat, r: nat,
                              length: nat)
    requires Shape(s0) && p < |s0.mem| && s == s0.(buf := s.buf) && |s.buf| == |s0.buf|
             && s.buf[..s0.usage] == s0.buf[..s0.usage]
    requires s0.usage + n <= |s0.buf| && 1 <= n <= MAX_TRACE_SIZE
    requires Finished(s0.dec, h, s.buf[s0.usage..s0.usage + n], s0.mem, p, p + length, r, PageLimit(p))
    requires t == Commit(s, TraceInfo(p, h.hash, Some(s0.usage), length), n, r, h.left)
    ensures NewTrace(s0, t, p, h)
  {
    hide Finished, MarkChunks;
  }

  /** What the page-split path decodes from; host memory goes on after the guest's. */
  function Prefetch(m: seq<byte>, beyond: seq<byte>, p: nat): seq<byte>
    requires p + LONGEST - 1 <= |m + beyond|
  {
    (m + beyond)[p..p + LONGEST - 1] + [0]
  }

  /** State `t` is `s` with one uncached instruction, written beyond the used buffer. */
  ghost predicate SplitTrace<Op(!new)>(s: Cache<Op>, t: Cache<Op>, p: nat, h: Context, beyond: seq<byte>) {
    && t == s.(buf := t.buf) && |t.buf| == |s.buf| && s.usage + 1 < |s.buf|
    && p + LONGEST - 1 <= |s.mem + beyond|
    && t.buf[..s.usage] == s.buf[..s.usage]
    && var st := s.dec.step(Prefetch(s.mem, beyond, p), h);
    && t.buf[s.usage] == SlotOf(st) && (!st.last ==> t.buf[s.usage + 1] == TraceEnd)
  }

  /** The instruction is the decoding of memory unless it needs sixteen bytes. */
  lemma SplitDecodes<Op(!new)>(dec: Decoder<Op>, m: seq<byte>, beyond: seq<byte>, p: nat, h: Context)
    requires Determined(dec) && p <= |m| && p + LONGEST - 1 <= |m + beyond|
    ensures var st := dec.step(Prefetch(m, beyond, p), h);
            && (st.looked < LONGEST ==> dec.step((m + beyond)[p..], h) == st)
            && (st.looked < LONGEST && p + st.looked <= |m| ==> dec.step(m[p..], h) == st)
  {
    var f, all := Prefetch(m, beyond, p), (m + beyond)[p..];
    var n := dec.step(f, h).looked;
    if n < LONGEST {
      assert f[..n] == all[..n];
      assert AgreesOn(dec, f, all, h);
      if p + n <= |m| {
        assert f[..n] == m[p..][..n];
        assert AgreesOn(dec, f, m[p..], h);
      }
    }
  }

  lemma SplitIs<Op(!new)>(s: Cache<Op>, t: Cache<Op>, p: nat, h: Context, beyond: seq<byte>)
    requires t == s.(buf := t.buf) && |t.buf| == |s.buf| && s.usage + 1 < |s.buf| && p + LONGEST - 1 <= |s.mem + beyond|
    requires t.buf[..s.usage] == s.buf[..s.usage]
    requires var st := s.dec.step(Prefetch(s.mem, beyond, p), h);
             t.buf[s.usage] == SlotOf(st) && (!st.last ==> t.buf[s.usage + 1] == TraceEnd)
    ensures SplitTrace(s, t, p, h, beyond)
  {
  }

  /** An uncached instruction is written where no live trace is, and read off as such. */
  lemma SplitKeeps<Op(!new)>(s: Cache<Op>, t: Cache<Op>, p: nat, h: Context, beyond: seq<byte>)
    requires Coherent(s) && SplitTrace(s, t, p, h, beyond)
    ensures Coherent(t)
    ensures var st := s.dec.step(Prefetch(s.mem, beyond, p), h);
            ReadOff(t.buf, s.usage) == if st.last then [SlotOf(st)] else [SlotOf(st), TraceEnd]
  {
    SpareBufferKeeps(s, t.buf);
  }

  lemma CoherentParts<Op(!new)>(s: Cache<Op>)
    requires Coherent(s)
    ensures Shape(s) && Determined(s.dec) && Bounded(s.dec) && |s.mem| % PAGE == 0
  {
    assert |s.mem| == PAGE * (|s.smc| / CHUNKS_PER_PAGE);
  }

  // --- Flushing, and the TLB tags ---

  function Flush<Op>(s: Cache<Op>): Cache<Op> {
    s.(info := seq(|s.info|, _ => FLUSHED), usage := 0)
  }

  lemma FlushKeeps<Op(!new)>(s: Cache<Op>)
    requires Coherent(s)
    ensures Coherent(Flush(s))
  {
  }

  /** The tag byte of cpu_set_tlb_entry for an identity-mapped page (src/halfix/mmu.c). */
  function NewTag(page: nat, hasCode: bool, user: bool, write: bool): bv8 {
    var video := 0xA0 <= page < 0x100;
    var outside := page * PAGE >= TARGET_ADDRESS_SPACE_SIZE;
    var tag: bv8 := if outside || (video && page / 64 % 2 == 0) then 1 else 0;
    var tagWrite: bv8 := if outside || video || hasCode then 1 else 0;
    tag | ((tagWrite | (if !write then 3 else 0)) << 2)
        | ((tag | (if !user then 3 else 0)) << 4)
        | ((tagWrite | (if !user || !write then 3 else 0)) << 6)
  }

  /** What the bits of a tag say, a clear one allowing the access: reading and writing by the supervisor (bits 0 and 2)
      and by the user (4 and 6). No page from 2 GB on is there, nor the video memory below 0xC0000; nothing there is
      written in the video range or where code was decoded. */
  lemma NewTagMeans(page: nat, hasCode: bool, user: bool, write: bool)
    ensures var t := NewTag(page, hasCode, user, write);
            var there := page < 0x8_0000 && !(0xA0 <= page < 0xC0);
            var writable := page < 0x8_0000 && !(0xA0 <= page < 0x100) && !hasCode;
            && (t & 0x01 == 0 <==> there)
            && (t & 0x04 == 0 <==> writable && write) && (t & 0x0C == 0 <==> writable && write)
            && (t & 0x10 == 0 <==> there && user)
            && (t & 0x40 == 0 <==> writable && user && write) && (t & 0xC0 == 0 <==> writable && user && write)
  {
    var video := 0xA0 <= page < 0x100;
    assert video && page / 64 % 2 == 0 <==> 0xA0 <= page < 0xC0;
    assert page * PAGE >= TARGET_ADDRESS_SPACE_SIZE <==> page >= 0x8_0000;
  }

  lemma NewTagMarksCode(page: nat, user: bool, write: bool)
    ensures NewTag(page, true, user, write) & 0x44 == 0x44
  {
  }

  /** When a write entry is valid, for either privilege level, the page is not marked. */
  lemma ValidTagIsUnmarked(t: bv8)
    ensures (t >> 6) & 1 == 0 ==> t & 0x44 != 0x44
    ensures (t >> 2) & 1 == 0 ==> t & 0x44 != 0x44
    ensures (t >> 6) & 3 == 0 ==> t & 0x44 != 0x44
    ensures (t >> 2) & 3 == 0 ==> t & 0x44 != 0x44
  {
  }

  lemma AlignedInChunk(a: nat, n: nat)
    requires n in {1, 2, 4}
    ensures a % n == 0 ==> a / CHUNK == (a + n - 1) / CHUNK
  {
    var c, r := a / CHUNK, a % CHUNK;
    assert a == CHUNK * c + r;
    if n == 2 && a % 2 == 0 {
      Halves(a, c, r);
    } else if n == 4 && a % 4 == 0 {
      Quarters(a, c, r);
    }
  }

  lemma Halves(a: nat, c: nat, r: nat)
    requires a == CHUNK * c + r && r < CHUNK && a % 2 == 0
    ensures (a + 1) / CHUNK == c
  {
    assert r % 2 == 0;
    InChunk(a + 1, c, r + 1);
  }

  lemma Quarters(a: nat, c: nat, r: nat)
    requires a == CHUNK * c + r && r < CHUNK && a % 4 == 0
    ensures (a + 3) / CHUNK == c
  {
    assert r % 4 == 0;
    InChunk(a + 3, c, r + 3);
  }

  lemma InChunk(a: nat, c: nat, r: nat)
    requires a == CHUNK * c + r && r < CHUNK
    ensures a / CHUNK == c
  {
  }

  /** The lookup test of cpu_get_trace. */
  predicate Matches<Op>(s: Cache<Op>, p: nat, h: nat)
    requires |s.info| > 0
  {
    var i := s.info[p % |s.info|];
    i.phys == p && i.hash == h
  }

  /** The table holds a live trace for `p` and `h` at buffer index `ptr`. */
  predicate Serves<Op>(s: Cache<Op>, p: nat, h: nat, ptr: nat) {
    |s.info| > 0 && Matches(s, p, h) && p != INVALID_PHYS && s.info[p % |s.info|].ptr == Some(ptr)
  }

  /** The flush before decoding, when the buffer could overflow. */
  function MadeRoom<Op>(s: Cache<Op>): Cache<Op> {
    if s.usage + MAX_TRACE_SIZE >= |s.buf| then Flush(s) else s
  }

  /** What a served trace is: if the bitmap covers what its decoding looked at, its instructions
      are what decoding memory gives now. */
  lemma ServedIsFresh<Op(!new)>(s: Cache<Op>, p: nat, h: nat, ptr: nat)
    requires Coherent(s) && Serves(s, p, h, ptr)
    ensures var k := p % |s.info|;
            && ptr + s.count[k] <= s.usage
            && ReadOff(s.buf, ptr) == s.buf[ptr..ptr + s.count[k]]
            && (Covered(s.info[k], s.reach[k]) ==>
                  IsTrace(s.dec, Context(h, s.left[k]), ReadOff(s.buf, ptr), s.mem, p, p + s.info[k].flags, s.reach[k]))
  {
    assert SlotOk(s, p % |s.info|);
    ReadsTrace(s.buf, ptr, s.count[p % |s.info|]);
  }

  /** The entry of address 0 is as flushed, and in mode 0 the lookup takes it for a trace of address 0. */
  predicate NullTrace<Op>(s: Cache<Op>, p: nat, h: nat) {
    p == 0 && h == 0 && |s.info| > 0 && s.info[0].ptr.None? && s.info[0].phys == 0
  }

  /** The lookup finds an entry without a trace, on which the emulator stops, for address 0 in mode 0 exactly while
      its entry is as flushed; and for nothing else. */
  lemma FatalExactly<Op(!new)>(s: Cache<Op>, p: nat, h: nat)
    requires Coherent(s) && p < TARGET_ADDRESS_SPACE_SIZE
    ensures Matches(s, p, h) && s.info[p % |s.info|].ptr.None? <==> NullTrace(s, p, h)
  {
    assert 0 % |s.info| == 0;
    assert SlotOk(s, 0) && SlotOk(s, p % |s.info|);
  }

  /** Exactly which slow-path writes drop a live trace, for addresses from its first chunk on. */
  lemma DroppedExactly<Op(!new)>(s: Cache<Op>, a: nat, v: byte, k: nat)
    requires Coherent(s) && k < |s.info| && Live(s.info[k]) && a < |s.mem| && s.info[k].phys / CHUNK <= a / CHUNK
    ensures Live(SlowStore(s, a, [v]).info[k]) <==>
            !(a / PAGE == s.info[k].phys / PAGE && HasCode(s.smc, a))
    ensures Live(SlowStore(s, a, [v]).info[k]) ==> SlowStore(s, a, [v]).info[k] == s.info[k]
  {
    var i := s.info[k];
    assert SlotOk(s, k);
    var c := i.phys / CHUNK;
    assert c / CHUNKS_PER_PAGE == i.phys / PAGE;
    assert c < |s.smc| && s.smc[c];
  }

  /** A one-byte slow-path write at `a` drops entry `k`, whatever the value. */
  ghost predicate Drops<Op(!new)>(s: Cache<Op>, k: nat, a: nat)
    requires Shape(s) && k < |s.info| && a < |s.mem|
  {
    forall v: byte :: !Live(SlowStore(s, a, [v]).info[k])
  }

  predicate Watched<Op>(s: Cache<Op>, k: nat, a: nat)
    requires k < |s.info|
  {
    a / PAGE == s.info[k].phys / PAGE && HasCode(s.smc, a)
  }

  lemma DropsIffWatched<Op(!new)>(s: Cache<Op>, k: nat, a: nat)
    requires Coherent(s) && k < |s.info| && Live(s.info[k]) && a < |s.mem| && s.info[k].phys <= a
    ensures Drops(s, k, a) <==> Watched(s, k, a)
  {
    assert s.info[k].phys / CHUNK <= a / CHUNK;
    forall v: byte ensures !Live(SlowStore(s, a, [v]).info[k]) <==> Watched(s, k, a) {
      DroppedExactly(s, a, v, k);
    }
    var zero: byte := 0;
    assert !Live(SlowStore(s, a, [zero]).info[k]) <==> Watched(s, k, a);
  }

  /** Every write to a byte the decoding looked at drops the trace if and only if those bytes lie on
      the trace's own page, in marked chunks; and a covered trace is such a trace. */
  lemma WatchedExactly<Op(!new)>(s: Cache<Op>, k: nat)
    requires Coherent(s) && k < |s.info| && Live(s.info[k])
    requires s.info[k].phys < s.reach[k] <= |s.mem|
    ensures (forall a: nat | s.info[k].phys <= a < s.reach[k] :: Drops(s, k, a))
       <==> (forall a: nat | s.info[k].phys <= a < s.reach[k] :: Watched(s, k, a))
    ensures Covered(s.info[k], s.reach[k]) ==>
              forall a: nat | s.info[k].phys <= a < s.reach[k] :: Drops(s, k, a)
  {
    var i, r := s.info[k], s.reach[k];
    assert SlotOk(s, k);
    hide Coherent, Drops, Watched;
    forall a: nat | i.phys <= a < r
      ensures Drops(s, k, a) <==> Watched(s, k, a)
      ensures Covered(i, r) ==> Watched(s, k, a)
    {
      DropsIffWatched(s, k, a);
      if Covered(i, r) {
        InsideCovered(s, k, a);
      }
    }
  }

  /** A slow write whose first byte a live trace holds, on its page and in a marked chunk, drops the trace and asks to
      leave the loop: the trace may be running. */
  lemma WatchedAsks<Op(!new)>(s: Cache<Op>, k: nat, a: nat)
    requires Coherent(s) && k < |s.info| && Live(s.info[k]) && a < |s.mem| && Watched(s, k, a)
    requires s.info[k].phys <= a <= s.info[k].phys + s.info[k].flags
    ensures Asks(s, a) && Forgotten(s.info[k], Invalidate(s, a).info[k])
  {
    WatchedIsKilled(s, k, a);
    hide Coherent, ClearChunks, PageHasCode, Kills, Watched;
    assert Invalidate(s, a).info[k] == s.info[k].(phys := INVALID_PHYS);
  }

  lemma WatchedIsKilled<Op(!new)>(s: Cache<Op>, k: nat, a: nat)
    requires Coherent(s) && k < |s.info| && Live(s.info[k]) && a < |s.mem| && Watched(s, k, a)
    requires s.info[k].phys <= a
    ensures HasCode(s.smc, a) && Kills(s.smc, s.info, a, k)
    ensures s.info[k].phys != INVALID_PHYS && s.info[k].flags % 0x400 == s.info[k].flags
  {
    assert SlotOk(s, k);
    hide IsTrace, Runnable, Covered, Disjoint, Determined, Bounded;
    var c := s.info[k].phys / CHUNK;
    assert c / CHUNKS_PER_PAGE == s.info[k].phys / PAGE;
    assert c < |s.smc| && s.smc[c];
  }

  /** But a write that begins before the first byte of a live trace and reaches into it, within the chunk, drops the
      trace and asks for nothing on its account. */
  lemma ReachingInAsksNot<Op(!new)>(s: Cache<Op>, k: nat, a: nat, data: seq<byte>)
    requires Coherent(s) && k < |s.info| && Live(s.info[k]) && a + |data| <= |s.mem| && HasCode(s.smc, a)
    requires a < s.info[k].phys < a + |data| && a / CHUNK == s.info[k].phys / CHUNK
    ensures !Live(SlowStore(s, a, data).info[k]) && (|s.info| == 1 ==> !Asks(s, a))
  {
    assert SlotOk(s, k);
    var c := a / CHUNK;
    assert a / PAGE == c / CHUNKS_PER_PAGE == s.info[k].phys / PAGE;
  }

  lemma InsideCovered<Op>(s: Cache<Op>, k: nat, a: nat)
    requires k < |s.info| == |s.reach|
    requires Covered(s.info[k], s.reach[k]) && Marked(s.smc, s.info[k]) && s.info[k].phys <= a < s.reach[k]
    ensures Watched(s, k, a)
  {
    var i, r, c := s.info[k], s.reach[k], a / CHUNK;
    assert i.phys / CHUNK <= c <= (r - 1) / CHUNK;
    SamePage(i, r, c);
    assert c / CHUNKS_PER_PAGE == a / PAGE;
  }

  /** A new tag keeps coherence as long as pages with code stay on the slow write path. */
  lemma TagKeeps<Op(!new)>(s: Cache<Op>, page: nat, v: bv8)
    requires Coherent(s) && page < TLB_PAGES
    requires PageHasCode(s.smc, page) ==> v & 0x44 == 0x44
    ensures Coherent(s.(tags := s.tags[page := v]))
  {
    var t := s.(tags := s.tags[page := v]);
    forall k: nat | k < |s.info| ensures SlotOk(t, k) {
      assert SlotOk(s, k);
      if Live(s.info[k]) {
        assert TraceOf(t, k) == TraceOf(s, k);
        var c := s.info[k].phys / CHUNK;
        assert c / CHUNKS_PER_PAGE == s.info[k].phys / PAGE;
        assert c < |s.smc| && s.smc[c];
      }
    }
    forall j: nat, k: nat | j < |s.info| && k < |s.info| ensures Apart(t, j, k) {
      assert Apart(s, j, k);
    }
  }

  // --- Which writes are logged: those on the slow path ---

  /** A tag that sends every user-mode write through the slow path. */
  predicate UserBits(t: bv8) { t & 0xC0 == 0xC0 }

  predicate UserSlow(tags: seq<bv8>) {
    forall k :: 0 <= k < |tags| ==> UserBits(tags[k])
  }

  ghost predicate KeepsUserSlow(before: seq<bv8>, after: seq<bv8>) {
    UserSlow(before) ==> UserSlow(after)
  }

  lemma UserBitsKept(t: bv8)
    ensures UserBits(0xFF) && (UserBits(t) ==> UserBits(t | 0x44))
    ensures UserBits(t) ==> (t >> 6) & 1 != 0 && (t >> 6) & 3 != 0
  {
  }

  /** A page entered without the user flag is slow for users. */
  lemma NewTagIsUserSlow(page: nat, hasCode: bool, write: bool)
    ensures UserBits(NewTag(page, hasCode, false, write))
  {
  }

  lemma PutKeepsUserSlow(tags: seq<bv8>, k: nat, v: bv8)
    requires k < |tags| && UserBits(v)
    ensures KeepsUserSlow(tags, tags[k := v])
  {
    hide UserBits;
  }

  lemma SlowStoreKeepsUserSlow<Op>(s: Cache<Op>, a: nat, data: seq<byte>)
    requires Shape(s) && a + |data| <= |s.mem| && a < |s.mem|
    ensures KeepsUserSlow(s.tags, SlowStore(s, a, data).tags)
  {
    UserBitsKept(0);
    PutKeepsUserSlow(s.tags, a / PAGE, 0xFF);
    hide UserSlow, UserBits;
  }

  lemma {:induction false} ByteStoresKeepUserSlow<Op>(s: Cache<Op>, a: nat, data: seq<byte>)
    requires Shape(s) && a + |data| <= |s.mem|
    ensures KeepsUserSlow(s.tags, ByteStores(s, a, data).tags)
    decreases |data|
  {
    hide UserSlow;
    if data != [] {
      SlowStoreKeepsUserSlow(s, a, data[..1]);
      ByteStoresKeepUserSlow(SlowStore(s, a, data[..1]), a + 1, data[1..]);
    }
  }

  lemma WrittenKeepsUserSlow<Op>(s: Cache<Op>, slow: bool, a: nat, n: nat, v: nat)
    requires Shape(s) && 0 < n && a + n <= |s.mem|
    ensures KeepsUserSlow(s.tags, Written(s, slow, a, n, v).tags)
  {
    SlowStoreKeepsUserSlow(s, a, LittleEndian(n, v));
    ByteStoresKeepUserSlow(s, a, LittleEndian(n, v));
    hide UserSlow, SlowStore, ByteStores;
  }

  lemma CommitKeepsUserSlow<Op>(s: Cache<Op>, i: TraceInfo, n: nat, reach: nat, left: nat)
    requires Shape(s) && i.phys < |s.mem|
    ensures KeepsUserSlow(s.tags, Commit(s, i, n, reach, left).tags)
  {
    var k := i.phys / PAGE;
    UserBitsKept(s.tags[k]);
    if UserSlow(s.tags) {
      assert UserBits(s.tags[k]);
      PutKeepsUserSlow(s.tags, k, s.tags[k] | 0x44);
    }
    hide UserSlow, UserBits, MarkChunks;
  }
}
