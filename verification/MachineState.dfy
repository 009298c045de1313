/** The interpreter's state around the trace cache: the TLB, the log of overwritten values, the decoding mode; and
    what a fetch does to it. */
module MachineState {
  import opened GuestMemory
  import opened Traces
  import opened CacheState

  // --- The TLB as far as writes and fetches see it (src/halfix/mmu.c) ---

  const MAX_TLB_ENTRIES := 8192

  /** The tag of every page, and the pages entered since the last flush. */
  datatype Tlb = Tlb(tags: seq<bv8>, entries: seq<nat>)

  predicate AllBelow(entries: seq<nat>, size: nat) {
    forall j :: 0 <= j < |entries| ==> entries[j] < size
  }

  predicate TlbOk(t: Tlb) { |t.tags| == TLB_PAGES && AllBelow(t.entries, TLB_PAGES) }

  /** cpu_mmu_tlb_flush */
  function FlushTags(tags: seq<bv8>, entries: seq<nat>): (r: seq<bv8>)
    requires AllBelow(entries, |tags|)
    ensures |r| == |tags|
  {
    if entries == [] then tags
    else FlushTags(tags, entries[..|entries| - 1])[entries[|entries| - 1] := 0xFF]
  }

  function Enter(t: Tlb, page: nat, v: bv8): Tlb
    requires TlbOk(t) && page < TLB_PAGES
  {
    if |t.entries| >= MAX_TLB_ENTRIES then Tlb(FlushTags(t.tags, t.entries)[page := v], [page])
    else Tlb(t.tags[page := v], t.entries + [page])
  }

  /** cpu_mmu_translate for a read or write access of an identity-mapped page. It passes its write and user
      arguments to cpu_set_tlb_entry in the opposite order, so a read sets "user" to false and "write" to the
      privilege level. */
  function Map(t: Tlb, smc: seq<bool>, page: nat, write: bool, user: bool): Tlb
    requires TlbOk(t) && page < TLB_PAGES
  {
    Enter(t, page, NewTag(page, PageHasCode(smc, page), write, user))
  }

  /** The check before a fetch; `nx` is the no-execute attribute of the entry. */
  predicate Unmapped(tag: bv8, user: bool, nx: bool) {
    (if user then (tag >> 4) & 1 else tag & 1) != 0 || nx
  }

  function Check(t: Tlb, smc: seq<bool>, page: nat, user: bool, nx: bool): Tlb
    requires TlbOk(t) && page < TLB_PAGES
  {
    if Unmapped(t.tags[page], user, nx) then Map(t, smc, page, false, user) else t
  }

  /** What a translation allows afterwards. Because of the exchanged arguments a page read in user mode stays closed to
      the user, and a page written by the supervisor stays closed to its writes. */
  lemma TranslationMeans(t: Tlb, smc: seq<bool>, page: nat, write: bool, user: bool)
    requires TlbOk(t) && page < TLB_PAGES
    ensures var v := Map(t, smc, page, write, user).tags[page];
            var there := page < 0x8_0000 && !(0xA0 <= page < 0xC0);
            var writable := page < 0x8_0000 && !(0xA0 <= page < 0x100) && !PageHasCode(smc, page);
            && (v & 0x01 == 0 <==> there) && (v & 0x10 == 0 <==> there && write)
            && (v & 0x04 == 0 <==> writable && user) && (v & 0x40 == 0 <==> writable && user && write)
  {
    NewTagMeans(page, PageHasCode(smc, page), write, user);
    hide NewTag, PageHasCode, FlushTags;
  }

  /** A fetch from another page translates it unless its tag allows the read and nothing forbids execution; the user's
      fetches translate every time, unless the page was entered for user writing. */
  lemma FetchTranslates(t: Tlb, smc: seq<bool>, page: nat, user: bool, nx: bool)
    requires TlbOk(t) && page < TLB_PAGES
    ensures var v, c := t.tags[page], Check(t, smc, page, user, nx);
            && c == (if !nx && v & (if user then 0x10 else 0x01) == 0 then t else Map(t, smc, page, false, user))
            && (user && v & 0x10 != 0 ==> c.tags[page] & 0x10 != 0)
  {
    ReadBits(t.tags[page]);
    TranslationMeans(t, smc, page, false, user);
    hide Map, PageHasCode;
  }

  lemma ReadBits(v: bv8)
    ensures ((v >> 4) & 1 == 0 <==> v & 0x10 == 0) && (v & 1 == 0 <==> v & 0x01 == 0)
  {
  }

  lemma {:induction false} FlushTagsKeeps<Op(!new)>(s: Cache<Op>, entries: seq<nat>)
    requires Coherent(s) && AllBelow(entries, TLB_PAGES)
    ensures Coherent(s.(tags := FlushTags(s.tags, entries))) && KeepsUserSlow(s.tags, FlushTags(s.tags, entries))
    decreases |entries|
  {
    CoherentParts(s);
    hide Coherent, UserSlow;
    if entries != [] {
      var rest := entries[..|entries| - 1];
      FlushTagsKeeps(s, rest);
      var tags := FlushTags(s.tags, rest);
      TagKeeps(s.(tags := tags), entries[|entries| - 1], 0xFF);
      UserBitsKept(0);
      PutKeepsUserSlow(tags, entries[|entries| - 1], 0xFF);
    }
  }

  /** Translating a page keeps coherence; and user writes stay slow unless it was for writing. */
  lemma MapKeeps<Op(!new)>(s: Cache<Op>, entries: seq<nat>, page: nat, write: bool, user: bool)
    requires Coherent(s) && TlbOk(Tlb(s.tags, entries)) && page < TLB_PAGES
    ensures var t := Map(Tlb(s.tags, entries), s.smc, page, write, user);
            TlbOk(t) && Coherent(s.(tags := t.tags)) && (!write ==> KeepsUserSlow(s.tags, t.tags))
  {
    hide Coherent, UserSlow, PageHasCode, NewTag, UserBits, FlushTags;
    var v := NewTag(page, PageHasCode(s.smc, page), write, user);
    NewTagMarksCode(page, write, user);
    if !write {
      NewTagIsUserSlow(page, PageHasCode(s.smc, page), user);
    }
    EnterKeeps(s, entries, page, v);
  }

  lemma EnterKeeps<Op(!new)>(s: Cache<Op>, entries: seq<nat>, page: nat, v: bv8)
    requires Coherent(s) && TlbOk(Tlb(s.tags, entries)) && page < TLB_PAGES
    requires PageHasCode(s.smc, page) ==> v & 0x44 == 0x44
    ensures var t := Enter(Tlb(s.tags, entries), page, v);
            TlbOk(t) && Coherent(s.(tags := t.tags)) && (UserBits(v) ==> KeepsUserSlow(s.tags, t.tags))
  {
    FlushTagsKeeps(s, entries);
    var flushed := FlushTags(s.tags, entries);
    hide Coherent, UserSlow, PageHasCode, UserBits, FlushTags;
    TagKeeps(s, page, v);
    TagKeeps(s.(tags := flushed), page, v);
    if UserBits(v) {
      PutKeepsUserSlow(s.tags, page, v);
      PutKeepsUserSlow(flushed, page, v);
    }
  }

  lemma CheckKeeps<Op(!new)>(s: Cache<Op>, entries: seq<nat>, page: nat, user: bool, nx: bool)
    requires Coherent(s) && TlbOk(Tlb(s.tags, entries)) && page < TLB_PAGES
    ensures var t := Check(Tlb(s.tags, entries), s.smc, page, user, nx);
            TlbOk(t) && Coherent(s.(tags := t.tags)) && KeepsUserSlow(s.tags, t.tags)
  {
    MapKeeps(s, entries, page, false, user);
    assert s.(tags := s.tags) == s;
    hide Coherent, UserSlow, Map, Unmapped;
  }

  /** Whether the cpu_write8/16/32 macros leave the fast path (TLB_ENTRY_INVALID8/16/32). */
  predicate IsSlow(tag: bv8, user: bool, addr: nat, n: nat)
    requires n > 0
  {
    var t := if user then tag >> 6 else tag >> 2;
    addr % n != 0 || (if n == 4 then t & 3 != 0 else t & 1 != 0)
  }

  /** In user mode every write takes the slow path, as long as no page was entered for user writing. */
  lemma UserWritesAreSlow(tags: seq<bv8>, addr: nat, n: nat)
    requires n > 0 && addr / PAGE < |tags| && UserSlow(tags)
    ensures IsSlow(tags[addr / PAGE], true, addr, n)
  {
    UserBitsKept(tags[addr / PAGE]);
  }

  // --- The records a logged write adds ---

  /** One record for an aligned write, one for each byte of another. */
  function Records(m: seq<byte>, a: nat, n: nat): (r: seq<Dirty>)
    requires n in {1, 2, 4} && a + n <= |m|
  {
    if a % n == 0 then [Dirty(a, 8 * n, Value(m[a..a + n]))] else ByteRecords(m, a, n)
  }

  function ByteRecords(m: seq<byte>, a: nat, n: nat): (r: seq<Dirty>)
    requires a + n <= |m|
    decreases n
  {
    if n == 0 then [] else [Dirty(a, 8, Value(m[a..a + 1]))] + ByteRecords(m, a + 1, n - 1)
  }

  /** Writing the bytes one after another logs the values from before the write. */
  lemma ByteRecordsAfter(m: seq<byte>, a: nat, n: nat, v: byte, log: seq<Dirty>)
    requires 0 < n && a + n <= |m|
    ensures log + Records(m, a, 1) + ByteRecords(Store(m, a, [v]), a + 1, n - 1) == log + ByteRecords(m, a, n)
  {
    SameRecords(m, Store(m, a, [v]), a + 1, n - 1);
    assert ByteRecords(m, a, n) == Records(m, a, 1) + ByteRecords(m, a + 1, n - 1);
  }

  lemma {:induction false} SameRecords(m: seq<byte>, k: seq<byte>, a: nat, n: nat)
    requires a + n <= |m| == |k| && forall i :: a <= i < a + n ==> m[i] == k[i]
    ensures ByteRecords(m, a, n) == ByteRecords(k, a, n)
    decreases n
  {
    if n > 0 {
      assert m[a..a + 1] == k[a..a + 1];
      SameRecords(m, k, a + 1, n - 1);
    }
  }

  // --- The interpreter's whole state ---

  /** What cpu_get_trace does: stop on a null trace, or return an index into the trace buffer. */
  datatype Fetch = Fatal | Trace(ptr: nat, cached: bool)

  /** Bytes fetched for an instruction that may cross its page. */
  const PREFETCH := 15

  /** The cache with the decoding mode, the segment override in force (0 for none), the privilege level, the page
      of the last fetch, the pages entered into the TLB, and the log of overwritten values. */
  datatype Machine<!Op> = Machine(cache: Cache<Op>, hash: nat, left: nat, user: bool, lastEip: nat,
                                  entries: seq<nat>, log: seq<Dirty>)

  ghost predicate Sound<Op(!new)>(a: Machine<Op>) {
    && Coherent(a.cache) && MAX_TRACE_SIZE < |a.cache.buf|
    && TlbOk(Tlb(a.cache.tags, a.entries)) && WellLogged(|a.cache.mem|, a.log)
  }

  function ContextOf<Op>(a: Machine<Op>): Context { Context(a.hash, a.left) }

  function WithTlb<Op>(a: Machine<Op>, t: Tlb): Machine<Op> {
    a.(cache := a.cache.(tags := t.tags), entries := t.entries)
  }

  function TlbOf<Op>(a: Machine<Op>): Tlb { Tlb(a.cache.tags, a.entries) }

  /** A fetch on another page than the last one checks the translation first. */
  function Located<Op>(a: Machine<Op>, p: nat, nx: bool): Machine<Op>
    requires TlbOk(TlbOf(a)) && p < TARGET_ADDRESS_SPACE_SIZE
  {
    if p / PAGE == a.lastEip / PAGE then a
    else WithTlb(a, Check(TlbOf(a), a.cache.smc, p / PAGE, a.user, nx)).(lastEip := p - p % PAGE)
  }

  /** A miss decodes: a trace that is cached, or, if the first instruction is not known to end on its page, that
      instruction alone. */
  ghost predicate Missed<Op(!new)>(a: Machine<Op>, p: nat, nextNx: bool, beyond: seq<byte>, f: Fetch, b: Machine<Op>)
    requires TlbOk(TlbOf(a)) && p < TARGET_ADDRESS_SPACE_SIZE && p < |a.cache.mem| && |beyond| >= PREFETCH
  {
    assert (p + PREFETCH) / PAGE < TLB_PAGES;
    var s, h := a.cache, ContextOf(a);
    if AtEnd(s.dec, a.hash, s.mem, p, PageLimit(p)) then
      var l := WithTlb(a, Check(TlbOf(a), s.smc, (p + PREFETCH) / PAGE, a.user, nextNx));
      && f == Trace(s.usage, false) && SplitTrace(l.cache, b.cache, p, h, beyond)
      && b == l.(cache := b.cache, left := s.dec.step(Prefetch(s.mem, beyond, p), h).left)
    else
      && f == Trace(s.usage, true) && NewTrace(s, b.cache, p, h)
      && b == a.(cache := b.cache, left := Leaves(s.dec, h, ReadOff(b.cache.buf, s.usage), s.mem, p))
  }

  /** The lookup of cpu_get_trace: a matching entry is served as it is; otherwise the instructions are decoded,
      after a flush if the buffer could overflow. */
  ghost predicate LookedUp<Op(!new)>(l: Machine<Op>, p: nat, nextNx: bool, beyond: seq<byte>, f: Fetch, b: Machine<Op>)
    requires TlbOk(TlbOf(l)) && p < TARGET_ADDRESS_SPACE_SIZE && p < |l.cache.mem| && |beyond| >= PREFETCH
    requires |l.cache.info| > 0
  {
    var i := l.cache.info[p % |l.cache.info|];
    if Matches(l.cache, p, l.hash) then
      b == l && f == if i.ptr.None? then Fatal else Trace(i.ptr.value, true)
    else
      Missed(l.(cache := MadeRoom(l.cache)), p, nextNx, beyond, f, b)
  }

  /** cpu_get_trace at physical address `p`. */
  ghost predicate Fetched<Op(!new)>(a: Machine<Op>, p: nat, nx: bool, nextNx: bool, beyond: seq<byte>, f: Fetch,
                                    b: Machine<Op>)
    requires TlbOk(TlbOf(a)) && p < TARGET_ADDRESS_SPACE_SIZE && p < |a.cache.mem| && |beyond| >= PREFETCH
    requires |a.cache.info| > 0
  {
    LookedUp(Located(a, p, nx), p, nextNx, beyond, f, b)
  }

  /** The state after initialization: no code marked, no trace cached, no page translated. */
  function Blank<Op>(dec: Decoder<Op>, m: seq<byte>, infoEntries: nat, bufSize: nat): Machine<Op> {
    Machine(Cache(dec, m, seq(|m| / CHUNK, _ => false), seq(infoEntries, _ => FLUSHED), seq(bufSize, _ => TraceEnd), 0,
                  seq(TLB_PAGES, _ => 0xFF), seq(infoEntries, _ => 0), seq(infoEntries, _ => 0),
                  seq(infoEntries, _ => 0)),
            0, 0, false, 0, [], [])
  }

  lemma BlankIsSound<Op(!new)>(dec: Decoder<Op>, m: seq<byte>, infoEntries: nat, bufSize: nat)
    requires Determined(dec) && Bounded(dec) && 0 < |m| <= TARGET_ADDRESS_SPACE_SIZE && |m| % PAGE == 0
    requires 0 < infoEntries && MAX_TRACE_SIZE < bufSize
    ensures Sound(Blank(dec, m, infoEntries, bufSize)) && UserSlow(Blank(dec, m, infoEntries, bufSize).cache.tags)
  {
    UserBitsKept(0);
  }

  lemma SlowStoreTags<Op>(s: Cache<Op>, a: nat, data: seq<byte>)
    requires Shape(s) && a + |data| <= |s.mem| && a < |s.mem|
    ensures |SlowStore(s, a, data).tags| == |s.tags| && |SlowStore(s, a, data).buf| == |s.buf|
  {
  }

  lemma LogGrows(size: nat, log: seq<Dirty>, m: seq<byte>, a: nat, n: nat)
    requires WellLogged(size, log) && n in {1, 2, 4} && a + n <= |m| == size
    ensures WellLogged(size, log + Records(m, a, n))
  {
    if a % n != 0 {
      BytesInMemory(m, a, n);
    }
  }

  lemma {:induction false} BytesInMemory(m: seq<byte>, a: nat, n: nat)
    requires a + n <= |m|
    ensures WellLogged(|m|, ByteRecords(m, a, n))
    decreases n
  {
    if n > 0 {
      BytesInMemory(m, a + 1, n - 1);
    }
  }

  lemma NoRecords(m: seq<byte>, a: nat)
    requires a <= |m|
    ensures ByteRecords(m, a, 0) == []
  {
  }
}
