/** The interpreter's trace cache, its bitmap of code chunks and the guest's memory accesses
    (src/halfix/trace.c, smc.c, decoder.c, access.c), updated in place. */
module TraceCache {
  import opened GuestMemory
  import opened Traces
  import opened CacheState
  import opened MachineState

  class Cpu<Op(!new)> {
    const dec: Decoder<Op>
    const mem: array<byte>
    const smc: array<bool>
    const info: array<TraceInfo>
    const buf: array<Slot<Op>>
    const tags: array<bv8>
    var usage: nat
    var stateHash: nat
    var left: nat
    var lastPhysEip: nat
    var user: bool
    var tlbEntries: seq<nat>
    var dirtyMem: seq<Dirty>
    ghost var count: seq<nat>
    ghost var reach: seq<nat>
    ghost var began: seq<nat>

    ghost function View(): Cache<Op>
      reads this, mem, smc, info, buf, tags
    {
      Cache(dec, mem[..], smc[..], info[..], buf[..], usage, tags[..], count, reach, began)
    }

    /** The five regions are different objects. */
    predicate Separate() {
      && mem as object !in [smc as object, info, buf, tags]
      && smc as object !in [info as object, buf, tags]
      && info as object !in [buf as object, tags]
      && buf as object != tags
    }

    ghost function State(): Machine<Op>
      reads this, mem, smc, info, buf, tags
    {
      Machine(View(), stateHash, left, user, lastPhysEip, tlbEntries, dirtyMem)
    }

    ghost predicate Valid()
      reads this, mem, smc, info, buf, tags
    {
      Separate() && Sound(State())
    }

    lemma ValidParts()
      requires Valid()
      ensures Separate() && Coherent(View()) && Shape(View()) && Bookkeeping()
    {
    }

    /** What Valid says of the fields besides the cache. */
    ghost predicate Bookkeeping()
      reads this, tags
    {
      MAX_TRACE_SIZE < buf.Length && TlbOk(Tlb(tags[..], tlbEntries)) && WellLogged(mem.Length, dirtyMem)
    }

    lemma ValidWhole()
      requires Separate() && Coherent(View()) && Bookkeeping()
      ensures Valid()
    {
    }

    /** Memory as the log of overwritten values would restore it. */
    ghost function Rewound(): seq<byte>
      requires WellLogged(mem.Length, dirtyMem)
      reads this, mem
    {
      Undo(mem[..], dirtyMem)
    }

    /** cpu_init_mem, cpu_init_32bit and cpu_reset: no code marked, no trace cached, no page translated. */
    constructor (dec: Decoder<Op>, guest: array<byte>, infoEntries: nat, bufSize: nat)
      requires Determined(dec) && Bounded(dec)
      requires 0 < guest.Length <= TARGET_ADDRESS_SPACE_SIZE && guest.Length % PAGE == 0
      requires 0 < infoEntries && MAX_TRACE_SIZE < bufSize
      ensures Valid() && mem == guest && State() == Blank(dec, guest[..], infoEntries, bufSize)
      ensures fresh(smc) && fresh(info) && fresh(buf) && fresh(tags)
    {
      this.dec, mem := dec, guest;
      smc := new bool[guest.Length / CHUNK](_ => false);
      info := new TraceInfo[infoEntries](_ => FLUSHED);
      buf := new Slot<Op>[bufSize](_ => TraceEnd);
      tags := new bv8[TLB_PAGES](_ => 0xFF);
      usage, stateHash, left, lastPhysEip, user, tlbEntries, dirtyMem := 0, 0, 0, 0, false, [], [];
      count, reach, began := seq(infoEntries, _ => 0), seq(infoEntries, _ => 0), seq(infoEntries, _ => 0);
      new;
      BlankIsSound(dec, mem[..], infoEntries, bufSize);
      hide Sound;
      var b := Blank(dec, mem[..], infoEntries, bufSize);
      assert smc[..] == b.cache.smc && info[..] == b.cache.info && buf[..] == b.cache.buf && tags[..] == b.cache.tags;
    }

    // --- smc.c ---

    function SmcHasCode(phys: nat): bool
      reads smc
    {
      var c := phys / CHUNK;
      if c >= smc.Length then false else smc[c]
    }

    method SmcSetCode(phys: nat)
      modifies smc
      ensures smc[..] == MarkChunks(old(smc[..]), phys / CHUNK, phys / CHUNK)
    {
      var c := phys / CHUNK;
      if c >= smc.Length {
        return;
      }
      smc[c] := true;
    }

    /** Marks every chunk from the trace's first byte to the one after its last, and sends writes
        to the page through the slow path. */
    method SetSmc(phys: nat, length: nat)
      requires phys / PAGE < tags.Length && Separate()
      modifies smc, tags
      ensures smc[..] == MarkChunks(old(smc[..]), phys / CHUNK, (phys + length) / CHUNK)
      ensures tags[..] == old(tags[..])[phys / PAGE := old(tags[phys / PAGE]) | 0x44]
    {
      tags[phys / PAGE] := tags[phys / PAGE] | 0x44;
      var b128 := (phys + length) / CHUNK - phys / CHUNK + 1;
      for i := 0 to b128
        invariant smc[..] == MarkChunks(old(smc[..]), phys / CHUNK, phys / CHUNK + i - 1)
        modifies smc
      {
        SmcSetCode(phys + i * CHUNK);
      }
    }

    /** cpu_smc_invalidate for an identity-mapped page. `quit` asks the caller to leave the
        execution loop because a dropped trace may be the running one. */
    method SmcInvalidate(phys: nat) returns (quit: bool)
      requires Separate() && Shape(View()) && phys < mem.Length && SmcHasCode(phys)
      modifies smc, info, tags
      ensures View() == Invalidate(old(View()), phys)
      ensures quit <==> ForgotHolding(old(info[..]), info[..], phys)
    {
      ExitMeans(smc[..], info[..], phys);
      var page, end := phys / PAGE, phys / CHUNK % CHUNKS_PER_PAGE;
      quit := false;
      CodeIsCode(smc[..], phys);
      hide AnyCode;
      if !AnyCode(smc[..], page * CHUNKS_PER_PAGE, page * CHUNKS_PER_PAGE + end) {
        return;
      }
      hide KillAll, ClearChunks, PageHasCode, RunningTraceHit, ForgotHolding;
      quit := DropPage(phys);
      ForgetChunks(phys);
    }

    method DropPage(phys: nat) returns (quit: bool)
      requires Separate() && info.Length > 0 && phys / CHUNK < smc.Length
               && smc.Length * CHUNK <= TARGET_ADDRESS_SPACE_SIZE
      modifies info
      ensures info[..] == KillAll(smc[..], old(info[..]), phys)
      ensures quit <==> RunningTraceHit(smc[..], old(info[..]), phys)
    {
      KillAllIsKillBetween(smc[..], info[..], phys);
      quit := DropTraces(phys / PAGE, phys / CHUNK % CHUNKS_PER_PAGE, phys);
    }

    method ForgetChunks(phys: nat)
      requires Separate() && phys / CHUNK < smc.Length && phys / PAGE < tags.Length
      modifies smc, tags
      ensures smc[..] == ClearChunks(old(smc[..]), phys)
      ensures tags[..] == if PageHasCode(smc[..], phys / PAGE) then old(tags[..])
                          else old(tags[..])[phys / PAGE := 0xFF]
    {
      ghost var before := smc[..];
      forall c | phys / PAGE * CHUNKS_PER_PAGE <= c <= phys / CHUNK {
        smc[c] := false;
      }
      assert smc[..] == ClearChunks(before, phys);
      if !PageHasCode(smc[..], phys / PAGE) {
        TlbInvalidate(phys / PAGE);
      }
    }

    /** The two nested loops of cpu_smc_invalidate. */
    method DropTraces(page: nat, end: nat, phys: nat) returns (quit: bool)
      requires Separate() && info.Length > 0 && end < CHUNKS_PER_PAGE
      requires page * CHUNKS_PER_PAGE + end < smc.Length && smc.Length * CHUNK <= TARGET_ADDRESS_SPACE_SIZE
      modifies info
      ensures info[..] == KillBetween(smc[..], old(info[..]), page * PAGE, page * PAGE + (end + 1) * CHUNK)
      ensures quit <==> RunningBetween(smc[..], old(info[..]), page * PAGE, page * PAGE + (end + 1) * CHUNK, phys)
    {
      ghost var info0, code := info[..], smc[..];
      quit := false;
      NothingKilled(code, info0, page * PAGE, phys);
      hide KillBetween, RunningBetween;
      for i := 0 to end + 1
        invariant info[..] == KillBetween(code, info0, page * PAGE, page * PAGE + i * CHUNK)
        invariant quit <==> RunningBetween(code, info0, page * PAGE, page * PAGE + i * CHUNK, phys)
      {
        assert (page * PAGE + i * CHUNK) / CHUNK == page * CHUNKS_PER_PAGE + i;
        if smc[page * CHUNKS_PER_PAGE + i] {
          quit := DropChunk(page * PAGE, page * PAGE + i * CHUNK, phys, quit, info0);
        } else {
          NothingToKill(code, info0, page * PAGE, page * PAGE + i * CHUNK, phys);
        }
      }
    }

    method DropChunk(lo: nat, physbase: nat, phys: nat, quit0: bool, ghost info0: seq<TraceInfo>) returns (quit: bool)
      requires Separate() && info.Length == |info0| > 0
      requires lo <= physbase && physbase % CHUNK == 0 && HasCode(smc[..], physbase)
      requires smc.Length * CHUNK <= TARGET_ADDRESS_SPACE_SIZE
      requires info[..] == KillBetween(smc[..], info0, lo, physbase)
      requires quit0 <==> RunningBetween(smc[..], info0, lo, physbase, phys)
      modifies info
      ensures info[..] == KillBetween(smc[..], info0, lo, physbase + CHUNK)
      ensures quit <==> RunningBetween(smc[..], info0, lo, physbase + CHUNK, phys)
    {
      quit := quit0;
      ghost var code := smc[..];
      hide KillBetween, RunningBetween, Hits;
      for j := 0 to CHUNK
        invariant info[..] == KillBetween(code, info0, lo, physbase + j)
        invariant quit <==> RunningBetween(code, info0, lo, physbase + j, phys)
      {
        quit := DropEntry(lo, physbase + j, phys, quit, code, info0);
      }
    }

    method DropEntry(ghost lo: nat, q: nat, phys: nat, quit0: bool, ghost code: seq<bool>, ghost info0: seq<TraceInfo>)
      returns (quit: bool)
      requires info.Length == |info0| > 0 && lo <= q && HasCode(code, q) && q != INVALID_PHYS
      requires info[..] == KillBetween(code, info0, lo, q)
      requires quit0 <==> RunningBetween(code, info0, lo, q, phys)
      modifies info
      ensures info[..] == KillBetween(code, info0, lo, q + 1)
      ensures quit <==> RunningBetween(code, info0, lo, q + 1, phys)
    {
      KillStep(code, info0, lo, q, phys);
      hide KillBetween, RunningBetween, Hits;
      quit := quit0;
      var k := TraceGetEntry(q);
      if k.Some? {
        if !quit && Hits(info[k.value], phys) {
          quit := true;
        }
        info[k.value] := info[k.value].(phys := INVALID_PHYS);
      }
    }

    // --- access.c ---

    method AccessRead8(addr: nat) returns (v: nat)
      requires addr < mem.Length
      ensures v == mem[addr] == Value(mem[addr..addr + 1])
    {
      v := mem[addr];
    }

    /** Reads of two or four bytes: one host load when aligned, otherwise byte by byte. */
    method AccessRead(addr: nat, n: nat) returns (v: nat)
      requires n in {2, 4} && addr + n <= mem.Length
      ensures v == Value(mem[addr..addr + n])
    {
      if addr % n == 0 {
        return Value(mem[addr..addr + n]);
      }
      v := 0;
      for i := 0 to n
        invariant v == Value(mem[addr..addr + i])
      {
        var b := AccessRead8(addr + i);
        ValueSnoc(mem[addr..addr + i], mem[addr + i]);
        assert mem[addr..addr + i + 1] == mem[addr..addr + i] + [mem[addr + i]];
        v := v + Weight(i) * b;
      }
    }

    method MemMakeDirty(addr: nat, size: nat)
      requires size in {8, 16, 32} && addr + size / 8 <= mem.Length
      modifies this`dirtyMem
      ensures dirtyMem == old(dirtyMem) + [Dirty(addr, size, Value(mem[addr..addr + size / 8]))]
    {
      var data := Value(mem[addr..addr + size / 8]);
      dirtyMem := dirtyMem + [Dirty(addr, size, data)];
    }

    /** The common end of the three write functions: log, forget the traces, store. */
    method StoreAligned(addr: nat, data: seq<byte>) returns (quit: bool)
      requires Separate() && Shape(View())
      requires |data| in {1, 2, 4} && addr + |data| <= mem.Length
      modifies mem, smc, info, tags, this`dirtyMem
      ensures View() == SlowStore(old(View()), addr, data) && quit == old(Asks(View(), addr))
      ensures mem[..] == Store(old(mem[..]), addr, data)
      ensures dirtyMem == old(dirtyMem) + [Dirty(addr, 8 * |data|, Value(old(mem[..])[addr..addr + |data|]))]
    {
      MemMakeDirty(addr, 8 * |data|);
      quit := false;
      if SmcHasCode(addr) {
        quit := SmcInvalidate(addr);
      }
      HostStore(addr, data);
    }

    /** cpu_access_write8, and the aligned case of cpu_access_write16 and cpu_access_write32. */
    method AccessStore(addr: nat, data: seq<byte>) returns (quit: bool)
      requires Valid() && |data| in {1, 2, 4} && addr + |data| <= mem.Length && addr % |data| == 0
      modifies mem, smc, info, tags, this`dirtyMem
      ensures Valid() && View() == SlowStore(old(View()), addr, data) && quit == old(Asks(View(), addr))
      ensures mem[..] == Store(old(mem[..]), addr, data)
      ensures dirtyMem == old(dirtyMem) + Records(old(mem[..]), addr, |data|)
    {
      ValidParts();
      AlignedInChunk(addr, |data|);
      ghost var s0 := View();
      SlowStoreTags(s0, addr, data);
      LogGrows(mem.Length, dirtyMem, mem[..], addr, |data|);
      hide Valid, View, Separate, Coherent, Shape, SlowStore, Store, Value, WellLogged, Asks;
      SlowStoreKeeps(s0, addr, data);
      quit := StoreAligned(addr, data);
      ValidWhole();
    }

    /** cpu_access_write8/16/32: aligned writes in one piece, others byte by byte. */
    method AccessWrite(addr: nat, n: nat, data: nat) returns (quit: bool)
      requires Valid() && n in {1, 2, 4} && addr + n <= mem.Length
      modifies mem, smc, info, tags, this`dirtyMem
      ensures Valid() && mem[..] == Store(old(mem[..]), addr, LittleEndian(n, data))
      ensures View() == Written(old(View()), true, addr, n, data)
      ensures quit == old(WriteAsks(View(), true, addr, n, data))
      ensures dirtyMem == old(dirtyMem) + Records(old(mem[..]), addr, n)
    {
      if addr % n == 0 {
        quit := AccessStore(addr, LittleEndian(n, data));
      } else {
        quit := AccessWriteBytes(addr, n, data);
      }
    }

    /** Writing the `n` low bytes of `data` at `addr` will lead to cache `s` and log `log`, and have asked for the exit
        or not. */
    ghost predicate LeadsTo(addr: nat, n: nat, data: nat, quit: bool, s: Cache<Op>, log: seq<Dirty>, asked: bool)
      reads this, mem, smc, info, buf, tags
    {
      && Valid() && addr + n <= mem.Length && Shape(View()) && |View().mem| == mem.Length
      && ByteStores(View(), addr, LittleEndian(n, data)) == s
      && (quit || ByteAsks(View(), addr, LittleEndian(n, data))) == asked
      && dirtyMem + ByteRecords(mem[..], addr, n) == log
    }

    lemma NothingLeft(addr: nat, data: nat, quit: bool, s: Cache<Op>, log: seq<Dirty>, asked: bool)
      requires LeadsTo(addr, 0, data, quit, s, log, asked)
      ensures Valid() && View() == s && dirtyMem == log && quit == asked
    {
      ByteStoresDone(View(), addr, data);
      ByteAsksDone(View(), addr, data);
      NoRecords(mem[..], addr);
      hide Valid, Shape, ByteStores, ByteAsks, ByteRecords, View;
    }

    /** The unaligned case: one byte at a time. */
    method AccessWriteBytes(addr: nat, n: nat, data: nat) returns (quit: bool)
      requires Valid() && addr + n <= mem.Length
      modifies mem, smc, info, tags, this`dirtyMem
      ensures Valid() && mem[..] == Store(old(mem[..]), addr, LittleEndian(n, data))
      ensures View() == ByteStores(old(View()), addr, LittleEndian(n, data))
      ensures quit == old(ByteAsks(View(), addr, LittleEndian(n, data)))
      ensures dirtyMem == old(dirtyMem) + ByteRecords(old(mem[..]), addr, n)
    {
      ValidParts();
      ByteStoresKeep(View(), addr, LittleEndian(n, data));
      hide Valid, ByteStores, ByteAsks, Shape, Coherent, Store, ByteRecords, LittleEndian, Separate;
      ghost var s := ByteStores(View(), addr, LittleEndian(n, data));
      ghost var asked := ByteAsks(View(), addr, LittleEndian(n, data));
      quit := ByteLoop(addr, n, data, s, dirtyMem + ByteRecords(mem[..], addr, n), asked);
    }

    /** The byte loop: `data >> j` is what is left to write. */
    method ByteLoop(addr: nat, n: nat, data: nat, ghost s: Cache<Op>, ghost log: seq<Dirty>, ghost asked: bool)
      returns (quit: bool)
      requires LeadsTo(addr, n, data, false, s, log, asked)
      modifies mem, smc, info, tags, this`dirtyMem
      ensures Valid() && View() == s && dirtyMem == log && quit == asked
    {
      hide *;
      var rest := data;
      quit := false;
      for i := 0 to n
        invariant LeadsTo(addr + i, n - i, rest, quit, s, log, asked)
      {
        rest, quit := WriteNext(addr + i, n - i, rest, quit, s, log, asked);
      }
      NothingLeft(addr + n, rest, quit, s, log, asked);
    }

    method WriteNext(addr: nat, n: nat, data: nat, quit: bool, ghost s: Cache<Op>, ghost log: seq<Dirty>,
                     ghost asked: bool)
      returns (rest: nat, quit': bool)
      requires n > 0 && LeadsTo(addr, n, data, quit, s, log, asked)
      modifies mem, smc, info, tags, this`dirtyMem
      ensures LeadsTo(addr + 1, n - 1, rest, quit', s, log, asked)
    {
      ValidParts();
      ByteRecordsAfter(mem[..], addr, n, data % 256, dirtyMem);
      ByteStoresStep(View(), addr, n, data);
      ByteAsksStep(View(), addr, n, data);
      hide Valid, View, Separate, Coherent, Shape, SlowStore, Store, ByteStores, ByteAsks, Asks, ByteRecords, Records,
           LittleEndian;
      var asks := AccessStore(addr, [data % 256]);
      ValidParts();
      rest, quit' := data / 256, quit || asks;
    }

    /** Whether the cpu_write8/16/32 macros leave the fast path (TLB_ENTRY_INVALID8/16/32). */
    function SlowPath(addr: nat, n: nat): bool
      requires n in {1, 2, 4} && addr / PAGE < tags.Length
      reads this, tags
    {
      IsSlow(tags[addr / PAGE], user, addr, n)
    }

    /** The cpu_write8/16/32 macros: a guest store through the TLB. */
    method Write(addr: nat, n: nat, data: nat) returns (quit: bool)
      requires Valid() && n in {1, 2, 4} && addr + n <= mem.Length
      modifies mem, smc, info, tags, this`dirtyMem
      ensures Valid() && mem[..] == Store(old(mem[..]), addr, LittleEndian(n, data))
      ensures View() == Written(old(View()), old(SlowPath(addr, n)), addr, n, data)
      ensures quit == old(WriteAsks(View(), SlowPath(addr, n), addr, n, data))
      ensures dirtyMem == old(dirtyMem) + if old(SlowPath(addr, n)) then Records(old(mem[..]), addr, n) else []
    {
      if SlowPath(addr, n) {
        quit := AccessWrite(addr, n, data);
      } else {
        quit := false;
        ValidTagIsUnmarked(tags[addr / PAGE]);
        AlignedInChunk(addr, n);
        FastPathUnlooked(View(), addr);
        StoreKeeps(View(), addr, LittleEndian(n, data));
        hide Coherent, Store;
        HostStore(addr, LittleEndian(n, data));
      }
    }

    // --- basic_block.cpp ---

    /** The rollback loop of halfix_enter: newest record first. */
    method Rollback()
      requires WellLogged(mem.Length, dirtyMem)
      modifies mem, this`dirtyMem
      ensures mem[..] == old(Rewound()) && dirtyMem == []
    {
      var i := |dirtyMem|;
      assert dirtyMem[..i] == dirtyMem;
      while i > 0
        invariant 0 <= i <= |dirtyMem| && dirtyMem == old(dirtyMem)
        invariant Undo(mem[..], dirtyMem[..i]) == old(Rewound())
      {
        i := i - 1;
        var d := dirtyMem[i];
        assert dirtyMem[..i + 1][..i] == dirtyMem[..i];
        HostStore(d.addr, LittleEndian(d.size / 8, d.data));
      }
      dirtyMem := [];
    }

    method HostStore(addr: nat, data: seq<byte>)
      requires addr + |data| <= mem.Length
      modifies mem
      ensures mem[..] == Store(old(mem[..]), addr, data)
    {
      forall i | 0 <= i < |data| {
        mem[addr + i] := data[i];
      }
    }

    // --- mmu.c ---

    method TlbInvalidate(page: nat)
      requires page < tags.Length
      modifies tags
      ensures tags[..] == old(tags[..])[page := 0xFF]
    {
      tags[page] := 0xFF;
    }

    // --- trace.c ---

    method TraceGetEntry(phys: nat) returns (k: Option<nat>)
      requires info.Length > 0
      ensures k == if info[HashEip(phys)].phys == phys then Some(HashEip(phys)) else None
    {
      var i := HashEip(phys);
      if info[i].phys != phys {
        return None;
      }
      return Some(i);
    }

    function HashEip(phys: nat): nat
      requires info.Length > 0
    {
      phys % info.Length
    }

    method TraceFlush()
      modifies info, this`usage
      ensures info[..] == seq(info.Length, _ => FLUSHED)
      ensures usage == 0
    {
      for j := 0 to info.Length
        invariant forall k | 0 <= k < j :: info[k] == FLUSHED
      {
        info[j] := FLUSHED;
      }
      usage := 0;
    }

    // --- decoder.c ---

    method Emit(n: nat, x: Slot<Op>)
      requires usage + n < buf.Length
      modifies buf
      ensures buf[..usage] == old(buf[..usage])
      ensures buf[usage..usage + n + 1] == old(buf[usage..usage + n]) + [x]
    {
      buf[usage + n] := x;
    }

    ghost function Ctx(): Context
      reads this
    {
      Context(stateHash, left)
    }

    /** The check at the top of the decoding loop: the next instruction is not known to end on
        this page. */
    function AtPageEnd(rawp: nat, highMark: nat): bool
      requires rawp <= mem.Length || rawp % PAGE + LONGEST <= PAGE
      reads this, mem
    {
      var maxLength := PAGE - rawp % PAGE;
      rawp > highMark && (maxLength >= LONGEST || !dec.fits(mem[rawp..], stateHash, maxLength))
    }

    /** The check agrees with its specification wherever the cursor can be. */
    lemma PageEndIs(rawp: nat, limit: nat)
      requires LONGEST <= limit <= mem.Length
      requires if rawp < limit then PAGE - rawp % PAGE == limit - rawp
               else PAGE - rawp % PAGE >= LONGEST && rawp > limit - LONGEST
      ensures AtPageEnd(rawp, limit - LONGEST) <==> AtEnd(dec, stateHash, mem[..], rawp, limit)
    {
      if rawp < limit {
        assert mem[..][rawp..] == mem[rawp..];
      }
    }

    /** One opcode-table call. */
    method DecodeOne(p: nat, rawp: nat, n: nat, ghost h: Context, ghost r: nat, ghost limit: nat)
      returns (rawp': nat, last: bool, ghost r': nat)
      requires Bounded(dec) && usage + n < buf.Length && rawp < limit <= mem.Length && n < MAX_TRACE_SIZE - 1
      requires !AtEnd(dec, stateHash, mem[..], rawp, limit)
      requires Progress(dec, h, buf[usage..usage + n], mem[..], p, Ctx(), rawp, r, limit)
      modifies buf, this`left
      ensures buf[..usage] == old(buf[..usage]) && p < r'
      ensures last ==> Finished(dec, h, buf[usage..usage + n + 1], mem[..], p, rawp', r', limit)
                       && left == Leaves(dec, h, buf[usage..usage + n + 1], mem[..], p)
      ensures !last ==> Progress(dec, h, buf[usage..usage + n + 1], mem[..], p, Ctx(), rawp', r', limit)
    {
      ghost var t, m, k := buf[usage..usage + n], mem[..], Ctx();
      assert mem[rawp..] == m[rawp..];
      var st := dec.step(mem[rawp..], Context(stateHash, left));
      rawp', last, r' := rawp + st.len, st.last, Max(r, rawp + st.looked);
      RoundDecodes(dec, h, t, m, p, k, rawp, r, limit);
      hide Progress, Finished, Bounded, AtEnd, Leaves, Max;
      Emit(n, Decoded(st.op, st.last));
      left := st.left;
    }

    /** Writing the op_trace_end terminator. */
    method EndTrace(p: nat, rawp: nat, n: nat, ghost h: Context, ghost r: nat, ghost limit: nat)
      requires usage + n < buf.Length && p < r
      requires n == MAX_TRACE_SIZE - 1 || AtEnd(dec, stateHash, mem[..], rawp, limit)
      requires Progress(dec, h, buf[usage..usage + n], mem[..], p, Ctx(), rawp, r, limit)
      modifies buf
      ensures buf[..usage] == old(buf[..usage])
      ensures Finished(dec, h, buf[usage..usage + n + 1], mem[..], p, rawp, r, limit)
      ensures left == Leaves(dec, h, buf[usage..usage + n + 1], mem[..], p)
    {
      FinishedEnd(dec, h, buf[usage..usage + n], mem[..], p, Ctx(), rawp, r, limit);
      hide Progress, Finished, Leaves, AtEnd;
      Emit(n, TraceEnd);
    }

    /** The check at the top of the loop. */
    method EndsPage(p: nat, rawp: nat, n: nat, highMark: nat, ghost h: Context, ghost r: nat, ghost limit: nat)
      returns (end: bool)
      requires usage + n < buf.Length && p < limit == PageLimit(p) && highMark + LONGEST == limit
      requires Progress(dec, h, buf[usage..usage + n], mem[..], p, Ctx(), rawp, r, limit)
      ensures end <==> AtEnd(dec, stateHash, mem[..], rawp, limit)
      ensures !end ==> rawp < limit
    {
      CursorOnPage(dec, h, buf[usage..usage + n], mem[..], p, Ctx(), rawp, r, limit);
      hide Progress;
      PageEndIs(rawp, limit);
      end := AtPageEnd(rawp, highMark);
      if !end {
        CursorInside(dec, mem[..], rawp, limit);
      }
    }

    /** The loop's invariant: `n` elements decoded, the buffer before them as it was. */
    ghost predicate Decoding(p: nat, rawp: nat, n: nat, h: Context, r: nat, limit: nat, kept: seq<Slot<Op>>)
      reads this, mem, buf
    {
      && usage + MAX_TRACE_SIZE <= buf.Length && n < MAX_TRACE_SIZE - 1 && buf[..usage] == kept
      && Progress(dec, h, buf[usage..usage + n], mem[..], p, Ctx(), rawp, r, limit)
    }

    /** What the loop leaves. */
    ghost predicate DecodedAll(p: nat, rawp: nat, n: nat, h: Context, r: nat, limit: nat, kept: seq<Slot<Op>>)
      reads this, mem, buf
    {
      && usage + n <= buf.Length && 1 <= n <= MAX_TRACE_SIZE && buf[..usage] == kept
      && Finished(dec, h, buf[usage..usage + n], mem[..], p, rawp, r, limit)
      && left == Leaves(dec, h, buf[usage..usage + n], mem[..], p)
    }

    /** One more instruction, and the checks after it. */
    method DecodeNext(p: nat, rawp: nat, n: nat, ghost h: Context, ghost r: nat, ghost limit: nat,
                      ghost kept: seq<Slot<Op>>)
      returns (rawp': nat, n': nat, done: bool, ghost r': nat)
      requires Bounded(dec) && Decoding(p, rawp, n, h, r, limit, kept) && rawp < limit <= mem.Length
      requires !AtEnd(dec, stateHash, mem[..], rawp, limit)
      modifies buf, this`left
      ensures n' > n && p < r'
      ensures if done then DecodedAll(p, rawp', n', h, r', limit, kept) else Decoding(p, rawp', n', h, r', limit, kept)
    {
      hide Progress, Finished, Bounded, AtEnd, Leaves;
      var last;
      rawp', last, r' := DecodeOne(p, rawp, n, h, r, limit);
      n', done := n + 1, last;
      if !last {
        if n' >= MAX_TRACE_SIZE - 1 {
          EndTrace(p, rawp', n', h, r', limit);
          n', done := n' + 1, true;
        }
      }
    }

    /** The page ends: the trace ends here. */
    method DecodeEnd(p: nat, rawp: nat, n: nat, ghost h: Context, ghost r: nat, ghost limit: nat,
                     ghost kept: seq<Slot<Op>>)
      requires Decoding(p, rawp, n, h, r, limit, kept) && p < r && AtEnd(dec, stateHash, mem[..], rawp, limit)
      modifies buf
      ensures DecodedAll(p, rawp, n + 1, h, r, limit, kept)
    {
      hide Progress, Finished, Leaves, AtEnd;
      EndTrace(p, rawp, n, h, r, limit);
    }

    /** The loop of cpu_decode up to the bookkeeping. `split` reports that the first instruction
        does not fit on the page; then nothing was written. */
    method DecodeLoop(p: nat) returns (rawp: nat, n: nat, split: bool, ghost r: nat)
      requires Separate() && Bounded(dec) && p < mem.Length && mem.Length % PAGE == 0
      requires usage + MAX_TRACE_SIZE <= buf.Length
      modifies buf, this`left
      ensures buf[..usage] == old(buf[..usage])
      ensures split <==> AtEnd(dec, stateHash, mem[..], p, PageLimit(p))
      ensures split ==> left == old(left)
      ensures !split ==> DecodedAll(p, rawp, n, old(Ctx()), r, PageLimit(p), old(buf[..usage]))
    {
      ghost var limit, h, kept := PageLimit(p), Ctx(), buf[..usage];
      var highMark := p - p % PAGE + (PAGE - LONGEST);
      rawp, n, split, r := p, 0, false, p;
      PageEnd(p, mem.Length);
      ProgressStart(dec, h, mem[..], p, limit);
      var done := false;
      hide Progress, Finished, Bounded, AtEnd, Leaves, Separate;
      assert Decoding(p, rawp, n, h, r, limit, kept);
      while !done
        invariant if done then DecodedAll(p, rawp, n, h, r, limit, kept) else Decoding(p, rawp, n, h, r, limit, kept)
        invariant if n == 0 then rawp == p && Ctx() == h else p < r && !AtEnd(dec, stateHash, mem[..], p, limit)
        decreases !done, MAX_TRACE_SIZE - n
      {
        var end := EndsPage(p, rawp, n, highMark, h, r, limit);
        if end && n == 0 {
          split := true;
          return;
        }
        if end {
          DecodeEnd(p, rawp, n, h, r, limit, kept);
          n, done := n + 1, true;
        } else {
          rawp, n, done, r := DecodeNext(p, rawp, n, h, r, limit, kept);
        }
      }
    }

    /** The bookkeeping of cpu_decode for a trace that may be cached, with the caller's `usage +=`. */
    method CommitTrace(p: nat, length: nat, n: nat, ghost r: nat, ghost left0: nat)
      requires Separate() && Shape(View()) && Bookkeeping() && p < mem.Length
      modifies info, smc, tags, this`usage, this`count, this`reach, this`began
      ensures View() == Commit(old(View()), TraceInfo(p, stateHash, Some(old(usage)), length), n, r, left0)
      ensures Bookkeeping()
    {
      PageInTlb(p);
      info[HashEip(p)] := TraceInfo(p, stateHash, Some(usage), length);
      count, reach, began := count[HashEip(p) := n], reach[HashEip(p) := r], began[HashEip(p) := left0];
      SetSmc(p, length);
      usage := usage + n;
    }

    /** cpu_decode for an instruction that fits on its page, with the caller's `usage +=`: the trace is cached. */
    method DecodeCached(p: nat) returns (ptr: nat)
      requires Valid() && p < mem.Length && usage + MAX_TRACE_SIZE <= buf.Length
      requires !AtEnd(dec, stateHash, mem[..], p, PageLimit(p))
      modifies info, buf, smc, tags, this`usage, this`count, this`reach, this`began, this`left
      ensures Valid() && ptr == old(usage) && NewTrace(old(View()), View(), p, old(Ctx()))
      ensures left == Leaves(dec, old(Ctx()), ReadOff(buf[..], ptr), mem[..], p)
    {
      ValidParts();
      CoherentParts(View());
      ghost var s0, h := View(), Ctx();
      hide *;
      var rawp, n, split;
      ghost var r;
      rawp, n, split, r := DecodeLoop(p);
      ptr := usage;
      ReadsDecoded(p, rawp, n, h, r, s0.buf[..s0.usage]);
      KeepDecoded(p, rawp, n, r, s0, h);
    }

    lemma ReadsDecoded(p: nat, rawp: nat, n: nat, h: Context, r: nat, kept: seq<Slot<Op>>)
      requires DecodedAll(p, rawp, n, h, r, PageLimit(p), kept)
      ensures usage + n <= buf.Length && ReadOff(buf[..], usage) == buf[usage..usage + n]
      ensures left == Leaves(dec, h, ReadOff(buf[..], usage), mem[..], p)
      ensures Finished(dec, h, buf[usage..usage + n], mem[..], p, rawp, r, PageLimit(p))
      ensures 1 <= n <= MAX_TRACE_SIZE && buf[..usage] == kept
    {
      assert buf[..][usage..usage + n] == buf[usage..usage + n];
      hide Finished, ReadOff, Leaves;
      FinishedReads(dec, h, buf[..], usage, n, mem[..], p, rawp, r);
    }

    /** The end of cpu_decode: the decoded trace enters the table and the bitmap. */
    method KeepDecoded(p: nat, rawp: nat, n: nat, ghost r: nat, ghost s0: Cache<Op>, ghost h: Context)
      requires Separate() && Bookkeeping() && Coherent(s0) && Shape(View()) && h.hash == stateHash
      requires View() == s0.(buf := View().buf) && buf[..usage] == s0.buf[..usage] && |s0.buf| == buf.Length
      requires p < mem.Length && usage + n <= buf.Length && 1 <= n <= MAX_TRACE_SIZE
      requires Finished(dec, h, buf[usage..usage + n], mem[..], p, rawp, r, PageLimit(p))
      modifies info, smc, tags, this`usage, this`count, this`reach, this`began
      ensures Valid() && NewTrace(s0, View(), p, h)
    {
      ghost var s1, i := View(), TraceInfo(p, stateHash, Some(usage), rawp - p);
      assert s1.usage == usage && s1.buf[s0.usage..s0.usage + n] == buf[usage..usage + n];
      hide *;
      CommitTrace(p, rawp - p, n, r, h.left);
      CommitIsNew(s0, s1, View(), p, h, n, r, rawp - p);
      NewTraceKeeps(s0, View(), p, h);
      ValidWhole();
    }

    /** cpu_decode for an instruction that may cross the page: fifteen bytes are fetched one by one
        and decoded from a copy, whose sixteenth byte is zero. Nothing is cached. `beyond` is what host memory
        holds after the guest's. */
    method DecodeSplit(p: nat, nextNx: bool, beyond: seq<byte>) returns (ptr: nat)
      requires Valid() && p < mem.Length && |beyond| >= PREFETCH && usage + MAX_TRACE_SIZE <= buf.Length
      modifies buf, tags, this`tlbEntries, this`left
      ensures Valid() && ptr == usage && (p + PREFETCH) / PAGE < TLB_PAGES && TlbOk(old(Tlb(tags[..], tlbEntries)))
      ensures var t := Check(old(Tlb(tags[..], tlbEntries)), smc[..], (p + PREFETCH) / PAGE, user, nextNx);
              tlbEntries == t.entries && SplitTrace(old(View()).(tags := t.tags), View(), p, old(Ctx()), beyond)
      ensures left == dec.step(Prefetch(mem[..], beyond, p), old(Ctx())).left
    {
      ValidParts();
      CoherentParts(View());
      PageInTlb(p + PREFETCH);
      hide Coherent, Sound, Check, SplitTrace;
      TranslateIfNeeded((p + PREFETCH) / PAGE, nextNx);
      ptr := DecodeCopy(p, beyond);
    }

    /** The table call on the copy. */
    method DecodeCopy(p: nat, beyond: seq<byte>) returns (ptr: nat)
      requires Valid() && p < mem.Length && |beyond| >= PREFETCH && usage + MAX_TRACE_SIZE <= buf.Length
      modifies buf, this`left
      ensures Valid() && ptr == usage && SplitTrace(old(View()), View(), p, old(Ctx()), beyond)
      ensures left == dec.step(Prefetch(mem[..], beyond, p), old(Ctx())).left
    {
      ValidParts();
      ghost var s0, h := View(), Ctx();
      var step := dec.step(Prefetch(mem[..], beyond, p), Context(stateHash, left));
      hide *;
      Emit(0, SlotOf(step));
      if !step.last {
        EmitEnd();
      }
      left := step.left;
      assert View() == s0.(buf := View().buf) && View().buf == buf[..];
      SplitIs(s0, View(), p, h, beyond);
      SplitKeeps(s0, View(), p, h, beyond);
      ValidWhole();
      ptr := usage;
    }

    method EmitEnd()
      requires usage + 1 < buf.Length
      modifies buf
      ensures buf[..usage + 1] == old(buf[..usage + 1]) && buf[usage + 1] == TraceEnd
    {
      buf[usage + 1] := TraceEnd;
    }

    // --- mmu.c: the TLB as far as writes and fetches see it ---

    method TlbFlush()
      requires TlbOk(Tlb(tags[..], tlbEntries))
      modifies tags, this`tlbEntries
      ensures tlbEntries == [] && TlbOk(old(Tlb(tags[..], tlbEntries)))
      ensures tags[..] == FlushTags(old(tags[..]), old(tlbEntries))
    {
      assert tlbEntries[..0] == [];
      for j := 0 to |tlbEntries|
        invariant tags[..] == FlushTags(old(tags[..]), tlbEntries[..j])
        modifies tags
      {
        assert tlbEntries[..j + 1][..j] == tlbEntries[..j];
        TlbInvalidate(tlbEntries[j]);
      }
      assert tlbEntries[..|tlbEntries|] == tlbEntries;
      tlbEntries := [];
    }

    /** cpu_set_tlb_entry for an identity-mapped page. */
    method TlbSet(page: nat, tlbUser: bool, tlbWrite: bool)
      requires TlbOk(Tlb(tags[..], tlbEntries)) && page < TLB_PAGES && Separate()
      modifies tags, this`tlbEntries
      ensures TlbOk(old(Tlb(tags[..], tlbEntries)))
      ensures Tlb(tags[..], tlbEntries)
              == Enter(old(Tlb(tags[..], tlbEntries)), page,
                 NewTag(page, PageHasCode(smc[..], page), tlbUser, tlbWrite))
    {
      hide FlushTags, NewTag, PageHasCode;
      if |tlbEntries| >= MAX_TLB_ENTRIES {
        TlbFlush();
      }
      tlbEntries := tlbEntries + [page];
      tags[page] := NewTag(page, PageHasCode(smc[..], page), tlbUser, tlbWrite);
    }

    /** cpu_mmu_translate for a read or write access; the arguments of cpu_set_tlb_entry are swapped. */
    method MmuTranslate(page: nat, write: bool)
      requires Valid() && page < TLB_PAGES
      modifies tags, this`tlbEntries
      ensures Valid() && TlbOk(old(Tlb(tags[..], tlbEntries)))
      ensures Tlb(tags[..], tlbEntries) == Map(old(Tlb(tags[..], tlbEntries)), smc[..], page, write, user)
      ensures View() == old(View()).(tags := tags[..])
    {
      ValidParts();
      MapKeeps(View(), tlbEntries, page, write, user);
      hide Coherent, Enter, NewTag, PageHasCode, WellLogged;
      TlbSet(page, write, user);
      ValidWhole();
    }

    /** The TLB check before a fetch. `nx` is the no-execute attribute of the entry. */
    method TranslateIfNeeded(page: nat, nx: bool)
      requires Valid() && page < TLB_PAGES
      modifies tags, this`tlbEntries
      ensures Valid() && TlbOk(old(Tlb(tags[..], tlbEntries)))
      ensures Tlb(tags[..], tlbEntries) == Check(old(Tlb(tags[..], tlbEntries)), smc[..], page, user, nx)
      ensures View() == old(View()).(tags := tags[..])
    {
      ValidParts();
      hide Coherent, Map;
      if (if user then (tags[page] >> 4) & 1 else tags[page] & 1) != 0 || nx {
        MmuTranslate(page, false);
      }
    }

    // --- trace.c: the lookup ---

    method FlushAll()
      requires Valid()
      modifies info, this`usage
      ensures Valid() && View() == Flush(old(View()))
    {
      ValidParts();
      FlushKeeps(View());
      hide Coherent;
      TraceFlush();
    }

    /** The miss path after making room: decode. */
    method Miss(p: nat, nextNx: bool, beyond: seq<byte>) returns (f: Fetch)
      requires Valid() && p < mem.Length && |beyond| >= PREFETCH && usage + MAX_TRACE_SIZE < buf.Length
      modifies this`usage, this`tlbEntries, this`count, this`reach, this`began, this`left, info, buf, smc, tags
      ensures Valid() && old(TlbOk(TlbOf(State()))) && p < TARGET_ADDRESS_SPACE_SIZE
      ensures Missed(old(State()), p, nextNx, beyond, f, State())
    {
      ValidParts();
      CoherentParts(View());
      PageEnd(p, mem.Length);
      PageEndIs(p, PageLimit(p));
      ghost var a := State();
      var ptr;
      if AtPageEnd(p, p - p % PAGE + (PAGE - LONGEST)) {
        hide Coherent, SplitTrace, WellLogged, Check, AtEnd;
        ptr := DecodeSplit(p, nextNx, beyond);
        f := Trace(ptr, false);
      } else {
        hide Coherent, NewTrace, WellLogged, Check, AtEnd, Leaves, ReadOff;
        ptr := DecodeCached(p);
        f := Trace(ptr, true);
      }
    }

    /** A fetch on another page than the last one checks the translation. */
    method Locate(p: nat, nx: bool)
      requires Valid() && p < TARGET_ADDRESS_SPACE_SIZE
      modifies this`lastPhysEip, this`tlbEntries, tags
      ensures Valid() && old(TlbOk(TlbOf(State()))) && State() == Located(old(State()), p, nx)
    {
      PageInTlb(p);
      ghost var a := State();
      ValidParts();
      hide Sound, Check, Coherent;
      if p / PAGE != lastPhysEip / PAGE {
        TranslateIfNeeded(p / PAGE, nx);
        ValidParts();
        lastPhysEip := p - p % PAGE;
        ValidWhole();
      }
    }

    /** The lookup: on a hit the entry is served as it is, on a miss the instructions are decoded, after a flush
        if the buffer could overflow. */
    method Lookup(p: nat, nextNx: bool, beyond: seq<byte>) returns (f: Fetch)
      requires Valid() && p < mem.Length && |beyond| >= PREFETCH
      modifies this`usage, this`tlbEntries, this`count, this`reach, this`began, this`left, info, buf, smc, tags
      ensures Valid() && old(TlbOk(TlbOf(State()))) && p < TARGET_ADDRESS_SPACE_SIZE && info.Length > 0
      ensures LookedUp(old(State()), p, nextNx, beyond, f, State())
    {
      ValidParts();
      CoherentParts(View());
      hide Coherent, Missed, MadeRoom, WellLogged, Sound, Check;
      var i := info[HashEip(p)];
      if i.phys == p && i.hash == stateHash {
        f := if i.ptr.None? then Fatal else Trace(i.ptr.value, true);
      } else {
        MakeRoom();
        f := Miss(p, nextNx, beyond);
      }
    }

    /** cpu_get_trace at physical address `p`. */
    method GetTrace(p: nat, nx: bool, nextNx: bool, beyond: seq<byte>) returns (f: Fetch)
      requires Valid() && p < mem.Length && |beyond| >= PREFETCH
      modifies this`usage, this`lastPhysEip, this`tlbEntries, this`count, this`reach, this`began, this`left, info,
               buf, smc, tags
      ensures Valid() && old(TlbOk(TlbOf(State()))) && p < TARGET_ADDRESS_SPACE_SIZE && info.Length > 0
      ensures Fetched(old(State()), p, nx, nextNx, beyond, f, State())
    {
      ValidParts();
      CoherentParts(View());
      hide Coherent, WellLogged, Sound, Check, LookedUp;
      Locate(p, nx);
      f := Lookup(p, nextNx, beyond);
    }

    method MakeRoom()
      requires Valid()
      modifies info, this`usage
      ensures Valid() && View() == MadeRoom(old(View())) && usage + MAX_TRACE_SIZE < buf.Length
    {
      ValidParts();
      hide Coherent, Flush;
      if usage + MAX_TRACE_SIZE >= buf.Length {
        FlushAll();
      }
    }

    /** The elements the interpreter runs from `ptr` on. */
    method Read(ptr: nat) returns (t: seq<Slot<Op>>)
      requires ptr < buf.Length
      ensures t == ReadOff(buf[..], ptr)
    {
      t := [];
      var i := ptr;
      hide ReadOff;
      while i < buf.Length
        invariant ptr <= i <= buf.Length && t + ReadOff(buf[..], i) == ReadOff(buf[..], ptr)
      {
        ReadOffStep(buf[..], i, t);
        t := t + [buf[i]];
        if Stops(buf[i]) {
          return;
        }
        i := i + 1;
      }
      ReadOffDone(buf[..], t);
    }
  }
}
