/** `alloc`, `free` and `free_unused_regions` as functions of the heap
    (src/uwin-jit/executable_memory_allocator.cpp), and what the allocator promises. */
module XmemOps {
  import opened XmemHeap
  import opened XmemList
  import opened XmemSteps

  // --- Sizes, with the wrap-around of a 64-bit size_t ---

  const WORD := 0x1_0000_0000_0000_0000
  const MAX_REQUEST := WORD - 65592

  /** The block size for a request: header added, rounded up to 8, at least 64. */
  function BlockSize(size: nat): nat {
    ((if size < 40 then 40 else size) + 31) % WORD / 8 * 8
  }

  /** The region asked of the system for a block of `n` bytes. */
  function ChunkBytes(n: nat): nat {
    (32 + n + CHUNK_SIZE - 1) % WORD / CHUNK_SIZE * CHUNK_SIZE
  }

  /** The size computations hold the request exactly up to MAX_REQUEST; beyond, they wrap. */
  lemma SizesFit(size: nat)
    requires size < WORD
    ensures BlockSize(size) >= size + BLOCK_HEADER && ChunkBytes(BlockSize(size)) >= BlockSize(size) + 32
            <==> size <= MAX_REQUEST
  {
    if size <= MAX_REQUEST {
      SizesWhenFit(size);
    } else if size + 31 < WORD {
      ChunkWraps(BlockSize(size));
    }
  }

  /** Beyond, it is taken for a block smaller than any block, or for one whose chunk would have the least size. */
  lemma WrappedSizes(size: nat)
    requires MAX_REQUEST < size < WORD
    ensures size >= WORD - 31 ==> BlockSize(size) <= BLOCK_HEADER < MIN_BLOCK
    ensures size < WORD - 31 ==> BlockSize(size) >= size + BLOCK_HEADER && ChunkBytes(BlockSize(size)) <= CHUNK_SIZE
  {
    var s := size + 31;
    if size >= WORD - 31 {
      assert s % WORD == s - WORD;
    } else {
      assert s % WORD == s;
      RoundDown(s, 8);
      assert (32 + BlockSize(size) + CHUNK_SIZE - 1) % WORD
             == 32 + BlockSize(size) + CHUNK_SIZE - 1 - WORD < 2 * CHUNK_SIZE;
    }
  }

  lemma SizesWhenFit(size: nat)
    requires size <= MAX_REQUEST
    ensures BlockSize(size) % 8 == 0 && size + BLOCK_HEADER <= BlockSize(size)
            && MIN_BLOCK <= BlockSize(size) <= size + MIN_BLOCK
    ensures ChunkBytes(BlockSize(size)) % 8 == 0
    ensures BlockSize(size) + 32 <= ChunkBytes(BlockSize(size)) < BlockSize(size) + 32 + CHUNK_SIZE
  {
    BlockFits(size);
    ChunkFits(BlockSize(size));
    hide BlockSize, ChunkBytes;
  }

  lemma BlockFits(size: nat)
    requires size + 31 < WORD
    ensures BlockSize(size) % 8 == 0 && size + BLOCK_HEADER <= BlockSize(size)
            && MIN_BLOCK <= BlockSize(size) <= size + MIN_BLOCK
    ensures BlockSize(size) < (if size + BLOCK_HEADER < MIN_BLOCK then MIN_BLOCK else size + BLOCK_HEADER) + 8
  {
    var s := (if size < 40 then 40 else size) + 31;
    Unwrapped(s);
    RoundDown(s, 8);
  }

  lemma Unwrapped(s: nat)
    requires s < WORD
    ensures s % WORD == s
  {
  }

  lemma ChunkFits(n: nat)
    requires n < WORD - 65567
    ensures ChunkBytes(n) % 8 == 0 && n + 32 <= ChunkBytes(n) < n + 32 + CHUNK_SIZE
    ensures ChunkBytes(n) % CHUNK_SIZE == 0
  {
    var s := 32 + n + CHUNK_SIZE - 1;
    assert s % WORD == s;
    RoundDown(s, CHUNK_SIZE);
    EighthOf(s / CHUNK_SIZE);
  }

  lemma EighthOf(x: nat)
    ensures x * CHUNK_SIZE % 8 == 0
  {
    assert x * CHUNK_SIZE == 8 * (x * 0x2000);
  }

  lemma RoundDown(s: nat, m: nat)
    requires m > 0
    ensures s - m < s / m * m <= s
  {
    assert s == s / m * m + s % m;
  }

  lemma ChunkWraps(n: nat)
    requires WORD - 65567 <= n < WORD
    ensures ChunkBytes(n) < n
  {
    assert (32 + n + CHUNK_SIZE - 1) % WORD == 32 + n + CHUNK_SIZE - 1 - WORD;
  }

  // --- Coalescing, step by step ---

  lemma CutStaysCoalesced(h: Heap, f: int, n: int)
    requires Core(h) && Coalesced(h.blocks) && Splittable(h, f, n)
    requires h.blocks[f].kind == Free || !IsFree(h.blocks, f + h.blocks[f].size)
    ensures Coalesced(SplitBlocks(h.blocks, f, n))
  {
    var blocks := SplitBlocks(h.blocks, f, n);
    SplitIsFresh(h, f, n);
    forall b | b in blocks ensures Separated(blocks, b) {
      if b in h.blocks {
        assert Separated(h.blocks, b) && Placed(h.chunks, h.blocks, b);
      }
    }
  }

  lemma UseStaysCoalesced(blocks: map<int, Block>, b: int)
    requires Coalesced(blocks) && b in blocks
    ensures Coalesced(blocks[b := blocks[b].(kind := Used)])
  {
    var blocks' := blocks[b := blocks[b].(kind := Used)];
    forall c | c in blocks' ensures Separated(blocks', c) {
      assert Separated(blocks, c);
    }
  }

  lemma AddStaysCoalesced(h: Heap, c: int, k: Chunk, memory: map<int, int>)
    requires Core(h) && Coalesced(h.blocks) && FreshRegion(h, c, k, memory)
    ensures Coalesced(AddBlocks(h.blocks, c, k.size))
  {
    AddIsFresh(h, c, k, memory);
    var blocks := AddBlocks(h.blocks, c, k.size);
    forall b | b in blocks ensures Separated(blocks, b) {
      if b in h.blocks {
        assert Separated(h.blocks, b);
      }
    }
  }

  /** All free blocks but `f` are separated from the next one, and no free block precedes `f`. */
  ghost predicate CoalescedBut(blocks: map<int, Block>, f: int) {
    forall b {:trigger Separated(blocks, b)} | b in blocks && b != f :: Separated(blocks, b)
  }

  lemma InsertStaysCoalesced(h: Heap, b: int)
    requires Core(h) && Coalesced(h.blocks) && Insertable(h, b)
    requires forall p | Precedes(h.blocks, p, b) :: h.blocks[p].kind != Free
    ensures CoalescedBut(Insert(h, b).blocks, b)
  {
    var blocks := Insert(h, b).blocks;
    forall c | c in blocks && c != b ensures Separated(blocks, c) {
      assert Separated(h.blocks, c);
      assert c + h.blocks[c].size == b && h.blocks[c].kind == Free ==> Precedes(h.blocks, c, b);
    }
  }

  lemma MergeStaysCoalesced(h: Heap, p: int)
    requires Core(h) && CoalescedBut(h.blocks, p) && Mergeable(h, p)
    ensures CoalescedBut(Merge(h, p).blocks, p)
    ensures h.blocks[p + h.blocks[p].size].kind == Free ==> Coalesced(Merge(h, p).blocks)
  {
    var q, blocks := p + h.blocks[p].size, Merge(h, p).blocks;
    assert Placed(h.chunks, h.blocks, p);
    forall c | c in blocks && c != p ensures Separated(blocks, c) {
      assert Separated(h.blocks, c);
    }
    assert Separated(h.blocks, q);
  }

  // --- alloc: from the free list ---

  function SizeOf(h: Heap, b: int): nat {
    if b in h.blocks then h.blocks[b].size else 0
  }

  /** The first position from `i` on whose block has `n` bytes, or the list's length. */
  function FirstFit(h: Heap, n: nat, i: nat): (r: nat)
    requires i <= |h.list|
    ensures i <= r <= |h.list|
    ensures forall j | i <= j < r :: SizeOf(h, h.list[j]) < n
    ensures r < |h.list| ==> SizeOf(h, h.list[r]) >= n
    decreases |h.list| - i
  {
    if i < |h.list| && SizeOf(h, h.list[i]) < n then FirstFit(h, n, i + 1) else i
  }

  ghost predicate Takeable(h: Heap, i: nat, n: nat) {
    && i < |h.list| && MIN_BLOCK <= n && n % 8 == 0 && SizeOf(h, h.list[i]) >= n
  }

  lemma TakeReady(h: Heap, i: nat)
    requires Core(h) && Links(h, NULL) && i < |h.list|
    ensures var f := h.list[i]; IsFree(h.blocks, f) && f + OFFSET in h.word && f + NEXT in h.word && f + PREV in h.word
  {
    ListNeighbours(h, i);
    assert BlockOk(h.word, h.chunks, h.blocks, h.list[i]);
  }

  /** `n` bytes from the free block at position `i`: cut off its end, or all of it. */
  ghost function Take(h: Heap, i: nat, n: nat): Heap
    requires Inv(h) && Takeable(h, i, n)
  {
    TakeReady(h, i);
    if SizeOf(h, h.list[i]) > n + 64 then Cut(h, h.list[i], n) else TakeWhole(h, i)
  }

  function TakenAt(h: Heap, i: nat, n: nat): int
    requires i < |h.list|
  {
    if SizeOf(h, h.list[i]) > n + 64 then h.list[i] + SizeOf(h, h.list[i]) - n else h.list[i]
  }

  lemma TakeKeepsValid(h: Heap, i: nat, n: nat)
    requires Valid(h) && Takeable(h, i, n)
    ensures Valid(Take(h, i, n))
  {
    TakeReady(h, i);
    if SizeOf(h, h.list[i]) > n + 64 {
      CutKeepsInv(h, h.list[i], n);
      CutStaysCoalesced(h, h.list[i], n);
    } else {
      TakeWholeKeepsInv(h, i);
      UseStaysCoalesced(h.blocks, h.list[i]);
    }
    hide Inv, Coalesced;
  }

  lemma TakeLeaves(h: Heap, i: nat, n: nat)
    requires Inv(h) && Takeable(h, i, n)
    ensures Untouched(h, Take(h, i, n), NULL)
  {
    TakeReady(h, i);
    if SizeOf(h, h.list[i]) > n + 64 {
      SplitLeaves(h, h.list[i], n);
    } else {
      TakeWholeLeaves(h, i);
    }
  }

  /** The block handed out was not in use, is now, and is as large as asked, unless no more than 64 bytes would be left
      of the free block. */
  lemma TakeGives(h: Heap, i: nat, n: nat)
    requires Inv(h) && Takeable(h, i, n)
    ensures var b := TakenAt(h, i, n);
            && !InUse(h.blocks, b) && InUse(Take(h, i, n).blocks, b)
            && Take(h, i, n).blocks[b].size == if SizeOf(h, h.list[i]) - n > 64 then n else SizeOf(h, h.list[i])
  {
    TakeReady(h, i);
    if SizeOf(h, h.list[i]) > n + 64 {
      SplitIsFresh(h, h.list[i], n);
    }
  }

  // --- alloc: from a new chunk ---

  /** A used block keeps its first `n` bytes; the rest becomes a free block. */
  function CutRest(h: Heap, f: int, n: nat): Heap
    requires f in h.blocks && 0 < n < h.blocks[f].size && f + OFFSET in h.word
  {
    Insert(Split(h, f, h.blocks[f].size - n), f + n)
  }

  ghost predicate Restable(h: Heap, f: int, n: nat) {
    && InUse(h.blocks, f) && MIN_BLOCK <= n && n % 8 == 0 && h.blocks[f].size >= n + MIN_BLOCK
    && f + OFFSET in h.word
  }

  lemma RestSplittable(h: Heap, f: int, n: nat)
    requires Inv(h) && Restable(h, f, n)
    ensures Splittable(h, f, h.blocks[f].size - n)
    ensures var split := Split(h, f, h.blocks[f].size - n);
            Inv(split) && Insertable(split, f + n) && Precedes(split.blocks, f, f + n)
  {
    assert Placed(h.chunks, h.blocks, f);
    CutKeepsInv(h, f, h.blocks[f].size - n);
    assert Cut(h, f, h.blocks[f].size - n) == Split(h, f, h.blocks[f].size - n);
    hide Inv;
  }

  lemma CutRestKeepsInv(h: Heap, f: int, n: nat)
    requires Inv(h) && Restable(h, f, n)
    ensures Inv(CutRest(h, f, n))
  {
    RestSplittable(h, f, n);
    InsertKeepsInv(Split(h, f, h.blocks[f].size - n), f + n);
  }

  lemma CutRestStaysCoalesced(h: Heap, f: int, n: nat)
    requires Valid(h) && Restable(h, f, n) && !IsFree(h.blocks, f + h.blocks[f].size)
    ensures Coalesced(CutRest(h, f, n).blocks)
  {
    RestSplittable(h, f, n);
    var split := Split(h, f, h.blocks[f].size - n);
    CutStaysCoalesced(h, f, h.blocks[f].size - n);
    OnlyPrevious(split, f, f + n);
    assert !IsFree(split.blocks, f + h.blocks[f].size);
    hide Inv, Split;
    InsertStaysCoalesced(split, f + n);
    assert Separated(Insert(split, f + n).blocks, f + n);
  }

  /** Only one block ends at `b`. */
  lemma OnlyPrevious(h: Heap, f: int, b: int)
    requires Inv(h) && Precedes(h.blocks, f, b)
    ensures forall p | Precedes(h.blocks, p, b) :: p == f
  {
    assert Placed(h.chunks, h.blocks, f);
    forall p | Precedes(h.blocks, p, b) ensures p == f {
      assert Placed(h.chunks, h.blocks, p);
      assert Apart(h.blocks, p, f) && Apart(h.blocks, f, p);
    }
  }

  lemma CutRestLeaves(h: Heap, f: int, n: nat)
    requires Inv(h) && Restable(h, f, n)
    ensures Untouched(h, CutRest(h, f, n), f)
  {
    RestSplittable(h, f, n);
    var split := Split(h, f, h.blocks[f].size - n);
    SplitLeaves(h, f, h.blocks[f].size - n);
    SplitIsFresh(h, f, h.blocks[f].size - n);
    assert !InUse(h.blocks, f + n) && CutRest(h, f, n) == Insert(split, f + n);
    hide Split, Insert, Untouched, CutRest;
    InsertLeaves(split, f + n);
    UntouchedTrans(h, split, CutRest(h, f, n), f, f + n);
  }

  /** A new chunk `k` at address `c`: the block of `n` bytes first, then, if enough is left, a free block. */
  ghost function Grow(h: Heap, n: nat, c: int, k: Chunk, memory: map<int, int>): Heap
    requires n > 0 && k.size >= n + 32
  {
    var whole := AddWhole(h, c, k, memory);
    if k.size - 32 > n + 64 then CutRest(whole, c + CHUNK_HEADER, n) else whole
  }

  ghost predicate Growable(h: Heap, n: nat, c: int, k: Chunk, memory: map<int, int>) {
    FreshRegion(h, c, k, memory) && MIN_BLOCK <= n && n % 8 == 0 && k.size >= n + 32
  }

  lemma GrowFacts(h: Heap, n: nat, c: int, k: Chunk, memory: map<int, int>)
    requires Inv(h) && Growable(h, n, c, k, memory)
    ensures var f, whole := c + CHUNK_HEADER, AddWhole(h, c, k, memory);
            && f in whole.blocks && whole.blocks[f] == Block(Used, k.size - 32, c)
            && (k.size - 32 > n + 64 ==> Restable(whole, f, n)) && !IsFree(whole.blocks, f + k.size - 32)
            && f !in h.blocks
  {
    AddIsFresh(h, c, k, memory);
  }

  lemma AddKeepsValid(h: Heap, c: int, k: Chunk, memory: map<int, int>)
    requires Valid(h) && FreshRegion(h, c, k, memory)
    ensures Valid(AddWhole(h, c, k, memory))
  {
    AddKeepsInv(h, c, k, memory);
    AddStaysCoalesced(h, c, k, memory);
    hide Inv, Coalesced, AddBlocks, AddWords, FreshRegion;
  }

  lemma CutRestKeepsValid(h: Heap, f: int, n: nat)
    requires Valid(h) && Restable(h, f, n) && !IsFree(h.blocks, f + h.blocks[f].size)
    ensures Valid(CutRest(h, f, n))
  {
    CutRestKeepsInv(h, f, n);
    CutRestStaysCoalesced(h, f, n);
    hide Inv, Coalesced, CutRest;
  }

  lemma GrowKeepsValid(h: Heap, n: nat, c: int, k: Chunk, memory: map<int, int>)
    requires Valid(h) && Growable(h, n, c, k, memory)
    ensures Valid(Grow(h, n, c, k, memory))
  {
    AddKeepsValid(h, c, k, memory);
    GrowFacts(h, n, c, k, memory);
    if k.size - 32 > n + 64 {
      hide Valid, AddWhole, Restable, FreshRegion, IsFree;
      CutRestKeepsValid(AddWhole(h, c, k, memory), c + CHUNK_HEADER, n);
    }
  }

  lemma GrowLeaves(h: Heap, n: nat, c: int, k: Chunk, memory: map<int, int>)
    requires Inv(h) && Growable(h, n, c, k, memory)
    ensures Untouched(h, Grow(h, n, c, k, memory), NULL)
  {
    GrowFacts(h, n, c, k, memory);
    AddLeaves(h, c, k, memory);
    AddKeepsInv(h, c, k, memory);
    var whole, f := AddWhole(h, c, k, memory), c + CHUNK_HEADER;
    hide Inv, AddWhole, CutRest;
    if k.size - 32 > n + 64 {
      CutRestLeaves(whole, f, n);
      UntouchedTrans(h, whole, CutRest(whole, f, n), NULL, f);
    }
  }

  lemma GrowGives(h: Heap, n: nat, c: int, k: Chunk, memory: map<int, int>)
    requires Inv(h) && Growable(h, n, c, k, memory)
    ensures var b := c + CHUNK_HEADER;
            && !InUse(h.blocks, b) && InUse(Grow(h, n, c, k, memory).blocks, b)
            && Grow(h, n, c, k, memory).blocks[b].size == if k.size - 32 - n > 64 then n else k.size - 32
  {
    GrowFacts(h, n, c, k, memory);
    hide AddWhole, Inv, FreshRegion;
  }

  // --- free ---

  function IndexOf(list: seq<int>, b: int): (i: nat)
    requires b in list
    ensures i < |list| && list[i] == b
  {
    if list[0] == b then 0 else 1 + IndexOf(list[1..], b)
  }

  /** The block whose start the block's prev_size leads to. */
  function Before(h: Heap, b: int): int
    requires b + PREV_SIZE in h.word
  {
    b - h.word[b + PREV_SIZE]
  }

  lemma BeforeIsPrevious(h: Heap, b: int)
    requires Inv(h) && InUse(h.blocks, b)
    ensures b + PREV_SIZE in h.word && b + SIZE in h.word
    ensures IsFree(h.blocks, Before(h, b)) ==> Precedes(h.blocks, Before(h, b), b) && Mergeable(h, Before(h, b))
    ensures !IsFree(h.blocks, Before(h, b)) ==> forall p | Precedes(h.blocks, p, b) :: h.blocks[p].kind != Free
  {
    assert BlockOk(h.word, h.chunks, h.blocks, b) && Placed(h.chunks, h.blocks, b);
    if b != h.blocks[b].chunk + CHUNK_HEADER {
      OnlyPrevious(h, Before(h, b), b);
    } else {
      forall p ensures !Precedes(h.blocks, p, b) {
        assert p in h.blocks ==> Placed(h.chunks, h.blocks, p);
      }
    }
  }

  /** The freed block joins the free block before it, or becomes the first of the list. */
  ghost function JoinBefore(h: Heap, b: int): Heap
    requires Inv(h) && InUse(h.blocks, b)
  {
    BeforeIsPrevious(h, b);
    if IsFree(h.blocks, Before(h, b)) then Absorb(h, Before(h, b)) else Insert(h, b)
  }

  /** Where the joined free block starts. */
  ghost function Joined(h: Heap, b: int): int
    requires Inv(h) && InUse(h.blocks, b)
  {
    BeforeIsPrevious(h, b);
    if IsFree(h.blocks, Before(h, b)) then Before(h, b) else b
  }

  lemma JoinBeforeKeeps(h: Heap, b: int)
    requires Valid(h) && InUse(h.blocks, b)
    ensures var h1, f := JoinBefore(h, b), Joined(h, b);
            Inv(h1) && IsFree(h1.blocks, f) && CoalescedBut(h1.blocks, f) && h1.blocks[f].chunk == h.blocks[b].chunk
    ensures h.blocks[b].chunk in h.chunks && JoinBefore(h, b).chunks == h.chunks
    ensures JoinBefore(h, b).totalSize == h.totalSize
            && JoinBefore(h, b).allocatedSize == h.allocatedSize - h.blocks[b].size
  {
    BeforeIsPrevious(h, b);
    assert Placed(h.chunks, h.blocks, b);
    if IsFree(h.blocks, Before(h, b)) {
      AbsorbKeepsInv(h, Before(h, b));
      MergeStaysCoalesced(h, Before(h, b));
      assert Placed(h.chunks, h.blocks, Before(h, b));
    } else {
      InsertKeepsInv(h, b);
      InsertStaysCoalesced(h, b);
    }
    hide Inv, CoalescedBut, Before, InsertWords;
  }

  lemma JoinBeforeLeaves(h: Heap, b: int)
    requires Inv(h) && InUse(h.blocks, b)
    ensures Untouched(h, JoinBefore(h, b), b)
  {
    BeforeIsPrevious(h, b);
    if IsFree(h.blocks, Before(h, b)) {
      MergeLeaves(h, Before(h, b));
    } else {
      InsertLeaves(h, b);
    }
    hide Before, Insert;
  }

  lemma FreeIsListed(h: Heap, q: int)
    requires Inv(h) && IsFree(h.blocks, q)
    ensures q in h.list
    ensures var i := IndexOf(h.list, q); h.list[i] + NEXT in h.word && h.list[i] + PREV in h.word
  {
    NotNullFree(h);
    assert q in h.list;
    ListNeighbours(h, IndexOf(h.list, q));
  }

  lemma NextIsMergeable(h: Heap, f: int)
    requires Inv(h) && IsFree(h.blocks, f)
    ensures f + h.blocks[f].size in h.blocks
    ensures IsFree(h.blocks, f + h.blocks[f].size) ==> Mergeable(h, f)
  {
    assert Placed(h.chunks, h.blocks, f);
  }

  ghost function JoinAfter(h: Heap, f: int): Heap
    requires Inv(h) && IsFree(h.blocks, f)
  {
    NextIsMergeable(h, f);
    var q := f + h.blocks[f].size;
    if IsFree(h.blocks, q) then FreeIsListed(h, q); Fuse(h, f, IndexOf(h.list, q)) else h
  }

  lemma JoinAfterKeeps(h: Heap, f: int)
    requires Inv(h) && CoalescedBut(h.blocks, f) && IsFree(h.blocks, f)
    ensures var h2 := JoinAfter(h, f); Valid(h2) && IsFree(h2.blocks, f) && h2.blocks[f].chunk == h.blocks[f].chunk
    ensures var h2 := JoinAfter(h, f);
            h2.chunks == h.chunks && h2.totalSize == h.totalSize && h2.allocatedSize == h.allocatedSize
  {
    NextIsMergeable(h, f);
    var q := f + h.blocks[f].size;
    if IsFree(h.blocks, q) {
      FreeIsListed(h, q);
      FuseKeepsInv(h, f, IndexOf(h.list, q));
      MergeStaysCoalesced(h, f);
    } else {
      NothingToJoin(h, f);
    }
    hide Inv, UnlinkWords, UnlinkHead;
  }

  lemma NothingToJoin(h: Heap, f: int)
    requires Inv(h) && CoalescedBut(h.blocks, f) && IsFree(h.blocks, f) && !IsFree(h.blocks, f + h.blocks[f].size)
    ensures Valid(h)
  {
    assert forall b {:trigger Separated(h.blocks, b)} | b in h.blocks :: Separated(h.blocks, b);
    hide Inv;
  }

  lemma JoinAfterLeaves(h: Heap, f: int)
    requires Inv(h) && IsFree(h.blocks, f)
    ensures Untouched(h, JoinAfter(h, f), NULL)
  {
    NextIsMergeable(h, f);
    var q := f + h.blocks[f].size;
    if IsFree(h.blocks, q) {
      FreeIsListed(h, q);
      FuseLeaves(h, f, IndexOf(h.list, q));
    } else {
      assert PayloadsStay(h, h.word, NULL);
    }
    hide Inv, UnlinkWords, UnlinkHead;
  }

  /** A chunk that is one free block is given back if more than half of what is allocated stays free. */
  ghost predicate Surplus(h: Heap, f: int)
    requires f in h.blocks
  {
    WholeChunk(h, f) && h.totalSize - h.blocks[f].size > h.allocatedSize * 3 / 2
  }

  ghost function GiveBack(h: Heap, f: int): Heap
    requires Inv(h) && IsFree(h.blocks, f)
  {
    if Surplus(h, f) then FreeIsListed(h, f); Drop(h, IndexOf(h.list, f)) else h
  }

  lemma DropStaysCoalesced(h: Heap, f: int)
    requires Coalesced(h.blocks) && f in h.blocks
    ensures Coalesced(h.blocks - {f, f + h.blocks[f].size})
  {
    var rest := h.blocks - {f, f + h.blocks[f].size};
    forall b | b in rest ensures Separated(rest, b) {
      assert Separated(h.blocks, b);
    }
  }

  lemma GiveBackKeeps(h: Heap, f: int)
    requires Valid(h) && IsFree(h.blocks, f)
    ensures Valid(GiveBack(h, f)) && Untouched(h, GiveBack(h, f), NULL)
    ensures GiveBack(h, f).chunks == if Surplus(h, f) then h.chunks - {h.blocks[f].chunk} else h.chunks
  {
    FreeIsListed(h, f);
    if Surplus(h, f) {
      DropKeepsInv(h, IndexOf(h.list, f));
      DropLeaves(h, IndexOf(h.list, f));
      DropStaysCoalesced(h, f);
    } else {
      assert PayloadsStay(h, h.word, NULL);
    }
    hide Inv, UnlinkWords, UnlinkHead, Unmap;
  }

  /** `free` of the block `b`. */
  ghost function FreeBlock(h: Heap, b: int): Heap
    requires Valid(h) && InUse(h.blocks, b)
  {
    JoinBeforeKeeps(h, b);
    JoinAfterKeeps(JoinBefore(h, b), Joined(h, b));
    GiveBack(JoinAfter(JoinBefore(h, b), Joined(h, b)), Joined(h, b))
  }

  lemma FreeKeepsValid(h: Heap, b: int)
    requires Valid(h) && InUse(h.blocks, b)
    ensures Valid(FreeBlock(h, b))
  {
    JoinBeforeKeeps(h, b);
    JoinAfterKeeps(JoinBefore(h, b), Joined(h, b));
    GiveBackKeeps(JoinAfter(JoinBefore(h, b), Joined(h, b)), Joined(h, b));
    hide Valid, JoinBefore, JoinAfter, GiveBack, Joined;
  }

  /** Every other block in use stays where it is, with its contents. */
  lemma FreeLeaves(h: Heap, b: int)
    requires Valid(h) && InUse(h.blocks, b)
    ensures Untouched(h, FreeBlock(h, b), b)
  {
    JoinBeforeKeeps(h, b);
    JoinBeforeLeaves(h, b);
    var h1, f := JoinBefore(h, b), Joined(h, b);
    JoinAfterKeeps(h1, f);
    JoinAfterLeaves(h1, f);
    var h2 := JoinAfter(h1, f);
    GiveBackKeeps(h2, f);
    NotNullUsed(h);
    hide Valid, Inv, JoinBefore, JoinAfter, GiveBack, Joined, Untouched;
    UntouchedTrans(h, h1, h2, b, NULL);
    UntouchedTrans(h, h2, GiveBack(h2, f), b, NULL);
  }

  lemma NotNullUsed(h: Heap)
    requires Valid(h)
    ensures !InUse(h.blocks, NULL)
  {
    if NULL in h.blocks {
      NullIsNoBlock(h, NULL);
    }
  }
}
