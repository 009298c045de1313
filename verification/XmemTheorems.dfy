/** What the executable memory allocator (src/uwin-jit/executable_memory_allocator.cpp) guarantees
    its callers, over every run of its operations. */
module XmemTheorems {
  import opened XmemHeap
  import opened XmemList
  import opened XmemSteps
  import opened XmemOps

  // --- The headers alone tile every chunk ---

  /** From `b`, following the sizes in the headers leads exactly to the terminator at `e`, and each
      header's prev_size is the size of the block just passed. */
  ghost predicate Walk(word: map<int, int>, b: int, prev: int, e: int)
    decreases e - b
  {
    && b + SIZE in word && b + PREV_SIZE in word && word[b + PREV_SIZE] == prev
    && if word[b + SIZE] == 1 then b == e
       else
         var size := if word[b + SIZE] == 0 && b + FREE_SIZE in word then word[b + FREE_SIZE] else word[b + SIZE];
         size >= MIN_BLOCK && b + size <= e && Walk(word, b + size, size, e)
  }

  lemma {:induction false} WalkFrom(h: Heap, c: int, b: int)
    requires Core(h) && c in h.chunks && b in h.blocks && h.blocks[b].chunk == c
    ensures b + PREV_SIZE in h.word
    ensures Walk(h.word, b, h.word[b + PREV_SIZE], c + h.chunks[c].size - BLOCK_HEADER)
    decreases c + h.chunks[c].size - b
  {
    assert Placed(h.chunks, h.blocks, b) && BlockOk(h.word, h.chunks, h.blocks, b);
    var k := h.blocks[b];
    if k.kind != End {
      var next := b + k.size;
      assert Placed(h.chunks, h.blocks, next) && BlockOk(h.word, h.chunks, h.blocks, next);
      WalkFrom(h, c, next);
      NextPrevSize(h, b);
    }
  }

  /** The prev_size of the block after `b` is the size of `b`. */
  lemma NextPrevSize(h: Heap, b: int)
    requires Core(h) && b in h.blocks && h.blocks[b].kind != End
    ensures var n := b + h.blocks[b].size; n + PREV_SIZE in h.word && h.word[n + PREV_SIZE] == h.blocks[b].size
  {
    assert Placed(h.chunks, h.blocks, b);
    var n := b + h.blocks[b].size;
    assert Placed(h.chunks, h.blocks, n) && BlockOk(h.word, h.chunks, h.blocks, n);
    assert n != h.blocks[n].chunk + CHUNK_HEADER;
    var p := n - h.word[n + PREV_SIZE];
    assert Placed(h.chunks, h.blocks, p);
    assert Apart(h.blocks, p, b) && Apart(h.blocks, b, p);
  }

  lemma ChunksAreTiled(h: Heap, c: int)
    requires Valid(h) && c in h.chunks
    ensures Walk(h.word, c + CHUNK_HEADER, 0, c + h.chunks[c].size - BLOCK_HEADER)
  {
    assert Based(h.chunks, h.blocks, c) && BlockOk(h.word, h.chunks, h.blocks, c + CHUNK_HEADER);
    WalkFrom(h, c, c + CHUNK_HEADER);
  }

  // --- The free list, read from memory ---

  /** From `at`, the next and prev words spell out `list`, ending in NULL. */
  ghost predicate Chained(word: map<int, int>, at: int, prev: int, list: seq<int>)
    decreases |list|
  {
    if list == [] then at == NULL
    else && at == list[0] && at != NULL && at + PREV in word && word[at + PREV] == prev
         && at + NEXT in word && Chained(word, word[at + NEXT], at, list[1..])
  }

  lemma {:induction false} ChainedFrom(h: Heap, i: nat)
    requires Valid(h) && i <= |h.list|
    ensures Chained(h.word, At(h.list, i), At(h.list, i - 1), h.list[i..])
    decreases |h.list| - i
  {
    if i < |h.list| {
      ListNeighbours(h, i);
      ChainedFrom(h, i + 1);
      assert h.list[i..][1..] == h.list[i + 1..];
    }
  }

  /** Memory holds a well-formed doubly linked list of exactly the blocks whose size word is 0, each
      once. */
  lemma FreeListIsExact(h: Heap)
    requires Valid(h)
    ensures Chained(h.word, h.head, NULL, h.list)
    ensures forall i, j | 0 <= i < j < |h.list| :: h.list[i] != h.list[j]
    ensures forall b | b in h.list :: b in h.blocks
    ensures forall b | b in h.blocks :: b + SIZE in h.word && (h.word[b + SIZE] == 0 <==> b in h.list)
  {
    ChainedFrom(h, 0);
    NullNotListed(h, NULL);
    NotNullFree(h);
    forall b | b in h.blocks ensures b + SIZE in h.word && (h.word[b + SIZE] == 0 <==> b in h.list) {
      assert BlockOk(h.word, h.chunks, h.blocks, b) && Placed(h.chunks, h.blocks, b);
    }
    hide Geometry, Headers, Linked;
  }

  // --- Payloads handed out ---

  /** The bytes a caller may use of the block `b` lie inside its chunk and outside every other
      block's, aligned to 8. */
  lemma PayloadsAreDisjoint(h: Heap, b: int, c: int)
    requires Valid(h) && InUse(h.blocks, b) && InUse(h.blocks, c)
    ensures (b + BLOCK_HEADER) % 8 == 0 && h.blocks[b].chunk in h.chunks
    ensures h.blocks[b].chunk < b && b + h.blocks[b].size <= h.blocks[b].chunk + h.chunks[h.blocks[b].chunk].size
    ensures b != c ==> b + h.blocks[b].size <= c + BLOCK_HEADER || c + h.blocks[c].size <= b + BLOCK_HEADER
  {
    assert Placed(h.chunks, h.blocks, b) && Apart(h.blocks, b, c) && Apart(h.blocks, c, b);
  }

  /** Whatever callers store in the words of their own blocks, the allocator's structure stays valid. */
  lemma ClientStoresAreHarmless(h: Heap, b: int, i: int, v: int)
    requires Valid(h) && InUse(h.blocks, b) && BLOCK_HEADER <= i < h.blocks[b].size && i % 8 == 0
    ensures Valid(Put(h, b + i, v)) && Untouched(h, Put(h, b + i, v), b)
  {
    PayloadStore(h, b, i, v);
    assert LinksStay(h, h.word) && PayloadsStay(h, h.word, b);
    StoreStays(h, h.word, b, i, v);
    StoreLeaves(h, h.word, b, i, v, b);
    NullNotListed(h, NULL);
    NotNullFree(h);
    LinksFollow(h, Put(h, b + i, v), NULL, NULL);
    hide Core;
  }

  /** The block's executable_offset field is the distance to its chunk's executable mapping. */
  lemma ExecutableOffset(h: Heap, b: int)
    requires Valid(h) && InUse(h.blocks, b)
    ensures h.blocks[b].chunk in h.chunks && b + OFFSET in h.word
            && h.word[b + OFFSET] == h.chunks[h.blocks[b].chunk].offset
  {
    assert BlockOk(h.word, h.chunks, h.blocks, b);
  }

  // --- When free gives a chunk back ---

  /** Chunk `c` has a block in use other than `but`. */
  ghost predicate UsedIn(blocks: map<int, Block>, c: int, but: int) {
    exists b :: InUse(blocks, b) && blocks[b].chunk == c && b != but
  }

  /** In a coalesced heap, a chunk without used blocks is one free block. */
  lemma UnusedIsWhole(h: Heap, c: int)
    requires Valid(h) && c in h.chunks && !UsedIn(h.blocks, c, NULL)
    ensures WholeChunk(h, c + CHUNK_HEADER)
    ensures forall f | IsFree(h.blocks, f) && h.blocks[f].chunk == c :: f == c + CHUNK_HEADER
  {
    var f := c + CHUNK_HEADER;
    assert Based(h.chunks, h.blocks, c) && Placed(h.chunks, h.blocks, f);
    NotNullUsed(h);
    assert !InUse(h.blocks, f);
    var e := f + h.blocks[f].size;
    assert Separated(h.blocks, f) && Placed(h.chunks, h.blocks, e);
    assert !InUse(h.blocks, e);
    forall g | IsFree(h.blocks, g) && h.blocks[g].chunk == c ensures g == f {
      assert Placed(h.chunks, h.blocks, g) && Apart(h.blocks, f, g) && Apart(h.blocks, e, g);
    }
  }

  lemma WholeIsUnused(h: Heap, f: int)
    requires Valid(h) && WholeChunk(h, f)
    ensures !UsedIn(h.blocks, h.blocks[f].chunk, NULL)
  {
    forall b | InUse(h.blocks, b) ensures h.blocks[b].chunk != h.blocks[f].chunk {
      OtherChunk(h, f, b);
    }
  }

  /** After joining, the chunk of the freed block is one free block exactly when nothing else in it
      was in use. */
  lemma JoinedIsWhole(h: Heap, h2: Heap, b: int, f: int)
    requires Valid(h) && InUse(h.blocks, b) && Valid(h2) && Untouched(h, h2, b)
    requires IsFree(h2.blocks, f) && h2.blocks[f].chunk == h.blocks[b].chunk && h2.chunks == h.chunks
    requires forall x | InUse(h2.blocks, x) :: InUse(h.blocks, x) && x != b
    ensures h.blocks[b].chunk in h.chunks
    ensures WholeChunk(h2, f) <==> !UsedIn(h.blocks, h.blocks[b].chunk, b)
    ensures WholeChunk(h2, f) ==> h2.blocks[f].size == h.chunks[h.blocks[b].chunk].size - 32
  {
    var c := h.blocks[b].chunk;
    assert Placed(h.chunks, h.blocks, b);
    assert UsedIn(h.blocks, c, b) ==> UsedIn(h2.blocks, c, NULL) by {
      NotNullUsed(h2);
      if x :| InUse(h.blocks, x) && h.blocks[x].chunk == c && x != b {
        assert InUse(h2.blocks, x);
      }
    }
    if WholeChunk(h2, f) {
      WholeIsUnused(h2, f);
      ReleaseIsWholeChunk(h2, f);
    }
    if !UsedIn(h2.blocks, c, NULL) {
      UnusedIsWhole(h2, c);
    }
    assert UsedIn(h2.blocks, c, NULL) ==> UsedIn(h.blocks, c, b) by {
      if x :| InUse(h2.blocks, x) && h2.blocks[x].chunk == c {
        assert InUse(h.blocks, x) && h2.blocks[x] == h.blocks[x];
      }
    }
  }

  lemma JoinUses(h: Heap, b: int)
    requires Valid(h) && InUse(h.blocks, b)
    ensures forall x | InUse(JoinBefore(h, b).blocks, x) :: InUse(h.blocks, x) && x != b
  {
    BeforeIsPrevious(h, b);
    assert Placed(h.chunks, h.blocks, b);
    hide Before, InsertWords;
  }

  lemma JoinAfterUses(h: Heap, f: int)
    requires Inv(h) && IsFree(h.blocks, f)
    ensures forall x | InUse(JoinAfter(h, f).blocks, x) :: InUse(h.blocks, x)
  {
    NextIsMergeable(h, f);
    if IsFree(h.blocks, f + h.blocks[f].size) {
      FreeIsListed(h, f + h.blocks[f].size);
    }
    hide Inv, UnlinkWords, UnlinkHead;
  }

  /** `free` gives the block's chunk back to the system exactly when the chunk has no other block in
      use and what remains free after that exceeds half of what remains allocated. */
  lemma FreeReleases(h: Heap, b: int)
    requires Valid(h) && InUse(h.blocks, b)
    ensures h.blocks[b].chunk in h.chunks
    ensures var c := h.blocks[b].chunk;
            var payload := h.chunks[c].size - 32;
            var used := h.allocatedSize - h.blocks[b].size;
            FreeBlock(h, b).chunks == if !UsedIn(h.blocks, c, b) && 2 * (h.totalSize - payload - used) > used
                                      then h.chunks - {c} else h.chunks
  {
    var c := h.blocks[b].chunk;
    JoinBeforeKeeps(h, b);
    JoinBeforeLeaves(h, b);
    JoinUses(h, b);
    var h1, f := JoinBefore(h, b), Joined(h, b);
    JoinAfterKeeps(h1, f);
    JoinAfterLeaves(h1, f);
    JoinAfterUses(h1, f);
    var h2 := JoinAfter(h1, f);
    NotNullUsed(h);
    NotNullUsed(h2);
    GiveBackKeeps(h2, f);
    hide Valid, Inv, JoinBefore, JoinAfter, GiveBack, Joined, Untouched;
    UntouchedTrans(h, h1, h2, b, NULL);
    JoinedIsWhole(h, h2, b, f);
    hide UsedIn, WholeChunk;
  }

  // --- free_unused_regions ---

  lemma DropKeepsValid(h: Heap, i: nat)
    requires Valid(h) && i < |h.list| && WholeChunk(h, h.list[i])
    ensures h.list[i] + NEXT in h.word && h.list[i] + PREV in h.word
    ensures Valid(Drop(h, i)) && Drop(h, i).list == Without(h.list, i)
  {
    DropKeepsInv(h, i);
    DropStaysCoalesced(h, h.list[i]);
    hide Inv, Coalesced, Unmap, UnlinkWords, UnlinkHead;
  }

  /** The loop from position `i`: each wholly free chunk is unlinked and given back. */
  ghost function TrimFrom(h: Heap, i: nat): Heap
    requires Valid(h) && i <= |h.list|
    decreases |h.list| - i
  {
    if i == |h.list| then h
    else if WholeChunk(h, h.list[i]) then DropKeepsValid(h, i); TrimFrom(Drop(h, i), i)
    else TrimFrom(h, i + 1)
  }

  /** From `h` to `h'` only chunks without used blocks went away, and no block in use changed. */
  ghost predicate Trimmed(h: Heap, h': Heap) {
    && Untouched(h, h', NULL)
    && (forall x | InUse(h'.blocks, x) :: InUse(h.blocks, x))
    && (forall c | c in h'.chunks :: c in h.chunks)
    && (forall c | c in h.chunks && c !in h'.chunks :: !UsedIn(h.blocks, c, NULL))
  }

  lemma UsedStays(h: Heap, h1: Heap, c: int)
    requires Untouched(h, h1, NULL)
    ensures UsedIn(h.blocks, c, NULL) ==> UsedIn(h1.blocks, c, NULL)
  {
    if x :| InUse(h.blocks, x) && h.blocks[x].chunk == c && x != NULL {
      assert InUse(h1.blocks, x);
    }
  }

  lemma TrimmedTrans(h: Heap, h1: Heap, h2: Heap)
    requires Valid(h) && Trimmed(h, h1) && Trimmed(h1, h2)
    ensures Trimmed(h, h2)
  {
    NotNullUsed(h);
    UntouchedTrans(h, h1, h2, NULL, NULL);
    forall c | c in h.chunks && c !in h2.chunks ensures !UsedIn(h.blocks, c, NULL) {
      UsedStays(h, h1, c);
    }
    hide Valid, Untouched, UsedIn;
  }

  lemma DropTrims(h: Heap, i: nat)
    requires Valid(h) && i < |h.list| && WholeChunk(h, h.list[i])
    ensures h.list[i] + NEXT in h.word && h.list[i] + PREV in h.word
    ensures Trimmed(h, Drop(h, i))
  {
    DropLeaves(h, i);
    WholeIsUnused(h, h.list[i]);
    hide Valid, Unmap, UnlinkWords, UnlinkHead, Untouched, UsedIn;
  }

  lemma TrimFromKeeps(h: Heap, i: nat)
    requires Valid(h) && i <= |h.list|
    requires forall j | 0 <= j < i :: !WholeChunk(h, h.list[j])
    ensures Valid(TrimFrom(h, i)) && Trimmed(h, TrimFrom(h, i))
    ensures var h' := TrimFrom(h, i); forall j | 0 <= j < |h'.list| :: !WholeChunk(h', h'.list[j])
    decreases |h.list| - i
  {
    hide Valid, Drop, Trimmed, WholeChunk;
    if i == |h.list| {
      TrimmedSame(h);
    } else if WholeChunk(h, h.list[i]) {
      DropKeepsValid(h, i);
      DropTrims(h, i);
      DropReady(h, i);
      DropKeepsFirst(h, i);
      var d := Drop(h, i);
      TrimFromKeeps(d, i);
      TrimmedTrans(h, d, TrimFrom(d, i));
    } else {
      TrimFromKeeps(h, i + 1);
    }
  }

  lemma DropReady(h: Heap, i: nat)
    requires Valid(h) && i < |h.list|
    ensures h.list[i] in h.blocks && h.list[i] + NEXT in h.word && h.list[i] + PREV in h.word
  {
    TakeReady(h, i);
  }

  lemma TrimmedSame(h: Heap)
    requires Valid(h)
    ensures Trimmed(h, h)
  {
    assert PayloadsStay(h, h.word, NULL);
    hide Valid;
  }

  /** Giving a chunk back leaves the list before it as it was. */
  lemma DropKeepsFirst(h: Heap, i: nat)
    requires Valid(h) && i < |h.list| && WholeChunk(h, h.list[i])
    requires forall j | 0 <= j < i :: !WholeChunk(h, h.list[j])
    ensures h.list[i] in h.blocks && h.list[i] + NEXT in h.word && h.list[i] + PREV in h.word
    ensures var d := Drop(h, i); i <= |d.list| && forall j | 0 <= j < i :: !WholeChunk(d, d.list[j])
  {
    DropReady(h, i);
    DropTrims(h, i);
    var d := Drop(h, i);
    forall j | 0 <= j < i ensures !WholeChunk(d, d.list[j]) {
      assert d.list[j] == h.list[j];
    }
    hide Valid;
  }

  /** free_unused_regions gives back every chunk that has no block in use, no other chunk, and leaves
      the blocks in use and the structure intact. */
  lemma TrimReleases(h: Heap)
    requires Valid(h)
    ensures var h' := TrimFrom(h, 0);
            && Valid(h') && Untouched(h, h', NULL)
            && (forall c :: c in h'.chunks <==> c in h.chunks && UsedIn(h.blocks, c, NULL))
  {
    TrimFromKeeps(h, 0);
    var h' := TrimFrom(h, 0);
    forall c | c in h'.chunks ensures UsedIn(h.blocks, c, NULL) {
      if !UsedIn(h'.blocks, c, NULL) {
        UnusedIsWhole(h', c);
        FreeIsListed(h', c + CHUNK_HEADER);
      } else {
        var x :| InUse(h'.blocks, x) && h'.blocks[x].chunk == c && x != NULL;
        assert InUse(h.blocks, x) && h.blocks[x] == h'.blocks[x];
      }
    }
    hide Valid, TrimFrom;
  }

  // --- free undoes alloc ---

  /** Freeing a block just taken from the free list puts block structure and counters back, before
      the decision to give a chunk back; if the block was cut off a larger one, the list as well. */
  lemma FreeUndoesTake(h: Heap, i: nat, n: nat)
    requires Valid(h) && Takeable(h, i, n)
    ensures var h1, b := Take(h, i, n), TakenAt(h, i, n);
            && Valid(h1) && InUse(h1.blocks, b)
            && Inv(JoinBefore(h1, b)) && IsFree(JoinBefore(h1, b).blocks, Joined(h1, b))
            && var h2 := JoinAfter(JoinBefore(h1, b), Joined(h1, b));
               && h2.blocks == h.blocks && h2.chunks == h.chunks
               && h2.allocatedSize == h.allocatedSize && h2.totalSize == h.totalSize
               && (SizeOf(h, h.list[i]) > n + 64 ==> h2.list == h.list && h2.head == h.head)
               && multiset(h2.list) == multiset(h.list)
  {
    TakeKeepsValid(h, i, n);
    TakeGives(h, i, n);
    var h1, b := Take(h, i, n), TakenAt(h, i, n);
    JoinBeforeKeeps(h1, b);
    if SizeOf(h, h.list[i]) > n + 64 {
      FreeUndoesCut(h, i, n);
    } else {
      FreeUndoesWhole(h, i, n);
    }
    hide Valid, Inv, Take, TakenAt, JoinBefore, JoinAfter, Joined;
    NothingToJoin(h, JoinBefore(h1, b), h.list[i]);
  }

  /** No free block follows a free block of a valid heap. */
  lemma NothingToJoin(h: Heap, h1: Heap, f: int)
    requires Valid(h) && Inv(h1) && h1.blocks == h.blocks && IsFree(h.blocks, f)
    ensures JoinAfter(h1, f) == h1
  {
    NextIsMergeable(h1, f);
    assert Separated(h.blocks, f);
  }

  lemma FreeUndoesCut(h: Heap, i: nat, n: nat)
    requires Valid(h) && Takeable(h, i, n) && SizeOf(h, h.list[i]) > n + 64
    requires Valid(Take(h, i, n)) && InUse(Take(h, i, n).blocks, TakenAt(h, i, n))
    ensures var h1, b := Take(h, i, n), TakenAt(h, i, n);
            && Joined(h1, b) == h.list[i]
            && JoinBefore(h1, b).blocks == h.blocks && JoinBefore(h1, b).list == h.list
               && JoinBefore(h1, b).head == h.head
            && JoinBefore(h1, b).allocatedSize == h.allocatedSize && JoinBefore(h1, b).totalSize == h.totalSize
            && JoinBefore(h1, b).chunks == h.chunks && IsFree(h.blocks, h.list[i])
  {
    TakeReady(h, i);
    var f, h1, b := h.list[i], Take(h, i, n), TakenAt(h, i, n);
    BeforeIsPrevious(h1, b);
    SplitIsFresh(h, f, n);
    assert h1.word[b + PREV_SIZE] == h.blocks[f].size - n && Before(h1, b) == f by {
      hide Valid, Inv;
    }
    assert Absorb(h1, f).blocks == h.blocks by {
      hide Valid, Inv;
    }
    hide Valid, Inv;
  }

  lemma FreeUndoesWhole(h: Heap, i: nat, n: nat)
    requires Valid(h) && Takeable(h, i, n) && SizeOf(h, h.list[i]) <= n + 64
    requires Valid(Take(h, i, n)) && InUse(Take(h, i, n).blocks, TakenAt(h, i, n))
    ensures var h1, b := Take(h, i, n), TakenAt(h, i, n);
            && Joined(h1, b) == h.list[i]
            && JoinBefore(h1, b).blocks == h.blocks && JoinBefore(h1, b).list == [b] + Without(h.list, i)
            && JoinBefore(h1, b).allocatedSize == h.allocatedSize && JoinBefore(h1, b).totalSize == h.totalSize
            && JoinBefore(h1, b).chunks == h.chunks && IsFree(h.blocks, h.list[i])
            && multiset(JoinBefore(h1, b).list) == multiset(h.list)
  {
    TakeReady(h, i);
    var f, h1 := h.list[i], Take(h, i, n);
    BeforeIsPrevious(h1, f);
    NothingFreeBefore(h, f);
    assert h.list == h.list[..i] + [f] + h.list[i + 1..];
    hide Valid, Inv;
  }

  lemma NothingFreeBefore(h: Heap, f: int)
    requires Valid(h) && IsFree(h.blocks, f)
    ensures forall p | Precedes(h.blocks, p, f) :: h.blocks[p].kind != Free
  {
    forall p | Precedes(h.blocks, p, f) ensures h.blocks[p].kind != Free {
      assert Separated(h.blocks, p);
    }
  }

  // --- alloc as a whole ---

  /** The system's answer to a request for a region. */
  datatype Reply = Refused | Region(base: int, offset: int, memory: map<int, int>)

  /** No size that is used wraps: the block's, where one is handed out, and the region's, where the system grants one;
      and that region is really new. */
  ghost predicate Answerable(h: Heap, size: nat, reply: Reply) {
    if FirstFit(h, BlockSize(size), 0) < |h.list| then size + 31 < WORD
    else
      reply.Region? ==>
        && size <= MAX_REQUEST
        && FreshRegion(h, reply.base, Chunk(ChunkBytes(BlockSize(size)), reply.offset), reply.memory)
  }

  ghost function Alloc(h: Heap, size: nat, reply: Reply): (Heap, int)
    requires Valid(h) && Answerable(h, size, reply)
  {
    var n, i := BlockSize(size), FirstFit(h, BlockSize(size), 0);
    if i < |h.list| then
      BlockFits(size);
      (Take(h, i, n), TakenAt(h, i, n) + BLOCK_HEADER)
    else match reply
      case Refused => (h, NULL)
      case Region(c, offset, memory) =>
        SizesWhenFit(size);
        (Grow(h, n, c, Chunk(ChunkBytes(n), offset), memory), c + CHUNK_HEADER + BLOCK_HEADER)
  }

  /** `alloc` fails, changing nothing, only when no free block is large enough and the system refuses;
      otherwise the block it returns was not in use, is now, holds the bytes asked for, and wastes at most 64. */
  lemma AllocIsSound(h: Heap, size: nat, reply: Reply)
    requires Valid(h) && Answerable(h, size, reply)
    ensures var (h', p) := Alloc(h, size, reply);
            && Valid(h') && Untouched(h, h', NULL)
            && if reply.Refused?
               && (forall i | 0 <= i < |h.list| :: SizeOf(h, h.list[i]) < BlockSize(size)) then h' == h && p == NULL
               else !InUse(h.blocks, p - BLOCK_HEADER) && InUse(h'.blocks, p - BLOCK_HEADER)
                    && size + BLOCK_HEADER <= h'.blocks[p - BLOCK_HEADER].size <= BlockSize(size) + 64
  {
    hide Valid, Untouched, Take, Grow, BlockSize, ChunkBytes, TakenAt, FreshRegion, InUse;
    var n, i := BlockSize(size), FirstFit(h, BlockSize(size), 0);
    if i < |h.list| {
      BlockFits(size);
      AllocTakes(h, n, i);
    } else if reply.Region? {
      SizesWhenFit(size);
      AllocGrows(h, n, reply.base, Chunk(ChunkBytes(n), reply.offset), reply.memory);
    } else {
      UntouchedSame(h);
    }
  }

  lemma UntouchedSame(h: Heap)
    ensures Untouched(h, h, NULL)
  {
    assert PayloadsStay(h, h.word, NULL);
  }

  /** The block cut from, or made of, a free block. */
  lemma AllocTakes(h: Heap, n: nat, i: nat)
    requires Valid(h) && n % 8 == 0 && n >= MIN_BLOCK && i == FirstFit(h, n, 0) < |h.list|
    ensures Takeable(h, i, n) && SizeOf(h, h.list[i]) >= n
    ensures var h', b := Take(h, i, n), TakenAt(h, i, n);
            && Valid(h') && Untouched(h, h', NULL) && !InUse(h.blocks, b) && InUse(h'.blocks, b)
               && n <= h'.blocks[b].size <= n + 64
  {
    TakeKeepsValid(h, i, n);
    TakeLeaves(h, i, n);
    TakeGives(h, i, n);
    hide Valid, Untouched, Take, TakenAt, InUse;
  }

  /** The block at the head of a new chunk. */
  lemma AllocGrows(h: Heap, n: nat, c: int, k: Chunk, memory: map<int, int>)
    requires Valid(h) && Growable(h, n, c, k, memory)
    ensures var h', b := Grow(h, n, c, k, memory), c + CHUNK_HEADER;
            && Valid(h') && Untouched(h, h', NULL) && !InUse(h.blocks, b) && InUse(h'.blocks, b)
               && h'.blocks[b].size == if k.size - 32 - n > 64 then n else k.size - 32
  {
    GrowKeepsValid(h, n, c, k, memory);
    GrowLeaves(h, n, c, k, memory);
    GrowGives(h, n, c, k, memory);
    hide Valid, Untouched, Grow, InUse, FreshRegion;
  }

  /** A request within 31 bytes of the word's range is taken for one of at most 24 bytes: where any block is free, the
      first one listed is handed out for it. */
  lemma WrappedRequestIsServed(h: Heap, size: nat)
    requires Valid(h) && WORD - 31 <= size < WORD && h.list != []
    ensures BlockSize(size) <= BLOCK_HEADER && FirstFit(h, BlockSize(size), 0) == 0
  {
    WrappedSizes(size);
    ListedIsFree(h, 0);
    hide Valid, BlockSize;
  }

  lemma ListedIsFree(h: Heap, i: nat)
    requires Valid(h) && i < |h.list|
    ensures h.list[i] in h.blocks && SizeOf(h, h.list[i]) >= MIN_BLOCK
  {
    TakeReady(h, i);
    assert Placed(h.chunks, h.blocks, h.list[i]) && BlockOk(h.word, h.chunks, h.blocks, h.list[i]);
  }

  // --- Every run ---

  datatype Call = Allocate(size: nat, reply: Reply) | Release(p: int) | Trim | Store(p: int, i: nat, v: int)

  /** Callers free, and store words into, blocks they hold. */
  ghost predicate Admissible(h: Heap, call: Call) {
    match call
    case Allocate(size, reply) => Answerable(h, size, reply)
    case Release(p) => InUse(h.blocks, p - BLOCK_HEADER)
    case Trim => true
    case Store(p, i, v) =>
      InUse(h.blocks, p - BLOCK_HEADER) && i % 8 == 0 && i + BLOCK_HEADER < h.blocks[p - BLOCK_HEADER].size
  }

  ghost function Serve(h: Heap, call: Call): Heap
    requires Valid(h) && Admissible(h, call)
  {
    match call
    case Allocate(size, reply) => Alloc(h, size, reply).0
    case Release(p) => FreeBlock(h, p - BLOCK_HEADER)
    case Trim => TrimFrom(h, 0)
    case Store(p, i, v) => Put(h, p + i, v)
  }

  /** The block a call is about, which alone it may change. */
  function Target(call: Call): int {
    match call
    case Release(p) => p - BLOCK_HEADER
    case Store(p, _, _) => p - BLOCK_HEADER
    case _ => NULL
  }

  lemma ServeKeeps(h: Heap, call: Call)
    requires Valid(h) && Admissible(h, call)
    ensures Valid(Serve(h, call)) && Untouched(h, Serve(h, call), Target(call))
  {
    hide Valid, Untouched, FreeBlock, Alloc, TrimFrom, FreshRegion;
    match call
    case Allocate(size, reply) => AllocIsSound(h, size, reply);
    case Release(p) =>
      FreeKeepsValid(h, p - BLOCK_HEADER);
      FreeLeaves(h, p - BLOCK_HEADER);
    case Trim => TrimReleases(h);
    case Store(p, i, v) =>
      ClientStoresAreHarmless(h, p - BLOCK_HEADER, i + BLOCK_HEADER, v);
  }

  ghost predicate Run(h: Heap, calls: seq<Call>)
    requires Valid(h)
    decreases |calls|
  {
    calls == [] || (Admissible(h, calls[0]) && (ServeKeeps(h, calls[0]); Run(Serve(h, calls[0]), calls[1..])))
  }

  ghost function After(h: Heap, calls: seq<Call>): Heap
    requires Valid(h) && Run(h, calls)
    decreases |calls|
  {
    if calls == [] then h else ServeKeeps(h, calls[0]); After(Serve(h, calls[0]), calls[1..])
  }

  const EMPTY := Heap(map[], NULL, 0, 0, map[], map[], [])

  lemma EmptyIsValid()
    ensures Valid(EMPTY)
  {
  }

  /** After any run, the structure is valid, every chunk is tiled by its blocks, and a block that no
      call freed or stored into is still in use, in place, with its contents. */
  lemma {:induction false} EveryRun(h: Heap, calls: seq<Call>, b: int)
    requires Valid(h) && Run(h, calls)
    requires InUse(h.blocks, b) && forall call | call in calls :: Target(call) != b
    ensures var h' := After(h, calls);
            Valid(h') && InUse(h'.blocks, b) && h'.blocks[b] == h.blocks[b]
                && SamePayload(h.word, h'.word, b, h.blocks[b].size)
    decreases |calls|
  {
    if calls != [] {
      ServeKeeps(h, calls[0]);
      var h1 := Serve(h, calls[0]);
      assert InUse(h1.blocks, b) && SamePayload(h.word, h1.word, b, h.blocks[b].size);
      hide Valid, Untouched, Serve;
      EveryRun(h1, calls[1..], b);
    }
  }

  /** The headers alone tile every chunk. */
  ghost predicate Tiled(h: Heap) {
    forall c {:trigger h.chunks[c]} | c in h.chunks ::
        Walk(h.word, c + CHUNK_HEADER, 0, c + h.chunks[c].size - BLOCK_HEADER)
  }

  lemma ValidIsTiled(h: Heap)
    requires Valid(h)
    ensures Tiled(h)
  {
    forall c | c in h.chunks ensures Walk(h.word, c + CHUNK_HEADER, 0, c + h.chunks[c].size - BLOCK_HEADER) {
      ChunksAreTiled(h, c);
    }
  }

  lemma {:induction false} EveryRunIsValid(h: Heap, calls: seq<Call>)
    requires Valid(h) && Run(h, calls)
    ensures Valid(After(h, calls)) && Tiled(After(h, calls))
    decreases |calls|
  {
    hide Valid, Untouched, Serve, Tiled;
    if calls == [] {
      ValidIsTiled(h);
    } else {
      ServeKeeps(h, calls[0]);
      EveryRunIsValid(Serve(h, calls[0]), calls[1..]);
    }
  }
}
