/** The steps that `alloc`, `free` and `free_unused_regions` are made of
    (src/uwin-jit/executable_memory_allocator.cpp), and what each keeps: the invariant, the payload
    of every block in use, and, where it matters, the separation of free blocks. */
module XmemSteps {
  import opened XmemHeap
  import opened XmemList

  // --- Sums ---

  lemma SumUpdate(blocks: map<int, Block>, kind: Kind, b: int, k: Block)
    ensures b in blocks ==> Sum(blocks[b := k], kind) == Sum(blocks, kind) - Weight(blocks[b], kind) + Weight(k, kind)
    ensures b !in blocks ==> Sum(blocks[b := k], kind) == Sum(blocks, kind) + Weight(k, kind)
  {
    SumSet(blocks, kind, b, k);
    if b in blocks {
      SumWithout(blocks, kind, b);
    }
  }

  /** The counters play no part in the structure. */
  function Recount(h: Heap, used: int, total: int): Heap {
    h.(allocatedSize := used, totalSize := total)
  }

  lemma RecountKeeps(h: Heap, hole: int, used: int, total: int)
    requires Core(h) && Links(h, hole)
    ensures Core(Recount(h, used, total)) && Links(Recount(h, used, total), hole)
  {
  }

  lemma RecountCore(h: Heap, h': Heap)
    requires Core(h) && h' == h.(allocatedSize := h'.allocatedSize)
    ensures Core(h')
  {
  }

  // --- Payloads of blocks in use ---

  ghost predicate SamePayload(w: map<int, int>, w': map<int, int>, b: int, size: int) {
    forall a | b + BLOCK_HEADER <= a < b + size && a in w :: a in w' && w'[a] == w[a]
  }

  ghost predicate InUse(blocks: map<int, Block>, b: int) {
    b in blocks && blocks[b].kind == Used
  }

  /** The client's bytes in every block in use, except `but`, are the same in memory `w`. */
  ghost predicate PayloadsStay(h: Heap, w: map<int, int>, but: int) {
    forall b {:trigger SamePayload(h.word, w, b, h.blocks[b].size)} | InUse(h.blocks, b) && b != but ::
      SamePayload(h.word, w, b, h.blocks[b].size)
  }

  lemma StoreLeaves(h: Heap, w: map<int, int>, x: int, i: int, v: int, but: int)
    requires Geometry(h.chunks, h.blocks) && PayloadsStay(h, w, but)
    requires x in h.blocks && 0 <= i < h.blocks[x].size
    requires i < BLOCK_HEADER || h.blocks[x].kind == Free || x == but
    ensures PayloadsStay(h, w[x + i := v], but)
  {
    forall b | InUse(h.blocks, b) && b != but ensures SamePayload(h.word, w[x + i := v], b, h.blocks[b].size) {
      assert SamePayload(h.word, w, b, h.blocks[b].size);
      if x != b {
        assert Apart(h.blocks, x, b) && Apart(h.blocks, b, x);
      }
    }
  }

  /** Every block in use, except `but`, is still there with its payload. */
  ghost predicate Untouched(h: Heap, h': Heap, but: int) {
    && PayloadsStay(h, h'.word, but)
    && forall b | InUse(h.blocks, b) && b != but :: b in h'.blocks && h'.blocks[b] == h.blocks[b]
  }

  lemma UntouchedTrans(h: Heap, h1: Heap, h2: Heap, but: int, but': int)
    requires Untouched(h, h1, but) && Untouched(h1, h2, but')
    requires InUse(h.blocks, but') ==> but' == but
    ensures Untouched(h, h2, but)
  {
    forall b | InUse(h.blocks, b) && b != but
      ensures SamePayload(h.word, h2.word, b, h.blocks[b].size) && b in h2.blocks && h2.blocks[b] == h.blocks[b]
    {
      assert SamePayload(h.word, h1.word, b, h.blocks[b].size) && InUse(h1.blocks, b);
      assert SamePayload(h1.word, h2.word, b, h.blocks[b].size);
    }
  }

  // --- Taking a free block whole ---

  function TakeWhole(h: Heap, i: nat): Heap
    requires i < |h.list| && h.list[i] in h.blocks && h.list[i] + NEXT in h.word && h.list[i] + PREV in h.word
  {
    var b := h.list[i];
    Retag(Unlink(h, i), b, Used).(allocatedSize := h.allocatedSize + h.blocks[b].size)
  }

  lemma TakeWholeKeepsList(h: Heap, i: nat)
    requires Core(h) && Links(h, NULL) && i < |h.list|
    ensures h.list[i] in h.blocks && h.list[i] + NEXT in h.word && h.list[i] + PREV in h.word
    ensures Links(TakeWhole(h, i), NULL)
  {
    UnlinkKeepsList(h, i);
    UnlinkKeepsCore(h, i);
    ListNeighbours(h, i);
    var u, b := Unlink(h, i), h.list[i];
    assert Placed(h.chunks, h.blocks, b);
    assert LinksStay(u, u.word);
    StoreStays(u, u.word, b, SIZE, h.blocks[b].size);
    NullNotListed(u, b);
    NotNullFree(h);
    LinksFollow(u, TakeWhole(h, i), b, NULL);
  }

  lemma TakeWholeKeepsInv(h: Heap, i: nat)
    requires Inv(h) && i < |h.list|
    ensures h.list[i] in h.blocks && h.list[i] + NEXT in h.word && h.list[i] + PREV in h.word
    ensures Inv(TakeWhole(h, i))
  {
    TakeWholeKeepsList(h, i);
    UnlinkKeepsCore(h, i);
    var u, b := Unlink(h, i), h.list[i];
    ListNeighbours(h, i);
    RetagKeepsCore(u, b, Used);
    SumUpdate(h.blocks, Used, b, h.blocks[b].(kind := Used));
    SumUpdate(h.blocks, Free, b, h.blocks[b].(kind := Used));
    RecountCore(Retag(u, b, Used), TakeWhole(h, i));
    hide Core, Links, Unlink;
  }

  lemma UnlinkLeaves(h: Heap, i: nat)
    requires Core(h) && Links(h, NULL) && i < |h.list|
    ensures h.list[i] + NEXT in h.word && h.list[i] + PREV in h.word
    ensures Untouched(h, Unlink(h, i), NULL)
  {
    ListNeighbours(h, i);
    var b := h.list[i];
    var next, prev := h.word[b + NEXT], h.word[b + PREV];
    var w := if next == NULL then h.word else h.word[next + PREV := prev];
    assert PayloadsStay(h, h.word, NULL);
    if next != NULL {
      ListNeighbours(h, i + 1);
      assert Placed(h.chunks, h.blocks, next);
      StoreLeaves(h, h.word, next, PREV, prev, NULL);
    }
    if prev != NULL {
      ListNeighbours(h, i - 1);
      assert Placed(h.chunks, h.blocks, prev);
      StoreLeaves(h, w, prev, NEXT, next, NULL);
    }
    hide Core, Links;
  }

  lemma TakeWholeLeaves(h: Heap, i: nat)
    requires Core(h) && Links(h, NULL) && i < |h.list|
    ensures h.list[i] in h.blocks && h.list[i] + NEXT in h.word && h.list[i] + PREV in h.word
    ensures Untouched(h, TakeWhole(h, i), NULL)
  {
    ListNeighbours(h, i);
    UnlinkLeaves(h, i);
    var b := h.list[i];
    assert Placed(h.chunks, h.blocks, b);
    StoreLeaves(h, Unlink(h, i).word, b, SIZE, h.blocks[b].size, NULL);
    hide Core, Links, Unlink;
  }

  // --- Cutting from the end of a free block ---

  function Cut(h: Heap, f: int, n: int): Heap
    requires f in h.blocks && 0 < n <= h.blocks[f].size && f + OFFSET in h.word
  {
    Split(h, f, n).(allocatedSize := h.allocatedSize + if h.blocks[f].kind == Free then n else 0)
  }

  lemma SplitKeepsLinks(h: Heap, f: int, n: int)
    requires Core(h) && Splittable(h, f, n)
    ensures f + OFFSET in h.word && LinksStay(h, Split(h, f, n).word)
  {
    assert BlockOk(h.word, h.chunks, h.blocks, f) && Placed(h.chunks, h.blocks, f);
    var k := h.blocks[f];
    var rest, e := k.size - n, f + k.size;
    assert Placed(h.chunks, h.blocks, e) && LinksStay(h, h.word);
    var w1 := h.word[f + SizeField(k) := rest];
    StoreStays(h, h.word, f, SizeField(k), rest);
    var w2 := w1[f + rest + PREV_SIZE := rest];
    StoreStays(h, w1, f, rest + PREV_SIZE, rest);
    var w3 := w2[f + rest + OFFSET := h.word[f + OFFSET]];
    StoreStays(h, w2, f, rest + OFFSET, h.word[f + OFFSET]);
    var w4 := w3[e + PREV_SIZE := n];
    StoreStays(h, w3, e, PREV_SIZE, n);
    StoreStays(h, w4, f, rest + SIZE, n);
    hide LinksStay, Geometry;
  }

  lemma SplitLeaves(h: Heap, f: int, n: int)
    requires Core(h) && Splittable(h, f, n)
    ensures f + OFFSET in h.word && Untouched(h, Split(h, f, n), f)
  {
    assert BlockOk(h.word, h.chunks, h.blocks, f) && Placed(h.chunks, h.blocks, f);
    var k := h.blocks[f];
    var rest, e := k.size - n, f + k.size;
    assert Placed(h.chunks, h.blocks, e) && PayloadsStay(h, h.word, f);
    var w1 := h.word[f + SizeField(k) := rest];
    StoreLeaves(h, h.word, f, SizeField(k), rest, f);
    var w2 := w1[f + rest + PREV_SIZE := rest];
    StoreLeaves(h, w1, f, rest + PREV_SIZE, rest, f);
    var w3 := w2[f + rest + OFFSET := h.word[f + OFFSET]];
    StoreLeaves(h, w2, f, rest + OFFSET, h.word[f + OFFSET], f);
    var w4 := w3[e + PREV_SIZE := n];
    StoreLeaves(h, w3, e, PREV_SIZE, n, f);
    StoreLeaves(h, w4, f, rest + SIZE, n, f);
    SplitIsFresh(h, f, n);
    hide PayloadsStay, Geometry;
  }

  lemma CutKeepsList(h: Heap, f: int, n: int)
    requires Core(h) && Links(h, NULL) && Splittable(h, f, n)
    ensures f + OFFSET in h.word && Links(Cut(h, f, n), NULL)
  {
    SplitKeepsLinks(h, f, n);
    SplitIsFresh(h, f, n);
    NullNotListed(h, NULL);
    LinksFollow(h, Cut(h, f, n), NULL, NULL);
    hide LinksStay, Links, Core;
  }

  lemma CutKeepsSums(h: Heap, f: int, n: int)
    requires Core(h) && Splittable(h, f, n) && Counted(h)
    ensures f + OFFSET in h.word && Counted(Cut(h, f, n))
  {
    assert BlockOk(h.word, h.chunks, h.blocks, f);
    SplitIsFresh(h, f, n);
    var k := h.blocks[f];
    var k' := k.(size := k.size - n);
    var used := Block(Used, n, k.chunk);
    SumUpdate(h.blocks, Used, f, k');
    SumUpdate(h.blocks[f := k'], Used, f + k.size - n, used);
    SumUpdate(h.blocks, Free, f, k');
    SumUpdate(h.blocks[f := k'], Free, f + k.size - n, used);
    hide Core;
  }

  lemma CutKeepsInv(h: Heap, f: int, n: int)
    requires Inv(h) && Splittable(h, f, n)
    ensures f + OFFSET in h.word && Inv(Cut(h, f, n))
  {
    SplitKeepsCore(h, f, n);
    CutKeepsList(h, f, n);
    CutKeepsSums(h, f, n);
    RecountCore(Split(h, f, n), Cut(h, f, n));
    hide Core, Links, Counted, Cut;
  }

  // --- A new chunk ---

  lemma AddKeepsList(h: Heap, c: int, k: Chunk, memory: map<int, int>)
    requires Core(h) && Links(h, NULL) && FreshRegion(h, c, k, memory)
    ensures Links(AddWhole(h, c, k, memory), NULL)
  {
    var h' := AddWhole(h, c, k, memory);
    forall b | IsFree(h.blocks, b) ensures SameLinks(h.word, h'.word, b) {
      assert Placed(h.chunks, h.blocks, b);
      if b + NEXT in h.word {
        WordOutside(h, c, k, memory, b, NEXT);
      }
      if b + PREV in h.word {
        WordOutside(h, c, k, memory, b, PREV);
      }
    }
    NullNotListed(h, NULL);
    AddIsFresh(h, c, k, memory);
    hide AddWords;
    LinksFollow(h, h', NULL, NULL);
  }

  lemma AddKeepsSums(h: Heap, c: int, k: Chunk, memory: map<int, int>)
    requires Core(h) && FreshRegion(h, c, k, memory) && Counted(h)
    ensures Counted(AddWhole(h, c, k, memory))
  {
    AddIsFresh(h, c, k, memory);
    var b, first, last := c + CHUNK_HEADER, Block(Used, k.size - 32, c), Block(End, BLOCK_HEADER, c);
    forall kind: Kind ensures Sum(AddBlocks(h.blocks, c, k.size), kind)
        == Sum(h.blocks, kind) + Weight(first, kind) + Weight(last, kind) {
      SumUpdate(h.blocks, kind, b, first);
      SumUpdate(h.blocks[b := first], kind, c + k.size - BLOCK_HEADER, last);
    }
    hide Core, AddWords;
  }

  lemma AddLeaves(h: Heap, c: int, k: Chunk, memory: map<int, int>)
    requires Core(h) && FreshRegion(h, c, k, memory)
    ensures Untouched(h, AddWhole(h, c, k, memory), NULL)
  {
    var h' := AddWhole(h, c, k, memory);
    AddIsFresh(h, c, k, memory);
    forall b | InUse(h.blocks, b) ensures SamePayload(h.word, h'.word, b, h.blocks[b].size) {
      forall a | b + BLOCK_HEADER <= a < b + h.blocks[b].size && a in h.word ensures a in h'.word
          && h'.word[a] == h.word[a] {
        WordOutside(h, c, k, memory, b, a - b);
      }
      hide AddWhole;
    }
    hide AddWords;
  }

  lemma AddKeepsInv(h: Heap, c: int, k: Chunk, memory: map<int, int>)
    requires Inv(h) && FreshRegion(h, c, k, memory)
    ensures Inv(AddWhole(h, c, k, memory))
  {
    AddKeepsCore(h, c, k, memory);
    AddKeepsList(h, c, k, memory);
    AddKeepsSums(h, c, k, memory);
    hide Geometry, Headers, Links, Counted, AddWhole, FreshRegion;
  }

  // --- A used block becomes free ---

  lemma InsertKeepsInv(h: Heap, b: int)
    requires Inv(h) && Insertable(h, b)
    ensures Inv(Insert(h, b))
  {
    InsertKeepsCore(h, b);
    InsertKeepsList(h, b);
    SumUpdate(h.blocks, Used, b, h.blocks[b].(kind := Free));
    SumUpdate(h.blocks, Free, b, h.blocks[b].(kind := Free));
    hide Geometry, Headers, Links, InsertWords;
  }

  lemma InsertLeaves(h: Heap, b: int)
    requires Core(h) && Links(h, NULL) && Insertable(h, b)
    ensures Untouched(h, Insert(h, b), b)
  {
    assert Placed(h.chunks, h.blocks, b) && PayloadsStay(h, h.word, b);
    var w1 := h.word[b + SIZE := 0];
    StoreLeaves(h, h.word, b, SIZE, 0, b);
    var w2 := w1[b + FREE_SIZE := h.blocks[b].size];
    StoreLeaves(h, w1, b, FREE_SIZE, h.blocks[b].size, b);
    var w3 := w2[b + NEXT := h.head];
    StoreLeaves(h, w2, b, NEXT, h.head, b);
    StoreLeaves(h, w3, b, PREV, NULL, b);
    if h.head != NULL {
      assert Linked(h.word, h.list, 0) && Placed(h.chunks, h.blocks, h.head);
      StoreLeaves(h, w3[b + PREV := NULL], h.head, PREV, b, b);
    }
    hide PayloadsStay, Geometry, Links;
  }

  /** The free block `p` takes in the used block after it. */
  function Absorb(h: Heap, p: int): Heap
    requires p in h.blocks && p + h.blocks[p].size in h.blocks
  {
    Merge(h, p).(allocatedSize := h.allocatedSize - h.blocks[p + h.blocks[p].size].size)
  }

  lemma MergeSums(h: Heap, p: int, kind: Kind)
    requires Mergeable(h, p) && h.blocks[p].size > 0
    ensures Sum(Merge(h, p).blocks, kind) == Sum(h.blocks, kind) - Weight(h.blocks[p + h.blocks[p].size], kind)
                                           + if kind == Free then h.blocks[p + h.blocks[p].size].size else 0
  {
    var q := p + h.blocks[p].size;
    SumWithout(h.blocks, kind, q);
    SumUpdate(h.blocks - {q}, kind, p, h.blocks[p].(size := h.blocks[p].size + h.blocks[q].size));
  }

  lemma AbsorbKeepsInv(h: Heap, p: int)
    requires Inv(h) && Mergeable(h, p) && h.blocks[p + h.blocks[p].size].kind == Used
    ensures Inv(Absorb(h, p))
  {
    assert Placed(h.chunks, h.blocks, p);
    NullIsNoBlock(h, p);
    MergeKeepsCore(h, p);
    MergeKeepsList(h, p, NULL);
    MergeSums(h, p, Used);
    MergeSums(h, p, Free);
    RecountKeeps(Merge(h, p), NULL, Absorb(h, p).allocatedSize, h.totalSize);
    assert Recount(Merge(h, p), Absorb(h, p).allocatedSize, h.totalSize) == Absorb(h, p);
    hide Core, Links;
  }

  lemma MergeLeaves(h: Heap, p: int)
    requires Core(h) && Mergeable(h, p)
    ensures Untouched(h, Merge(h, p), p + h.blocks[p].size)
  {
    var q, k := p + h.blocks[p].size, Merge(h, p).blocks[p];
    assert Placed(h.chunks, h.blocks, p) && Placed(h.chunks, h.blocks, q) && Placed(h.chunks, h.blocks, p + k.size);
    assert PayloadsStay(h, h.word, q);
    StoreLeaves(h, h.word, p, FREE_SIZE, k.size, q);
    StoreLeaves(h, h.word[p + FREE_SIZE := k.size], p + k.size, PREV_SIZE, k.size, q);
    hide PayloadsStay, Geometry;
  }

  /** The free block `p` takes in the free block after it, at position `i` of the list. */
  function Fuse(h: Heap, p: int, i: nat): Heap
    requires i < |h.list| && h.list[i] + NEXT in h.word && h.list[i] + PREV in h.word
    requires p in h.blocks && p + h.blocks[p].size in h.blocks
  {
    Merge(Unlink(h, i), p)
  }

  lemma FuseKeepsInv(h: Heap, p: int, i: nat)
    requires Inv(h) && Mergeable(h, p) && i < |h.list| && h.list[i] == p + h.blocks[p].size
    ensures h.list[i] + NEXT in h.word && h.list[i] + PREV in h.word
    ensures Inv(Fuse(h, p, i))
  {
    assert Placed(h.chunks, h.blocks, p);
    ListNeighbours(h, i);
    UnlinkKeepsCore(h, i);
    UnlinkKeepsList(h, i);
    var u := Unlink(h, i);
    MergeKeepsCore(u, p);
    MergeKeepsList(u, p, h.list[i]);
    MergeSums(h, p, Used);
    MergeSums(h, p, Free);
    hide Geometry, Headers, Links, UnlinkWords, UnlinkHead;
  }

  lemma FuseLeaves(h: Heap, p: int, i: nat)
    requires Inv(h) && Mergeable(h, p) && i < |h.list| && h.list[i] == p + h.blocks[p].size
    ensures h.list[i] + NEXT in h.word && h.list[i] + PREV in h.word
    ensures Untouched(h, Fuse(h, p, i), NULL)
  {
    UnlinkLeaves(h, i);
    UnlinkKeepsCore(h, i);
    ListNeighbours(h, i);
    var u := Unlink(h, i);
    MergeLeaves(u, p);
    hide Inv, Core, Links, PayloadsStay, Unlink;
    UntouchedFused(h, u, Fuse(h, p, i), h.list[i]);
  }

  lemma UntouchedFused(h: Heap, u: Heap, h': Heap, q: int)
    requires Untouched(h, u, NULL) && Untouched(u, h', q) && IsFree(h.blocks, q)
    ensures Untouched(h, h', NULL)
  {
    UntouchedTrans(h, u, h', NULL, q);
  }

  // --- Giving a wholly free chunk back to the system ---

  /** `f` is free and is all of its chunk. */
  ghost predicate WholeChunk(h: Heap, f: int) {
    && IsFree(h.blocks, f) && f == h.blocks[f].chunk + CHUNK_HEADER
    && f + h.blocks[f].size in h.blocks && h.blocks[f + h.blocks[f].size].kind == End
  }

  /** The system takes back `size` bytes from address `c`. */
  function Unmap(word: map<int, int>, c: int, size: int): map<int, int> {
    map a | a in word && !(c <= a < c + size) :: word[a]
  }

  function Release(h: Heap, f: int): Heap
    requires f in h.blocks
  {
    var k := h.blocks[f];
    h.(word := Unmap(h.word, f - CHUNK_HEADER, k.size + CHUNK_HEADER + BLOCK_HEADER),
       chunks := h.chunks - {k.chunk}, blocks := h.blocks - {f, f + k.size}, totalSize := h.totalSize - k.size)
  }

  /** The region handed to the system is exactly the chunk. */
  lemma ReleaseIsWholeChunk(h: Heap, f: int)
    requires Geometry(h.chunks, h.blocks) && WholeChunk(h, f)
    ensures f - CHUNK_HEADER in h.chunks
    ensures h.chunks[f - CHUNK_HEADER].size == h.blocks[f].size + CHUNK_HEADER + BLOCK_HEADER
  {
    assert Placed(h.chunks, h.blocks, f) && Placed(h.chunks, h.blocks, f + h.blocks[f].size);
  }

  lemma OtherChunk(h: Heap, f: int, b: int)
    requires Geometry(h.chunks, h.blocks) && WholeChunk(h, f)
    requires b in h.blocks && b != f && b != f + h.blocks[f].size
    ensures var c := h.blocks[f].chunk;
            && c in h.chunks && h.blocks[b].chunk in h.chunks && h.blocks[b].chunk != c
            && (b + h.blocks[b].size <= c || c + h.chunks[c].size <= b)
  {
    var c, e := h.blocks[f].chunk, f + h.blocks[f].size;
    assert Placed(h.chunks, h.blocks, f) && Placed(h.chunks, h.blocks, e) && Placed(h.chunks, h.blocks, b);
    assert Apart(h.blocks, f, b) && Apart(h.blocks, e, b) && Apart(h.blocks, b, e);
    assert ChunksApart(h.chunks, c, h.blocks[b].chunk) && ChunksApart(h.chunks, h.blocks[b].chunk, c);
  }

  lemma ReleaseKeepsPlaced(h: Heap, f: int, b: int)
    requires Geometry(h.chunks, h.blocks) && WholeChunk(h, f) && b in Release(h, f).blocks
    ensures Placed(Release(h, f).chunks, Release(h, f).blocks, b)
  {
    OtherChunk(h, f, b);
    assert Placed(h.chunks, h.blocks, b) && Placed(h.chunks, h.blocks, f)
           && Placed(h.chunks, h.blocks, f + h.blocks[f].size);
  }

  lemma ReleaseKeepsGeometry(h: Heap, f: int)
    requires Geometry(h.chunks, h.blocks) && WholeChunk(h, f)
    ensures Geometry(Release(h, f).chunks, Release(h, f).blocks)
  {
    var h' := Release(h, f);
    forall b | b in h'.blocks ensures Placed(h'.chunks, h'.blocks, b) {
      ReleaseKeepsPlaced(h, f, b);
    }
    forall b, c | b in h'.blocks && c in h'.blocks ensures Apart(h'.blocks, b, c) {
      assert Apart(h.blocks, b, c);
    }
    assert Placed(h.chunks, h.blocks, f) && Placed(h.chunks, h.blocks, f + h.blocks[f].size);
    forall c | c in h'.chunks ensures Based(h'.chunks, h'.blocks, c) {
      assert Based(h.chunks, h.blocks, c);
    }
    forall c, d | c in h'.chunks && d in h'.chunks ensures ChunksApart(h'.chunks, c, d) {
      assert ChunksApart(h.chunks, c, d);
    }
  }

  lemma ReleaseKeepsChunk(h: Heap, f: int, d: int)
    requires Core(h) && WholeChunk(h, f) && d in Release(h, f).chunks
    ensures ChunkOk(Release(h, f).word, Release(h, f).chunks, d)
  {
    var c := h.blocks[f].chunk;
    ReleaseIsWholeChunk(h, f);
    assert ChunkOk(h.word, h.chunks, d) && ChunksApart(h.chunks, c, d) && ChunksApart(h.chunks, d, c);
    assert Based(h.chunks, h.blocks, d) && Placed(h.chunks, h.blocks, d + CHUNK_HEADER);
  }

  lemma ReleaseKeepsWord(h: Heap, f: int, b: int, i: int)
    requires Geometry(h.chunks, h.blocks) && WholeChunk(h, f) && b in Release(h, f).blocks
    requires 0 <= i < h.blocks[b].size && b + i in h.word
    ensures b + i in Release(h, f).word && Release(h, f).word[b + i] == h.word[b + i]
  {
    ReleaseIsWholeChunk(h, f);
    OtherChunk(h, f, b);
  }

  lemma ReleaseKeepsBlock(h: Heap, f: int, b: int)
    requires Core(h) && WholeChunk(h, f) && b in Release(h, f).blocks
    ensures BlockOk(Release(h, f).word, Release(h, f).chunks, Release(h, f).blocks, b)
  {
    var h' := Release(h, f);
    OtherChunk(h, f, b);
    assert Placed(h.chunks, h.blocks, b) && BlockOk(h.word, h.chunks, h.blocks, b);
    ReleaseKeepsWord(h, f, b, SIZE);
    ReleaseKeepsWord(h, f, b, PREV_SIZE);
    ReleaseKeepsWord(h, f, b, OFFSET);
    if h.blocks[b].kind == Free {
      ReleaseKeepsWord(h, f, b, FREE_SIZE);
    }
    ReleaseKeepsPrevious(h, f, b);
    hide Unmap;
  }

  lemma ReleaseKeepsPrevious(h: Heap, f: int, b: int)
    requires Geometry(h.chunks, h.blocks) && WholeChunk(h, f) && b in Release(h, f).blocks
    ensures forall p | Precedes(h.blocks, p, b) :: Precedes(Release(h, f).blocks, p, b)
  {
    OtherChunk(h, f, b);
    assert Placed(h.chunks, h.blocks, f);
    forall p | Precedes(h.blocks, p, b) ensures Precedes(Release(h, f).blocks, p, b) {
      assert Placed(h.chunks, h.blocks, p);
    }
  }

  lemma ReleaseKeepsCore(h: Heap, f: int)
    requires Core(h) && WholeChunk(h, f)
    ensures Core(Release(h, f))
  {
    var h' := Release(h, f);
    ReleaseKeepsGeometry(h, f);
    forall c | c in h'.chunks ensures ChunkOk(h'.word, h'.chunks, c) {
      ReleaseKeepsChunk(h, f, c);
    }
    forall b | b in h'.blocks ensures BlockOk(h'.word, h'.chunks, h'.blocks, b) {
      ReleaseKeepsBlock(h, f, b);
    }
    hide Geometry, Unmap, WholeChunk;
  }

  lemma ReleaseKeepsList(h: Heap, f: int)
    requires Core(h) && WholeChunk(h, f) && Links(h, f)
    ensures Links(Release(h, f), NULL)
  {
    var h' := Release(h, f);
    NullNotListed(h, f);
    forall i | 0 <= i < |h.list| ensures Listed(h', i) && SameLinks(h.word, h'.word, h.list[i]) {
      var b := h.list[i];
      assert Linked(h.word, h.list, i) && Placed(h.chunks, h.blocks, b) && b in h.list;
      ReleaseKeepsWord(h, f, b, NEXT);
      ReleaseKeepsWord(h, f, b, PREV);
    }
    LinksFrame(h, h', f, NULL);
    hide Unmap, Core;
  }

  lemma ReleaseSums(h: Heap, f: int, kind: Kind)
    requires Geometry(h.chunks, h.blocks) && WholeChunk(h, f)
    ensures Sum(Release(h, f).blocks, kind)
            == Sum(h.blocks, kind) - (if kind == Free then h.blocks[f].size else 0) - (if kind
               == End then BLOCK_HEADER else 0)
  {
    var e := f + h.blocks[f].size;
    assert Placed(h.chunks, h.blocks, e);
    SumWithout(h.blocks, kind, f);
    SumWithout(h.blocks - {f}, kind, e);
    assert h.blocks - {f} - {e} == h.blocks - {f, e};
  }

  /** Unlinking a wholly free chunk's block and giving the chunk back. */
  function Drop(h: Heap, i: nat): Heap
    requires i < |h.list| && h.list[i] in h.blocks && h.list[i] + NEXT in h.word && h.list[i] + PREV in h.word
  {
    Release(Unlink(h, i), h.list[i])
  }

  lemma DropKeepsInv(h: Heap, i: nat)
    requires Inv(h) && i < |h.list| && WholeChunk(h, h.list[i])
    ensures h.list[i] + NEXT in h.word && h.list[i] + PREV in h.word
    ensures Inv(Drop(h, i))
  {
    ListNeighbours(h, i);
    UnlinkKeepsCore(h, i);
    UnlinkKeepsList(h, i);
    var u := Unlink(h, i);
    ReleaseKeepsCore(u, h.list[i]);
    ReleaseKeepsList(u, h.list[i]);
    ReleaseSums(h, h.list[i], Used);
    ReleaseSums(h, h.list[i], Free);
    hide Geometry, Headers, Links, UnlinkWords, UnlinkHead, Unmap;
  }

  lemma ReleaseLeaves(h: Heap, f: int)
    requires Core(h) && WholeChunk(h, f)
    ensures Untouched(h, Release(h, f), NULL)
  {
    var h' := Release(h, f);
    forall b | InUse(h.blocks, b) ensures SamePayload(h.word, h'.word, b, h.blocks[b].size) {
      forall a | b + BLOCK_HEADER <= a < b + h.blocks[b].size && a in h.word ensures a in h'.word
          && h'.word[a] == h.word[a] {
        ReleaseKeepsWord(h, f, b, a - b);
      }
    }
    hide Unmap, Core;
  }

  lemma DropLeaves(h: Heap, i: nat)
    requires Inv(h) && i < |h.list| && WholeChunk(h, h.list[i])
    ensures h.list[i] + NEXT in h.word && h.list[i] + PREV in h.word
    ensures Untouched(h, Drop(h, i), NULL)
  {
    ListNeighbours(h, i);
    UnlinkKeepsCore(h, i);
    UnlinkLeaves(h, i);
    ReleaseLeaves(Unlink(h, i), h.list[i]);
    UntouchedTrans(h, Unlink(h, i), Drop(h, i), NULL, NULL);
  }
}
