/** The executable memory allocator (src/uwin-jit/executable_memory_allocator.cpp) as it rewrites
    headers, links and counters in place. Every load and store is of mapped memory. */
module ExecutableMemory {
  import opened XmemHeap
  import opened XmemList
  import opened XmemSteps
  import opened XmemOps
  import opened XmemTheorems

  lemma InBlock(h: Heap, b: int, i: int)
    requires Core(h) && b in h.blocks && 0 <= i < h.blocks[b].size && i % 8 == 0
    ensures b + i in h.word
  {
    assert Placed(h.chunks, h.blocks, b) && ChunkOk(h.word, h.chunks, h.blocks[b].chunk);
  }

  class Xmem {
    var word: map<int, int>
    var freeBlocks: int
    var allocatedSize: int
    var totalSize: int
    ghost var chunks: map<int, Chunk>
    ghost var blocks: map<int, Block>
    ghost var list: seq<int>

    ghost function View(): Heap
      reads this
    {
      Heap(word, freeBlocks, allocatedSize, totalSize, chunks, blocks, list)
    }

    constructor ()
      ensures View() == EMPTY
    {
      word, freeBlocks, allocatedSize, totalSize := map[], NULL, 0, 0;
      chunks, blocks, list := map[], map[], [];
    }

    method Load(a: int) returns (v: int)
      requires a in word
      ensures v == word[a]
    {
      v := word[a];
    }

    method Store(a: int, v: int)
      requires a in word
      modifies `word
      ensures word == old(word)[a := v]
    {
      word := word[a := v];
    }

    ghost predicate HeaderMapped(b: int)
      reads this
    {
      && b + SIZE in word && b + PREV_SIZE in word && b + OFFSET in word
      && b + NEXT in word && b + PREV in word && b + FREE_SIZE in word
    }

    /** insert_free_block */
    method InsertFreeBlock(b: int, size: int)
      requires HeaderMapped(b) && (freeBlocks != NULL ==> freeBlocks + PREV in word)
      modifies `word, `freeBlocks
      ensures word == InsertWords(old(word), old(freeBlocks), b, size) && freeBlocks == b
    {
      Store(b + SIZE, 0);
      Store(b + FREE_SIZE, size);
      Store(b + NEXT, freeBlocks);
      Store(b + PREV, NULL);
      if freeBlocks != NULL {
        Store(freeBlocks + PREV, b);
      }
      freeBlocks := b;
    }

    /** remove_free_block; the source asserts that a block without a predecessor is the first. */
    method RemoveFreeBlock(b: int)
      requires b + NEXT in word && b + PREV in word
      requires word[b + NEXT] != NULL ==> word[b + NEXT] + PREV in word && Far(word[b + NEXT], b)
      requires word[b + PREV] != NULL ==> word[b + PREV] + NEXT in word
      requires word[b + PREV] == NULL ==> freeBlocks == b
      modifies `word, `freeBlocks
      ensures word == UnlinkWords(old(word), b) && freeBlocks == UnlinkHead(old(word), old(freeBlocks), b)
    {
      var next := Load(b + NEXT);
      if next != NULL {
        var before := Load(b + PREV);
        Store(next + PREV, before);
      }
      var prev := Load(b + PREV);
      if prev != NULL {
        var after := Load(b + NEXT);
        Store(prev + NEXT, after);
      } else {
        assert freeBlocks == b;
        freeBlocks := Load(b + NEXT);
      }
    }

    /** Unlinks position `i` of the free list. */
    method Remove(b: int, ghost i: nat)
      requires Core(View()) && Links(View(), NULL) && i < |list| && list[i] == b
      modifies `word, `freeBlocks, `list
      ensures i < |old(list)| && b + NEXT in old(word) && b + PREV in old(word)
      ensures View() == Unlink(old(View()), i)
    {
      ghost var h := View();
      ListNeighbours(h, i);
      if i + 1 < |list| {
        LinksFar(h, i, i + 1);
        ListNeighbours(h, i + 1);
      }
      if i > 0 {
        ListNeighbours(h, i - 1);
      }
      RemoveFreeBlock(b);
      list := Without(list, i);
    }

    /** The part of alloc that serves a request from a free block that is large enough. */
    method TakeFrom(f: int, n: nat, ghost i: nat) returns (header: int)
      requires Inv(View()) && Takeable(View(), i, n) && list[i] == f
      modifies this
      ensures Inv(old(View())) && Takeable(old(View()), i, n)
      ensures View() == Take(old(View()), i, n) && header == TakenAt(old(View()), i, n)
    {
      ghost var h := View();
      TakeReady(h, i);
      assert BlockOk(word, chunks, blocks, f);
      var size := n;
      var chunkSize := Load(f + FREE_SIZE);
      if chunkSize > size + 64 {
        header := CutFrom(f, n, chunkSize);
      } else {
        Remove(f, i);
        header := f;
        size := chunkSize;
        Store(header + SIZE, size);
        blocks := blocks[f := blocks[f].(kind := Used)];
      }
      allocatedSize := allocatedSize + size;
      hide Inv, Takeable, UnlinkWords, UnlinkHead;
    }

    method CutFrom(f: int, n: nat, chunkSize: nat) returns (header: int)
      requires Core(View()) && Splittable(View(), f, n) && IsFree(blocks, f) && chunkSize == blocks[f].size
      modifies `word, `blocks
      ensures f in old(blocks) && f + OFFSET in old(word) && View() == Split(old(View()), f, n)
      ensures header == f + chunkSize - n
    {
      ghost var h := View();
      assert BlockOk(word, chunks, blocks, f) && Placed(chunks, blocks, f);
      var rest := chunkSize - n;
      InBlock(h, f, rest + SIZE);
      InBlock(h, f, rest + PREV_SIZE);
      InBlock(h, f, rest + OFFSET);
      InBlock(h, f, FREE_SIZE);
      assert Placed(chunks, blocks, f + chunkSize);
      InBlock(h, f + chunkSize, PREV_SIZE);
      hide Core, Splittable;
      Store(f + FREE_SIZE, rest);
      header := f + rest;
      Store(header + PREV_SIZE, rest);
      var offset := Load(f + OFFSET);
      Store(header + OFFSET, offset);
      Store(header + n + PREV_SIZE, n);
      Store(header + SIZE, n);
      blocks := SplitBlocks(blocks, f, n);
    }

    ghost predicate RegionMapped(c: int, size: int)
      reads this
    {
      forall a | c <= a < c + size && a % 8 == 0 :: a in word
    }

    /** alloc_chunk: the system maps a region, whose first word gets its executable address. */
    method AllocChunk(c: int, k: Chunk, memory: map<int, int>)
      requires k.size >= MIN_BLOCK && forall a :: a in memory <==> c <= a < c + k.size && a % 8 == 0
      requires c % 8 == 0
      modifies `word
      ensures word == (old(word) + memory)[c := c + k.offset] && RegionMapped(c, k.size)
    {
      word := word + memory;
      Store(c, c + k.offset);
    }

    method EndChunk(next: int, size: int, offset: int)
      requires next + SIZE in word && next + PREV_SIZE in word && next + OFFSET in word
      modifies `word
      ensures word == EndWords(old(word), next, size, offset)
    {
      Store(next + SIZE, 1);
      Store(next + PREV_SIZE, size);
      Store(next + OFFSET, offset);
    }

    method BeginChunk(header: int, size: int, offset: int)
      requires header + SIZE in word && header + PREV_SIZE in word && header + OFFSET in word
      modifies `word
      ensures word == HeadWords(old(word), header, size, offset) && forall a | a in old(word) :: a in word
    {
      Store(header + PREV_SIZE, 0);
      Store(header + OFFSET, offset);
      Store(header + SIZE, size);
    }

    /** The rest of a new chunk becomes a free block. */
    method AddRest(free: int, n: int, rest: int, offset: int)
      requires HeaderMapped(free) && (freeBlocks != NULL ==> freeBlocks + PREV in word)
      modifies `word, `freeBlocks
      ensures word == InsertWords(TagWords(old(word), free, n, offset), old(freeBlocks), free, rest)
      ensures freeBlocks == free && forall a | a in old(word) :: a in word
    {
      Store(free + PREV_SIZE, n);
      Store(free + OFFSET, offset);
      InsertMaps(word, freeBlocks, free, rest);
      InsertFreeBlock(free, rest);
    }

    /** The headers alloc writes into a new chunk are mapped. */
    ghost predicate HeadersMapped(b: int, n: nat, s: nat)
      reads this
    {
      && b + SIZE in word && b + PREV_SIZE in word && b + OFFSET in word
      && b + s + SIZE in word && b + s + PREV_SIZE in word && b + s + OFFSET in word
      && (s > n + 64 ==> HeaderMapped(b + n))
    }

    lemma InRegion(c: int, size: int, i: int)
      requires c % 8 == 0 && i % 8 == 0 && 0 <= i < size && RegionMapped(c, size)
      ensures c + i in word
    {
    }

    lemma RegionHolds(n: nat, c: int, k: Chunk)
      requires c % 8 == 0 && k.size % 8 == 0 && n % 8 == 0 && RegionMapped(c, k.size)
      requires n >= MIN_BLOCK && k.size >= n + 32
      ensures HeadersMapped(c + CHUNK_HEADER, n, k.size - 32)
    {
      hide RegionMapped;
      RegionHeader(c, k.size, CHUNK_HEADER);
      RegionHeader(c, k.size, k.size - BLOCK_HEADER);
      if k.size - 32 > n + 64 {
        RegionHeader(c, k.size, CHUNK_HEADER + n);
        RegionHeader(c, k.size, CHUNK_HEADER + n + NEXT);
      }
    }

    /** Three consecutive words of a region. */
    lemma RegionHeader(c: int, size: int, i: int)
      requires c % 8 == 0 && i % 8 == 0 && 0 <= i && i + BLOCK_HEADER <= size && RegionMapped(c, size)
      ensures c + i in word && c + i + 8 in word && c + i + 16 in word
    {
      hide RegionMapped;
      InRegion(c, size, i);
      InRegion(c, size, i + 8);
      InRegion(c, size, i + 16);
    }

    /** The part of alloc that lays out a new chunk: one used block, or a used and a free one. */
    method LayOut(n: nat, c: int, k: Chunk) returns (header: int)
      requires n >= MIN_BLOCK && k.size >= n + 32 && HeadersMapped(c + CHUNK_HEADER, n, k.size - 32)
      requires freeBlocks != NULL ==> freeBlocks + PREV in word
      modifies `word, `freeBlocks, `allocatedSize, `totalSize
      ensures header == c + CHUNK_HEADER && word == Laid(old(word), old(freeBlocks), n, c, k)
      ensures freeBlocks == if k.size - 32 > n + 64 then header + n else old(freeBlocks)
      ensures allocatedSize == old(allocatedSize) + if k.size - 32 > n + 64 then n else k.size - 32
      ensures totalSize == old(totalSize) + k.size - 32
    {
      hide HeadWords, EndWords, TagWords, InsertWords;
      var chunkSize := k.size - (CHUNK_HEADER + BLOCK_HEADER);
      totalSize := totalSize + chunkSize;
      header := c + CHUNK_HEADER;
      var next := header + chunkSize;
      if chunkSize > n + 64 {
        allocatedSize := allocatedSize + n;
        BeginChunk(header, n, k.offset);
        AddRest(header + n, n, chunkSize - n, k.offset);
        chunkSize := chunkSize - n;
      } else {
        allocatedSize := allocatedSize + chunkSize;
        BeginChunk(header, chunkSize, k.offset);
      }
      EndChunk(next, chunkSize, k.offset);
    }

    method MapRegion(n: nat, c: int, k: Chunk, memory: map<int, int>)
      requires Inv(View()) && Growable(View(), n, c, k, memory)
      modifies `word
      ensures word == (old(word) + memory)[c := c + k.offset]
      ensures HeadersMapped(c + CHUNK_HEADER, n, k.size - 32) && HeadClear(freeBlocks, c, k)
      ensures freeBlocks != NULL ==> freeBlocks + PREV in word
    {
      if freeBlocks != NULL {
        HeadOutside(View(), c, k, memory);
      }
      hide Inv, HeadersMapped;
      AllocChunk(c, k, memory);
      RegionHolds(n, c, k);
    }

    method TakeNew(n: nat, c: int, k: Chunk, memory: map<int, int>) returns (header: int)
      requires Inv(View()) && Growable(View(), n, c, k, memory)
      modifies this
      ensures Inv(old(View())) && Growable(old(View()), n, c, k, memory)
      ensures View() == Grow(old(View()), n, c, k, memory) && header == c + CHUNK_HEADER
    {
      ghost var h := View();
      hide Inv, Grow, Laid, HeadersMapped, HeadClear, FreshRegion;
      MapRegion(n, c, k, memory);
      header := LayOut(n, c, k);
      LaidOut(h, n, c, k, memory);
      GrowStructure(h, n, c, k, memory);
      chunks := chunks[c := k];
      blocks := Grow(h, n, c, k, memory).blocks;
      list := if k.size - 32 > n + 64 then [header + n] + list else list;
    }

    /** alloc's search: the first listed block of `n` bytes or more, or NULL. */
    method FindFit(n: nat) returns (f: int, ghost i: nat)
      requires Inv(View())
      ensures i == FirstFit(View(), n, 0) && f == At(list, FirstFit(View(), n, 0))
      ensures f == NULL <==> i == |list|
    {
      f, i := freeBlocks, 0;
      while f != NULL
        invariant i <= |list| && f == At(list, i)
        invariant FirstFit(View(), n, 0) == FirstFit(View(), n, i)
        decreases |list| - i
      {
        ListNeighbours(View(), i);
        assert BlockOk(word, chunks, blocks, f);
        var available := Load(f + FREE_SIZE);
        if available >= n {
          return;
        }
        f := Load(f + NEXT);
        i := i + 1;
      }
      NullNotListed(View(), NULL);
    }

    method Alloc(size: nat, reply: Reply) returns (p: int)
      requires Valid(View()) && Answerable(View(), size, reply)
      modifies this
      ensures Valid(old(View())) && Answerable(old(View()), size, reply)
      ensures (View(), p) == XmemTheorems.Alloc(old(View()), size, reply)
    {
      hide Inv, FreshRegion, Take, Grow, BlockSize, ChunkBytes, TakenAt;
      var n := BlockSize(size);
      var f, i := FindFit(n);
      var header;
      if f != NULL {
        BlockFits(size);
        header := TakeFrom(f, n, i);
        return header + BLOCK_HEADER;
      }
      match reply
      case Refused => p := NULL;
      case Region(c, offset, memory) =>
        SizesWhenFit(size);
        header := TakeNew(n, c, Chunk(ChunkBytes(n), offset), memory);
        p := header + BLOCK_HEADER;
    }

    /** The part of free that joins the block with the free block before it, or lists it. */
    method ReleaseBefore(header: int) returns (f: int)
      requires Inv(View()) && InUse(blocks, header)
      modifies this
      ensures Inv(old(View())) && InUse(old(blocks), header)
      ensures View() == JoinBefore(old(View()), header) && f == Joined(old(View()), header)
    {
      ghost var h := View();
      BeforeIsPrevious(h, header);
      BeforeTag(h, header);
      ListHead(h);
      hide Inv, InsertWords, Insert, Absorb;
      var size := Load(header + SIZE);
      var prevSize := Load(header + PREV_SIZE);
      f := header - prevSize;
      var tag := Load(f + SIZE);
      if tag == 0 {
        AbsorbNext(f, size, header);
      } else {
        f := header;
        ListUsed(header, size);
      }
    }

    /** The free block `f` takes the block after it in. */
    method AbsorbNext(f: int, size: int, ghost header: int)
      requires f in blocks && header == f + blocks[f].size && header in blocks && blocks[header].size == size > 0
      requires f + FREE_SIZE in word && word[f + FREE_SIZE] == blocks[f].size && header + size + PREV_SIZE in word
      modifies this
      ensures old(f in blocks && f + blocks[f].size in blocks) && View() == Absorb(old(View()), f)
    {
      ghost var h := View();
      allocatedSize := allocatedSize - size;
      Extend(f, size);
      blocks := Merge(h, f).blocks;
    }

    /** A used block becomes the first of the list. */
    method ListUsed(header: int, size: int)
      requires header in blocks && blocks[header].size == size && HeaderMapped(header)
      requires freeBlocks != NULL ==> freeBlocks + PREV in word
      modifies this
      ensures old(header in blocks) && View() == Insert(old(View()), header)
    {
      hide InsertWords;
      allocatedSize := allocatedSize - size;
      InsertFreeBlock(header, size);
      blocks, list := blocks[header := blocks[header].(kind := Kind.Free)], [header] + list;
    }

    /** The free block `f` grows by `size`; the block after it records the new size. */
    method Extend(f: int, size: int)
      requires f + FREE_SIZE in word && f + word[f + FREE_SIZE] + size + PREV_SIZE in word
               && word[f + FREE_SIZE] + size > 0
      modifies `word
      ensures var n := old(word)[f + FREE_SIZE] + size; word == old(word)[f + FREE_SIZE := n][f + n + PREV_SIZE := n]
    {
      var n := Load(f + FREE_SIZE);
      Store(f + FREE_SIZE, n + size);
      n := Load(f + FREE_SIZE);
      var header := f + n;
      Store(header + PREV_SIZE, n);
    }

    /** The part of free that joins the free block with the free block after it. */
    method ReleaseAfter(f: int)
      requires Inv(View()) && IsFree(blocks, f)
      modifies `word, `freeBlocks, `blocks, `list
      ensures Inv(old(View())) && IsFree(old(blocks), f) && View() == JoinAfter(old(View()), f)
    {
      NextIsMergeable(View(), f);
      AfterTag(View(), f);
      var size := Load(f + FREE_SIZE);
      var header := f + size;
      var tag := Load(header + SIZE);
      hide Inv, Mergeable, Fuse;
      if tag == 0 {
        FreeIsListed(View(), header);
        SwallowNext(f, header, size, IndexOf(list, header));
      }
    }

    method SwallowNext(f: int, q: int, size: int, ghost i: nat)
      requires Inv(View()) && Mergeable(View(), f) && size == blocks[f].size && f + size == q && IsFree(blocks, q)
      requires i < |list| && list[i] == q
      modifies `word, `freeBlocks, `blocks, `list
      ensures i < |old(list)| && old(list)[i] == q && q + NEXT in old(word) && q + PREV in old(word)
      ensures f in old(blocks) && f + old(blocks)[f].size in old(blocks)
      ensures View() == Fuse(old(View()), f, i)
    {
      ghost var h := View();
      SwallowFacts(h, f, i);
      FuseIs(h, f, i);
      hide Inv, UnlinkWords, UnlinkHead, Fuse, Mergeable;
      var extra := Load(q + FREE_SIZE);
      Swallow(f, q, size + extra);
      blocks, list := Merge(h, f).blocks, Without(list, i);
    }

    /** free_chunk, given the address after the chunk's header: the system takes the region back. It
        is asked for exactly the region it gave. */
    method FreeChunk(chunk: int, size: int)
      requires chunk - CHUNK_HEADER in chunks && chunk - CHUNK_HEADER in word
      requires size == chunks[chunk - CHUNK_HEADER].size
      requires word[chunk - CHUNK_HEADER] == chunk - CHUNK_HEADER + chunks[chunk - CHUNK_HEADER].offset
      modifies `word, `chunks
      ensures word == Unmap(old(word), chunk - CHUNK_HEADER, size) && chunks == old(chunks) - {chunk - CHUNK_HEADER}
    {
      var header := chunk - CHUNK_HEADER;
      var executable := Load(header);
      assert executable == header + chunks[header].offset;
      word := Unmap(word, header, size);
      chunks := chunks - {header};
    }

    /** Unlinks a wholly free chunk's block and gives the chunk back. */
    method DropChunk(f: int, size: int, ghost i: nat)
      requires Inv(View()) && i < |list| && list[i] == f && WholeChunk(View(), f) && size == blocks[f].size
      modifies `word, `freeBlocks, `totalSize, `list, `chunks, `blocks
      ensures i < |old(list)| && f in old(blocks) && f + NEXT in old(word) && f + PREV in old(word) && old(list)[i] == f
      ensures View() == Drop(old(View()), i)
    {
      ghost var h := View();
      UnlinkKeepsCore(h, i);
      ReleaseIsWholeChunk(h, f);
      RecountKeeps(h, NULL, allocatedSize, totalSize - size);
      totalSize := totalSize - size;
      assert View() == Recount(h, allocatedSize, totalSize);
      Remove(f, i);
      assert ChunkOk(word, chunks, f - CHUNK_HEADER);
      hide Inv, Unlink, Unmap, Core;
      FreeChunk(f, size + CHUNK_HEADER + BLOCK_HEADER);
      blocks := blocks - {f, f + size};
    }

    /** The part of free that gives a wholly free chunk back, unless little else is free. */
    method GiveBackSurplus(f: int)
      requires Valid(View()) && IsFree(blocks, f)
      modifies `word, `freeBlocks, `totalSize, `list, `chunks, `blocks
      ensures Inv(old(View())) && IsFree(old(blocks), f) && View() == GiveBack(old(View()), f)
    {
      WholeTest(View(), f);
      FreeIsListed(View(), f);
      var prevSize := Load(f + PREV_SIZE);
      var size := Load(f + FREE_SIZE);
      var tag := Load(f + size + SIZE);
      hide Inv, WholeChunk;
      if prevSize == 0 && tag == 1 {
        if totalSize - size > allocatedSize * 3 / 2 {
          hide Drop;
          DropChunk(f, size, IndexOf(list, f));
        }
      }
    }

    method Free(p: int)
      requires Valid(View()) && InUse(blocks, p - BLOCK_HEADER)
      modifies this
      ensures Valid(old(View())) && InUse(old(blocks), p - BLOCK_HEADER)
      ensures View() == FreeBlock(old(View()), p - BLOCK_HEADER)
    {
      var header := p - BLOCK_HEADER;
      JoinBeforeKeeps(View(), header);
      JoinAfterKeeps(JoinBefore(View(), header), Joined(View(), header));
      hide Inv, JoinBefore, Joined, JoinAfter, GiveBack;
      var f := ReleaseBefore(header);
      ReleaseAfter(f);
      GiveBackSurplus(f);
    }

    method FreeUnusedRegions()
      requires Valid(View())
      modifies this
      ensures Valid(old(View())) && View() == TrimFrom(old(View()), 0)
    {
      ghost var h, i := View(), 0;
      var f := freeBlocks;
      while f != NULL
        invariant Valid(View()) && i <= |list| && f == At(list, i)
        invariant TrimFrom(h, 0) == TrimFrom(View(), i)
        decreases |list| - i
      {
        ListNeighbours(View(), i);
        var next := Load(f + NEXT);
        WholeTest(View(), f);
        var prevSize := Load(f + PREV_SIZE);
        var size := Load(f + FREE_SIZE);
        var tag := Load(f + size + SIZE);
        if prevSize == 0 && tag == 1 {
          DropKeepsValid(View(), i);
          DropChunk(f, size, i);
        } else {
          i := i + 1;
        }
        f := next;
      }
      NullNotListed(View(), NULL);
    }

    method ExecutableOffset(p: int) returns (offset: int)
      requires Valid(View()) && InUse(blocks, p - BLOCK_HEADER)
      ensures blocks[p - BLOCK_HEADER].chunk in chunks && offset == chunks[blocks[p - BLOCK_HEADER].chunk].offset
    {
      XmemTheorems.ExecutableOffset(View(), p - BLOCK_HEADER);
      offset := Load(p - BLOCK_HEADER + OFFSET);
    }

    /** remove_free_block's demands on the block `b`. */
    ghost predicate Removable(b: int)
      reads this
    {
      && b + NEXT in word && b + PREV in word
      && (word[b + NEXT] != NULL ==> word[b + NEXT] + PREV in word && Far(word[b + NEXT], b))
      && (word[b + PREV] != NULL ==> word[b + PREV] + NEXT in word)
      && (word[b + PREV] == NULL ==> freeBlocks == b)
    }

    method Swallow(f: int, q: int, size: int)
      requires Removable(q) && f + FREE_SIZE in word
      requires f + FREE_SIZE !in {q + NEXT, q + PREV, word[q + NEXT] + PREV, word[q + PREV] + NEXT}
      requires f + size + PREV_SIZE in UnlinkWords(word, q)
      modifies `word, `freeBlocks
      ensures q + NEXT in old(word) && q + PREV in old(word)
      ensures word == UnlinkWords(old(word), q)[f + FREE_SIZE := size][f + size + PREV_SIZE := size]
      ensures freeBlocks == UnlinkHead(old(word), old(freeBlocks), q)
    {
      ghost var w := word;
      UnlinkCommutes(w, freeBlocks, q, f + FREE_SIZE, size);
      Store(f + FREE_SIZE, size);
      hide UnlinkWords, UnlinkHead;
      RemoveFreeBlock(q);
      var n := Load(f + FREE_SIZE);
      var header := f + n;
      Store(header + PREV_SIZE, n);
    }
  }

  /** What the headers say of a free block: prev_size 0 and a terminator next mean a whole chunk. */
  lemma WholeTest(h: Heap, f: int)
    requires Inv(h) && IsFree(h.blocks, f)
    ensures f + PREV_SIZE in h.word && f + FREE_SIZE in h.word && h.word[f + FREE_SIZE] == h.blocks[f].size
    ensures f + h.blocks[f].size + SIZE in h.word
    ensures h.word[f + PREV_SIZE] == 0 && h.word[f + h.blocks[f].size + SIZE] == 1 <==> WholeChunk(h, f)
  {
    assert BlockOk(h.word, h.chunks, h.blocks, f) && Placed(h.chunks, h.blocks, f);
    var q := f + h.blocks[f].size;
    assert BlockOk(h.word, h.chunks, h.blocks, q) && Placed(h.chunks, h.blocks, q);
    var p := f - h.word[f + PREV_SIZE];
    assert p in h.blocks ==> Placed(h.chunks, h.blocks, p);
  }

  lemma ListHead(h: Heap)
    requires Inv(h)
    ensures h.head != NULL ==> h.head + PREV in h.word
  {
    if h.head != NULL {
      ListNeighbours(h, 0);
    }
  }

  /** The size word where prev_size leads is 0 exactly if a free block precedes; what free then reads
      and writes is mapped. */
  lemma BeforeTag(h: Heap, b: int)
    requires Inv(h) && InUse(h.blocks, b)
    ensures b + SIZE in h.word && h.word[b + SIZE] == h.blocks[b].size && h.blocks[b].size > 0
    ensures b + PREV_SIZE in h.word && b + OFFSET in h.word && b + NEXT in h.word && b + PREV in h.word
            && b + FREE_SIZE in h.word
    ensures var f := b - h.word[b + PREV_SIZE];
            && f + SIZE in h.word && (h.word[f + SIZE] == 0 <==> IsFree(h.blocks, f))
            && (IsFree(h.blocks, f) ==> f + FREE_SIZE in h.word && h.word[f + FREE_SIZE] == h.blocks[f].size
                                        && b + h.blocks[b].size + PREV_SIZE in h.word)
  {
    assert BlockOk(h.word, h.chunks, h.blocks, b) && Placed(h.chunks, h.blocks, b);
    var f, next := b - h.word[b + PREV_SIZE], b + h.blocks[b].size;
    InBlock(h, b, NEXT);
    InBlock(h, b, PREV);
    InBlock(h, b, FREE_SIZE);
    assert Placed(h.chunks, h.blocks, next) && BlockOk(h.word, h.chunks, h.blocks, next);
    assert f in h.blocks;
    assert BlockOk(h.word, h.chunks, h.blocks, f) && Placed(h.chunks, h.blocks, f);
  }

  lemma AfterTag(h: Heap, f: int)
    requires Inv(h) && IsFree(h.blocks, f)
    ensures f + FREE_SIZE in h.word && h.word[f + FREE_SIZE] == h.blocks[f].size
    ensures var q := f + h.blocks[f].size;
            && q in h.blocks && q + SIZE in h.word && (h.word[q + SIZE] == 0 <==> IsFree(h.blocks, q))
            && (IsFree(h.blocks, q) ==> q + FREE_SIZE in h.word && h.word[q + FREE_SIZE] == h.blocks[q].size)
  {
    assert BlockOk(h.word, h.chunks, h.blocks, f) && Placed(h.chunks, h.blocks, f);
    var q := f + h.blocks[f].size;
    assert BlockOk(h.word, h.chunks, h.blocks, q) && Placed(h.chunks, h.blocks, q);
  }

  /** A store beside the links concerned commutes with unlinking. */
  lemma UnlinkCommutes(w: map<int, int>, head: int, b: int, a: int, v: int)
    requires b + NEXT in w && b + PREV in w && a != b + NEXT && a != b + PREV
    ensures w[b + NEXT] + PREV != a && w[b + PREV] + NEXT != a
            ==> UnlinkWords(w[a := v], b) == UnlinkWords(w, b)[a := v]
    ensures UnlinkHead(w[a := v], head, b) == UnlinkHead(w, head, b)
  {
  }

  lemma FuseIs(h: Heap, f: int, i: nat)
    requires i < |h.list| && h.list[i] + NEXT in h.word && h.list[i] + PREV in h.word
    requires f in h.blocks && f + h.blocks[f].size in h.blocks
    ensures var n := h.blocks[f].size + h.blocks[f + h.blocks[f].size].size;
            Fuse(h, f, i) == h.(word := UnlinkWords(h.word, h.list[i])[f + FREE_SIZE := n][f + n + PREV_SIZE := n],
                                head := UnlinkHead(h.word, h.head, h.list[i]), list := Without(h.list, i),
                                    blocks := Merge(h, f).blocks)
  {
    hide UnlinkWords, UnlinkHead;
  }

  lemma SwallowFacts(h: Heap, f: int, i: nat)
    requires Inv(h) && Mergeable(h, f) && i < |h.list| && h.list[i] == f + h.blocks[f].size
    ensures var q := h.list[i];
            && q in h.blocks && q + NEXT in h.word && q + PREV in h.word && f + FREE_SIZE in h.word
            && q + FREE_SIZE in h.word && h.word[q + FREE_SIZE] == h.blocks[q].size
            && (h.word[q + NEXT] != NULL ==> h.word[q + NEXT] + PREV in h.word && Far(h.word[q + NEXT], q))
            && (h.word[q + PREV] != NULL ==> h.word[q + PREV] + NEXT in h.word)
            && (h.word[q + PREV] == NULL ==> h.head == q)
            && f + FREE_SIZE !in {q + NEXT, q + PREV, h.word[q + NEXT] + PREV, h.word[q + PREV] + NEXT}
            && q + h.blocks[q].size + PREV_SIZE in UnlinkWords(h.word, q)
  {
    ListNeighbours(h, i);
    AfterTag(h, f);
    var q := h.list[i];
    assert Placed(h.chunks, h.blocks, q) && Placed(h.chunks, h.blocks, f);
    assert Placed(h.chunks, h.blocks, q + h.blocks[q].size)
           && BlockOk(h.word, h.chunks, h.blocks, q + h.blocks[q].size);
    if i + 1 < |h.list| {
      LinksFar(h, i, i + 1);
      ListNeighbours(h, i + 1);
      NotFreeSize(h, f, h.list[i + 1], PREV);
    }
    if i > 0 {
      ListNeighbours(h, i - 1);
      NotFreeSize(h, f, h.list[i - 1], NEXT);
    }
    NullIsNoBlock(h, f);
    hide Inv;
  }

  lemma NotFreeSize(h: Heap, f: int, c: int, i: int)
    requires Inv(h) && IsFree(h.blocks, f) && IsFree(h.blocks, c) && i in {NEXT, PREV}
    ensures f + FREE_SIZE != c + i
  {
    if f != c {
      BlocksFar(h, f, c);
    }
  }

  lemma InsertMaps(w: map<int, int>, head: int, b: int, size: int)
    ensures forall a | a in w :: a in InsertWords(w, head, b, size)
  {
  }

  lemma GrowStructure(h: Heap, n: nat, c: int, k: Chunk, memory: map<int, int>)
    requires n >= MIN_BLOCK && k.size >= n + 32
    ensures var g := Grow(h, n, c, k, memory);
            && g.chunks == h.chunks[c := k]
            && g.totalSize == h.totalSize + k.size - 32
            && g.allocatedSize == h.allocatedSize + (if k.size - 32 > n + 64 then n else k.size - 32)
            && g.head == (if k.size - 32 > n + 64 then c + CHUNK_HEADER + n else h.head)
            && g.list == (if k.size - 32 > n + 64 then [c + CHUNK_HEADER + n] + h.list else h.list)
  {
    hide InsertWords;
    var whole := AddWhole(h, c, k, memory);
    assert whole.blocks[c + CHUNK_HEADER].size == k.size - 32;
  }

  function TagWords(w: map<int, int>, f: int, n: int, offset: int): map<int, int> {
    w[f + PREV_SIZE := n][f + OFFSET := offset]
  }

  /** The memory after alloc's stores into a new chunk. */
  function Laid(w: map<int, int>, head: int, n: nat, c: int, k: Chunk): map<int, int> {
    var b, s := c + CHUNK_HEADER, k.size - 32;
    if s > n + 64 then
      EndWords(InsertWords(TagWords(HeadWords(w, b, n, k.offset), b + n, n, k.offset), head, b + n, s - n), b + s,
          s - n, k.offset)
    else
      EndWords(HeadWords(w, b, s, k.offset), b + s, s, k.offset)
  }

  lemma GrowWords(h: Heap, n: nat, c: int, k: Chunk, memory: map<int, int>)
    requires n >= MIN_BLOCK && k.size >= n + 32 && k.size - 32 > n + 64
    ensures var b, s := c + CHUNK_HEADER, k.size - 32;
            Grow(h, n, c, k, memory).word
            == InsertWords(TagWords(AddWords(h.word + memory, c, k)[b + SIZE := n], b + n, n, k.offset)
                           [b + s + PREV_SIZE := s - n][b + n + SIZE := s - n], h.head, b + n, s - n)
  {
    hide InsertWords;
  }

  lemma LaidIs(w: map<int, int>, head: int, n: nat, c: int, k: Chunk)
    requires k.size > n + 96
    ensures var b, s := c + CHUNK_HEADER, k.size - 32;
            Laid(w, head, n, c, k)
                == EndWords(InsertWords(TagWords(HeadWords(w, b, n, k.offset), b + n, n, k.offset), head, b + n, s - n),
                                               b + s, s - n, k.offset)
  {
  }

  ghost predicate HeadClear(head: int, c: int, k: Chunk) {
    head == NULL || head + MIN_BLOCK <= c || c + k.size <= head
  }

  lemma LaidBoth(h: Heap, n: nat, c: int, k: Chunk, memory: map<int, int>)
    requires HeadClear(h.head, c, k) && n >= MIN_BLOCK && k.size > n + 96
    ensures Grow(h, n, c, k, memory).word == Laid((h.word + memory)[c := c + k.offset], h.head, n, c, k)
  {
    hide *;
    GrowWords(h, n, c, k, memory);
    LaidTwo(h.word + memory, h.head, n, c, k);
    LaidIs((h.word + memory)[c := c + k.offset], h.head, n, c, k);
  }

  /** alloc's stores, in their own order, give the memory that cutting and inserting describe. */
  lemma LaidOut(h: Heap, n: nat, c: int, k: Chunk, memory: map<int, int>)
    requires HeadClear(h.head, c, k) && n >= MIN_BLOCK && k.size >= n + 32
    ensures Grow(h, n, c, k, memory).word == Laid((h.word + memory)[c := c + k.offset], h.head, n, c, k)
  {
    hide CutRest, InsertWords, HeadWords, EndWords, TagWords;
    if k.size - 32 > n + 64 {
      hide Grow, Laid, HeadClear;
      LaidBoth(h, n, c, k, memory);
    }
  }

  /** The first free block lies outside a new region. */
  lemma HeadOutside(h: Heap, c: int, k: Chunk, memory: map<int, int>)
    requires Inv(h) && FreshRegion(h, c, k, memory) && h.head != NULL
    ensures h.head + PREV in h.word && HeadClear(h.head, c, k)
  {
    ListNeighbours(h, 0);
    OldBlocksApart(h, c, k, memory, h.head);
    assert Placed(h.chunks, h.blocks, h.head);
  }

  /** Stores elsewhere commute with an insertion, and its first store makes earlier ones there vain. */
  lemma InsertCommutes(w: map<int, int>, head: int, f: int, size: int, a: int, v: int)
    ensures a !in {f + SIZE, f + FREE_SIZE, f + NEXT, f + PREV} && (head == NULL || a != head + PREV) ==>
              InsertWords(w, head, f, size)[a := v] == InsertWords(w[a := v], head, f, size)
    ensures a == f + SIZE ==> InsertWords(w[a := v], head, f, size) == InsertWords(w, head, f, size)
  {
    if a == f + SIZE {
      assert w[a := v][f + SIZE := 0] == w[f + SIZE := 0];
    }
  }

  lemma LaidHeaders(m: map<int, int>, b: int, offset: int, n: nat, s: nat)
    requires n >= MIN_BLOCK && s >= n + MIN_BLOCK
    ensures EndWords(TagWords(HeadWords(m, b, n, offset), b + n, n, offset), b + s, s - n, offset)
            == TagWords(EndWords(HeadWords(m, b, s, offset), b + s, s, offset)[b + SIZE := n], b + n, n,
               offset)[b + s + PREV_SIZE := s - n]
  {
  }

  lemma EndCommutes(w: map<int, int>, head: int, f: int, size: int, e: int, offset: int)
    requires f + MIN_BLOCK <= e && (head == NULL || e + BLOCK_HEADER <= head || head + MIN_BLOCK <= e)
    ensures EndWords(InsertWords(w, head, f, size), e, size, offset)
            == InsertWords(EndWords(w, e, size, offset), head, f, size)
  {
    hide InsertWords;
    InsertCommutes(w, head, f, size, e + SIZE, 1);
    InsertCommutes(w[e + SIZE := 1], head, f, size, e + PREV_SIZE, size);
    InsertCommutes(w[e + SIZE := 1][e + PREV_SIZE := size], head, f, size, e + OFFSET, offset);
  }

  lemma LaidTwo(m: map<int, int>, head: int, n: nat, c: int, k: Chunk)
    requires HeadClear(head, c, k) && n >= MIN_BLOCK && k.size > n + 96
    ensures var b, s := c + CHUNK_HEADER, k.size - 32;
            EndWords(InsertWords(TagWords(HeadWords(m[c := c + k.offset], b, n, k.offset), b + n, n, k.offset), head,
                b + n, s - n),
                     b + s, s - n, k.offset)
            == InsertWords(TagWords(AddWords(m, c, k)[b + SIZE := n], b + n, n, k.offset)
                           [b + s + PREV_SIZE := s - n][b + n + SIZE := s - n], head, b + n, s - n)
  {
    var b, s := c + CHUNK_HEADER, k.size - 32;
    var w := TagWords(HeadWords(m[c := c + k.offset], b, n, k.offset), b + n, n, k.offset);
    EndCommutes(w, head, b + n, s - n, b + s, k.offset);
    LaidHeaders(m[c := c + k.offset], b, k.offset, n, s);
    InsertCommutes(EndWords(w, b + s, s - n, k.offset), head, b + n, s - n, b + n + SIZE, s - n);
    hide HeadWords, TagWords, EndWords, InsertWords, HeadClear;
  }
}
