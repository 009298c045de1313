/** The heap of the executable memory allocator (src/uwin-jit/executable_memory_allocator.cpp):
    64-bit words at 8-byte addresses, read as chunks of blocks with boundary tags, together with
    the block structure they encode. */
module XmemHeap {
  // sizeof and field offsets on a 64-bit host
  const CHUNK_HEADER := 8
  const BLOCK_HEADER := 24
  const SIZE := 0
  const PREV_SIZE := 8
  const OFFSET := 16
  const NEXT := 24
  const PREV := 32
  const FREE_SIZE := 40
  const MIN_BLOCK := 64
  const CHUNK_SIZE := 0x10000
  const NULL := 0

  datatype Kind = Free | Used | End

  /** A block of `size` bytes, header included, in the chunk at address `chunk`. */
  datatype Block = Block(kind: Kind, size: nat, chunk: int)

  /** A region obtained from the system: its size and the distance to its executable mapping. */
  datatype Chunk = Chunk(size: nat, offset: int)

  datatype Heap = Heap(word: map<int, int>, head: int, allocatedSize: int, totalSize: int,
                       chunks: map<int, Chunk>, blocks: map<int, Block>, list: seq<int>)

  // --- Geometry ---

  ghost predicate Apart(blocks: map<int, Block>, b: int, c: int)
    requires b in blocks && c in blocks
  {
    b < c ==> b + blocks[b].size <= c
  }

  ghost predicate ChunksApart(chunks: map<int, Chunk>, c: int, d: int)
    requires c in chunks && d in chunks
  {
    c < d ==> c + chunks[c].size <= d
  }

  /** A block lies in its chunk; the next block starts where it ends; the last is the terminator. */
  ghost predicate Placed(chunks: map<int, Chunk>, blocks: map<int, Block>, b: int)
    requires b in blocks
  {
    var k := blocks[b];
    && k.chunk in chunks
    && k.chunk + CHUNK_HEADER <= b && b + k.size <= k.chunk + chunks[k.chunk].size
    && b % 8 == 0 && k.size % 8 == 0
    && if k.kind == End then k.size == BLOCK_HEADER && b + BLOCK_HEADER == k.chunk + chunks[k.chunk].size
       else k.size >= MIN_BLOCK && b + k.size in blocks && blocks[b + k.size].chunk == k.chunk
  }

  ghost predicate Based(chunks: map<int, Chunk>, blocks: map<int, Block>, c: int)
    requires c in chunks
  {
    && c > 0 && c % 8 == 0 && chunks[c].size % 8 == 0
    && c + CHUNK_HEADER in blocks && blocks[c + CHUNK_HEADER].chunk == c
    && blocks[c + CHUNK_HEADER].kind != End
  }

  ghost predicate Geometry(chunks: map<int, Chunk>, blocks: map<int, Block>) {
    && (forall b {:trigger Placed(chunks, blocks, b)} | b in blocks :: Placed(chunks, blocks, b))
    && (forall b, c {:trigger Apart(blocks, b, c)} | b in blocks && c in blocks :: Apart(blocks, b, c))
    && (forall c {:trigger Based(chunks, blocks, c)} | c in chunks :: Based(chunks, blocks, c))
    && (forall c, d {:trigger ChunksApart(chunks, c, d)} | c in chunks && d in chunks :: ChunksApart(chunks, c, d))
  }

  // --- Headers ---

  ghost predicate Mapped(word: map<int, int>, chunks: map<int, Chunk>, c: int)
    requires c in chunks
  {
    forall a | c <= a < c + chunks[c].size && a % 8 == 0 :: a in word
  }

  function SizeTag(k: Block): int {
    match k.kind case Free => 0 case End => 1 case Used => k.size
  }

  /** The boundary tags of block `b`; prev_size is 0 exactly in a chunk's first block. */
  ghost predicate Tagged(word: map<int, int>, chunks: map<int, Chunk>, blocks: map<int, Block>, b: int)
    requires b in blocks && blocks[b].chunk in chunks
  {
    var k := blocks[b];
    && b + SIZE in word && b + PREV_SIZE in word && b + OFFSET in word
    && word[b + SIZE] == SizeTag(k)
    && word[b + OFFSET] == chunks[k.chunk].offset
    && (if b == k.chunk + CHUNK_HEADER then word[b + PREV_SIZE] == 0
        else Precedes(blocks, b - word[b + PREV_SIZE], b))
    && (k.kind == Free ==> b + FREE_SIZE in word && word[b + FREE_SIZE] == k.size)
  }

  /** `p` is the block that ends where `b` starts. */
  ghost predicate Precedes(blocks: map<int, Block>, p: int, b: int) {
    p in blocks && blocks[p].kind != End && p + blocks[p].size == b
  }

  /** A chunk's words exist, and its header holds its executable address. */
  ghost predicate ChunkOk(word: map<int, int>, chunks: map<int, Chunk>, c: int)
    requires c in chunks
  {
    Mapped(word, chunks, c) && c in word && word[c] == c + chunks[c].offset
  }

  ghost predicate BlockOk(word: map<int, int>, chunks: map<int, Chunk>, blocks: map<int, Block>, b: int)
    requires b in blocks
  {
    blocks[b].chunk in chunks && Tagged(word, chunks, blocks, b)
  }

  ghost predicate Headers(h: Heap) {
    && (forall c {:trigger ChunkOk(h.word, h.chunks, c)} | c in h.chunks :: ChunkOk(h.word, h.chunks, c))
    && (forall b {:trigger BlockOk(h.word, h.chunks, h.blocks, b)} | b in h.blocks ::
       BlockOk(h.word, h.chunks, h.blocks, b))
  }

  // --- The free list ---

  function At(list: seq<int>, i: int): int {
    if 0 <= i < |list| then list[i] else NULL
  }

  ghost predicate Linked(word: map<int, int>, list: seq<int>, i: int)
    requires 0 <= i < |list|
  {
    && list[i] + NEXT in word && word[list[i] + NEXT] == At(list, i + 1)
    && list[i] + PREV in word && word[list[i] + PREV] == At(list, i - 1)
  }

  ghost predicate IsFree(blocks: map<int, Block>, b: int) {
    b in blocks && blocks[b].kind == Free
  }

  /** The list holds exactly the free blocks, except `hole`, which has just been unlinked. */
  ghost predicate ListOk(word: map<int, int>, head: int, list: seq<int>, blocks: map<int, Block>, hole: int) {
    && head == At(list, 0)
    && (forall i {:trigger Linked(word, list, i)} | 0 <= i < |list| :: IsFree(blocks, list[i]) && Linked(word, list, i))
    && (forall i, j | 0 <= i < j < |list| :: list[i] != list[j])
    && (forall b | IsFree(blocks, b) && b != hole :: b in list)
    && hole !in list
  }

  ghost predicate Links(h: Heap, hole: int) {
    ListOk(h.word, h.head, h.list, h.blocks, hole)
  }

  // --- Counters ---

  function Weight(k: Block, kind: Kind): nat {
    if k.kind == kind then k.size else 0
  }

  ghost function Sum(blocks: map<int, Block>, kind: Kind): nat
    decreases |blocks|
  {
    if !(exists b :: b in blocks) then 0
    else
      var b :| b in blocks;
      Weight(blocks[b], kind) + Sum(blocks - {b}, kind)
  }

  ghost predicate Counted(h: Heap) {
    h.allocatedSize == Sum(h.blocks, Used) && h.totalSize - h.allocatedSize == Sum(h.blocks, Free)
  }

  ghost predicate Core(h: Heap) {
    Geometry(h.chunks, h.blocks) && Headers(h)
  }

  /** Everything the allocator keeps between its steps. */
  ghost predicate Inv(h: Heap) {
    Core(h) && Links(h, NULL) && Counted(h)
  }

  /** No free block is followed by a free block. */
  ghost predicate Separated(blocks: map<int, Block>, b: int)
    requires b in blocks
  {
    blocks[b].kind == Free ==> !IsFree(blocks, b + blocks[b].size)
  }

  ghost predicate Coalesced(blocks: map<int, Block>) {
    forall b {:trigger Separated(blocks, b)} | b in blocks :: Separated(blocks, b)
  }

  ghost predicate Valid(h: Heap) {
    Inv(h) && Coalesced(h.blocks)
  }

  // --- Sums ---

  lemma {:induction false} SumWithout(blocks: map<int, Block>, kind: Kind, b: int)
    requires b in blocks
    ensures Sum(blocks, kind) == Weight(blocks[b], kind) + Sum(blocks - {b}, kind)
    decreases |blocks|
  {
    var c :| c in blocks && Sum(blocks, kind) == Weight(blocks[c], kind) + Sum(blocks - {c}, kind);
    if c != b {
      SumWithout(blocks - {c}, kind, b);
      SumWithout(blocks - {b}, kind, c);
      assert blocks - {c} - {b} == blocks - {b} - {c};
    }
  }

  lemma SumSet(blocks: map<int, Block>, kind: Kind, b: int, k: Block)
    ensures Sum(blocks[b := k], kind) == Weight(k, kind) + Sum(blocks - {b}, kind)
    ensures b !in blocks ==> Sum(blocks - {b}, kind) == Sum(blocks, kind)
  {
    SumWithout(blocks[b := k], kind, b);
    assert blocks[b := k] - {b} == blocks - {b};
    if b !in blocks {
      assert blocks - {b} == blocks;
    }
  }

  // --- Frames: what a store leaves alone ---

  /** Words inside different blocks have different addresses. */
  lemma WordsApart(h: Heap, b: int, c: int, i: int, j: int)
    requires Geometry(h.chunks, h.blocks) && b in h.blocks && c in h.blocks && b != c
    requires 0 <= i < h.blocks[b].size && 0 <= j < h.blocks[c].size
    ensures b + i != c + j
  {
    assert Apart(h.blocks, b, c) && Apart(h.blocks, c, b);
  }

  /** No block contains a chunk's header word. */
  lemma ChunkHeaderApart(h: Heap, c: int, b: int, i: int)
    requires Geometry(h.chunks, h.blocks) && c in h.chunks && b in h.blocks && 0 <= i < h.blocks[b].size
    ensures c != b + i
  {
    assert Placed(h.chunks, h.blocks, b);
    var d := h.blocks[b].chunk;
    assert ChunksApart(h.chunks, c, d) && ChunksApart(h.chunks, d, c);
    assert Based(h.chunks, h.blocks, c) && Placed(h.chunks, h.blocks, c + CHUNK_HEADER);
  }

  /** The word at `b + i` is not part of block `c`'s tags. */
  ghost predicate Untagged(h: Heap, b: int, i: int, c: int)
    requires c in h.blocks
  {
    b + i !in {c + SIZE, c + PREV_SIZE, c + OFFSET} && (h.blocks[c].kind == Free ==> b + i != c + FREE_SIZE)
  }

  lemma PayloadIsUntagged(h: Heap, b: int, i: int, c: int)
    requires Geometry(h.chunks, h.blocks) && b in h.blocks && c in h.blocks
    requires BLOCK_HEADER <= i < h.blocks[b].size && (h.blocks[b].kind == Free ==> i != FREE_SIZE)
    ensures Untagged(h, b, i, c)
  {
    assert Placed(h.chunks, h.blocks, c);
    if b != c {
      WordsApart(h, b, c, i, SIZE);
      WordsApart(h, b, c, i, PREV_SIZE);
      WordsApart(h, b, c, i, OFFSET);
      if h.blocks[c].kind == Free {
        WordsApart(h, b, c, i, FREE_SIZE);
      }
    }
  }

  function Put(h: Heap, a: int, v: int): Heap {
    h.(word := h.word[a := v])
  }

  /** A store into a block beyond its tags, by the allocator or by the client, keeps all tags. */
  lemma PayloadStore(h: Heap, b: int, i: int, v: int)
    requires Core(h) && b in h.blocks
    requires BLOCK_HEADER <= i < h.blocks[b].size && (h.blocks[b].kind == Free ==> i != FREE_SIZE)
    ensures Core(Put(h, b + i, v))
  {
    var h' := Put(h, b + i, v);
    forall c | c in h.chunks ensures ChunkOk(h'.word, h.chunks, c) {
      assert ChunkOk(h.word, h.chunks, c);
      ChunkHeaderApart(h, c, b, i);
    }
    forall c | c in h.blocks ensures BlockOk(h'.word, h.chunks, h.blocks, c) {
      assert BlockOk(h.word, h.chunks, h.blocks, c);
      PayloadIsUntagged(h, b, i, c);
    }
  }

  // --- Retagging: a block becomes free or used ---

  /** Geometry does not depend on whether a block is used. */
  lemma KindChange(h: Heap, b: int, kind: Kind)
    requires Geometry(h.chunks, h.blocks) && b in h.blocks && h.blocks[b].kind != End && kind != End
    ensures Geometry(h.chunks, h.blocks[b := h.blocks[b].(kind := kind)])
  {
    var blocks := h.blocks[b := h.blocks[b].(kind := kind)];
    forall c | c in blocks ensures Placed(h.chunks, blocks, c) {
      assert Placed(h.chunks, h.blocks, c);
    }
    forall c, d | c in blocks && d in blocks ensures Apart(blocks, c, d) {
      assert Apart(h.blocks, c, d);
    }
    forall c | c in h.chunks ensures Based(h.chunks, blocks, c) {
      assert Based(h.chunks, h.blocks, c);
    }
  }

  /** Changing a block's kind together with its size word. */
  function Retag(h: Heap, b: int, kind: Kind): Heap
    requires b in h.blocks
  {
    var k := h.blocks[b].(kind := kind);
    h.(word := h.word[b + SIZE := SizeTag(k)], blocks := h.blocks[b := k])
  }

  lemma HeaderIsUntagged(h: Heap, b: int, i: int, c: int)
    requires Geometry(h.chunks, h.blocks) && b in h.blocks && c in h.blocks && b != c && 0 <= i < h.blocks[b].size
    ensures Untagged(h, b, i, c)
  {
    assert Placed(h.chunks, h.blocks, c);
    WordsApart(h, b, c, i, SIZE);
    WordsApart(h, b, c, i, PREV_SIZE);
    WordsApart(h, b, c, i, OFFSET);
    if h.blocks[c].kind == Free {
      WordsApart(h, b, c, i, FREE_SIZE);
    }
  }

  lemma RetagKeepsCore(h: Heap, b: int, kind: Kind)
    requires Core(h) && b in h.blocks && h.blocks[b].kind != End && kind != End
    requires kind == Free ==> b + FREE_SIZE in h.word && h.word[b + FREE_SIZE] == h.blocks[b].size
    ensures Core(Retag(h, b, kind))
  {
    var h' := Retag(h, b, kind);
    KindChange(h, b, kind);
    assert Placed(h.chunks, h.blocks, b);
    forall c | c in h.chunks ensures ChunkOk(h'.word, h.chunks, c) {
      assert ChunkOk(h.word, h.chunks, c);
      ChunkHeaderApart(h, c, b, SIZE);
    }
    forall c | c in h'.blocks ensures BlockOk(h'.word, h.chunks, h'.blocks, c) {
      assert BlockOk(h.word, h.chunks, h.blocks, c);
      if c != b {
        HeaderIsUntagged(h, b, SIZE, c);
      }
    }
  }

  // --- Merging a free block with the block after it ---

  function Merge(h: Heap, p: int): Heap
    requires p in h.blocks && p + h.blocks[p].size in h.blocks
  {
    var q := p + h.blocks[p].size;
    var k := h.blocks[p].(size := h.blocks[p].size + h.blocks[q].size);
    h.(word := h.word[p + FREE_SIZE := k.size][p + k.size + PREV_SIZE := k.size],
       blocks := (h.blocks - {q})[p := k])
  }

  ghost predicate Mergeable(h: Heap, p: int) {
    && IsFree(h.blocks, p)
    && p + h.blocks[p].size in h.blocks
    && h.blocks[p + h.blocks[p].size].kind != End
  }

  lemma MergeKeepsPlaced(h: Heap, p: int, c: int)
    requires Geometry(h.chunks, h.blocks) && Mergeable(h, p) && c in Merge(h, p).blocks
    ensures Placed(h.chunks, Merge(h, p).blocks, c)
  {
    var q := p + h.blocks[p].size;
    assert Placed(h.chunks, h.blocks, p) && Placed(h.chunks, h.blocks, q) && Placed(h.chunks, h.blocks, c);
    assert Apart(h.blocks, c, p) && Apart(h.blocks, p, c);
  }

  lemma MergeKeepsApart(h: Heap, p: int, c: int, d: int)
    requires Geometry(h.chunks, h.blocks) && Mergeable(h, p) && c in Merge(h, p).blocks && d in Merge(h, p).blocks
    ensures Apart(Merge(h, p).blocks, c, d)
  {
    var q := p + h.blocks[p].size;
    assert Placed(h.chunks, h.blocks, p);
    assert Apart(h.blocks, c, d) && Apart(h.blocks, q, d) && Apart(h.blocks, d, q);
  }

  lemma MergeKeepsGeometry(h: Heap, p: int)
    requires Geometry(h.chunks, h.blocks) && Mergeable(h, p)
    ensures Geometry(h.chunks, Merge(h, p).blocks)
  {
    var blocks := Merge(h, p).blocks;
    forall c | c in blocks ensures Placed(h.chunks, blocks, c) {
      MergeKeepsPlaced(h, p, c);
    }
    forall c, d | c in blocks && d in blocks ensures Apart(blocks, c, d) {
      MergeKeepsApart(h, p, c, d);
    }
    forall c | c in h.chunks ensures Based(h.chunks, blocks, c) {
      assert Based(h.chunks, h.blocks, c) && Placed(h.chunks, h.blocks, c + CHUNK_HEADER);
      MergeKeepsFirst(h, p, c);
    }
  }

  /** A chunk's first block follows no block, so it is never merged away. */
  lemma MergeKeepsFirst(h: Heap, p: int, c: int)
    requires Geometry(h.chunks, h.blocks) && Mergeable(h, p) && c in h.chunks
    ensures c + CHUNK_HEADER != p + h.blocks[p].size
  {
    assert Placed(h.chunks, h.blocks, p) && Based(h.chunks, h.blocks, c);
  }

  lemma MergeKeepsCore(h: Heap, p: int)
    requires Core(h) && Mergeable(h, p)
    ensures Core(Merge(h, p))
  {
    var h' := Merge(h, p);
    var q, n := p + h.blocks[p].size, p + h'.blocks[p].size;
    MergeKeepsGeometry(h, p);
    assert Placed(h.chunks, h.blocks, p) && Placed(h.chunks, h.blocks, q) && Placed(h.chunks, h.blocks, n);
    forall c | c in h.chunks ensures ChunkOk(h'.word, h.chunks, c) {
      assert ChunkOk(h.word, h.chunks, c);
      ChunkHeaderApart(h, c, p, FREE_SIZE);
      ChunkHeaderApart(h, c, n, PREV_SIZE);
    }
    forall c | c in h'.blocks ensures BlockOk(h'.word, h.chunks, h'.blocks, c) {
      MergeKeepsBlock(h, p, c);
    }
  }

  lemma MergeKeepsBlock(h: Heap, p: int, c: int)
    requires Core(h) && Mergeable(h, p) && c in Merge(h, p).blocks
    ensures BlockOk(Merge(h, p).word, h.chunks, Merge(h, p).blocks, c)
  {
    var h' := Merge(h, p);
    var q, n := p + h.blocks[p].size, p + h'.blocks[p].size;
    assert Placed(h.chunks, h.blocks, p) && Placed(h.chunks, h.blocks, q) && Placed(h.chunks, h.blocks, n)
           && Placed(h.chunks, h.blocks, c);
    assert BlockOk(h.word, h.chunks, h.blocks, c);
    if c != p {
      HeaderIsUntagged(h, p, FREE_SIZE, c);
    }
    if c != n {
      HeaderIsUntagged(h, n, PREV_SIZE, c);
      if c != h.blocks[c].chunk + CHUNK_HEADER {
        var r := c - h.word[c + PREV_SIZE];
        assert Precedes(h.blocks, r, c);
        assert r != q;
        assert Precedes(h'.blocks, r, c);
      }
    } else {
      assert Precedes(h'.blocks, p, n);
    }
  }

  // --- Cutting a used block from the end of another block ---

  /** Where a block keeps its own size. */
  function SizeField(k: Block): int {
    if k.kind == Free then FREE_SIZE else SIZE
  }

  function SplitBlocks(blocks: map<int, Block>, f: int, n: int): map<int, Block>
    requires f in blocks && 0 < n <= blocks[f].size
  {
    var k := blocks[f];
    blocks[f := k.(size := k.size - n)][f + k.size - n := Block(Used, n, k.chunk)]
  }

  function Split(h: Heap, f: int, n: int): Heap
    requires f in h.blocks && 0 < n <= h.blocks[f].size && f + OFFSET in h.word
  {
    var k := h.blocks[f];
    var rest := k.size - n;
    var b := f + rest;
    h.(word := h.word[f + SizeField(k) := rest][b + PREV_SIZE := rest]
                     [b + OFFSET := h.word[f + OFFSET]][b + n + PREV_SIZE := n][b + SIZE := n],
       blocks := SplitBlocks(h.blocks, f, n))
  }

  ghost predicate Splittable(h: Heap, f: int, n: int) {
    && f in h.blocks && h.blocks[f].kind != End
    && MIN_BLOCK <= n && n % 8 == 0 && h.blocks[f].size >= n + MIN_BLOCK
  }

  lemma SplitIsFresh(h: Heap, f: int, n: int)
    requires Geometry(h.chunks, h.blocks) && Splittable(h, f, n)
    ensures f + h.blocks[f].size - n !in h.blocks
  {
    var b := f + h.blocks[f].size - n;
    assert b in h.blocks ==> Apart(h.blocks, f, b);
  }

  lemma SplitKeepsPlaced(h: Heap, f: int, n: int, c: int)
    requires Geometry(h.chunks, h.blocks) && Splittable(h, f, n) && c in SplitBlocks(h.blocks, f, n)
    ensures Placed(h.chunks, SplitBlocks(h.blocks, f, n), c)
  {
    assert Placed(h.chunks, h.blocks, f);
    SplitIsFresh(h, f, n);
    if c != f + h.blocks[f].size - n {
      assert Placed(h.chunks, h.blocks, c);
    }
  }

  lemma SplitKeepsApart(h: Heap, f: int, n: int, c: int, d: int)
    requires Geometry(h.chunks, h.blocks) && Splittable(h, f, n)
    requires c in SplitBlocks(h.blocks, f, n) && d in SplitBlocks(h.blocks, f, n)
    ensures Apart(SplitBlocks(h.blocks, f, n), c, d)
  {
    var b := f + h.blocks[f].size - n;
    SplitIsFresh(h, f, n);
    if c != b && d != b {
      assert Apart(h.blocks, c, d);
    } else if d != b {
      assert Apart(h.blocks, f, d);
    } else if c != b {
      assert Apart(h.blocks, c, f) && Apart(h.blocks, f, c);
    }
  }

  lemma SplitKeepsGeometry(h: Heap, f: int, n: int)
    requires Geometry(h.chunks, h.blocks) && Splittable(h, f, n)
    ensures Geometry(h.chunks, SplitBlocks(h.blocks, f, n))
  {
    var blocks := SplitBlocks(h.blocks, f, n);
    SplitIsFresh(h, f, n);
    forall c | c in blocks ensures Placed(h.chunks, blocks, c) {
      SplitKeepsPlaced(h, f, n, c);
    }
    forall c, d | c in blocks && d in blocks ensures Apart(blocks, c, d) {
      SplitKeepsApart(h, f, n, c, d);
    }
    forall c | c in h.chunks ensures Based(h.chunks, blocks, c) {
      assert Based(h.chunks, h.blocks, c);
    }
  }

  /** The tags of the new block. */
  lemma SplitTagsNew(h: Heap, f: int, n: int)
    requires Core(h) && Splittable(h, f, n) && f + OFFSET in h.word
    ensures BlockOk(Split(h, f, n).word, h.chunks, Split(h, f, n).blocks, f + h.blocks[f].size - n)
  {
    var b := f + h.blocks[f].size - n;
    assert Placed(h.chunks, h.blocks, f) && BlockOk(h.word, h.chunks, h.blocks, f);
    SplitMapsBlock(h, f, n);
    assert Precedes(SplitBlocks(h.blocks, f, n), f, b);
  }

  lemma SplitTagsOld(h: Heap, f: int, n: int, c: int)
    requires Core(h) && Splittable(h, f, n) && f + OFFSET in h.word && c in h.blocks
    ensures c in Split(h, f, n).blocks && BlockOk(Split(h, f, n).word, h.chunks, Split(h, f, n).blocks, c)
  {
    var b, e := f + h.blocks[f].size - n, f + h.blocks[f].size;
    assert Placed(h.chunks, h.blocks, f) && Placed(h.chunks, h.blocks, c) && BlockOk(h.word, h.chunks, h.blocks, c);
    SplitIsFresh(h, f, n);
    SplitMisses(h, f, n, c);
    if c == e {
      assert Precedes(SplitBlocks(h.blocks, f, n), b, e);
    } else {
      SplitKeepsPrevious(h, f, n, c);
      hide SplitBlocks;
    }
  }

  lemma SplitKeepsPrevious(h: Heap, f: int, n: int, c: int)
    requires Core(h) && Splittable(h, f, n) && f + OFFSET in h.word && c in h.blocks && c != f + h.blocks[f].size
    ensures forall r | Precedes(h.blocks, r, c) :: Precedes(SplitBlocks(h.blocks, f, n), r, c)
    ensures SplitBlocks(h.blocks, f, n)[c] == if c == f then h.blocks[f].(size := h.blocks[f].size - n) else h.blocks[c]
  {
    SplitIsFresh(h, f, n);
  }

  /** The header of the new block lies in mapped memory. */
  lemma SplitMapsBlock(h: Heap, f: int, n: int)
    requires Core(h) && Splittable(h, f, n)
    ensures var b := f + h.blocks[f].size - n; b + SIZE in h.word && b + PREV_SIZE in h.word && b + OFFSET in h.word
  {
    var b := f + h.blocks[f].size - n;
    assert Placed(h.chunks, h.blocks, f);
    assert ChunkOk(h.word, h.chunks, h.blocks[f].chunk);
  }

  lemma SplitMisses(h: Heap, f: int, n: int, c: int)
    requires Core(h) && Splittable(h, f, n) && c in h.blocks && f + h.blocks[f].size in h.blocks
    ensures var rest := h.blocks[f].size - n;
            Untagged(h, f, rest + SIZE, c) && Untagged(h, f, rest + PREV_SIZE, c) && Untagged(h, f, rest + OFFSET, c)
    ensures c != f ==> Untagged(h, f, SizeField(h.blocks[f]), c)
    ensures c != f + h.blocks[f].size ==> Untagged(h, f + h.blocks[f].size, PREV_SIZE, c)
  {
    var rest, e := h.blocks[f].size - n, f + h.blocks[f].size;
    assert Placed(h.chunks, h.blocks, c) && Placed(h.chunks, h.blocks, e);
    if c != f {
      HeaderIsUntagged(h, f, rest + SIZE, c);
      HeaderIsUntagged(h, f, rest + PREV_SIZE, c);
      HeaderIsUntagged(h, f, rest + OFFSET, c);
      HeaderIsUntagged(h, f, SizeField(h.blocks[f]), c);
    }
    if c != e {
      HeaderIsUntagged(h, e, PREV_SIZE, c);
    }
  }

  lemma SplitKeepsCore(h: Heap, f: int, n: int)
    requires Core(h) && Splittable(h, f, n)
    ensures f + OFFSET in h.word && Core(Split(h, f, n))
  {
    assert BlockOk(h.word, h.chunks, h.blocks, f);
    var h' := Split(h, f, n);
    var rest, e := h.blocks[f].size - n, f + h.blocks[f].size;
    SplitKeepsGeometry(h, f, n);
    assert Placed(h.chunks, h.blocks, f) && Placed(h.chunks, h.blocks, e);
    forall c | c in h.chunks ensures ChunkOk(h'.word, h.chunks, c) {
      assert ChunkOk(h.word, h.chunks, c);
      ChunkHeaderApart(h, c, f, SizeField(h.blocks[f]));
      ChunkHeaderApart(h, c, f, rest + SIZE);
      ChunkHeaderApart(h, c, f, rest + PREV_SIZE);
      ChunkHeaderApart(h, c, f, rest + OFFSET);
      ChunkHeaderApart(h, c, e, PREV_SIZE);
    }
    forall c | c in h'.blocks ensures BlockOk(h'.word, h.chunks, h'.blocks, c) {
      if c == f + rest {
        SplitTagsNew(h, f, n);
      } else {
        SplitTagsOld(h, f, n, c);
      }
    }
  }

  // --- A new chunk, all of it one used block ---

  function AddBlocks(blocks: map<int, Block>, c: int, size: nat): map<int, Block> {
    blocks[c + CHUNK_HEADER := Block(Used, if size >= 32 then size - 32 else 0, c)]
          [c + size - BLOCK_HEADER := Block(End, BLOCK_HEADER, c)]
  }

  /** The header of a chunk's first block, in use. */
  function HeadWords(w: map<int, int>, b: int, size: int, offset: int): map<int, int> {
    w[b + PREV_SIZE := 0][b + OFFSET := offset][b + SIZE := size]
  }

  /** The terminator's header. */
  function EndWords(w: map<int, int>, e: int, size: int, offset: int): map<int, int> {
    w[e + SIZE := 1][e + PREV_SIZE := size][e + OFFSET := offset]
  }

  function AddWords(w: map<int, int>, c: int, k: Chunk): map<int, int> {
    var b, s := c + CHUNK_HEADER, k.size - 32;
    EndWords(HeadWords(w[c := c + k.offset], b, s, k.offset), b + s, s, k.offset)
  }

  /** `memory` is whatever the fresh region holds. */
  function AddWhole(h: Heap, c: int, k: Chunk, memory: map<int, int>): Heap
    requires k.size >= 32
  {
    h.(word := AddWords(h.word + memory, c, k), chunks := h.chunks[c := k], blocks := AddBlocks(h.blocks, c, k.size),
       totalSize := h.totalSize + k.size - 32, allocatedSize := h.allocatedSize + k.size - 32)
  }

  /** What the system promises about a region: mapped, aligned, and apart from every other chunk. */
  ghost predicate FreshRegion(h: Heap, c: int, k: Chunk, memory: map<int, int>) {
    && c > 0 && c % 8 == 0 && k.size % 8 == 0 && k.size >= 32 + MIN_BLOCK
    && (forall a :: a in memory <==> c <= a < c + k.size && a % 8 == 0)
    && (forall d {:trigger RegionApart(h.chunks, c, k, d)} | d in h.chunks :: RegionApart(h.chunks, c, k, d))
  }

  ghost predicate RegionApart(chunks: map<int, Chunk>, c: int, k: Chunk, d: int)
    requires d in chunks
  {
    d + chunks[d].size <= c || c + k.size <= d
  }

  lemma OldBlocksApart(h: Heap, c: int, k: Chunk, memory: map<int, int>, b: int)
    requires Geometry(h.chunks, h.blocks) && FreshRegion(h, c, k, memory) && b in h.blocks
    ensures h.blocks[b].chunk in h.chunks && h.blocks[b].chunk != c
    ensures h.blocks[b].chunk + CHUNK_HEADER <= b
    ensures b + h.blocks[b].size <= c || c + k.size + CHUNK_HEADER <= b
  {
    assert Placed(h.chunks, h.blocks, b);
    assert RegionApart(h.chunks, c, k, h.blocks[b].chunk);
  }

  lemma AddIsFresh(h: Heap, c: int, k: Chunk, memory: map<int, int>)
    requires Geometry(h.chunks, h.blocks) && FreshRegion(h, c, k, memory)
    ensures c !in h.chunks && c + CHUNK_HEADER !in h.blocks && c + k.size - BLOCK_HEADER !in h.blocks
  {
    forall x | x in h.blocks ensures x != c + CHUNK_HEADER && x != c + k.size - BLOCK_HEADER {
      OldBlocksApart(h, c, k, memory, x);
    }
    forall d | d in h.chunks ensures d != c {
      assert Based(h.chunks, h.blocks, d);
      OldBlocksApart(h, c, k, memory, d + CHUNK_HEADER);
    }
  }

  lemma AddPlaces(h: Heap, c: int, k: Chunk, memory: map<int, int>, x: int)
    requires Geometry(h.chunks, h.blocks) && FreshRegion(h, c, k, memory) && x in AddBlocks(h.blocks, c, k.size)
    ensures Placed(h.chunks[c := k], AddBlocks(h.blocks, c, k.size), x)
  {
    AddIsFresh(h, c, k, memory);
    if x in h.blocks {
      OldBlocksApart(h, c, k, memory, x);
      assert Placed(h.chunks, h.blocks, x);
    }
  }

  lemma AddApart(h: Heap, c: int, k: Chunk, memory: map<int, int>, x: int, y: int)
    requires Geometry(h.chunks, h.blocks) && FreshRegion(h, c, k, memory)
    requires x in AddBlocks(h.blocks, c, k.size) && y in AddBlocks(h.blocks, c, k.size)
    ensures Apart(AddBlocks(h.blocks, c, k.size), x, y)
  {
    AddIsFresh(h, c, k, memory);
    if x in h.blocks {
      OldBlocksApart(h, c, k, memory, x);
    }
    if y in h.blocks {
      OldBlocksApart(h, c, k, memory, y);
    }
    if x in h.blocks && y in h.blocks {
      assert Apart(h.blocks, x, y);
    }
  }

  lemma AddKeepsGeometry(h: Heap, c: int, k: Chunk, memory: map<int, int>)
    requires Geometry(h.chunks, h.blocks) && FreshRegion(h, c, k, memory)
    ensures Geometry(h.chunks[c := k], AddBlocks(h.blocks, c, k.size))
  {
    var chunks, blocks := h.chunks[c := k], AddBlocks(h.blocks, c, k.size);
    AddIsFresh(h, c, k, memory);
    forall x | x in blocks ensures Placed(chunks, blocks, x) {
      AddPlaces(h, c, k, memory, x);
    }
    forall x, y | x in blocks && y in blocks ensures Apart(blocks, x, y) {
      AddApart(h, c, k, memory, x, y);
    }
    forall x | x in chunks ensures Based(chunks, blocks, x) {
      if x != c {
        assert Based(h.chunks, h.blocks, x);
      }
    }
    forall x, y | x in chunks && y in chunks ensures ChunksApart(chunks, x, y) {
      if x != c && y != c {
        assert ChunksApart(h.chunks, x, y);
      } else {
        assert x != c ==> RegionApart(h.chunks, c, k, x);
        assert y != c ==> RegionApart(h.chunks, c, k, y);
      }
    }
  }

  lemma AddKeepsBlock(h: Heap, c: int, k: Chunk, memory: map<int, int>, x: int)
    requires Core(h) && FreshRegion(h, c, k, memory) && x in h.blocks
    ensures BlockOk(AddWhole(h, c, k, memory).word, h.chunks[c := k], AddBlocks(h.blocks, c, k.size), x)
  {
    AddIsFresh(h, c, k, memory);
    OldBlocksApart(h, c, k, memory, x);
    assert Placed(h.chunks, h.blocks, x) && BlockOk(h.word, h.chunks, h.blocks, x);
    AddKeepsPrevious(h, c, k, memory, x);
    hide AddWords, AddWhole, Geometry, Headers;
    WordOutside(h, c, k, memory, x, SIZE);
    WordOutside(h, c, k, memory, x, PREV_SIZE);
    WordOutside(h, c, k, memory, x, OFFSET);
    if h.blocks[x].kind == Free {
      WordOutside(h, c, k, memory, x, FREE_SIZE);
    }
  }

  lemma AddKeepsPrevious(h: Heap, c: int, k: Chunk, memory: map<int, int>, x: int)
    requires Geometry(h.chunks, h.blocks) && FreshRegion(h, c, k, memory) && x in h.blocks
    ensures forall p | Precedes(h.blocks, p, x) :: Precedes(AddBlocks(h.blocks, c, k.size), p, x)
  {
    AddIsFresh(h, c, k, memory);
  }

  /** An old block's words are not in the new region. */
  lemma WordOutside(h: Heap, c: int, k: Chunk, memory: map<int, int>, x: int, i: int)
    requires Geometry(h.chunks, h.blocks) && FreshRegion(h, c, k, memory) && x in h.blocks
    requires 0 <= i < h.blocks[x].size && x + i in h.word
    ensures var w := AddWhole(h, c, k, memory).word; x + i in w && w[x + i] == h.word[x + i]
  {
    OldBlocksApart(h, c, k, memory, x);
  }

  lemma AddTags(h: Heap, c: int, k: Chunk, memory: map<int, int>)
    requires Core(h) && FreshRegion(h, c, k, memory)
    ensures var w := AddWhole(h, c, k, memory).word;
            var blocks := AddBlocks(h.blocks, c, k.size);
            && ChunkOk(w, h.chunks[c := k], c)
            && BlockOk(w, h.chunks[c := k], blocks, c + CHUNK_HEADER)
            && BlockOk(w, h.chunks[c := k], blocks, c + k.size - BLOCK_HEADER)
  {
    var blocks := AddBlocks(h.blocks, c, k.size);
    assert Precedes(blocks, c + CHUNK_HEADER, c + k.size - BLOCK_HEADER);
  }

  lemma AddKeepsCore(h: Heap, c: int, k: Chunk, memory: map<int, int>)
    requires Core(h) && FreshRegion(h, c, k, memory)
    ensures Core(AddWhole(h, c, k, memory))
  {
    var h' := AddWhole(h, c, k, memory);
    AddKeepsGeometry(h, c, k, memory);
    AddIsFresh(h, c, k, memory);
    AddTags(h, c, k, memory);
    hide AddWords;
    forall x | x in h'.chunks ensures ChunkOk(h'.word, h'.chunks, x) {
      if x != c {
        AddKeepsChunk(h, c, k, memory, x);
      }
    }
    forall x | x in h'.blocks ensures BlockOk(h'.word, h'.chunks, h'.blocks, x) {
      if x in h.blocks {
        AddKeepsBlock(h, c, k, memory, x);
      }
    }
  }

  lemma AddKeepsChunk(h: Heap, c: int, k: Chunk, memory: map<int, int>, x: int)
    requires Core(h) && FreshRegion(h, c, k, memory) && x in h.chunks
    ensures ChunkOk(AddWhole(h, c, k, memory).word, h.chunks[c := k], x)
  {
    AddIsFresh(h, c, k, memory);
    assert ChunkOk(h.word, h.chunks, x) && Based(h.chunks, h.blocks, x) && Placed(h.chunks, h.blocks, x + CHUNK_HEADER);
    assert RegionApart(h.chunks, c, k, x);
  }
}
