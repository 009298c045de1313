/** The free list of the executable memory allocator and its two counters: what each step of
    `alloc` and `free` does to them (src/uwin-jit/executable_memory_allocator.cpp). */
module XmemList {
  import opened XmemHeap

  // --- What keeps a list linked ---

  /** The link words of `b` are the same in both memories. */
  ghost predicate SameLinks(old_: map<int, int>, new_: map<int, int>, b: int) {
    && (b + NEXT in old_ ==> b + NEXT in new_ && new_[b + NEXT] == old_[b + NEXT])
    && (b + PREV in old_ ==> b + PREV in new_ && new_[b + PREV] == old_[b + PREV])
  }

  ghost predicate Listed(h: Heap, i: int)
    requires 0 <= i < |h.list|
  {
    IsFree(h.blocks, h.list[i])
  }

  lemma LinksFrame(h: Heap, h': Heap, hole: int, hole': int)
    requires Links(h, hole) && h'.head == h.head && h'.list == h.list && hole' !in h.list
    requires forall i {:trigger Listed(h', i)} | 0 <= i < |h.list| ::
               Listed(h', i) && SameLinks(h.word, h'.word, h.list[i])
    requires forall b | IsFree(h'.blocks, b) && b != hole' :: IsFree(h.blocks, b) && b != hole
    ensures Links(h', hole')
  {
    forall i | 0 <= i < |h'.list| ensures IsFree(h'.blocks, h'.list[i]) && Linked(h'.word, h'.list, i) {
      assert Linked(h.word, h.list, i) && Listed(h', i);
    }
  }

  /** Blocks live above address 0. */
  lemma NullIsNoBlock(h: Heap, b: int)
    requires Geometry(h.chunks, h.blocks) && b in h.blocks
    ensures b >= CHUNK_HEADER && b != NULL
  {
    assert Placed(h.chunks, h.blocks, b) && Based(h.chunks, h.blocks, h.blocks[b].chunk);
  }

  /** Two block headers, links included, that do not overlap. */
  predicate Far(b: int, c: int) {
    b + FREE_SIZE + 8 <= c || c + FREE_SIZE + 8 <= b
  }

  lemma BlocksFar(h: Heap, b: int, c: int)
    requires Geometry(h.chunks, h.blocks) && b in h.blocks && c in h.blocks && b != c
    requires h.blocks[b].kind != End && h.blocks[c].kind != End
    ensures Far(b, c)
  {
    assert Placed(h.chunks, h.blocks, b) && Placed(h.chunks, h.blocks, c);
    assert Apart(h.blocks, b, c) && Apart(h.blocks, c, b);
  }

  /** A store into another block, or into this one beside the links, keeps the links. */
  lemma StoreKeepsLinks(h: Heap, b: int, i: int, c: int, v: int)
    requires Geometry(h.chunks, h.blocks) && b in h.blocks && IsFree(h.blocks, c) && 0 <= i < h.blocks[b].size
    requires b == c ==> i != NEXT && i != PREV
    ensures SameLinks(h.word, h.word[b + i := v], c)
  {
    assert Placed(h.chunks, h.blocks, c);
    if b != c {
      WordsApart(h, b, c, i, NEXT);
      WordsApart(h, b, c, i, PREV);
    }
  }

  lemma SameLinksTrans(w0: map<int, int>, w1: map<int, int>, w2: map<int, int>, b: int)
    requires SameLinks(w0, w1, b) && SameLinks(w1, w2, b)
    ensures SameLinks(w0, w2, b)
  {
  }

  // --- insert_free_block ---

  function InsertWords(word: map<int, int>, head: int, b: int, size: int): map<int, int> {
    var w := word[b + SIZE := 0][b + FREE_SIZE := size][b + NEXT := head][b + PREV := NULL];
    if head == NULL then w else w[head + PREV := b]
  }

  /** A used block becomes free and the first of the list. */
  function Insert(h: Heap, b: int): Heap
    requires b in h.blocks
  {
    h.(word := InsertWords(h.word, h.head, b, h.blocks[b].size), head := b, list := [b] + h.list,
       blocks := h.blocks[b := h.blocks[b].(kind := Free)], allocatedSize := h.allocatedSize - h.blocks[b].size)
  }

  ghost predicate Insertable(h: Heap, b: int) {
    b in h.blocks && h.blocks[b].kind == Used
  }

  /** The links of the old list, read after an insertion. */
  lemma InsertKeepsLinks(h: Heap, b: int, i: int)
    requires Core(h) && Links(h, NULL) && Insertable(h, b) && 0 <= i < |h.list|
    ensures Linked(Insert(h, b).word, [b] + h.list, i + 1)
  {
    var c := h.list[i];
    assert Linked(h.word, h.list, i) && Linked(h.word, h.list, 0);
    NullIsNoBlock(h, h.head);
    BlocksFar(h, b, c);
    if i != 0 {
      BlocksFar(h, h.head, c);
    }
  }

  lemma InsertLinksFirst(h: Heap, b: int)
    requires Core(h) && Links(h, NULL) && Insertable(h, b)
    ensures Linked(Insert(h, b).word, [b] + h.list, 0)
  {
    assert Placed(h.chunks, h.blocks, b);
    if |h.list| > 0 {
      assert Linked(h.word, h.list, 0);
      NullIsNoBlock(h, h.head);
      BlocksFar(h, h.head, b);
    }
  }

  lemma InsertRelinks(h: Heap, b: int, i: nat)
    requires Core(h) && Links(h, NULL) && Insertable(h, b) && i <= |h.list|
    ensures IsFree(Insert(h, b).blocks, ([b] + h.list)[i]) && Linked(Insert(h, b).word, [b] + h.list, i)
  {
    if i == 0 {
      InsertLinksFirst(h, b);
    } else {
      assert Linked(h.word, h.list, i - 1);
      InsertKeepsLinks(h, b, i - 1);
    }
  }

  lemma InsertKeepsMembers(h: Heap, b: int, list: seq<int>)
    requires Links(h, NULL) && Insertable(h, b) && list == [b] + h.list
    requires forall c | c in h.list :: IsFree(h.blocks, c)
    ensures forall i, j | 0 <= i < j < |list| :: list[i] != list[j]
    ensures forall c | IsFree(h.blocks[b := h.blocks[b].(kind := Free)], c) && c != NULL :: c in list
    ensures b != NULL && NULL !in h.list ==> NULL !in list
  {
    forall i, j | 0 <= i < j < |list| ensures list[i] != list[j] {
      assert list[j] == h.list[j - 1] && list[j] in h.list;
      assert i > 0 ==> list[i] == h.list[i - 1];
    }
  }

  lemma InsertKeepsList(h: Heap, b: int)
    requires Core(h) && Links(h, NULL) && Insertable(h, b)
    ensures Links(Insert(h, b), NULL)
  {
    var list := [b] + h.list;
    NullIsNoBlock(h, b);
    NullNotListed(h, NULL);
    InsertKeepsMembers(h, b, list);
    var h' := Insert(h, b);
    assert h'.list == list && h'.head == At(list, 0) && h'.blocks == h.blocks[b := h.blocks[b].(kind := Free)];
    forall i {:trigger Linked(h'.word, list, i)} | 0 <= i < |list|
      ensures IsFree(h'.blocks, list[i]) && Linked(h'.word, list, i)
    {
      InsertRelinks(h, b, i);
    }
    hide Core, Linked, Insert, IsFree, At;
    assert ListOk(h'.word, h'.head, list, h'.blocks, NULL);
  }

  lemma InsertKeepsCore(h: Heap, b: int)
    requires Core(h) && Links(h, NULL) && Insertable(h, b)
    ensures Core(Insert(h, b))
  {
    var size := h.blocks[b].size;
    assert Placed(h.chunks, h.blocks, b);
    PayloadStore(h, b, FREE_SIZE, size);
    var h1 := Put(h, b + FREE_SIZE, size);
    PayloadStore(h1, b, NEXT, h.head);
    var h2 := Put(h1, b + NEXT, h.head);
    PayloadStore(h2, b, PREV, NULL);
    var h3 := Put(h2, b + PREV, NULL);
    RetagKeepsCore(h3, b, Free);
    var h4 := Retag(h3, b, Free);
    InsertHead(h, b, h4);
  }

  /** The last store of an insertion, into the block that was first. */
  lemma InsertHead(h: Heap, b: int, h4: Heap)
    requires Core(h) && Core(h4) && Links(h, NULL) && Insertable(h, b)
    requires h4 == h.(word := h.word[b + FREE_SIZE := h.blocks[b].size][b + NEXT := h.head][b + PREV := NULL][b
             + SIZE := 0],
                      blocks := h.blocks[b := h.blocks[b].(kind := Free)])
    ensures Core(Insert(h, b))
  {
    assert h4.word == h.word[b + SIZE := 0][b + FREE_SIZE := h.blocks[b].size][b + NEXT := h.head][b + PREV := NULL];
    if h.head != NULL {
      assert Linked(h.word, h.list, 0) && Placed(h.chunks, h.blocks, h.head);
      PayloadStore(h4, h.head, PREV, b);
    }
    hide Geometry, Links, Headers;
  }

  // --- remove_free_block ---

  function UnlinkWords(word: map<int, int>, b: int): map<int, int>
    requires b + NEXT in word && b + PREV in word
  {
    var next, prev := word[b + NEXT], word[b + PREV];
    var w := if next == NULL then word else word[next + PREV := prev];
    if prev == NULL then w else w[prev + NEXT := next]
  }

  function UnlinkHead(word: map<int, int>, head: int, b: int): int
    requires b + NEXT in word && b + PREV in word
  {
    if word[b + PREV] == NULL then word[b + NEXT] else head
  }

  /** The list without the block at position `i`, which stays free for the moment. */
  function Unlink(h: Heap, i: nat): Heap
    requires i < |h.list| && h.list[i] + NEXT in h.word && h.list[i] + PREV in h.word
  {
    h.(word := UnlinkWords(h.word, h.list[i]), head := UnlinkHead(h.word, h.head, h.list[i]),
        list := Without(h.list, i))
  }

  lemma ListNeighbours(h: Heap, i: nat)
    requires Core(h) && Links(h, NULL) && i < |h.list|
    ensures h.list[i] + NEXT in h.word && h.word[h.list[i] + NEXT] == At(h.list, i + 1)
    ensures h.list[i] + PREV in h.word && h.word[h.list[i] + PREV] == At(h.list, i - 1)
    ensures IsFree(h.blocks, h.list[i]) && h.list[i] != NULL
    ensures At(h.list, i + 1) != NULL <==> i + 1 < |h.list|
    ensures At(h.list, i - 1) != NULL <==> 0 < i
  {
    assert Linked(h.word, h.list, i);
    NullIsNoBlock(h, h.list[i]);
    if i + 1 < |h.list| {
      assert Linked(h.word, h.list, i + 1);
      NullIsNoBlock(h, h.list[i + 1]);
    }
    if i > 0 {
      assert Linked(h.word, h.list, i - 1);
      NullIsNoBlock(h, h.list[i - 1]);
    }
  }

  lemma LinksFar(h: Heap, i: nat, j: nat)
    requires Core(h) && Links(h, NULL) && i < |h.list| && j < |h.list| && i != j
    ensures Far(h.list[i], h.list[j])
  {
    assert Linked(h.word, h.list, i) && Linked(h.word, h.list, j);
    assert h.list[if i < j then i else j] != h.list[if i < j then j else i];
    BlocksFar(h, h.list[i], h.list[j]);
  }

  function Without(list: seq<int>, i: nat): seq<int>
    requires i < |list|
  {
    list[..i] + list[i + 1..]
  }

  /** Position `j` of the old list, read after position `i` was unlinked. */
  lemma UnlinkKeepsLinks(h: Heap, i: nat, j: nat)
    requires Core(h) && Links(h, NULL) && i < |h.list| && j < |h.list| && i != j
    ensures h.list[i] + NEXT in h.word && h.list[i] + PREV in h.word
    ensures Linked(UnlinkWords(h.word, h.list[i]), Without(h.list, i), if j < i then j else j - 1)
  {
    ListNeighbours(h, i);
    ListNeighbours(h, j);
    if i + 1 < |h.list| && j != i + 1 {
      LinksFar(h, i + 1, j);
    }
    if i > 0 && j != i - 1 {
      LinksFar(h, i - 1, j);
    }
    hide Core, Links;
  }

  lemma UnlinkKeepsMembers(h: Heap, i: nat, hole: int)
    requires Links(h, hole) && i < |h.list|
    ensures forall c | IsFree(h.blocks, c) && c != hole && c != h.list[i] :: c in Without(h.list, i)
    ensures h.list[i] !in Without(h.list, i)
    ensures forall k, l | 0 <= k < l < |h.list| - 1 :: Without(h.list, i)[k] != Without(h.list, i)[l]
  {
    forall c | IsFree(h.blocks, c) && c != hole && c != h.list[i] ensures c in Without(h.list, i) {
      assert c in h.list;
      var j :| 0 <= j < |h.list| && h.list[j] == c;
      assert Without(h.list, i)[if j < i then j else j - 1] == c;
    }
  }

  lemma UnlinkKeepsHead(h: Heap, i: nat)
    requires Core(h) && Links(h, NULL) && i < |h.list|
    ensures h.list[i] + NEXT in h.word && h.list[i] + PREV in h.word
    ensures UnlinkHead(h.word, h.head, h.list[i]) == At(Without(h.list, i), 0)
  {
    ListNeighbours(h, i);
  }

  lemma UnlinkRelinks(h: Heap, i: nat, k: nat)
    requires Core(h) && Links(h, NULL) && i < |h.list| && k < |h.list| - 1
    ensures h.list[i] + NEXT in h.word && h.list[i] + PREV in h.word
    ensures IsFree(h.blocks, Without(h.list, i)[k])
    ensures Linked(UnlinkWords(h.word, h.list[i]), Without(h.list, i), k)
  {
    var j := if k < i then k else k + 1;
    ListNeighbours(h, j);
    UnlinkKeepsLinks(h, i, j);
  }

  lemma UnlinkKeepsList(h: Heap, i: nat)
    requires Core(h) && Links(h, NULL) && i < |h.list|
    ensures h.list[i] + NEXT in h.word && h.list[i] + PREV in h.word
    ensures Links(Unlink(h, i), h.list[i])
  {
    UnlinkKeepsHead(h, i);
    UnlinkKeepsMembers(h, i, NULL);
    NullNotListed(h, NULL);
    forall k {:trigger Linked(UnlinkWords(h.word, h.list[i]), Without(h.list, i), k)} | 0 <= k < |h.list| - 1
      ensures IsFree(h.blocks, Without(h.list, i)[k]) && Linked(UnlinkWords(h.word, h.list[i]), Without(h.list, i), k)
    {
      UnlinkRelinks(h, i, k);
    }
    NotNullFree(h);
    hide Core, Linked, UnlinkWords, UnlinkHead, Without, IsFree;
  }

  lemma NotNullFree(h: Heap)
    requires Core(h)
    ensures !IsFree(h.blocks, NULL)
  {
    if NULL in h.blocks {
      NullIsNoBlock(h, NULL);
    }
  }

  /** The store of `v` into a link word of the block at `x`, unless `x` is NULL. */
  function PutLink(h: Heap, x: int, i: int, v: int): Heap {
    if x == NULL then h else Put(h, x + i, v)
  }

  lemma PutLinkKeepsCore(h: Heap, x: int, i: int, v: int)
    requires Core(h) && (x == NULL || IsFree(h.blocks, x)) && i in {NEXT, PREV}
    ensures Core(PutLink(h, x, i, v))
  {
    if x != NULL {
      assert Placed(h.chunks, h.blocks, x);
      PayloadStore(h, x, i, v);
    }
  }

  lemma UnlinkKeepsCore(h: Heap, i: nat)
    requires Core(h) && Links(h, NULL) && i < |h.list|
    ensures h.list[i] + NEXT in h.word && h.list[i] + PREV in h.word
    ensures Core(Unlink(h, i))
  {
    ListNeighbours(h, i);
    var next, prev := At(h.list, i + 1), At(h.list, i - 1);
    if i + 1 < |h.list| {
      ListNeighbours(h, i + 1);
    }
    if i > 0 {
      ListNeighbours(h, i - 1);
    }
    PutLinkKeepsCore(h, next, PREV, prev);
    PutLinkKeepsCore(PutLink(h, next, PREV, prev), prev, NEXT, next);
    assert Unlink(h, i).word == PutLink(PutLink(h, next, PREV, prev), prev, NEXT, next).word;
    hide Geometry;
  }

  // --- Stores that keep all link words ---

  /** The link words of every free block are the same in both memories. */
  ghost predicate LinksStay(h: Heap, w: map<int, int>) {
    forall c {:trigger SameLinks(h.word, w, c)} | IsFree(h.blocks, c) :: SameLinks(h.word, w, c)
  }

  lemma StoreStays(h: Heap, w: map<int, int>, b: int, i: int, v: int)
    requires Geometry(h.chunks, h.blocks) && LinksStay(h, w) && b in h.blocks && 0 <= i < h.blocks[b].size
    requires IsFree(h.blocks, b) ==> i != NEXT && i != PREV
    ensures LinksStay(h, w[b + i := v])
  {
    forall c | IsFree(h.blocks, c) ensures SameLinks(h.word, w[b + i := v], c) {
      assert SameLinks(h.word, w, c);
      StoreKeepsLinks(h.(word := w), b, i, c, v);
      SameLinksTrans(h.word, w, w[b + i := v], c);
    }
  }

  lemma LinksFollow(h: Heap, h': Heap, hole: int, hole': int)
    requires Links(h, hole) && h'.head == h.head && h'.list == h.list && hole' !in h.list
    requires LinksStay(h, h'.word)
    requires forall b | b in h.list :: IsFree(h'.blocks, b)
    requires forall b | IsFree(h'.blocks, b) && b != hole' :: IsFree(h.blocks, b) && b != hole
    ensures Links(h', hole')
  {
    forall i | 0 <= i < |h.list| ensures Listed(h', i) && SameLinks(h.word, h'.word, h.list[i]) {
      assert Linked(h.word, h.list, i) && h.list[i] in h.list;
    }
    LinksFrame(h, h', hole, hole');
  }

  lemma NullNotListed(h: Heap, hole: int)
    requires Core(h) && Links(h, hole)
    ensures NULL !in h.list
    ensures forall b | b in h.list :: IsFree(h.blocks, b)
  {
    forall b | b in h.list ensures IsFree(h.blocks, b) && b != NULL {
      var i :| 0 <= i < |h.list| && h.list[i] == b;
      assert Linked(h.word, h.list, i);
      NullIsNoBlock(h, b);
    }
  }

  lemma MergeKeepsList(h: Heap, p: int, hole: int)
    requires Core(h) && Links(h, hole) && Mergeable(h, p) && p != hole
    requires var q := p + h.blocks[p].size; hole == (if IsFree(h.blocks, q) then q else NULL)
    ensures Links(Merge(h, p), NULL)
  {
    var h' := Merge(h, p);
    var q, n := p + h.blocks[p].size, p + h'.blocks[p].size;
    NullNotListed(h, hole);
    assert Placed(h.chunks, h.blocks, p) && Placed(h.chunks, h.blocks, q) && Placed(h.chunks, h.blocks, n);
    assert LinksStay(h, h.word);
    StoreStays(h, h.word, p, FREE_SIZE, h'.blocks[p].size);
    StoreStays(h, h.word[p + FREE_SIZE := h'.blocks[p].size], n, PREV_SIZE, h'.blocks[p].size);
    MergedFree(h, p, hole);
    LinksFollow(h, h', hole, NULL);
  }

  lemma MergedFree(h: Heap, p: int, hole: int)
    requires Core(h) && Links(h, hole) && Mergeable(h, p)
    requires var q := p + h.blocks[p].size; hole == (if IsFree(h.blocks, q) then q else NULL)
    ensures forall b | b in h.list :: IsFree(Merge(h, p).blocks, b)
    ensures forall b | IsFree(Merge(h, p).blocks, b) && b != NULL :: IsFree(h.blocks, b) && b != hole
    ensures forall b | IsFree(Merge(h, p).blocks, b) :: IsFree(h.blocks, b)
    ensures !IsFree(Merge(h, p).blocks, NULL)
  {
    NullNotListed(h, hole);
    assert Placed(h.chunks, h.blocks, p);
    if NULL in h.blocks {
      NullIsNoBlock(h, NULL);
    }
  }
}
