/**
 The heap allocator of gdk_heap.c (HEAP_malloc and friends): a first-fit free list, ordered
 by address and coalesced, that lives inside the heap it manages.

 Positions and sizes are multiples of 8 bytes and are counted here in 8-byte words; the
 alignment is one word and a CHUNK (size, next) is two. `words` is the heap up to heap->free.
 A block starts with its size; in a free block the next word is the link of the free list.
 */
module FreeHeap {

  const HEADER: nat := 4
  const CHUNK: nat := 2

  // -------------------------------------------------------------------- the layout

  /** A block ends where another one starts, or at the end of the heap. */
  ghost predicate Abuts(sizes: map<nat, nat>, p: nat, end: nat) {
    p in sizes && (p + sizes[p] == end || p + sizes[p] in sizes)
  }

  ghost predicate Before(sizes: map<nat, nat>, p: nat, q: nat) {
    p in sizes && p + sizes[p] <= q
  }

  ghost predicate Disjoint(sizes: map<nat, nat>) {
    forall p, q {:trigger Before(sizes, p, q)} :: p in sizes && q in sizes && p < q ==> Before(sizes, p, q)
  }

  /** The blocks (start -> size) are disjoint and cover the words from `first` to `end`. */
  ghost predicate Tiled(sizes: map<nat, nat>, first: nat, end: nat) {
    && HEADER <= first <= end
    && (first in sizes || first == end)
    && (forall p :: p in sizes ==> first <= p && CHUNK <= sizes[p] && p + sizes[p] <= end)
    && (forall p {:trigger Abuts(sizes, p, end)} :: p in sizes ==> Abuts(sizes, p, end))
    && Disjoint(sizes)
  }

  /** Every block starts with its size. */
  ghost predicate Sized(words: seq<nat>, sizes: map<nat, nat>) {
    forall p :: p in sizes ==> p < |words| && words[p] == sizes[p]
  }

  ghost predicate Increasing(frees: seq<nat>) {
    forall i, j :: 0 <= i < j < |frees| ==> frees[i] < frees[j]
  }

  /** No free block starts where the free block p ends. */
  ghost predicate Isolated(sizes: map<nat, nat>, frees: seq<nat>, p: nat) {
    p in sizes && p + sizes[p] !in frees
  }

  /** The free blocks, in increasing order. */
  ghost predicate FreeList(sizes: map<nat, nat>, frees: seq<nat>) {
    && Increasing(frees)
    && (forall p :: p in frees ==> p in sizes)
  }

  ghost predicate Coalesced(sizes: map<nat, nat>, frees: seq<nat>) {
    forall p {:trigger Isolated(sizes, frees, p)} :: p in frees ==> Isolated(sizes, frees, p)
  }

  /** Entry j of the free list, 0 outside it. */
  ghost function Nth(frees: seq<nat>, j: int): nat {
    if 0 <= j < |frees| then frees[j] else 0
  }

  /** Free block j links to the next one. */
  ghost predicate LinkAt(words: seq<nat>, frees: seq<nat>, j: int) {
    0 <= j < |frees| && frees[j] + 1 < |words| && words[frees[j] + 1] == Nth(frees, j + 1)
  }

  /** The list is linked from `head`; the link that leads to entry `gap` may still be missing. */
  ghost predicate Linked(words: seq<nat>, head: nat, frees: seq<nat>, gap: int) {
    && (gap != 0 ==> head == Nth(frees, 0))
    && (forall j :: 0 <= j < |frees| && j + 1 != gap ==> LinkAt(words, frees, j))
  }

  /** All of the above: `head` and `first` are fields of the header. */
  datatype Heap = Heap(words: seq<nat>, head: nat, first: nat)

  ghost predicate Layout(h: Heap, sizes: map<nat, nat>, frees: seq<nat>, gap: int) {
    && Tiled(sizes, h.first, |h.words|)
    && Sized(h.words, sizes)
    && FreeList(sizes, frees)
    && Linked(h.words, h.head, frees, gap)
  }

  /** Words of different blocks are different words. */
  lemma Apart(sizes: map<nat, nat>, first: nat, end: nat, p: nat, q: nat, i: nat, j: nat)
    requires Tiled(sizes, first, end) && p in sizes && q in sizes && p != q
    requires p <= i < p + sizes[p] && q <= j < q + sizes[q]
    ensures i != j
  {
    assert p < q ==> Before(sizes, p, q);
    assert q < p ==> Before(sizes, q, p);
  }

  /** What the layout says of free block j. */
  lemma FreeBlock(h: Heap, sizes: map<nat, nat>, frees: seq<nat>, gap: int, j: int)
    requires Layout(h, sizes, frees, gap) && 0 <= j < |frees|
    ensures frees[j] in frees && frees[j] in sizes && HEADER <= frees[j]
    ensures CHUNK <= sizes[frees[j]] && frees[j] + sizes[frees[j]] <= |h.words| && h.words[frees[j]] == sizes[frees[j]]
    ensures j + 1 != gap ==> LinkAt(h.words, frees, j)
  {
    assert frees[j] in frees;
  }

  lemma LayoutAnyGap(h: Heap, sizes: map<nat, nat>, frees: seq<nat>, gap: int)
    requires Layout(h, sizes, frees, -1)
    ensures Layout(h, sizes, frees, gap)
  {
  }

  // ------------------------------------------------- splitting, merging, extending

  ghost function SplitSizes(sizes: map<nat, nat>, block: nat, need: nat): map<nat, nat>
    requires block in sizes && need <= sizes[block]
  {
    sizes[block := need][block + need := sizes[block] - need]
  }

  lemma SplitAbuts(sizes: map<nat, nat>, first: nat, end: nat, block: nat, need: nat, p: nat)
    requires Tiled(sizes, first, end) && block in sizes && CHUNK <= need && need + CHUNK <= sizes[block]
    requires p in SplitSizes(sizes, block, need)
    ensures Abuts(SplitSizes(sizes, block, need), p, end)
  {
    var sizes' := SplitSizes(sizes, block, need);
    if p == block + need {
      assert Abuts(sizes, block, end);
      assert p + sizes'[p] == block + sizes[block];
    } else if p == block {
      assert p + sizes'[p] == block + need;
    } else {
      assert Abuts(sizes, p, end);
      assert sizes'[p] == sizes[p];
    }
  }

  lemma SplitBefore(sizes: map<nat, nat>, block: nat, need: nat, p: nat, q: nat)
    requires Disjoint(sizes) && block in sizes && 0 < need < sizes[block] && block + need !in sizes
    requires p in SplitSizes(sizes, block, need) && q in SplitSizes(sizes, block, need) && p < q
    ensures Before(SplitSizes(sizes, block, need), p, q)
  {
    var p0 := if p == block + need then block else p;
    var q0 := if q == block + need then block else q;
    assert p0 in sizes && q0 in sizes;
    assert p0 < q0 ==> Before(sizes, p0, q0);
    assert q0 < p0 ==> Before(sizes, q0, p0);
  }

  lemma NotInside(sizes: map<nat, nat>, block: nat, need: nat)
    requires Disjoint(sizes) && block in sizes && 0 < need < sizes[block]
    ensures block + need !in sizes
  {
    assert block + need in sizes ==> Before(sizes, block, block + need);
  }

  lemma SplitInside(sizes: map<nat, nat>, first: nat, end: nat, block: nat, need: nat, p: nat)
    requires Tiled(sizes, first, end) && block in sizes && CHUNK <= need && need + CHUNK <= sizes[block]
    requires p in SplitSizes(sizes, block, need)
    ensures var sizes' := SplitSizes(sizes, block, need); first <= p && CHUNK <= sizes'[p] && p + sizes'[p] <= end
  {
    hide Disjoint, Abuts;
  }

  lemma TiledSplit(sizes: map<nat, nat>, first: nat, end: nat, block: nat, need: nat)
    requires Tiled(sizes, first, end) && block in sizes
    requires CHUNK <= need && need + CHUNK <= sizes[block]
    ensures block + need !in sizes
    ensures Tiled(SplitSizes(sizes, block, need), first, end)
  {
    hide Before, Abuts;
    var sizes' := SplitSizes(sizes, block, need);
    NotInside(sizes, block, need);
    forall p, q | p in sizes' && q in sizes' && p < q ensures Before(sizes', p, q) {
      SplitBefore(sizes, block, need, p, q);
    }
    forall p | p in sizes'
      ensures Abuts(sizes', p, end) && first <= p && CHUNK <= sizes'[p] && p + sizes'[p] <= end
    {
      SplitAbuts(sizes, first, end, block, need, p);
      SplitInside(sizes, first, end, block, need, p);
    }
  }

  ghost function MergeSizes(sizes: map<nat, nat>, block: nat): map<nat, nat>
    requires block in sizes && block + sizes[block] in sizes
  {
    var after := block + sizes[block];
    (sizes - {after})[block := sizes[block] + sizes[after]]
  }

  lemma TiledMerge(sizes: map<nat, nat>, first: nat, end: nat, block: nat)
    requires Tiled(sizes, first, end) && block in sizes && block + sizes[block] in sizes
    ensures Tiled(MergeSizes(sizes, block), first, end)
  {
    var after := block + sizes[block];
    var sizes' := MergeSizes(sizes, block);
    assert after in sizes && Abuts(sizes, after, end);
    forall p, q | p in sizes' && q in sizes' && p < q ensures Before(sizes', p, q) {
      assert Before(sizes, p, q);
      assert after < q ==> Before(sizes, after, q);
    }
    forall p | p in sizes' ensures Abuts(sizes', p, end) {
      MergeAbuts(sizes, first, end, block, p);
    }
  }

  /** Only the merged block ended where the block behind it began. */
  lemma MergeAbuts(sizes: map<nat, nat>, first: nat, end: nat, block: nat, p: nat)
    requires Tiled(sizes, first, end) && block in sizes && block + sizes[block] in sizes
    requires p in MergeSizes(sizes, block)
    ensures Abuts(MergeSizes(sizes, block), p, end)
  {
    var after := block + sizes[block];
    assert Abuts(sizes, after, end) && Abuts(sizes, p, end);
    assert after + sizes[after] > after;
    if p < block {
      assert Before(sizes, p, block);
    } else if block < p {
      assert Before(sizes, block, p);
    }
  }

  lemma TiledExtend(sizes: map<nat, nat>, first: nat, end: nat, n: nat)
    requires Tiled(sizes, first, end) && n >= CHUNK
    ensures end !in sizes && Tiled(sizes[end := n], first, end + n)
  {
    var sizes' := sizes[end := n];
    forall p, q | p in sizes' && q in sizes' && p < q ensures Before(sizes', p, q) {
      assert q != end ==> Before(sizes, p, q);
    }
    forall p | p in sizes' ensures Abuts(sizes', p, end + n) {
      if p != end {
        assert Abuts(sizes, p, end);
      }
    }
  }

  // --------------------------------------------------------- changes of the list

  ghost function Remove(frees: seq<nat>, k: int): seq<nat>
    requires 0 <= k < |frees|
  {
    frees[..k] + frees[k + 1..]
  }

  ghost function Insert(frees: seq<nat>, k: int, p: nat): seq<nat>
    requires 0 <= k <= |frees|
  {
    frees[..k] + [p] + frees[k..]
  }

  /** Set the link that leads to entry k: in the header, or in free block k - 1. */
  ghost function SetLink(h: Heap, frees: seq<nat>, k: int, v: nat): Heap
    requires 0 <= k <= |frees| && (k > 0 ==> frees[k - 1] + 1 < |h.words|)
  {
    if k == 0 then h.(head := v) else h.(words := h.words[frees[k - 1] + 1 := v])
  }

  lemma LinkedRemove(h: Heap, frees: seq<nat>, k: int)
    requires Linked(h.words, h.head, frees, k) && LinkAt(h.words, frees, k) && Increasing(frees)
    requires k > 0 ==> frees[k - 1] + 1 < |h.words|
    ensures var h' := SetLink(h, frees, k, h.words[frees[k] + 1]); Linked(h'.words, h'.head, Remove(frees, k), -1)
  {
    var frees' := Remove(frees, k);
    var h' := SetLink(h, frees, k, h.words[frees[k] + 1]);
    forall j | 0 <= j < |frees'| ensures LinkAt(h'.words, frees', j) {
      if j < k {
        assert frees'[j] == frees[j];
        if j < k - 1 {
          assert LinkAt(h.words, frees, j);
          assert frees'[j + 1] == frees[j + 1];
        }
      } else {
        assert frees'[j] == frees[j + 1];
        assert LinkAt(h.words, frees, j + 1);
      }
    }
  }

  lemma LinkedClose(h: Heap, frees: seq<nat>, k: int)
    requires Linked(h.words, h.head, frees, k) && Increasing(frees) && 0 <= k < |frees|
    requires k > 0 ==> frees[k - 1] + 1 < |h.words|
    ensures var h' := SetLink(h, frees, k, frees[k]); Linked(h'.words, h'.head, frees, -1)
  {
    var h' := SetLink(h, frees, k, frees[k]);
    forall j | 0 <= j < |frees| ensures LinkAt(h'.words, frees, j) {
      if j != k - 1 {
        assert LinkAt(h.words, frees, j);
      }
    }
  }

  /** New words that agree on the links. */
  lemma LinkedFrame(words: seq<nat>, words': seq<nat>, head: nat, frees: seq<nat>, gap: int)
    requires Linked(words, head, frees, gap)
    requires forall p :: p in frees ==> p + 1 < |words'| && (p + 1 < |words| ==> words'[p + 1] == words[p + 1])
    ensures Linked(words', head, frees, gap)
  {
    forall j | 0 <= j < |frees| && j + 1 != gap ensures LinkAt(words', frees, j) {
      assert LinkAt(words, frees, j);
      assert frees[j] in frees;
    }
  }

  lemma LinkedInsert(words: seq<nat>, head: nat, frees: seq<nat>, k: int, p: nat)
    requires Linked(words, head, frees, k) && 0 <= k <= |frees|
    requires p + 1 < |words| && words[p + 1] == Nth(frees, k)
    ensures Linked(words, head, Insert(frees, k, p), k)
  {
    var frees' := Insert(frees, k, p);
    forall j | 0 <= j < |frees'| && j + 1 != k ensures LinkAt(words, frees', j) {
      if j < k {
        assert LinkAt(words, frees, j);
      } else if j > k {
        assert LinkAt(words, frees, j - 1);
      }
    }
  }

  lemma LinkedReplace(words: seq<nat>, head: nat, frees: seq<nat>, k: int, p: nat)
    requires Linked(words, head, frees, k) && 0 <= k < |frees|
    requires p + 1 < |words| && words[p + 1] == Nth(frees, k + 1)
    ensures Linked(words, head, frees[k := p], k)
  {
    var frees' := frees[k := p];
    forall j | 0 <= j < |frees| && j + 1 != k ensures LinkAt(words, frees', j) {
      if j != k {
        assert LinkAt(words, frees, j);
      }
    }
  }

  lemma ListRemove(sizes: map<nat, nat>, frees: seq<nat>, k: int)
    requires FreeList(sizes, frees) && 0 <= k < |frees|
    ensures FreeList(sizes, Remove(frees, k))
    ensures forall p :: p in Remove(frees, k) <==> p in frees && p != frees[k]
  {
    forall p ensures p in Remove(frees, k) <==> p in frees && p != frees[k] {
      if p in frees && p != frees[k] {
        var j :| 0 <= j < |frees| && frees[j] == p;
        assert p == Remove(frees, k)[if j < k then j else j - 1];
      }
    }
  }

  ghost predicate Between(frees: seq<nat>, k: int, p: nat) {
    0 <= k <= |frees| && (k > 0 ==> frees[k - 1] < p) && (k < |frees| ==> p < frees[k])
  }

  lemma InsertMembers(frees: seq<nat>, k: int, p: nat, q: nat)
    requires 0 <= k <= |frees|
    ensures q in Insert(frees, k, p) <==> q in frees || q == p
  {
    assert frees == frees[..k] + frees[k..];
  }

  lemma ListInsert(frees: seq<nat>, k: int, p: nat)
    requires Increasing(frees) && Between(frees, k, p)
    ensures Increasing(Insert(frees, k, p))
    ensures forall q :: q in Insert(frees, k, p) <==> q in frees || q == p
    ensures p !in frees
  {
    var frees' := Insert(frees, k, p);
    forall i, j | 0 <= i < j < |frees'| ensures frees'[i] < frees'[j] {
      var a := if i < k then frees[i] else if i == k then p else frees[i - 1];
      var b := if j < k then frees[j] else if j == k then p else frees[j - 1];
      assert frees'[i] == a && frees'[j] == b;
    }
    forall q ensures q in frees' <==> q in frees || q == p {
      InsertMembers(frees, k, p, q);
    }
  }

  lemma ListReplace(frees: seq<nat>, k: int, p: nat)
    requires Increasing(frees) && 0 <= k < |frees|
    requires (k > 0 ==> frees[k - 1] < p) && (k + 1 < |frees| ==> p < frees[k + 1])
    ensures Increasing(frees[k := p])
    ensures forall q :: q in frees[k := p] <==> (q in frees && q != frees[k]) || q == p
  {
    var frees' := frees[k := p];
    forall q ensures q in frees' <==> (q in frees && q != frees[k]) || q == p {
      if q in frees && q != frees[k] {
        var j :| 0 <= j < |frees| && frees[j] == q;
        assert q == frees'[j];
      }
      assert frees'[k] == p;
    }
  }

  // ------------------------------------------------ whole steps of the allocator

  /** A write to a word inside a block, other than its first, changes no size. */
  lemma SizedFrame(words: seq<nat>, sizes: map<nat, nat>, first: nat, p: nat, i: nat, v: nat)
    requires Tiled(sizes, first, |words|) && Sized(words, sizes)
    requires p in sizes && p < i < p + sizes[p]
    ensures Sized(words[i := v], sizes)
  {
    forall q | q in sizes ensures words[i := v][q] == sizes[q] {
      if q != p {
        Apart(sizes, first, |words|, p, q, i, q);
      }
    }
  }

  /** Close the gap: set the link to entry k. */
  lemma CloseLayout(h: Heap, sizes: map<nat, nat>, frees: seq<nat>, k: int)
    requires Layout(h, sizes, frees, k) && 0 <= k < |frees|
    ensures k > 0 ==> frees[k - 1] in sizes && frees[k - 1] + 1 < |h.words|
    ensures Layout(SetLink(h, frees, k, frees[k]), sizes, frees, -1)
  {
    if k > 0 {
      assert frees[k - 1] in frees;
      SizedFrame(h.words, sizes, h.first, frees[k - 1], frees[k - 1] + 1, frees[k]);
    }
    LinkedClose(h, frees, k);
  }

  /** Unlink entry k. */
  lemma RemoveLayout(h: Heap, sizes: map<nat, nat>, frees: seq<nat>, k: int)
    requires Layout(h, sizes, frees, k) && LinkAt(h.words, frees, k)
    ensures k > 0 ==> frees[k - 1] in sizes && frees[k - 1] + 1 < |h.words|
    ensures Layout(SetLink(h, frees, k, h.words[frees[k] + 1]), sizes, Remove(frees, k), -1)
  {
    if k > 0 {
      assert frees[k - 1] in frees;
      SizedFrame(h.words, sizes, h.first, frees[k - 1], frees[k - 1] + 1, h.words[frees[k] + 1]);
    }
    LinkedRemove(h, frees, k);
    ListRemove(sizes, frees, k);
  }

  /** Put an allocated block into the list at k, except for the link to it. */
  lemma InsertLayout(h: Heap, sizes: map<nat, nat>, frees: seq<nat>, k: int, block: nat)
    requires Layout(h, sizes, frees, -1) && block in sizes && Between(frees, k, block)
    ensures block + 1 < |h.words|
    ensures Layout(h.(words := h.words[block + 1 := Nth(frees, k)]), sizes, Insert(frees, k, block), k)
  {
    var words' := h.words[block + 1 := Nth(frees, k)];
    ListInsert(frees, k, block);
    SizedFrame(h.words, sizes, h.first, block, block + 1, Nth(frees, k));
    assert Linked(h.words, h.head, frees, k);
    forall p | p in frees ensures p + 1 < |words'| && words'[p + 1] == h.words[p + 1] {
      assert p in sizes && p != block;
    }
    LinkedFrame(h.words, words', h.head, frees, k);
    LinkedInsert(words', h.head, frees, k, block);
  }

  ghost function SplitWords(words: seq<nat>, block: nat, need: nat): seq<nat>
    requires block + need + 1 < |words| && block + 1 < |words| && need <= words[block]
  {
    var rest := words[block + need := words[block] - need][block + need + 1 := words[block + 1]];
    rest[block + 1 := block + need][block := need]
  }

  /** Split free block k; the rest takes its place in the list, except for the link to it. */
  lemma SplitLayout(h: Heap, sizes: map<nat, nat>, frees: seq<nat>, k: int, need: nat)
    requires Layout(h, sizes, frees, k) && LinkAt(h.words, frees, k)
    requires CHUNK <= need && frees[k] in sizes && need + CHUNK <= sizes[frees[k]]
    ensures var block := frees[k];
      block + need + 1 < |h.words| && h.words[block] == sizes[block] &&
      Layout(h.(words := SplitWords(h.words, block, need)), SplitSizes(sizes, block, need), frees[k := block + need], k)
  {
    var block := frees[k];
    var rest := block + need;
    assert block in frees;
    TiledSplit(sizes, h.first, |h.words|, block, need);
    var sizes', words', frees' := SplitSizes(sizes, block, need), SplitWords(h.words, block, need), frees[k := rest];
    forall p | p in sizes' ensures words'[p] == sizes'[p] {
      if p != block && p != rest {
        assert h.words[p] == sizes[p];
        Apart(sizes, h.first, |h.words|, block, p, block + 1, p);
        Apart(sizes, h.first, |h.words|, block, p, rest + 1, p);
      }
    }
    if k + 1 < |frees| {
      assert frees[k + 1] in frees;
      assert Before(sizes, block, frees[k + 1]);
    }
    ListReplace(frees, k, rest);
    SplitLinked(h, sizes, frees, k, need);
  }

  lemma SplitLinked(h: Heap, sizes: map<nat, nat>, frees: seq<nat>, k: int, need: nat)
    requires Layout(h, sizes, frees, k) && LinkAt(h.words, frees, k)
    requires CHUNK <= need && frees[k] in sizes && need + CHUNK <= sizes[frees[k]]
    ensures var block := frees[k];
      block + need + 1 < |h.words| && h.words[block] == sizes[block] &&
      Linked(SplitWords(h.words, block, need), h.head, frees[k := block + need], k)
  {
    var block := frees[k];
    var rest := block + need;
    var words', frees' := SplitWords(h.words, block, need), frees[k := rest];
    forall j | 0 <= j < |frees| && j + 1 != k ensures LinkAt(words', frees', j) {
      if j != k {
        assert LinkAt(h.words, frees, j);
        assert frees[j] in frees && frees[j] in sizes && frees[j] != block;
        Apart(sizes, h.first, |h.words|, block, frees[j], block, frees[j] + 1);
        Apart(sizes, h.first, |h.words|, block, frees[j], block + 1, frees[j] + 1);
        Apart(sizes, h.first, |h.words|, block, frees[j], rest, frees[j] + 1);
        Apart(sizes, h.first, |h.words|, block, frees[j], rest + 1, frees[j] + 1);
      }
    }
  }

  ghost function MergeWords(words: seq<nat>, block: nat, after: nat): seq<nat>
    requires block + 1 < |words| && after + 1 < |words|
  {
    words[block := words[block] + words[after]][block + 1 := words[after + 1]]
  }

  lemma MergeSized(words: seq<nat>, sizes: map<nat, nat>, first: nat, block: nat)
    requires Tiled(sizes, first, |words|) && Sized(words, sizes) && block in sizes && block + sizes[block] in sizes
    ensures block + sizes[block] + 1 < |words|
    ensures Sized(MergeWords(words, block, block + sizes[block]), MergeSizes(sizes, block))
  {
    var after := block + sizes[block];
    forall p | p in MergeSizes(sizes, block) ensures MergeWords(words, block, after)[p] == MergeSizes(sizes, block)[p] {
      if p != block {
        Apart(sizes, first, |words|, block, p, block + 1, p);
      }
    }
  }

  /** Merging writes only the first two words of the block that stays. */
  lemma MergeLinks(words: seq<nat>, sizes: map<nat, nat>, first: nat, block: nat, p: nat)
    requires Tiled(sizes, first, |words|) && block in sizes && block + sizes[block] in sizes && p in sizes && p != block
    ensures block + sizes[block] + 1 < |words| && p + 1 < |words|
    ensures MergeWords(words, block, block + sizes[block])[p + 1] == words[p + 1]
  {
    Apart(sizes, first, |words|, block, p, block, p + 1);
    Apart(sizes, first, |words|, block, p, block + 1, p + 1);
  }

  /** An allocated block takes in the free block k behind it and takes its place in the list. */
  lemma MergeAfterLayout(h: Heap, sizes: map<nat, nat>, frees: seq<nat>, k: int, block: nat)
    requires Layout(h, sizes, frees, -1) && block in sizes && Between(frees, k, block) && k < |frees|
    requires block + sizes[block] == frees[k]
    ensures frees[k] in sizes && frees[k] + 1 < |h.words|
    ensures Layout(h.(words := MergeWords(h.words, block, frees[k])), MergeSizes(sizes, block), frees[k := block], k)
  {
    var after := frees[k];
    assert after in frees;
    TiledMerge(sizes, h.first, |h.words|, block);
    MergeSized(h.words, sizes, h.first, block);
    ListInsert(frees, k, block);
    ListReplace(frees, k, block);
    var words' := MergeWords(h.words, block, after);
    forall p | p in frees ensures p + 1 < |words'| && words'[p + 1] == h.words[p + 1] {
      MergeLinks(h.words, sizes, h.first, block, p);
    }
    assert LinkAt(h.words, frees, k);
    assert Linked(h.words, h.head, frees, k);
    LinkedFrame(h.words, words', h.head, frees, k);
    LinkedReplace(words', h.head, frees, k, block);
  }

  /** Free block k joins the free block right before it and leaves the list. */
  lemma MergeBeforeLayout(h: Heap, sizes: map<nat, nat>, frees: seq<nat>, k: int)
    requires Layout(h, sizes, frees, k) && LinkAt(h.words, frees, k) && k > 0
    requires frees[k - 1] in sizes && frees[k - 1] + sizes[frees[k - 1]] == frees[k]
    ensures frees[k] in sizes && frees[k] + 1 < |h.words|
    ensures Layout(h.(words := MergeWords(h.words, frees[k - 1], frees[k])), MergeSizes(sizes, frees[k - 1]),
      Remove(frees, k), -1)
  {
    hide Sized, Increasing;
    var before, block := frees[k - 1], frees[k];
    FreeBlock(h, sizes, frees, k, k);
    RemoveLayout(h, sizes, frees, k);
    var h1 := SetLink(h, frees, k, h.words[block + 1]);
    TiledMerge(sizes, h.first, |h.words|, before);
    MergeSized(h.words, sizes, h.first, before);
    ListRemove(sizes, frees, k);
    var words' := MergeWords(h.words, before, block);
    assert words' == h1.words[before := words'[before]];
    forall p | p in Remove(frees, k) ensures p + 1 < |words'| && words'[p + 1] == h1.words[p + 1] {
      if p != before {
        Apart(sizes, h.first, |h.words|, before, p, before, p + 1);
      }
    }
    LinkedFrame(h1.words, words', h.head, Remove(frees, k), -1);
  }

  /** HEAPextend: the new words become one block at the end, last in the list but not yet linked. */
  lemma ExtendLayout(h: Heap, sizes: map<nat, nat>, frees: seq<nat>, words': seq<nat>)
    requires Layout(h, sizes, frees, -1)
    requires |h.words| + CHUNK <= |words'| && h.words <= words'
    requires words'[|h.words|] == |words'| - |h.words| && words'[|h.words| + 1] == 0
    ensures Layout(h.(words := words'), sizes[|h.words| := |words'| - |h.words|], frees + [|h.words|], |frees|)
  {
    var end := |h.words|;
    TiledExtend(sizes, h.first, end, |words'| - end);
    forall p | p in frees ensures p + 1 < |words'| && (p + 1 < end ==> words'[p + 1] == h.words[p + 1]) {
      assert p in sizes;
    }
    LinkedFrame(h.words, words', h.head, frees, |frees|);
    LinkedInsert(words', h.head, frees, |frees|, end);
    assert Insert(frees, |frees|, end) == frees + [end];
    assert Between(frees, |frees|, end) by {
      if |frees| > 0 {
        assert frees[|frees| - 1] in frees;
      }
    }
    ListInsert(frees, |frees|, end);
  }

  // ------------------------------------------------------------------ coalescing

  /** Coalesced, except that entry k - 1 may touch entry k. */
  ghost predicate CoalescedBut(sizes: map<nat, nat>, frees: seq<nat>, k: int) {
    forall p {:trigger Isolated(sizes, frees, p)} :: p in frees && p != Nth(frees, k - 1) ==> Isolated(sizes, frees, p)
  }

  /** A free block that does not touch the next one in the list touches no free block. */
  lemma NextIsNearest(sizes: map<nat, nat>, frees: seq<nat>, first: nat, end: nat, k: int, p: nat)
    requires Tiled(sizes, first, end) && FreeList(sizes, frees) && p in sizes && Between(frees, k, p)
    requires k < |frees| ==> p + sizes[p] != frees[k]
    ensures p + sizes[p] !in frees
  {
    if k < |frees| {
      assert frees[k] in frees && Before(sizes, p, frees[k]);
    }
    forall j | 0 <= j < |frees| ensures frees[j] != p + sizes[p] {
      assert j < k ==> frees[j] <= frees[k - 1];
      assert j > k ==> frees[k] < frees[j];
    }
  }

  lemma CoalescedInsert(sizes: map<nat, nat>, frees: seq<nat>, first: nat, end: nat, k: int, block: nat)
    requires Tiled(sizes, first, end) && FreeList(sizes, frees) && Coalesced(sizes, frees)
    requires block in sizes && Between(frees, k, block) && (k < |frees| ==> block + sizes[block] != frees[k])
    ensures CoalescedBut(sizes, Insert(frees, k, block), k)
  {
    var frees' := Insert(frees, k, block);
    ListInsert(frees, k, block);
    NextIsNearest(sizes, frees, first, end, k, block);
    forall p | p in frees' && p != Nth(frees', k - 1) ensures Isolated(sizes, frees', p) {
      if p != block {
        assert Isolated(sizes, frees, p);
        var j :| 0 <= j < |frees| && frees[j] == p;
        if j < k {
          assert frees[k - 1] in frees;
          assert Before(sizes, p, frees[k - 1]);
        }
      }
    }
  }

  lemma CoalescedMergeAfter(sizes: map<nat, nat>, frees: seq<nat>, first: nat, end: nat, k: int, block: nat)
    requires Tiled(sizes, first, end) && FreeList(sizes, frees) && Coalesced(sizes, frees)
    requires block in sizes && Between(frees, k, block) && k < |frees| && block + sizes[block] == frees[k]
    requires frees[k] in sizes
    ensures CoalescedBut(MergeSizes(sizes, block), frees[k := block], k)
  {
    var frees', sizes' := frees[k := block], MergeSizes(sizes, block);
    assert frees[k] in frees;
    ListInsert(frees, k, block);
    ListReplace(frees, k, block);
    assert Isolated(sizes, frees, frees[k]);
    forall p | p in frees' && p != Nth(frees', k - 1) ensures Isolated(sizes', frees', p) {
      if p != block {
        assert Isolated(sizes, frees, p);
        var j :| 0 <= j < |frees| && frees[j] == p;
        if j < k {
          assert frees[k - 1] in frees;
          assert Before(sizes, p, frees[k - 1]);
        }
      }
    }
  }

  lemma CoalescedMergeBefore(sizes: map<nat, nat>, frees: seq<nat>, k: int)
    requires FreeList(sizes, frees) && CoalescedBut(sizes, frees, k)
    requires 0 < k < |frees| && frees[k - 1] in sizes && frees[k] in sizes
      && frees[k - 1] + sizes[frees[k - 1]] == frees[k]
    ensures Coalesced(MergeSizes(sizes, frees[k - 1]), Remove(frees, k))
  {
    var frees', sizes' := Remove(frees, k), MergeSizes(sizes, frees[k - 1]);
    var before, block := frees[k - 1], frees[k];
    ListRemove(sizes, frees, k);
    assert before != block && block in frees && Isolated(sizes, frees, block);
    hide Increasing, Remove;
    forall p | p in frees' ensures Isolated(sizes', frees', p) {
      if p == before {
        assert p + sizes'[p] == block + sizes[block];
      } else {
        assert p in frees && Isolated(sizes, frees, p);
        assert sizes'[p] == sizes[p];
      }
    }
  }

  lemma CoalescedClose(sizes: map<nat, nat>, frees: seq<nat>, first: nat, end: nat, k: int)
    requires Tiled(sizes, first, end) && FreeList(sizes, frees) && CoalescedBut(sizes, frees, k) && 0 <= k < |frees|
    requires k > 0 ==> frees[k - 1] in sizes && frees[k - 1] + sizes[frees[k - 1]] != frees[k]
    ensures Coalesced(sizes, frees)
  {
    if k > 0 {
      var p := frees[k - 1];
      assert frees[k] in frees && Before(sizes, p, frees[k]);
      forall j | 0 <= j < |frees| ensures frees[j] != p + sizes[p] {
        assert j < k ==> frees[j] <= p;
        assert j > k ==> frees[k] < frees[j];
      }
      assert Isolated(sizes, frees, p);
    }
    forall p | p in frees ensures Isolated(sizes, frees, p) {
    }
  }

  lemma CoalescedSplit(sizes: map<nat, nat>, frees: seq<nat>, block: nat, need: nat, frees': seq<nat>)
    requires Disjoint(sizes) && FreeList(sizes, frees) && Coalesced(sizes, frees)
    requires block in sizes && block in frees && 0 < need < sizes[block] && block + need !in sizes
    requires forall q :: q in frees' <==> (q in frees && q != block) || q == block + need
    ensures Coalesced(SplitSizes(sizes, block, need), frees')
  {
    var sizes' := SplitSizes(sizes, block, need);
    assert Isolated(sizes, frees, block);
    forall p | p in frees' ensures Isolated(sizes', frees', p) {
      if p == block + need {
        assert p + sizes'[p] == block + sizes[block];
      } else {
        assert Isolated(sizes, frees, p);
        assert sizes'[p] == sizes[p];
        assert p < block ==> Before(sizes, p, block);
        assert block < p ==> Before(sizes, block, p);
      }
    }
  }

  // ---------------------------------------------------------------- the allocator

  /** Word i belongs to a free block. */
  ghost predicate InFree(sizes: map<nat, nat>, frees: seq<nat>, i: int) {
    exists q :: q in frees && q in sizes && q <= i < q + sizes[q]
  }

  /** Only words of free blocks differ, and words may have been added at the end. */
  ghost predicate OnlyFreeChanged(words: seq<nat>, sizes: map<nat, nat>, frees: seq<nat>, words': seq<nat>) {
    |words| <= |words'| && forall i :: 0 <= i < |words| && !InFree(sizes, frees, i) ==> words'[i] == words[i]
  }

  ghost function LiveBlocks(sizes: map<nat, nat>, frees: seq<nat>): set<nat> {
    set p | p in sizes && p !in frees
  }

  lemma LiveIsNotFree(sizes: map<nat, nat>, frees: seq<nat>, first: nat, end: nat, p: nat, i: nat)
    requires Tiled(sizes, first, end) && FreeList(sizes, frees) && p in sizes && p !in frees && p <= i < p + sizes[p]
    ensures !InFree(sizes, frees, i)
  {
    forall q | q in frees && q in sizes ensures !(q <= i < q + sizes[q]) {
      if q <= i < q + sizes[q] {
        Apart(sizes, first, end, p, q, i, i);
      }
    }
  }

  /** The size, in words, of the block that serves a request for nbytes. */
  function Need(nbytes: nat): (n: nat)
    ensures n >= CHUNK && 8 * (n - 1) >= nbytes
  {
    var n := (nbytes + 8 + 7) / 8;
    if n < CHUNK then CHUNK else n
  }

  /** A block of n words has a payload of at least nbytes. */
  predicate Holds(n: nat, nbytes: nat) { 8 * (n - 1) >= nbytes }

  /** That is the least size of a block with room for the request. */
  lemma NeedExact(nbytes: nat, n: nat)
    requires n >= CHUNK
    ensures n >= Need(nbytes) <==> Holds(n, nbytes)
  {
  }

  // ------------------------------------------------------------------ counting words

  ghost function SizeOf(sizes: map<nat, nat>, p: nat): nat { if p in sizes then sizes[p] else 0 }

  /** The words in the listed blocks. */
  ghost function Words(sizes: map<nat, nat>, ps: seq<nat>): nat {
    if ps == [] then 0 else Words(sizes, ps[..|ps| - 1]) + SizeOf(sizes, ps[|ps| - 1])
  }

  lemma {:induction false} WordsFrame(sizes: map<nat, nat>, sizes': map<nat, nat>, ps: seq<nat>)
    requires forall p :: p in ps ==> SizeOf(sizes', p) == SizeOf(sizes, p)
    ensures Words(sizes', ps) == Words(sizes, ps)
  {
    if ps != [] {
      WordsFrame(sizes, sizes', ps[..|ps| - 1]);
    }
  }

  lemma {:induction false} WordsConcat(sizes: map<nat, nat>, ps: seq<nat>, qs: seq<nat>)
    ensures Words(sizes, ps + qs) == Words(sizes, ps) + Words(sizes, qs)
  {
    if qs == [] {
      assert ps + qs == ps;
    } else {
      assert (ps + qs)[..|ps + qs| - 1] == ps + qs[..|qs| - 1];
      WordsConcat(sizes, ps, qs[..|qs| - 1]);
    }
  }

  lemma WordsOne(sizes: map<nat, nat>, p: nat)
    ensures Words(sizes, [p]) == SizeOf(sizes, p)
  {
    assert [p][..0] == [];
  }

  lemma WordsRemove(sizes: map<nat, nat>, ps: seq<nat>, k: int)
    requires 0 <= k < |ps|
    ensures Words(sizes, ps) == Words(sizes, Remove(ps, k)) + SizeOf(sizes, ps[k])
  {
    hide Words;
    assert ps == ps[..k] + ([ps[k]] + ps[k + 1..]);
    WordsConcat(sizes, ps[..k], [ps[k]] + ps[k + 1..]);
    WordsConcat(sizes, [ps[k]], ps[k + 1..]);
    WordsConcat(sizes, ps[..k], ps[k + 1..]);
    WordsOne(sizes, ps[k]);
  }

  lemma WordsInsert(sizes: map<nat, nat>, ps: seq<nat>, k: int, p: nat)
    requires 0 <= k <= |ps|
    ensures Words(sizes, Insert(ps, k, p)) == Words(sizes, ps) + SizeOf(sizes, p)
  {
    hide Words;
    var qs := Insert(ps, k, p);
    WordsRemove(sizes, qs, k);
    assert Remove(qs, k) == ps;
  }

  /** One entry of the list is exchanged, and with it the sizes of blocks that are no other entries. */
  lemma WordsReplace(sizes: map<nat, nat>, sizes': map<nat, nat>, ps: seq<nat>, k: int, p: nat)
    requires 0 <= k < |ps| && forall j :: 0 <= j < |ps| && j != k ==> SizeOf(sizes', ps[j]) == SizeOf(sizes, ps[j])
    ensures Words(sizes', ps[k := p]) + SizeOf(sizes, ps[k]) == Words(sizes, ps) + SizeOf(sizes', p)
  {
    hide Words, SizeOf;
    var qs := Remove(ps, k);
    WordsRemove(sizes, ps, k);
    WordsRemove(sizes', ps[k := p], k);
    assert Remove(ps[k := p], k) == qs;
    forall q | q in qs ensures SizeOf(sizes', q) == SizeOf(sizes, q) {
      var j :| 0 <= j < |qs| && qs[j] == q;
      assert qs[j] == if j < k then ps[j] else ps[j + 1];
    }
    WordsFrame(sizes, sizes', qs);
  }

  /** Splitting a free block and taking its first part. */
  lemma SplitCount(sizes: map<nat, nat>, frees: seq<nat>, k: int, need: nat, first: nat, end: nat)
    requires Tiled(sizes, first, end) && FreeList(sizes, frees) && 0 <= k < |frees| && frees[k] in sizes
    requires CHUNK <= need && need + CHUNK <= sizes[frees[k]]
    ensures Words(SplitSizes(sizes, frees[k], need), frees[k := frees[k] + need]) + need == Words(sizes, frees)
  {
    hide Words;
    var block := frees[k];
    forall j | 0 <= j < |frees| && j != k
      ensures SizeOf(SplitSizes(sizes, block, need), frees[j]) == SizeOf(sizes, frees[j])
    {
      assert frees[j] in frees && frees[j] != block;
      if frees[j] == block + need {
        Apart(sizes, first, end, block, frees[j], block + need, frees[j]);
      }
    }
    WordsReplace(sizes, SplitSizes(sizes, block, need), frees, k, block + need);
  }

  /** Uniting a block with the free block behind it, which it replaces in the list. */
  lemma MergeAfterCount(sizes: map<nat, nat>, frees: seq<nat>, k: int, block: nat)
    requires FreeList(sizes, frees) && 0 <= k < |frees| && block in sizes && block !in frees
    requires block + sizes[block] == frees[k] && frees[k] in sizes
    ensures Words(MergeSizes(sizes, block), frees[k := block]) == Words(sizes, frees) + sizes[block]
  {
    hide Words;
    forall j | 0 <= j < |frees| && j != k
      ensures SizeOf(MergeSizes(sizes, block), frees[j]) == SizeOf(sizes, frees[j])
    {
      assert frees[j] in frees && frees[j] != frees[k];
    }
    WordsReplace(sizes, MergeSizes(sizes, block), frees, k, block);
  }

  /** Uniting two free blocks. */
  lemma MergeBeforeCount(sizes: map<nat, nat>, frees: seq<nat>, k: int)
    requires FreeList(sizes, frees) && 0 < k < |frees| && frees[k - 1] in sizes && frees[k] in sizes
    requires frees[k - 1] + sizes[frees[k - 1]] == frees[k]
    ensures Words(MergeSizes(sizes, frees[k - 1]), Remove(frees, k)) == Words(sizes, frees)
  {
    hide Words;
    var block, rest := frees[k - 1], Remove(frees, k);
    WordsRemove(sizes, frees, k);
    forall j | 0 <= j < |rest| && j != k - 1
      ensures SizeOf(MergeSizes(sizes, block), rest[j]) == SizeOf(sizes, rest[j])
    {
      assert rest[j] == if j < k then frees[j] else frees[j + 1];
      assert rest[j] != block && rest[j] != frees[k];
    }
    WordsReplace(sizes, MergeSizes(sizes, block), rest, k - 1, block);
    assert rest[k - 1 := block] == rest;
  }

  /** A new last block in the list. */
  lemma AppendCount(sizes: map<nat, nat>, frees: seq<nat>, block: nat, n: nat)
    requires FreeList(sizes, frees) && block !in sizes
    ensures Words(sizes[block := n], frees + [block]) == Words(sizes, frees) + n
  {
    hide Words;
    WordsFrame(sizes, sizes[block := n], frees);
    WordsConcat(sizes[block := n], frees, [block]);
    WordsOne(sizes[block := n], block);
  }

  class Allocator {
    var words: seq<nat>
    var head: nat
    var first: nat
    ghost var sizes: map<nat, nat>
    ghost var frees: seq<nat>

    ghost function H(): Heap
      reads this
    {
      Heap(words, head, first)
    }

    ghost predicate Valid()
      reads this
    {
      Layout(H(), sizes, frees, -1) && Coalesced(sizes, frees)
    }

    /** The allocated blocks. */
    ghost function Live(): set<nat>
      reads this
    {
      LiveBlocks(sizes, frees)
    }

    /** The words in free blocks. */
    ghost function FreeWords(): nat
      reads this
    {
      Words(sizes, frees)
    }

    /** HEAP_empty, with `private` words between the header and the first block. */
    constructor Empty(size: nat, private: nat)
      requires HEADER + private + CHUNK <= size
      ensures Valid() && |words| == size && first == HEADER + private && Live() == {} && frees == [first]
    {
      var start := HEADER + private;
      words := seq(size, i requires 0 <= i < size => 0)[start := size - start];
      head := start;
      first := start;
      sizes := map[start := size - start];
      frees := [start];
      new;
      assert Abuts(sizes, first, |words|);
      assert LinkAt(words, frees, 0);
      assert Isolated(sizes, frees, first);
    }

    /** The search loop of HEAP_malloc: first fit, with the two predecessors in the list. */
    method FindFit(need: nat) returns (block: nat, trail: nat, ttrail: nat, ghost k: int)
      requires Valid()
      ensures 0 <= k <= |frees| && block == Nth(frees, k) && trail == Nth(frees, k - 1) && ttrail == Nth(frees, k - 2)
      ensures k < |frees| ==> frees[k] in sizes && block != 0 && sizes[block] >= need
      ensures forall j :: 0 <= j < k ==> frees[j] in sizes && sizes[frees[j]] < need
    {
      ttrail, trail, block := 0, 0, head;
      k := 0;
      while block != 0
        invariant 0 <= k <= |frees| && block == Nth(frees, k) && trail == Nth(frees, k - 1)
          && ttrail == Nth(frees, k - 2)
        invariant forall j :: 0 <= j < k ==> frees[j] in sizes && sizes[frees[j]] < need
        decreases |frees| - k
      {
        assert LinkAt(words, frees, k) && frees[k] in frees;
        assert trail == 0 || trail < block;   // the list is ordered: no GDKfatal
        if words[block] >= need {
          return;
        }
        ttrail := trail;
        trail := block;
        block := words[block + 1];
        k := k + 1;
      }
    }

    /** HEAPextend in HEAP_malloc: the heap doubles; the new words form one block at its end. */
    method Extend(need: nat, fill: nat) returns (block: nat, ghost k: int)
      requires Valid() && need >= CHUNK
      modifies this
      ensures Layout(H(), sizes, frees, k) && CoalescedBut(sizes, frees, k) && LinkAt(words, frees, k)
      ensures first == old(first) && frees == old(frees) + [block] && k == |old(frees)|
      ensures block !in old(sizes) && sizes == old(sizes)[block := |words| - block] && |words| - block >= need
      ensures old(words) <= words && |words| == |old(words)| + Added(|old(words)|, need)
      ensures FreeWords() == old(FreeWords()) + |words| - |old(words)|
    {
      hide Tiled, Sized, Linked, FreeList, Coalesced, CoalescedBut, Words;
      ghost var h, sizes0, frees0 := H(), sizes, frees;
      block := |words|;
      var more := if block < need then need else block;
      words := words + seq(more, i requires 0 <= i < more => fill);
      words := words[block := more][block + 1 := 0];
      k := |frees|;
      sizes, frees := sizes[block := more], frees + [block];
      ExtendLayout(h, sizes0, frees0, words);
      GrowCoalesced(h, sizes0, frees0, more);
      TiledExtend(sizes0, first, block, more);
      AppendCount(sizes0, frees0, block, more);
      assert h.words == words[..block];
    }

    /** Join the new last block to a free block that ends where it starts. */
    method GlueLast(block: nat, trail: nat, ghost k: int)
      requires Layout(H(), sizes, frees, k) && CoalescedBut(sizes, frees, k) && LinkAt(words, frees, k)
      requires 0 < k == |frees| - 1 && block == frees[k] && trail == frees[k - 1] && trail in sizes
        && trail + sizes[trail] == block
      modifies this
      ensures Valid() && first == old(first) && frees == old(frees)[..k] && block in old(sizes) && trail in sizes
      ensures sizes == MergeSizes(old(sizes), trail)
      ensures |words| == |old(words)| && forall i :: 0 <= i < |words| && i != trail && i != trail + 1 ==>
        words[i] == old(words)[i]
      ensures FreeWords() == old(FreeWords())
    {
      hide Tiled, Sized, Linked, FreeList, Coalesced, CoalescedBut, Words;
      GlueStep(H(), sizes, frees, k);
      MergeBeforeCount(sizes, frees, k);
      assert Remove(frees, k) == frees[..k];
      words := words[trail := words[trail] + words[block]][trail + 1 := words[block + 1]];
      sizes, frees := MergeSizes(sizes, trail), frees[..k];
    }

    /** HEAP_malloc when nothing fits. */
    method Grow(need: nat, trail: nat, ttrail: nat, fill: nat) returns (block: nat, trail': nat, ghost k: int)
      requires Valid() && need >= CHUNK && trail == Nth(frees, |frees| - 1) && ttrail == Nth(frees, |frees| - 2)
      modifies this
      ensures Layout(H(), sizes, frees, k) && Coalesced(sizes, frees) && LinkAt(words, frees, k)
      ensures first == old(first) && block == frees[k] && trail' == Nth(frees, k - 1) && block in sizes
        && sizes[block] >= need
      ensures OnlyFreeChanged(old(words), old(sizes), old(frees), words) && Live() == old(Live())
      ensures forall p :: p in old(Live()) ==> p in sizes && p in old(sizes) && sizes[p] == old(sizes)[p]
      ensures |words| == |old(words)| + Added(|old(words)|, need)
      ensures FreeWords() == old(FreeWords()) + |words| - |old(words)|
    {
      hide Tiled, Sized, Linked, FreeList, Coalesced, Words, Added, MergeSizes;
      ghost var words0, sizes0, frees0 := words, sizes, frees;
      if |frees| > 0 {
        FreeBlock(H(), sizes, frees, -1, |frees| - 1);
      }
      block, k := Extend(need, fill);
      if k > 0 {
        FreeBlock(H(), sizes, frees, k, k - 1);
      }
      trail' := trail;
      if trail != 0 && trail + words[trail] == block {
        GlueLive(sizes0, frees0, block, |words| - block, trail);
        GlueLast(block, trail, k);
        assert frees == frees0;
        k := k - 1;
        FreeBlock(H(), sizes, frees, -1, k);
        LayoutAnyGap(H(), sizes, frees, k);
        block, trail' := trail, ttrail;
        assert trail in frees0 && InFree(sizes0, frees0, trail) && InFree(sizes0, frees0, trail + 1);
      } else {
        ExtendLive(sizes0, frees0, block, |words| - block);
        CoalescedClose(sizes, frees, first, |words|, k);
      }
    }

    /** The last part of HEAP_malloc: split the block if it is large, and unlink what is used. */
    method Take(block: nat, trail: nat, need: nat, ghost k: int)
      requires Layout(H(), sizes, frees, k) && Coalesced(sizes, frees) && LinkAt(words, frees, k)
      requires block == frees[k] && trail == Nth(frees, k - 1) && block in sizes && CHUNK <= need <= sizes[block]
      modifies this
      ensures Valid() && first == old(first) && Live() == old(Live()) + {block} && block !in old(Live())
      ensures block in sizes && sizes[block] >= need
      ensures OnlyFreeChanged(old(words), old(sizes), old(frees), words)
      ensures forall p :: p in old(Live()) ==> p in sizes && sizes[p] == old(sizes)[p]
      ensures sizes[block] == if old(sizes)[block] >= need + 2 * CHUNK then need else old(sizes)[block]
      ensures |words| == |old(words)| && FreeWords() + sizes[block] == old(FreeWords())
    {
      hide Tiled, Sized, Linked, FreeList, Coalesced, LiveBlocks, OnlyFreeChanged, Words;
      FreeBlock(H(), sizes, frees, k, k);
      if k > 0 {
        FreeBlock(H(), sizes, frees, k, k - 1);
      }
      if words[block] >= need + 2 * CHUNK {
        TakeSplit(H(), sizes, frees, k, need);
        SplitCount(sizes, frees, k, need, first, |words|);
        var rest := block + need;
        words := words[rest := words[block] - need][rest + 1 := words[block + 1]][block + 1 := rest][block := need];
        sizes, frees := SplitSizes(sizes, block, need), frees[k := rest];
      } else {
        TakeWhole(H(), sizes, frees, k);
        WordsRemove(sizes, frees, k);
        frees := Remove(frees, k);
      }
      if trail == 0 {
        head := words[block + 1];
      } else {
        words := words[trail + 1 := words[block + 1]];
      }
    }

    /** A free block has room for nbytes. */
    ghost predicate HasRoom(nbytes: nat)
      reads this
    {
      exists p :: p in frees && p in sizes && Holds(sizes[p], nbytes)
    }

    /**
     HEAP_malloc: the returned position is that of the payload, one word into the block, or 0.
     It fails exactly when no free block has room and the heap cannot be extended, and then nothing
     changes. The payload has room for nbytes and not much more, is part of no block that was live,
     and no word of a live block changes. It is in the first free block that has room, if one has.
     All other free words stay free, and words are added only if no block has room. `fill` is what
     the added memory holds.
     */
    method Malloc(nbytes: nat, extended: bool, fill: nat) returns (mem: nat)
      requires Valid()
      modifies this
      ensures Valid() && first == old(first)
      ensures mem == 0 <==> !extended && !old(HasRoom(nbytes))
      ensures mem == 0 ==> unchanged(this)
      ensures mem != 0 ==> mem - 1 !in old(Live()) && Live() == old(Live()) + {mem - 1}
      ensures mem != 0 ==> mem - 1 in sizes && Holds(sizes[mem - 1], nbytes) && 8 * (sizes[mem - 1] - 1) <= nbytes + 32
      ensures mem != 0 ==> FreeWords() + sizes[mem - 1] == old(FreeWords()) + |words| - |old(words)|
      ensures old(HasRoom(nbytes)) ==> |words| == |old(words)| && mem - 1 in old(frees)
      ensures old(HasRoom(nbytes)) ==> forall p :: p in old(frees) && p < mem - 1 ==> !Holds(old(sizes)[p], nbytes)
      ensures mem != 0 && !old(HasRoom(nbytes)) ==> |words| == |old(words)| + Added(|old(words)|, Need(nbytes))
      ensures KeepsBlocks(old(words), old(sizes), old(Live()), words, sizes)
    {
      hide Tiled, Sized, Linked, FreeList, Coalesced, KeepsBlocks, OnlyFreeChanged, LiveBlocks, LinkAt, Words, Holds,
        Added;
      ghost var h0, sizes0, frees0 := H(), sizes, frees;
      var need := Need(nbytes);
      var block, trail, ttrail;
      ghost var k;
      block, trail, ttrail, k := FindFit(need);
      NoFit(H(), sizes, frees, k, need);
      RoomFound(H(), sizes, frees, k, nbytes);
      if block == 0 {
        if !extended {
          KeptSame(h0, sizes, frees, -1);
          return 0;
        }
        block, trail, k := Grow(need, trail, ttrail, fill);
        Kept(h0.words, sizes0, frees0, first, words, sizes);
      } else {
        FreeBlock(H(), sizes, frees, -1, k);
        LayoutAnyGap(H(), sizes, frees, k);
        KeptSame(h0, sizes, frees, -1);
      }
      ghost var h1, sizes1, frees1 := H(), sizes, frees;
      Take(block, trail, need, k);
      TakenFits(nbytes, sizes[block]);
      mem := block + 1;
      Kept(h1.words, sizes1, frees1, first, words, sizes);
      KeptAgain(h0.words, sizes0, LiveBlocks(sizes0, frees0), h1.words, sizes1, words, sizes);
    }

    /** The search loop of HEAP_free: the free blocks on either side of the block. */
    method FindPlace(block: nat) returns (before: nat, after: nat, ghost k: int)
      requires Valid() && block in sizes && block !in frees
      ensures Between(frees, k, block) && before == Nth(frees, k - 1) && after == Nth(frees, k)
    {
      before, after := 0, head;
      k := 0;
      while after != 0
        invariant 0 <= k <= |frees| && (k > 0 ==> frees[k - 1] < block)
        invariant before == Nth(frees, k - 1) && after == Nth(frees, k)
        decreases |frees| - k
      {
        assert LinkAt(words, frees, k) && frees[k] in frees;
        if after > block {
          break;
        }
        before := after;
        after := words[after + 1];
        k := k + 1;
      }
      assert k < |frees| ==> frees[k] in frees;
    }

    /** HEAP_free: put the block into the list, united with the free block behind it if they touch. */
    method JoinAfter(block: nat, after: nat, ghost k: int)
      requires Valid() && block in Live() && Between(frees, k, block) && after == Nth(frees, k)
      modifies this
      ensures Layout(H(), sizes, frees, k) && CoalescedBut(sizes, frees, k) && LinkAt(words, frees, k)
      ensures first == old(first) && |words| == |old(words)| && frees[k] == block
        && Nth(frees, k - 1) == old(Nth(frees, k - 1))
      ensures Live() == old(Live()) - {block} && KeepsBlocks(old(words), old(sizes), Live(), words, sizes)
      ensures FreeWords() == old(FreeWords()) + old(sizes)[block]
    {
      hide Tiled, Sized, Linked, FreeList, Coalesced, CoalescedBut, KeepsBlocks, Increasing, MergeSizes, Words;
      BlockStart(H(), sizes, frees, block);
      if after != 0 {
        FreeBlock(H(), sizes, frees, -1, k);
        if block + words[block] == after {
          MergeAfterStep(H(), sizes, frees, k, block);
          MergeAfterCount(sizes, frees, k, block);
          words := words[block := words[block] + words[after]][block + 1 := words[after + 1]];
          sizes, frees := MergeSizes(sizes, block), frees[k := block];
          return;
        }
        InsertStep(H(), sizes, frees, k, block);
        words := words[block + 1 := after];
      } else {
        NoNext(H(), sizes, frees, k);
        InsertStep(H(), sizes, frees, k, block);
        words := words[block + 1 := 0];
      }
      WordsInsert(sizes, frees, k, block);
      frees := Insert(frees, k, block);
    }

    /** HEAP_free: unite the block with the free block before it if they touch, else link it. */
    method JoinBefore(block: nat, before: nat, ghost k: int)
      requires Layout(H(), sizes, frees, k) && CoalescedBut(sizes, frees, k) && LinkAt(words, frees, k)
      requires block == frees[k] && before == Nth(frees, k - 1)
      modifies this
      ensures Valid() && first == old(first) && |words| == |old(words)|
      ensures Live() == old(Live()) && KeepsBlocks(old(words), old(sizes), Live(), words, sizes)
      ensures FreeWords() == old(FreeWords())
    {
      hide Tiled, Sized, Linked, FreeList, Coalesced, CoalescedBut, KeepsBlocks, Increasing, Words;
      FreeBlock(H(), sizes, frees, k, k);
      if before != 0 {
        FreeBlock(H(), sizes, frees, k, k - 1);
        if before + words[before] == block {
          MergeBeforeStep(H(), sizes, frees, k);
          MergeBeforeCount(sizes, frees, k);
          words := words[before := words[before] + words[block]][before + 1 := words[block + 1]];
          sizes, frees := MergeSizes(sizes, before), Remove(frees, k);
          return;
        }
        CloseStep(H(), sizes, frees, k);
        words := words[before + 1 := block];
      } else {
        NoPrevious(H(), sizes, frees, k);
        CloseStep(H(), sizes, frees, k);
        head := block;
      }
    }

    /** HEAP_free: the block leaves the live blocks; nothing changes in any other live block. */
    method Free(mem: nat)
      requires Valid() && mem > 0 && mem - 1 in Live()
      modifies this
      ensures Valid() && first == old(first) && |words| == |old(words)|
      ensures Live() == old(Live()) - {mem - 1} && KeepsBlocks(old(words), old(sizes), Live(), words, sizes)
      ensures mem - 1 in old(sizes) && FreeWords() == old(FreeWords()) + old(sizes)[mem - 1]
    {
      hide Layout, Coalesced, CoalescedBut, KeepsBlocks, Between, LinkAt, Words;
      var block := mem - 1;
      var before, after;
      ghost var k;
      before, after, k := FindPlace(block);
      ghost var words0, sizes0 := words, sizes;
      JoinAfter(block, after, k);
      ghost var words1, sizes1 := words, sizes;
      JoinBefore(block, before, k);
      KeptAgain(words0, sizes0, Live(), words1, sizes1, words, sizes);
    }

    /** The owner of a live block writes to its payload: the heap stays valid. */
    method Write(block: nat, i: nat, v: nat)
      requires Valid() && block in Live() && block < i < block + sizes[block]
      modifies this`words
      ensures Valid() && i < |old(words)| && words == old(words)[i := v]
    {
      WriteLayout(H(), sizes, frees, block, i, v);
      words := words[i := v];
    }

    /** First loop of HEAP_check: the positions on the free list. */
    method FreeMask() returns (ok: bool, mask: set<nat>)
      requires Valid()
      ensures ok && mask == set p | p in frees
    {
      mask := {};
      ghost var k := 0;
      var block, prevblock := head, 0;
      while block != 0
        invariant 0 <= k <= |frees| && block == Nth(frees, k) && mask == set p | p in frees[..k]
        decreases |frees| - k
      {
        FreeBlock(H(), sizes, frees, -1, k);
        if block <= prevblock || block > |words| {
          return false, mask;
        }
        mask := mask + {block};
        assert frees[..k + 1] == frees[..k] + [block];
        block := words[block + 1];
        k := k + 1;
      }
      NoNext(H(), sizes, frees, k);
      assert frees[..k] == frees;
      return true, mask;
    }

    /**
     HEAP_check accepts every valid heap, and its `validmask` marks exactly the block starts.
     The two bit masks are sets of positions here.
     */
    method Check() returns (ok: bool, validmask: set<nat>)
      requires Valid()
      ensures ok && validmask == sizes.Keys
    {
      var freemask;
      validmask := {};
      ok, freemask := FreeMask();
      if !ok {
        return false, {};
      }
      var block := first;
      while block < |words|
        invariant block == |words| || block in sizes
        invariant validmask == set p | p in sizes && p < block
        invariant freemask == set p | p in frees && p >= block
        decreases |words| - block
      {
        WalkStep(H(), sizes, frees, block);
        validmask := validmask + {block};
        freemask := freemask - {block};
        block := block + words[block];
      }
      if block != |words| {
        return false, {};
      }
      assert freemask == {};
      block := head;
      ghost var k := 0;
      while block != 0
        invariant 0 <= k <= |frees| && block == Nth(frees, k)
        decreases |frees| - k
      {
        FreeBlock(H(), sizes, frees, -1, k);
        if block in freemask {
          return false, {};
        }
        block := words[block + 1];
        k := k + 1;
      }
    }

    /** HEAP_init, run when a heap is loaded: on a valid heap it changes nothing. */
    method Init()
      requires Valid()
      modifies this
      ensures unchanged(this)
    {
      if |frees| > 0 {
        FreeBlock(H(), sizes, frees, -1, 0);
      }
      if head > |words| {
        assert false;   // would cut off the list: head := 0
      } else if head != 0 {
        var idx := head;
        ghost var k := 0;
        while idx != 0
          invariant unchanged(this)
          invariant 0 <= k <= |frees| && idx == Nth(frees, k)
          decreases |frees| - k
        {
          FreeBlock(H(), sizes, frees, -1, k);
          if idx + words[idx] > |words| {
            assert false;   // would cut off the tail of the block: words[idx] := |words| - idx
          }
          NextInside(H(), sizes, frees, k);
          if words[idx + 1] > |words| || words[idx + 1] < idx + words[idx] {
            words := words[idx + 1 := 0];
            assert words == old(words);
            break;
          }
          idx := words[idx + 1];
          k := k + 1;
        }
      }
    }

    /** HEAP_mmappable: the only hole, if there is one, is at the end. */
    method Mmappable() returns (r: bool)
      requires Valid()
      ensures r <==> exists p :: frees == [p] && p in sizes && p + sizes[p] == |words|
    {
      if head != 0 {
        FreeBlock(H(), sizes, frees, -1, 0);
        r := head + words[head] >= |words|;
        if |frees| > 1 {
          FreeBlock(H(), sizes, frees, -1, 1);
          assert Before(sizes, frees[0], frees[1]);
        } else {
          assert frees == [head];
        }
      } else {
        r := false;
        assert frees == [] by {
          NoNext(H(), sizes, frees, 0);
        }
      }
    }
  }

  lemma WriteLayout(h: Heap, sizes: map<nat, nat>, frees: seq<nat>, block: nat, i: nat, v: nat)
    requires Layout(h, sizes, frees, -1) && block in LiveBlocks(sizes, frees) && block < i < block + sizes[block]
    ensures i < |h.words| && Layout(h.(words := h.words[i := v]), sizes, frees, -1)
  {
    SizedFrame(h.words, sizes, h.first, block, i, v);
    var words' := h.words[i := v];
    forall p | p in frees ensures p + 1 < |words'| && words'[p + 1] == h.words[p + 1] {
      Apart(sizes, h.first, |h.words|, block, p, i, p + 1);
    }
    LinkedFrame(h.words, words', h.head, frees, -1);
  }

  /** Walking from one block to the next skips no block. */
  lemma WalkStep(h: Heap, sizes: map<nat, nat>, frees: seq<nat>, block: nat)
    requires Layout(h, sizes, frees, -1) && block in sizes
    ensures block < |h.words| && h.words[block] == sizes[block] >= CHUNK
    ensures block + sizes[block] == |h.words| || block + sizes[block] in sizes
    ensures forall p :: p in sizes && p >= block ==> p == block || p >= block + sizes[block]
    ensures forall p :: p in frees ==> p in sizes
  {
    assert Abuts(sizes, block, |h.words|);
    forall p | p in sizes && p >= block ensures p == block || p >= block + sizes[block] {
      assert p > block ==> Before(sizes, block, p);
    }
  }

  /** The next free block lies behind the end of this one, or there is none. */
  lemma NextInside(h: Heap, sizes: map<nat, nat>, frees: seq<nat>, k: int)
    requires Layout(h, sizes, frees, -1) && 0 <= k < |frees|
    ensures frees[k] in sizes && frees[k] + 1 < |h.words|
    ensures h.words[frees[k] + 1] == 0 || frees[k] + sizes[frees[k]] <= h.words[frees[k] + 1] <= |h.words|
  {
    FreeBlock(h, sizes, frees, -1, k);
    if k + 1 < |frees| {
      FreeBlock(h, sizes, frees, -1, k + 1);
      assert Before(sizes, frees[k], frees[k + 1]);
    }
  }

  /** Where a block starts there are at least two words, the first of them its size. */
  lemma BlockStart(h: Heap, sizes: map<nat, nat>, frees: seq<nat>, p: nat)
    requires Layout(h, sizes, frees, -1) && p in sizes
    ensures p + 1 < |h.words| && h.words[p] == sizes[p]
  {
  }

  lemma NoNext(h: Heap, sizes: map<nat, nat>, frees: seq<nat>, k: int)
    requires Layout(h, sizes, frees, -1) && 0 <= k <= |frees| && Nth(frees, k) == 0
    ensures k == |frees|
  {
    if k < |frees| {
      FreeBlock(h, sizes, frees, -1, k);
    }
  }

  lemma NoPrevious(h: Heap, sizes: map<nat, nat>, frees: seq<nat>, k: int)
    requires Layout(h, sizes, frees, k) && 0 <= k < |frees| && Nth(frees, k - 1) == 0
    ensures k == 0
  {
    if k > 0 {
      FreeBlock(h, sizes, frees, k, k - 1);
    }
  }

  /** Words written in a block that is free or being freed leave the other live blocks alone. */
  lemma FreeingKeeps(h: Heap, sizes: map<nat, nat>, frees: seq<nat>, gap: int, block: nat, words': seq<nat>,
      sizes': map<nat, nat>)
    requires Layout(h, sizes, frees, gap) && block in sizes && |words'| == |h.words|
    requires forall i :: 0 <= i < |words'| && i != block && i != block + 1 ==> words'[i] == h.words[i]
    requires forall p :: p in LiveBlocks(sizes, frees) - {block} ==> p in sizes' && sizes'[p] == sizes[p]
    ensures KeepsBlocks(h.words, sizes, LiveBlocks(sizes, frees) - {block}, words', sizes')
  {
    forall p | p in LiveBlocks(sizes, frees) - {block}
      ensures p + sizes[p] <= |h.words| && words'[p..p + sizes[p]] == h.words[p..p + sizes[p]]
    {
      assert p < block ==> Before(sizes, p, block);
      assert block < p ==> Before(sizes, block, p);
    }
  }

  lemma MergeAfterStep(h: Heap, sizes: map<nat, nat>, frees: seq<nat>, k: int, block: nat)
    requires Layout(h, sizes, frees, -1) && Coalesced(sizes, frees) && block in LiveBlocks(sizes, frees)
    requires Between(frees, k, block) && k < |frees| && block + sizes[block] == frees[k]
    ensures frees[k] in sizes && frees[k] + 1 < |h.words|
    ensures var words', sizes', frees' := MergeWords(h.words, block, frees[k]), MergeSizes(sizes, block),
      frees[k := block];
      Layout(h.(words := words'), sizes', frees', k) && CoalescedBut(sizes', frees', k) && LinkAt(words', frees', k)
      && LiveBlocks(sizes', frees') == LiveBlocks(sizes, frees) - {block}
      && KeepsBlocks(h.words, sizes, LiveBlocks(sizes, frees) - {block}, words', sizes')
  {
    FreeBlock(h, sizes, frees, -1, k);
    MergeAfterLayout(h, sizes, frees, k, block);
    CoalescedMergeAfter(sizes, frees, h.first, |h.words|, k, block);
    ListInsert(frees, k, block);
    ListReplace(frees, k, block);
    var words', sizes', frees' := MergeWords(h.words, block, frees[k]), MergeSizes(sizes, block), frees[k := block];
    assert LinkAt(words', frees', k);
    assert LiveBlocks(sizes', frees') == LiveBlocks(sizes, frees) - {block};
    FreeingKeeps(h, sizes, frees, -1, block, words', sizes');
  }

  lemma InsertStep(h: Heap, sizes: map<nat, nat>, frees: seq<nat>, k: int, block: nat)
    requires Layout(h, sizes, frees, -1) && Coalesced(sizes, frees) && block in LiveBlocks(sizes, frees)
    requires Between(frees, k, block) && (k < |frees| ==> block + sizes[block] != frees[k])
    ensures block + 1 < |h.words|
    ensures var words', frees' := h.words[block + 1 := Nth(frees, k)], Insert(frees, k, block);
      Layout(h.(words := words'), sizes, frees', k) && CoalescedBut(sizes, frees', k) && LinkAt(words', frees', k)
      && LiveBlocks(sizes, frees') == LiveBlocks(sizes, frees) - {block}
      && KeepsBlocks(h.words, sizes, LiveBlocks(sizes, frees) - {block}, words', sizes)
  {
    InsertLayout(h, sizes, frees, k, block);
    CoalescedInsert(sizes, frees, h.first, |h.words|, k, block);
    ListInsert(frees, k, block);
    var words', frees' := h.words[block + 1 := Nth(frees, k)], Insert(frees, k, block);
    assert LinkAt(words', frees', k);
    assert LiveBlocks(sizes, frees') == LiveBlocks(sizes, frees) - {block};
    FreeingKeeps(h, sizes, frees, -1, block, words', sizes);
  }

  lemma MergeBeforeStep(h: Heap, sizes: map<nat, nat>, frees: seq<nat>, k: int)
    requires Layout(h, sizes, frees, k) && CoalescedBut(sizes, frees, k) && LinkAt(h.words, frees, k) && k > 0
    requires frees[k - 1] in sizes && frees[k - 1] + sizes[frees[k - 1]] == frees[k]
    ensures frees[k] in sizes && frees[k] + 1 < |h.words|
    ensures var words', sizes', frees' := MergeWords(h.words, frees[k - 1], frees[k]),
      MergeSizes(sizes, frees[k - 1]), Remove(frees, k);
      Layout(h.(words := words'), sizes', frees', -1) && Coalesced(sizes', frees')
      && LiveBlocks(sizes', frees') == LiveBlocks(sizes, frees)
      && KeepsBlocks(h.words, sizes, LiveBlocks(sizes, frees), words', sizes')
  {
    FreeBlock(h, sizes, frees, k, k);
    FreeBlock(h, sizes, frees, k, k - 1);
    MergeBeforeLayout(h, sizes, frees, k);
    CoalescedMergeBefore(sizes, frees, k);
    ListRemove(sizes, frees, k);
    var words', sizes' := MergeWords(h.words, frees[k - 1], frees[k]), MergeSizes(sizes, frees[k - 1]);
    assert LiveBlocks(sizes', Remove(frees, k)) == LiveBlocks(sizes, frees);
    assert LiveBlocks(sizes, frees) - {frees[k - 1]} == LiveBlocks(sizes, frees);
    FreeingKeeps(h, sizes, frees, k, frees[k - 1], words', sizes');
  }

  lemma CloseStep(h: Heap, sizes: map<nat, nat>, frees: seq<nat>, k: int)
    requires Layout(h, sizes, frees, k) && CoalescedBut(sizes, frees, k) && 0 <= k < |frees|
    requires k > 0 ==> frees[k - 1] in sizes && frees[k - 1] + sizes[frees[k - 1]] != frees[k]
    ensures k > 0 ==> frees[k - 1] + 1 < |h.words|
    ensures var h' := SetLink(h, frees, k, frees[k]);
      Layout(h', sizes, frees, -1) && Coalesced(sizes, frees)
      && KeepsBlocks(h.words, sizes, LiveBlocks(sizes, frees), h'.words, sizes)
  {
    CloseLayout(h, sizes, frees, k);
    CoalescedClose(sizes, frees, h.first, |h.words|, k);
    if k > 0 {
      FreeBlock(h, sizes, frees, k, k - 1);
      assert LiveBlocks(sizes, frees) - {frees[k - 1]} == LiveBlocks(sizes, frees);
      FreeingKeeps(h, sizes, frees, k, frees[k - 1], SetLink(h, frees, k, frees[k]).words, sizes);
    } else {
      KeptSame(h, sizes, frees, k);
    }
  }

  /** The blocks in `live` still exist, with their sizes and every word they had. */
  ghost predicate KeepsBlocks(words: seq<nat>, sizes: map<nat, nat>, live: set<nat>, words': seq<nat>,
      sizes': map<nat, nat>) {
    forall p :: p in live ==>
      p in sizes && p in sizes' && sizes'[p] == sizes[p] && p + sizes[p] <= |words| && p + sizes[p] <= |words'|
      && words'[p..p + sizes[p]] == words[p..p + sizes[p]]
  }

  /** By how many words HEAP_malloc extends a heap of n words. */
  function Added(n: nat, need: nat): nat { if n < need then need else n }

  lemma TakenFits(nbytes: nat, n: nat)
    requires Need(nbytes) <= n < Need(nbytes) + 2 * CHUNK
    ensures Holds(n, nbytes) && 8 * (n - 1) <= nbytes + 32
  {
  }

  /** The block that first fit finds, in bytes. */
  lemma RoomFound(h: Heap, sizes: map<nat, nat>, frees: seq<nat>, k: int, nbytes: nat)
    requires Layout(h, sizes, frees, -1) && 0 <= k <= |frees|
    requires k < |frees| ==> frees[k] in sizes && sizes[frees[k]] >= Need(nbytes)
    requires forall j :: 0 <= j < k ==> frees[j] in sizes && sizes[frees[j]] < Need(nbytes)
    ensures k < |frees| <==> exists p :: p in frees && p in sizes && Holds(sizes[p], nbytes)
    ensures forall p :: p in frees ==> p in sizes
    ensures k < |frees| ==> frees[k] in frees && forall p :: p in frees && p < frees[k] ==> !Holds(sizes[p], nbytes)
  {
    hide Need, Holds, Tiled, Sized, Linked;
    forall j | 0 <= j < |frees| ensures sizes[frees[j]] >= Need(nbytes) <==> Holds(sizes[frees[j]], nbytes) {
      FreeBlock(h, sizes, frees, -1, j);
      NeedExact(nbytes, sizes[frees[j]]);
    }
    if k < |frees| {
      assert frees[k] in frees && frees[k] in sizes && Holds(sizes[frees[k]], nbytes);
    }
  }

  lemma NoFit(h: Heap, sizes: map<nat, nat>, frees: seq<nat>, k: int, need: nat)
    requires Layout(h, sizes, frees, -1) && 0 <= k <= |frees|
    requires k < |frees| ==> frees[k] in sizes && sizes[frees[k]] >= need
    requires forall j :: 0 <= j < k ==> frees[j] in sizes && sizes[frees[j]] < need
    ensures Nth(frees, k) == 0 <==> k == |frees|
    ensures k == |frees| <==> forall p :: p in frees ==> p in sizes && sizes[p] < need
  {
    if k < |frees| {
      assert frees[k] in frees;
    }
  }

  lemma KeptAgain(words: seq<nat>, sizes: map<nat, nat>, live: set<nat>, words1: seq<nat>, sizes1: map<nat, nat>,
      words2: seq<nat>, sizes2: map<nat, nat>)
    requires KeepsBlocks(words, sizes, live, words1, sizes1) && KeepsBlocks(words1, sizes1, live, words2, sizes2)
    ensures KeepsBlocks(words, sizes, live, words2, sizes2)
  {
  }

  lemma KeptBlock(words: seq<nat>, sizes: map<nat, nat>, frees: seq<nat>, first: nat, words': seq<nat>, p: nat)
    requires Tiled(sizes, first, |words|) && FreeList(sizes, frees) && OnlyFreeChanged(words, sizes, frees, words')
    requires p in sizes && p !in frees
    ensures p + sizes[p] <= |words| && words'[p..p + sizes[p]] == words[p..p + sizes[p]]
  {
    forall i | p <= i < p + sizes[p] ensures words'[i] == words[i] {
      LiveIsNotFree(sizes, frees, first, |words|, p, i);
    }
  }

  lemma Kept(words: seq<nat>, sizes: map<nat, nat>, frees: seq<nat>, first: nat, words': seq<nat>,
      sizes': map<nat, nat>)
    requires Tiled(sizes, first, |words|) && FreeList(sizes, frees) && OnlyFreeChanged(words, sizes, frees, words')
    requires forall p :: p in LiveBlocks(sizes, frees) ==> p in sizes' && sizes'[p] == sizes[p]
    ensures KeepsBlocks(words, sizes, LiveBlocks(sizes, frees), words', sizes')
  {
    forall p | p in LiveBlocks(sizes, frees)
      ensures p + sizes[p] <= |words| && words'[p..p + sizes[p]] == words[p..p + sizes[p]] {
      KeptBlock(words, sizes, frees, first, words', p);
    }
  }

  lemma KeptSame(h: Heap, sizes: map<nat, nat>, frees: seq<nat>, gap: int)
    requires Layout(h, sizes, frees, gap)
    ensures KeepsBlocks(h.words, sizes, LiveBlocks(sizes, frees), h.words, sizes)
  {
  }

  /** Taking a free block whole. */
  lemma TakeWhole(h: Heap, sizes: map<nat, nat>, frees: seq<nat>, k: int)
    requires Layout(h, sizes, frees, k) && Coalesced(sizes, frees) && LinkAt(h.words, frees, k) && frees[k] in sizes
    ensures k > 0 ==> frees[k - 1] + 1 < |h.words|
    ensures var h', frees', live := SetLink(h, frees, k, h.words[frees[k] + 1]), Remove(frees, k),
      LiveBlocks(sizes, frees);
      Layout(h', sizes, frees', -1) && Coalesced(sizes, frees') && OnlyFreeChanged(h.words, sizes, frees, h'.words)
      && frees[k] !in live && LiveBlocks(sizes, frees') == live + {frees[k]}
      && forall p :: p in live ==> p in sizes
  {
    FreeBlock(h, sizes, frees, k, k);
    RemoveStep(h, sizes, frees, k);
    ListRemove(sizes, frees, k);
    if k > 0 {
      FreeBlock(h, sizes, frees, k, k - 1);
      assert InFree(sizes, frees, frees[k - 1] + 1);
    }
  }

  /** Where the rest of a split block goes. */
  lemma SplitRoom(h: Heap, sizes: map<nat, nat>, frees: seq<nat>, k: int, need: nat)
    requires Layout(h, sizes, frees, k) && 0 <= k < |frees|
    requires CHUNK <= need && frees[k] in sizes && need + CHUNK <= sizes[frees[k]]
    ensures Increasing(frees) && frees[k] + need !in sizes
    ensures k + 1 < |frees| ==> frees[k] + need < frees[k + 1]
    ensures forall q :: q in frees[k := frees[k] + need] <==> (q in frees && q != frees[k]) || q == frees[k] + need
  {
    TiledSplit(sizes, h.first, |h.words|, frees[k], need);
    if k + 1 < |frees| {
      FreeBlock(h, sizes, frees, k, k + 1);
      assert Before(sizes, frees[k], frees[k + 1]);
    }
    ListReplace(frees, k, frees[k] + need);
  }

  lemma SplitLive(sizes: map<nat, nat>, frees: seq<nat>, block: nat, need: nat, frees': seq<nat>)
    requires block in sizes && block in frees && 0 < need < sizes[block] && block + need !in sizes
    requires forall q :: q in frees' <==> (q in frees && q != block) || q == block + need
    ensures var sizes', live := SplitSizes(sizes, block, need), LiveBlocks(sizes, frees);
      LiveBlocks(sizes', frees') == live + {block} && block !in live && sizes'[block] == need
      && forall p :: p in live ==> p in sizes' && sizes'[p] == sizes[p]
  {
    var sizes', live := SplitSizes(sizes, block, need), LiveBlocks(sizes, frees);
    forall p ensures p in LiveBlocks(sizes', frees') <==> p in live || p == block {
    }
  }

  lemma SplitOnlyFree(h: Heap, sizes: map<nat, nat>, frees: seq<nat>, k: int, need: nat)
    requires Layout(h, sizes, frees, k) && 0 <= k < |frees|
    requires CHUNK <= need && frees[k] in sizes && need + CHUNK <= sizes[frees[k]]
    ensures var block := frees[k]; block + need + 1 < |h.words| && h.words[block] == sizes[block]
    ensures k > 0 ==> frees[k - 1] + 1 < |h.words|
    ensures var h' := SetLink(h.(words := SplitWords(h.words, frees[k], need)), frees[k := frees[k] + need], k,
      frees[k] + need);
      OnlyFreeChanged(h.words, sizes, frees, h'.words)
  {
    hide Tiled, Sized, Linked, FreeList;
    var block, rest := frees[k], frees[k] + need;
    FreeBlock(h, sizes, frees, k, k);
    if k > 0 {
      FreeBlock(h, sizes, frees, k, k - 1);
      assert InFree(sizes, frees, frees[k - 1] + 1);
    }
    assert InFree(sizes, frees, block) && InFree(sizes, frees, block + 1);
    assert InFree(sizes, frees, rest) && InFree(sizes, frees, rest + 1);
  }

  /** Taking the head of a free block. */
  lemma TakeSplit(h: Heap, sizes: map<nat, nat>, frees: seq<nat>, k: int, need: nat)
    requires Layout(h, sizes, frees, k) && Coalesced(sizes, frees) && LinkAt(h.words, frees, k)
    requires CHUNK <= need && frees[k] in sizes && need + CHUNK <= sizes[frees[k]]
    ensures var block := frees[k]; block + need + 1 < |h.words| && h.words[block] == sizes[block]
    ensures k > 0 ==> frees[k - 1] + 1 < |h.words|
    ensures var sizes', frees', live := SplitSizes(sizes, frees[k], need), frees[k := frees[k] + need],
      LiveBlocks(sizes, frees);
      var h' := SetLink(h.(words := SplitWords(h.words, frees[k], need)), frees', k, frees[k] + need);
      Layout(h', sizes', frees', -1) && Coalesced(sizes', frees') && OnlyFreeChanged(h.words, sizes, frees, h'.words)
      && frees[k] !in live && LiveBlocks(sizes', frees') == live + {frees[k]} && sizes'[frees[k]] == need
      && forall p :: p in live ==> p in sizes' && sizes'[p] == sizes[p]
  {
    hide Tiled, Sized, Linked, FreeList, Coalesced, LiveBlocks, OnlyFreeChanged, SplitWords;
    FreeBlock(h, sizes, frees, k, k);
    SplitRoom(h, sizes, frees, k, need);
    SplitStep(h, sizes, frees, k, need);
    SplitLive(sizes, frees, frees[k], need, frees[k := frees[k] + need]);
    SplitOnlyFree(h, sizes, frees, k, need);
    var h1, sizes', frees' := h.(words := SplitWords(h.words, frees[k], need)), SplitSizes(sizes, frees[k], need),
      frees[k := frees[k] + need];
    CloseLayout(h1, sizes', frees', k);
  }

  lemma SplitStep(h: Heap, sizes: map<nat, nat>, frees: seq<nat>, k: int, need: nat)
    requires Layout(h, sizes, frees, k) && Coalesced(sizes, frees) && LinkAt(h.words, frees, k)
    requires CHUNK <= need && frees[k] in sizes && need + CHUNK <= sizes[frees[k]]
    ensures var block := frees[k];
      block + need + 1 < |h.words| && h.words[block] == sizes[block] &&
      Layout(h.(words := SplitWords(h.words, block, need)), SplitSizes(sizes, block, need), frees[k := block + need],
        k) &&
      Coalesced(SplitSizes(sizes, block, need), frees[k := block + need])
  {
    hide Sized, FreeList, Linked, Coalesced, SplitWords, SplitSizes;
    FreeBlock(h, sizes, frees, k, k);
    SplitRoom(h, sizes, frees, k, need);
    SplitLayout(h, sizes, frees, k, need);
    CoalescedSplit(sizes, frees, frees[k], need, frees[k := frees[k] + need]);
  }

  lemma RemoveStep(h: Heap, sizes: map<nat, nat>, frees: seq<nat>, k: int)
    requires Layout(h, sizes, frees, k) && Coalesced(sizes, frees) && LinkAt(h.words, frees, k)
    ensures k > 0 ==> frees[k - 1] in sizes && frees[k - 1] + 1 < |h.words|
    ensures Layout(SetLink(h, frees, k, h.words[frees[k] + 1]), sizes, Remove(frees, k), -1)
    ensures Coalesced(sizes, Remove(frees, k))
  {
    RemoveLayout(h, sizes, frees, k);
    ListRemove(sizes, frees, k);
    forall p | p in Remove(frees, k) ensures Isolated(sizes, Remove(frees, k), p) {
      assert Isolated(sizes, frees, p);
    }
  }

  lemma GlueStep(h: Heap, sizes: map<nat, nat>, frees: seq<nat>, k: int)
    requires Layout(h, sizes, frees, k) && CoalescedBut(sizes, frees, k) && LinkAt(h.words, frees, k)
      && 0 < k == |frees| - 1
    requires frees[k - 1] in sizes && frees[k - 1] + sizes[frees[k - 1]] == frees[k]
    ensures frees[k] in sizes && frees[k] + 1 < |h.words|
    ensures Layout(h.(words := MergeWords(h.words, frees[k - 1], frees[k])), MergeSizes(sizes, frees[k - 1]),
      frees[..k], -1)
    ensures Coalesced(MergeSizes(sizes, frees[k - 1]), frees[..k])
  {
    assert frees[k] in frees;
    assert Remove(frees, k) == frees[..k];
    MergeBeforeLayout(h, sizes, frees, k);
    CoalescedMergeBefore(sizes, frees, k);
  }

  lemma GlueLive(sizes: map<nat, nat>, frees: seq<nat>, end: nat, n: nat, trail: nat)
    requires end !in sizes && trail in sizes && trail in frees && trail + sizes[trail] == end
    ensures var sizes' := MergeSizes(sizes[end := n], trail);
      LiveBlocks(sizes', frees) == LiveBlocks(sizes, frees) && sizes'[trail] == sizes[trail] + n
      && forall p :: p in LiveBlocks(sizes, frees) ==> sizes'[p] == sizes[p]
  {
  }

  lemma ExtendLive(sizes: map<nat, nat>, frees: seq<nat>, end: nat, n: nat)
    requires end !in sizes
    ensures LiveBlocks(sizes[end := n], frees + [end]) == LiveBlocks(sizes, frees)
  {
    assert end in frees + [end];
  }

  lemma GrowCoalesced(h: Heap, sizes: map<nat, nat>, frees: seq<nat>, n: nat)
    requires Layout(h, sizes, frees, -1) && Coalesced(sizes, frees) && n > 0
    ensures CoalescedBut(sizes[|h.words| := n], frees + [|h.words|], |frees|)
  {
    var end := |h.words|;
    var sizes', frees' := sizes[end := n], frees + [end];
    assert end !in sizes;
    forall p | p in frees' && p != Nth(frees', |frees| - 1) ensures Isolated(sizes', frees', p) {
      if p == end {
        assert forall q :: q in frees' ==> q <= end;
      } else {
        assert Isolated(sizes, frees, p);
        var last := frees[|frees| - 1];
        assert last in frees && Before(sizes, p, last);
      }
    }
  }
}
