/** The loader's heap and page allocator: it hands out bytes from a heap that refills
    itself from the very descriptors it keeps. */
module BootMemory {
  import opened FatFormat
  import opened MemoryDescriptors

  // A piece of memory handed out.
  datatype Block = Block(address: nat, size: nat) {
    predicate Has(a: nat) {
      address <= a < address + size
    }
  }

  ghost predicate ApartBlocks(x: Block, y: Block) {
    forall a: nat :: x.Has(a) ==> !y.Has(a)
  }

  // Memory not handed out yet, up to and including the descriptor kept in reserve.
  function Unused(h: Heap): Block
    requires h.free <= h.limit
  {
    Block(h.free, h.limit + DESCRIPTOR_SIZE - h.free)
  }

  ghost predicate InBounds(ds: seq<Descriptor>, pages: nat) {
    forall i :: 0 <= i < |ds| ==> ds[i].basePage + ds[i].pageCount <= pages
  }

  /** How the heap lies in memory: aligned, the unused part all zero, and no block
      meeting another or the unused part. */
  ghost predicate Laid(h: Heap, memory: seq<Byte>, blocks: seq<Block>) {
    && h.free % BL_GRANULARITY == 0 && h.free <= h.limit && h.limit + DESCRIPTOR_SIZE <= |memory| < 0x4000_0000
    && InBounds(h.ds, |memory| / PAGE_SIZE)
    && Cleared(Unused(h), memory) && AllApart(blocks, Unused(h))
  }

  ghost predicate Cleared(x: Block, memory: seq<Byte>) {
    x.address + x.size <= |memory| && forall a: nat | x.Has(a) :: memory[a] == 0
  }

  ghost predicate AllApart(blocks: seq<Block>, unused: Block) {
    && (forall k :: 0 <= k < |blocks| ==> ApartBlocks(blocks[k], unused))
    && (forall k, l :: 0 <= k < l < |blocks| ==> ApartBlocks(blocks[k], blocks[l]))
  }

  // Byte a lies in a page of the loader's heap.
  ghost predicate HeapByte(ds: seq<Descriptor>, a: nat) {
    Count(ds, Some(LOADER_OSLOADER_HEAP), a / PAGE_SIZE) > 0
  }

  // No page is both free and heap, nor twice either.
  ghost predicate Once(ds: seq<Descriptor>, p: nat) {
    Count(ds, Some(MEMORY_FREE), p) + Count(ds, Some(LOADER_OSLOADER_HEAP), p) <= 1
  }

  ghost predicate AllOnce(ds: seq<Descriptor>) {
    forall p: nat :: Once(ds, p)
  }

  /** Everything handed out, and what is left, lies in pages of the loader's heap. */
  ghost predicate InHeap(h: Heap, blocks: seq<Block>)
    requires h.free <= h.limit
  {
    && AllOnce(h.ds)
    && (forall a: nat | Unused(h).Has(a) :: HeapByte(h.ds, a))
    && (forall k, a: nat | 0 <= k < |blocks| && blocks[k].Has(a) :: HeapByte(h.ds, a))
  }

  lemma RoundedUp(size: nat)
    ensures size <= Rounded(size) < size + BL_GRANULARITY && Rounded(size) % BL_GRANULARITY == 0
  {
  }

  lemma BumpKeeps(h: Heap, memory: seq<Byte>, blocks: seq<Block>, size: nat)
    requires Laid(h, memory, blocks) && size % BL_GRANULARITY == 0 && h.free + size <= h.limit
    ensures var h', blocks' := h.(free := h.free + size), blocks + [Block(h.free, size)];
            && Laid(h', memory, blocks') && (InHeap(h, blocks) ==> InHeap(h', blocks'))
            && Cleared(Block(h.free, size), memory)
  {
    hide Count;
    var h', block := h.(free := h.free + size), Block(h.free, size);
    assert forall a: nat :: Unused(h).Has(a) <==> block.Has(a) || Unused(h').Has(a);
    assert forall a: nat :: !(block.Has(a) && Unused(h').Has(a));
  }

  // The pages of a fresh stretch of heap.
  lemma PagesOf(start: nat, n: nat, a: nat)
    ensures start * PAGE_SIZE <= a < start * PAGE_SIZE + n * PAGE_SIZE <==> InRegion(a / PAGE_SIZE, start, n)
  {
  }

  ghost function Wiped(memory: seq<Byte>, start: nat, n: nat): (r: seq<Byte>)
    requires start + n <= |memory|
    ensures |r| == |memory| && forall a :: 0 <= a < |memory| ==> r[a] == if start <= a < start + n then 0 else memory[a]
  {
    memory[..start] + seq(n, _ => 0) + memory[start + n..]
  }

  // Taking pages of free descriptor i for the heap.
  lemma CarvedFacts(ds: seq<Descriptor>, i: nat, n: nat, pages: nat)
    requires i < |ds| && ds[i].IsFree() && n <= ds[i].pageCount && InBounds(ds, pages) && AllOnce(ds)
    ensures var ds', b := Carved(ds, i, n), ds[i].basePage + ds[i].pageCount - n;
            && InBounds(ds', pages) && b + n <= pages && AllOnce(ds')
            && (forall p: nat | InRegion(p, b, n) ::
                  Count(ds, Some(LOADER_OSLOADER_HEAP), p) == 0 < Count(ds', Some(LOADER_OSLOADER_HEAP), p))
            && (forall p: nat :: Count(ds', Some(LOADER_OSLOADER_HEAP), p) >= Count(ds, Some(LOADER_OSLOADER_HEAP), p))
  {
    hide Count;
    var ds', b := Carved(ds, i, n), ds[i].basePage + ds[i].pageCount - n;
    CarvedRetypes(ds, i, n);
    forall p: nat
      ensures Count(ds', Some(LOADER_OSLOADER_HEAP), p) == Count(ds, Some(LOADER_OSLOADER_HEAP), p)
          + if InRegion(p, b, n) then 1 else 0
      ensures Count(ds', Some(MEMORY_FREE), p) == Count(ds, Some(MEMORY_FREE), p) - if InRegion(p, b, n) then 1 else 0
      ensures Once(ds', p)
    {
      assert Change(b, n, MEMORY_FREE, LOADER_OSLOADER_HEAP, Some(MEMORY_FREE), p)
          == if InRegion(p, b, n) then -1 else 0;
      assert Once(ds, p);
    }
  }

  // The heap once refilled from descriptor i with n pages, `size` bytes handed out.
  function Refilled(h: Heap, i: nat, n: nat, size: nat): Heap
    requires i < |h.ds| && n <= h.ds[i].pageCount && size + DESCRIPTOR_SIZE <= n * PAGE_SIZE
  {
    var start := (h.ds[i].basePage + h.ds[i].pageCount - n) * PAGE_SIZE;
    Heap(start + size, start + n * PAGE_SIZE - DESCRIPTOR_SIZE, Carved(h.ds, i, n))
  }

  function Fresh(h: Heap, i: nat, n: nat): Block
    requires i < |h.ds| && n <= h.ds[i].pageCount
  {
    Block((h.ds[i].basePage + h.ds[i].pageCount - n) * PAGE_SIZE, n * PAGE_SIZE)
  }

  lemma FreshBytes(h: Heap, i: nat, n: nat, pages: nat)
    requires i < |h.ds| && h.ds[i].IsFree() && n <= h.ds[i].pageCount && InBounds(h.ds, pages) && AllOnce(h.ds)
    ensures forall a: nat | Fresh(h, i, n).Has(a) :: !HeapByte(h.ds, a) && HeapByte(Carved(h.ds, i, n), a)
    ensures forall a: nat | HeapByte(h.ds, a) :: HeapByte(Carved(h.ds, i, n), a)
    ensures Fresh(h, i, n).address + n * PAGE_SIZE <= pages * PAGE_SIZE
    ensures InBounds(Carved(h.ds, i, n), pages) && AllOnce(Carved(h.ds, i, n))
  {
    hide Count, Carved, Once, AllOnce, InBounds;
    CarvedFacts(h.ds, i, n, pages);
    var b := h.ds[i].basePage + h.ds[i].pageCount - n;
    forall a: nat | Fresh(h, i, n).Has(a)
      ensures !HeapByte(h.ds, a) && HeapByte(Carved(h.ds, i, n), a)
    {
      PagesOf(b, n, a);
    }
  }

  lemma RefillKeepsTypes(h: Heap, blocks: seq<Block>, size: nat, i: nat, n: nat, pages: nat)
    requires h.free <= h.limit && InHeap(h, blocks) && InBounds(h.ds, pages)
    requires i < |h.ds| && h.ds[i].IsFree() && n <= h.ds[i].pageCount && size + DESCRIPTOR_SIZE <= n * PAGE_SIZE
    ensures var h' := Refilled(h, i, n, size);
            InHeap(h', blocks + [Block(h.limit, DESCRIPTOR_SIZE)] + [Block(Fresh(h, i, n).address, size)])
  {
    hide Count, Carved, Once, AllOnce, HeapByte;
    FreshBytes(h, i, n, pages);
    var h', node, block := Refilled(h, i, n, size), Block(h.limit, DESCRIPTOR_SIZE),
        Block(Fresh(h, i, n).address, size);
    assert forall a: nat | node.Has(a) :: Unused(h).Has(a);
    assert forall a: nat | block.Has(a) || Unused(h').Has(a) :: Fresh(h, i, n).Has(a);
    var blocks' := blocks + [node] + [block];
    forall k, a: nat | 0 <= k < |blocks'| && blocks'[k].Has(a)
      ensures HeapByte(h'.ds, a)
    {
      assert k < |blocks| ==> blocks[k].Has(a);
    }
  }

  lemma RefillKeepsLayout(h: Heap, memory: seq<Byte>, blocks: seq<Block>, size: nat, i: nat, n: nat)
    requires Laid(h, memory, blocks) && InHeap(h, blocks) && size % BL_GRANULARITY == 0
    requires i < |h.ds| && h.ds[i].IsFree() && n <= h.ds[i].pageCount && size + DESCRIPTOR_SIZE < n * PAGE_SIZE
    ensures var h', start := Refilled(h, i, n, size), Fresh(h, i, n).address;
            && start + n * PAGE_SIZE <= |memory| && start % BL_GRANULARITY == 0
            && Laid(h', Wiped(memory, start, n * PAGE_SIZE), blocks + [Block(h.limit, DESCRIPTOR_SIZE)]
                + [Block(start, size)])
  {
    hide Count, Carved, Once, AllOnce, HeapByte, InHeap, InBounds, Cleared, AllApart, Wiped, Block.Has;
    InHeapFacts(h, blocks);
    FreshBytes(h, i, n, |memory| / PAGE_SIZE);
    var start := Fresh(h, i, n).address;
    PageAligned(h.ds[i].basePage + h.ds[i].pageCount - n, size);
    WholePages(|memory|);
    WipedCleared(memory, start, n * PAGE_SIZE, Unused(Refilled(h, i, n, size)));
    RefillApart(h, blocks, size, i, n);
  }

  lemma PageAligned(p: nat, size: nat)
    requires size % BL_GRANULARITY == 0
    ensures p * PAGE_SIZE % BL_GRANULARITY == 0 && (p * PAGE_SIZE + size) % BL_GRANULARITY == 0
  {
    assert p * PAGE_SIZE == p * 512 * BL_GRANULARITY;
  }

  lemma WholePages(n: nat)
    ensures n / PAGE_SIZE * PAGE_SIZE <= n
  {
  }

  lemma InHeapFacts(h: Heap, blocks: seq<Block>)
    requires h.free <= h.limit && InHeap(h, blocks)
    ensures AllOnce(h.ds)
  {
  }

  lemma WipedCleared(memory: seq<Byte>, start: nat, n: nat, x: Block)
    requires start + n <= |memory| && start <= x.address && x.address + x.size <= start + n
    ensures Cleared(x, Wiped(memory, start, n))
  {
  }

  lemma RefillApart(h: Heap, blocks: seq<Block>, size: nat, i: nat, n: nat)
    requires h.free <= h.limit && InHeap(h, blocks) && AllApart(blocks, Unused(h))
    requires i < |h.ds| && n <= h.ds[i].pageCount && size + DESCRIPTOR_SIZE <= n * PAGE_SIZE
    requires forall a: nat | Fresh(h, i, n).Has(a) :: !HeapByte(h.ds, a)
    ensures var h', start := Refilled(h, i, n, size), Fresh(h, i, n).address;
            AllApart(blocks + [Block(h.limit, DESCRIPTOR_SIZE)] + [Block(start, size)], Unused(h'))
  {
    hide Count, Carved, AllOnce, HeapByte;
    var h', node, block := Refilled(h, i, n, size), Block(h.limit, DESCRIPTOR_SIZE),
        Block(Fresh(h, i, n).address, size);
    assert forall a: nat | node.Has(a) :: Unused(h).Has(a);
    assert forall a: nat | block.Has(a) || Unused(h').Has(a) :: Fresh(h, i, n).Has(a);
    assert forall a: nat | block.Has(a) :: !Unused(h').Has(a);
    var blocks' := blocks + [node];
    forall k | 0 <= k < |blocks'|
      ensures ApartBlocks(blocks'[k], Unused(h')) && ApartBlocks(blocks'[k], block)
    {
      forall a: nat | blocks'[k].Has(a)
        ensures HeapByte(h.ds, a)
      {
        assert k < |blocks| ==> blocks[k].Has(a);
      }
    }
    forall k | 0 <= k < |blocks|
      ensures ApartBlocks(blocks[k], node)
    {
      assert ApartBlocks(blocks[k], Unused(h));
    }
  }

  // What was handed out holds the same bytes.
  ghost predicate BytesKept(blocks: seq<Block>, memory: seq<Byte>, memory': seq<Byte>) {
    && |memory'| == |memory|
    && forall k, a: nat | 0 <= k < |blocks| && blocks[k].Has(a) && a < |memory| :: memory'[a] == memory[a]
  }

  lemma BytesKeptTrans(blocks: seq<Block>, blocks': seq<Block>, memory: seq<Byte>, memory1: seq<Byte>,
          memory2: seq<Byte>)
    requires blocks <= blocks' && BytesKept(blocks, memory, memory1) && BytesKept(blocks', memory1, memory2)
    ensures BytesKept(blocks, memory, memory2)
  {
    forall k, a: nat | 0 <= k < |blocks| && blocks[k].Has(a) && a < |memory|
      ensures memory2[a] == memory[a]
    {
      assert blocks'[k] == blocks[k];
    }
  }

  // Pages that were free hold nothing of what was handed out.
  lemma WipeKeeps(h: Heap, memory: seq<Byte>, blocks: seq<Block>, i: nat, n: nat)
    requires h.free <= h.limit && InHeap(h, blocks) && InBounds(h.ds, |memory| / PAGE_SIZE)
    requires i < |h.ds| && h.ds[i].IsFree() && n <= h.ds[i].pageCount
    ensures Fresh(h, i, n).address + n * PAGE_SIZE <= |memory|
    ensures BytesKept(blocks, memory, Wiped(memory, Fresh(h, i, n).address, n * PAGE_SIZE))
  {
    hide Count, Carved, Once, AllOnce, HeapByte, InBounds;
    InHeapFacts(h, blocks);
    FreshBytes(h, i, n, |memory| / PAGE_SIZE);
    WholePages(|memory|);
    forall k, a: nat | 0 <= k < |blocks| && blocks[k].Has(a) && a < |memory|
      ensures Wiped(memory, Fresh(h, i, n).address, n * PAGE_SIZE)[a] == memory[a]
    {
      assert HeapByte(h.ds, a);
      assert !Fresh(h, i, n).Has(a);
    }
  }

  // The descriptors after a refill are within memory.
  lemma CarvedInBounds(ds: seq<Descriptor>, i: nat, n: nat, pages: nat)
    requires i < |ds| && n <= ds[i].pageCount && InBounds(ds, pages)
    ensures InBounds(Carved(ds, i, n), pages)
  {
  }

  lemma SameBytes(blocks: seq<Block>, memory: seq<Byte>)
    ensures BytesKept(blocks, memory, memory)
  {
  }

  // Where the new heap lies.
  lemma RefillBounds(ds: seq<Descriptor>, i: nat, n: nat, size: nat, memory: seq<Byte>)
    requires i < |ds| && n <= ds[i].pageCount && InBounds(ds, |memory| / PAGE_SIZE) && size % BL_GRANULARITY == 0
    ensures var start := (ds[i].basePage + ds[i].pageCount - n) * PAGE_SIZE;
            && start + n * PAGE_SIZE <= (ds[i].basePage + ds[i].pageCount) * PAGE_SIZE <= |memory|
            && start % BL_GRANULARITY == 0 && (start + size) % BL_GRANULARITY == 0
    ensures InBounds(Carved(ds, i, n), |memory| / PAGE_SIZE)
  {
    CarvedInBounds(ds, i, n, |memory| / PAGE_SIZE);
    PageAligned(ds[i].basePage + ds[i].pageCount - n, size);
    WholePages(|memory|);
  }

  lemma HoldsInBounds(ds: seq<Descriptor>, i: nat, b: nat, c: nat, pages: nat)
    requires i < |ds| && ds[i].Holds(b, c) && InBounds(ds, pages)
    ensures b + c <= pages && ds[i].pageCount <= pages
  {
  }

  lemma AppendInBounds(ds: seq<Descriptor>, x: Descriptor, pages: nat)
    requires InBounds(ds, pages) && x.basePage + x.pageCount <= pages
    ensures InBounds(ds + [x], pages)
  {
  }

  // The first heap, described by a descriptor of its own.
  lemma FirstHeap(b: nat, memory: seq<Byte>)
    requires (b + BL_HEAP_PAGES) * PAGE_SIZE <= |memory| < 0x4000_0000
    requires forall a :: b * PAGE_SIZE <= a < (b + BL_HEAP_PAGES) * PAGE_SIZE ==> memory[a] == 0
    ensures var h := Heap(b * PAGE_SIZE, (b + BL_HEAP_PAGES) * PAGE_SIZE - DESCRIPTOR_SIZE,
                          [Descriptor(LOADER_OSLOADER_HEAP, b, BL_HEAP_PAGES)]);
            Laid(h, memory, []) && InHeap(h, [])
  {
    hide Count;
    var x := Descriptor(LOADER_OSLOADER_HEAP, b, BL_HEAP_PAGES);
    forall p: nat
      ensures Once([x], p) && Count([x], Some(LOADER_OSLOADER_HEAP), p) == One(x, Some(LOADER_OSLOADER_HEAP), p)
    {
      assert [] + [x] == [x];
      CountAppend([], x, Some(MEMORY_FREE), p);
      CountAppend([], x, Some(LOADER_OSLOADER_HEAP), p);
      CountNone(Some(MEMORY_FREE), p);
      CountNone(Some(LOADER_OSLOADER_HEAP), p);
    }
    forall a: nat | b * PAGE_SIZE <= a < (b + BL_HEAP_PAGES) * PAGE_SIZE
      ensures HeapByte([x], a)
    {
      PagesOf(b, BL_HEAP_PAGES, a);
    }
  }

  lemma CountNone(t: Option<nat>, p: nat)
    ensures Count([], t, p) == 0
  {
  }

  lemma {:induction false} CountPrepend(x: Descriptor, ds: seq<Descriptor>, t: Option<nat>, p: nat)
    ensures Count([x] + ds, t, p) == One(x, t, p) + Count(ds, t, p)
    decreases |ds|
  {
    hide One;
    if ds == [] {
      assert [x] + [] == [] + [x];
      CountAppend([], x, t, p);
    } else {
      var last := |ds| - 1;
      assert [x] + ds == [x] + ds[..last] + [ds[last]] && ds == ds[..last] + [ds[last]];
      CountAppend([x] + ds[..last], ds[last], t, p);
      CountAppend(ds[..last], ds[last], t, p);
      CountPrepend(x, ds[..last], t, p);
    }
  }

  lemma HeapByteAppend(ds: seq<Descriptor>, x: Descriptor, a: nat)
    requires HeapByte(ds, a)
    ensures HeapByte(ds + [x], a)
  {
    CountAppend(ds, x, Some(LOADER_OSLOADER_HEAP), a / PAGE_SIZE);
  }

  lemma SameOnce(ds: seq<Descriptor>, ds': seq<Descriptor>)
    requires forall p: nat, t: Option<nat> :: Count(ds', t, p) == Count(ds, t, p)
    ensures AllOnce(ds) ==> AllOnce(ds')
    ensures forall a: nat :: HeapByte(ds, a) ==> HeapByte(ds', a)
  {
    hide Count;
    forall p: nat
      ensures Once(ds, p) ==> Once(ds', p)
    {
    }
  }

  // Descriptors before those of the list make no difference to taking pages from one.
  lemma CarvedAfter(before: seq<Descriptor>, ds: seq<Descriptor>, k: nat, n: nat)
    requires k < |ds| && n <= ds[k].pageCount
    ensures (before + ds)[|before| + k] == ds[k]
    ensures Carved(before + ds, |before| + k, n) == before + Carved(ds, k, n)
    ensures before == [] ==> before + Carved(ds, k, n) == Carved(ds, k, n) && before + ds == ds
  {
  }

  // The heap with descriptors that are still to come on its list.
  ghost function WithPending(h: Heap, pending: seq<Descriptor>): Heap {
    if pending == [] then h else h.(ds := pending + h.ds)
  }

  // What a refill from free descriptor k keeps.
  lemma RefillKeeps(h: Heap, pending: seq<Descriptor>, memory: seq<Byte>, blocks: seq<Block>, size: nat, k: nat, n: nat)
    requires Laid(WithPending(h, pending), memory, blocks) && InHeap(WithPending(h, pending), blocks)
    requires size % BL_GRANULARITY == 0
    requires k < |h.ds| && h.ds[k].IsFree() && n <= h.ds[k].pageCount && size + DESCRIPTOR_SIZE < n * PAGE_SIZE
    ensures var h', start := Refilled(h, k, n, size), Fresh(h, k, n).address;
            var blocks' := blocks + [Block(h.limit, DESCRIPTOR_SIZE)] + [Block(start, size)];
            && start + n * PAGE_SIZE <= |memory| && start % BL_GRANULARITY == 0
            && Laid(WithPending(h', pending), Wiped(memory, start, n * PAGE_SIZE), blocks')
            && InHeap(WithPending(h', pending), blocks')
            && Cleared(Block(start, size), Wiped(memory, start, n * PAGE_SIZE))
            && BytesKept(blocks, memory, Wiped(memory, start, n * PAGE_SIZE))
  {
    hide InHeap, Carved, Wiped, Cleared, AllApart, InBounds, BytesKept;
    var whole, place, start := WithPending(h, pending), |pending| + k, Fresh(h, k, n).address;
    CarvedAfter(pending, h.ds, k, n);
    BoundsOf(whole, memory, blocks);
    RefillKeepsTypes(whole, blocks, size, place, n, |memory| / PAGE_SIZE);
    RefillKeepsLayout(whole, memory, blocks, size, place, n);
    WipedCleared(memory, start, n * PAGE_SIZE, Block(start, size));
    WipeKeeps(whole, memory, blocks, place, n);
  }

  lemma BoundsOf(h: Heap, memory: seq<Byte>, blocks: seq<Block>)
    requires Laid(h, memory, blocks)
    ensures InBounds(h.ds, |memory| / PAGE_SIZE)
  {
  }

  lemma AllocateTiles(h: Heap, size: nat)
    ensures Tiled(h.ds) && Allocate(h, size).Some? ==> Tiled(Allocate(h, size).value.1.ds)
  {
    hide Count, Allocate;
    AllocateKeepsPages(h, size);
    if Allocate(h, size).Some? {
      SameTiled(h.ds, Allocate(h, size).value.1.ds);
    }
  }

  // The heap allocator's refill case, in one step.
  lemma AllocateRefills(h: Heap, size: nat)
    requires h.free + size > h.limit
    ensures NewHeapPages(size) > 0 && size + DESCRIPTOR_SIZE < NewHeapPages(size) * PAGE_SIZE
    ensures match FirstFit(h.ds, NewHeapPages(size))
            case None => Allocate(h, size) == None
            case Some(i) => Allocate(h, size) == Some((Fresh(h, i, NewHeapPages(size)).address,
                Refilled(h, i, NewHeapPages(size), size)))
  {
    hide Carved;
    RefillSuffices(size, 0);
  }

  // A type that pages can be allocated as: neither free nor the loader's heap.
  predicate Allocatable(t: nat) {
    t != MEMORY_FREE && t != LOADER_OSLOADER_HEAP
  }

  // A change of type that callers ask for: the heap's own pages are left alone, and
  // either the old type or the new one is not free.
  predicate Givable(from: nat, to: nat) {
    from != LOADER_OSLOADER_HEAP && to != LOADER_OSLOADER_HEAP && (from != MEMORY_FREE || to != MEMORY_FREE)
  }

  lemma {:induction false} TypesWithin(ds: seq<Descriptor>, t: nat, u: nat, p: nat)
    requires t != u
    ensures Count(ds, Some(t), p) + Count(ds, Some(u), p) <= Count(ds, None, p)
    decreases |ds|
  {
    if ds != [] {
      TypesWithin(ds[..|ds| - 1], t, u, p);
    }
  }

  lemma TiledOnce(ds: seq<Descriptor>)
    requires Tiled(ds)
    ensures AllOnce(ds)
  {
    hide Count;
    forall p: nat
      ensures Once(ds, p)
    {
      TypesWithin(ds, MEMORY_FREE, LOADER_OSLOADER_HEAP, p);
      assert Count(ds, None, p) <= 1;
    }
  }

  // A used page is neither free nor heap.
  lemma UsedPage(ds: seq<Descriptor>, i: nat, p: nat)
    requires Tiled(ds) && i < |ds| && Allocatable(ds[i].memoryType) && ds[i].Has(p)
    ensures Count(ds, Some(MEMORY_FREE), p) == Count(ds, Some(LOADER_OSLOADER_HEAP), p) == 0
  {
    var t := ds[i].memoryType;
    CountUpdate(ds, i, ds[i], Some(t), p);
    TypesWithin(ds, t, MEMORY_FREE, p);
    TypesWithin(ds, t, LOADER_OSLOADER_HEAP, p);
    assert Count(ds, None, p) <= 1;
  }

  // A descriptor of a region about to change type makes no difference to the heap.
  lemma AppendKeeps(h: Heap, i: nat, x: Descriptor, memory: seq<Byte>, blocks: seq<Block>)
    requires Laid(h, memory, blocks) && InHeap(h, blocks) && Tiled(h.ds)
    requires i < |h.ds| && Givable(h.ds[i].memoryType, x.memoryType) && x.basePage + x.pageCount <= |memory| / PAGE_SIZE
    requires x.memoryType == MEMORY_FREE ==> h.ds[i].Holds(x.basePage, x.pageCount)
    ensures var h' := h.(ds := h.ds + [x]); Laid(h', memory, blocks) && InHeap(h', blocks)
  {
    hide Count;
    forall p: nat
      ensures Once(h.ds + [x], p)
    {
      assert Once(h.ds, p);
      CountAppend(h.ds, x, Some(MEMORY_FREE), p);
      CountAppend(h.ds, x, Some(LOADER_OSLOADER_HEAP), p);
      if x.memoryType == MEMORY_FREE && x.Has(p) {
        UsedPage(h.ds, i, p);
      }
    }
    forall a: nat | HeapByte(h.ds, a)
      ensures HeapByte(h.ds + [x], a)
    {
      CountAppend(h.ds, x, Some(LOADER_OSLOADER_HEAP), a / PAGE_SIZE);
    }
  }

  // Rewriting a descriptor and adding others, none of them heap, leaves heap pages alone.
  lemma RewriteKeepsHeap(ds: seq<Descriptor>, i: nat, kept: Descriptor, more: seq<Descriptor>, a: nat)
    requires i < |ds| && |more| <= 1 && HeapByte(ds, a)
    requires ds[i].memoryType != LOADER_OSLOADER_HEAP
    ensures HeapByte((ds + more)[i := kept], a)
  {
    hide Count;
    var t, p := Some(LOADER_OSLOADER_HEAP), a / PAGE_SIZE;
    if |more| == 1 {
      assert more == [more[0]];
      CountAppend(ds, more[0], t, p);
    } else {
      assert ds + more == ds;
    }
    CountUpdate(ds + more, i, kept, t, p);
  }

  // The end of a sound change: no page is lost or described twice, and every heap page
  // stays one.
  lemma GenerateKeeps(h: Heap, i: nat, t: nat, b: nat, c: nat, mid: Heap, kept: Descriptor, more: seq<Descriptor>,
          memory: seq<Byte>, blocks: seq<Block>)
    requires i < |h.ds| && h.ds[i].Holds(b, c) && h.free <= h.limit && Sound(h, i, t, b, c) && Tiled(h.ds)
    requires h.ds[i].pageCount < 0x8000_0000
    requires Laid(mid, memory, blocks) && InHeap(mid, blocks)
    requires i < |mid.ds| && mid.ds[i].memoryType != LOADER_OSLOADER_HEAP && |more| <= 1
    requires Generate(h, i, t, b, c) == (SUCCESS, mid.(ds := (mid.ds + more)[i := kept]))
    requires InBounds((mid.ds + more)[i := kept], |memory| / PAGE_SIZE)
    ensures var h' := mid.(ds := (mid.ds + more)[i := kept]);
            Laid(h', memory, blocks) && InHeap(h', blocks) && Tiled(h'.ds)
  {
    hide Count, Generate, Sound, HeapByte, Effect, RefillFrom;
    var h' := mid.(ds := (mid.ds + more)[i := kept]);
    GenerateTiles(h, i, t, b, c);
    TiledOnce(h'.ds);
    forall a: nat | HeapByte(mid.ds, a)
      ensures HeapByte(h'.ds, a)
    {
      RewriteKeepsHeap(mid.ds, i, kept, more, a);
    }
    assert Unused(h') == Unused(mid);
  }

  lemma FailureIsClean(h: Heap, i: nat, t: nat, b: nat, c: nat)
    requires i < |h.ds| && h.ds[i].Holds(b, c) && h.ds[i].pageCount < 0x8000_0000 && h.free <= h.limit
    ensures Sound(h, i, t, b, c) && Generate(h, i, t, b, c).0 == NO_MEMORY ==> Generate(h, i, t, b, c).1.ds == h.ds
  {
    hide Generate, Sound, Effect, Count;
    if Sound(h, i, t, b, c) {
      GenerateGivesRegion(h, i, t, b, c, None, 0);
    }
  }

  lemma GenerateTiles(h: Heap, i: nat, t: nat, b: nat, c: nat)
    requires i < |h.ds| && h.ds[i].Holds(b, c) && h.free <= h.limit && Sound(h, i, t, b, c) && Tiled(h.ds)
    requires h.ds[i].pageCount < 0x8000_0000
    ensures Tiled(Generate(h, i, t, b, c).1.ds)
  {
    hide Count, Generate, Sound, RefillFrom, HeapGain;
    forall p: nat
      ensures Count(Generate(h, i, t, b, c).1.ds, None, p) <= 1
    {
      GenerateGivesRegion(h, i, t, b, c, None, p);
      assert Count(h.ds, None, p) <= 1;
    }
  }

  // From h to h', the pages of used descriptor k from b on became free, and pages that a
  // refill took became heap.
  ghost predicate Released(h: Heap, k: nat, b: nat, h': Heap, u: Option<nat>, p: nat)
    requires k < |h.ds| && h.ds[k].Has(b)
  {
    var d := h.ds[k];
    var c := d.basePage + d.pageCount - b;
    Count(h'.ds, u, p) == Count(h.ds, u, p) + Change(b, c, d.memoryType, MEMORY_FREE, u, p)
      + if h.free + NodesNeeded(d, b, c) * NODE > h.limit && FirstFit(h.ds, BL_HEAP_PAGES).Some?
        then Change(HeapGain(h.ds, FirstFit(h.ds, BL_HEAP_PAGES).value), BL_HEAP_PAGES, MEMORY_FREE,
            LOADER_OSLOADER_HEAP, u, p)
        else 0
  }

  class BootMemory {
    var heapFree: nat
    var heapLimit: nat
    var descriptors: seq<Descriptor>
    var memory: seq<Byte>
    ghost var blocks: seq<Block>
    ghost var pending: seq<Descriptor>  // heap pages in use whose descriptors are still to come

    // A heap of BL_HEAP_PAGES pages from page b on, and no descriptors yet.
    constructor (b: nat, memory: seq<Byte>)
      requires (b + BL_HEAP_PAGES) * PAGE_SIZE <= |memory| < 0x4000_0000
      ensures Working() && descriptors == [] && blocks == []
      ensures pending == [Descriptor(LOADER_OSLOADER_HEAP, b, BL_HEAP_PAGES)]
      ensures heapFree == b * PAGE_SIZE && heapLimit == (b + BL_HEAP_PAGES) * PAGE_SIZE - DESCRIPTOR_SIZE
      ensures this.memory == Wiped(memory, b * PAGE_SIZE, BL_HEAP_PAGES * PAGE_SIZE)
    {
      heapFree := b * PAGE_SIZE;
      heapLimit := (b + BL_HEAP_PAGES) * PAGE_SIZE - DESCRIPTOR_SIZE;
      descriptors, blocks := [], [];
      pending := [Descriptor(LOADER_OSLOADER_HEAP, b, BL_HEAP_PAGES)];
      this.memory := memory[..b * PAGE_SIZE] + seq(BL_HEAP_PAGES * PAGE_SIZE, _ => 0 as Byte)
          + memory[(b + BL_HEAP_PAGES) * PAGE_SIZE..];
      new;
      FirstHeap(b, this.memory);
      assert pending + [] == pending;
    }

    function State(): Heap
      reads this
    {
      Heap(heapFree, heapLimit, descriptors)
    }

    // The heap with all its pages described.
    ghost function Whole(): Heap
      reads this
    {
      WithPending(State(), pending)
    }

    // What holds also while a region is described twice, by its old and its new type, and
    // while the list is still being made.
    ghost predicate Working()
      reads this
    {
      && Laid(Whole(), memory, blocks) && InHeap(Whole(), blocks)
      && forall k :: 0 <= k < |pending| ==> !pending[k].IsFree()
    }

    // What the allocator needs: a heap and descriptors within memory.
    ghost predicate Bounded()
      reads this
    {
      && heapFree % BL_GRANULARITY == 0 && heapFree <= heapLimit
      && heapLimit + DESCRIPTOR_SIZE <= |memory| < 0x4000_0000 && InBounds(descriptors, |memory| / PAGE_SIZE)
    }

    /** The heap in its pages, and no page described twice. */
    ghost predicate Valid()
      reads this
    {
      Working() && pending == [] && Tiled(descriptors)
    }

    lemma LaidFacts()
      requires Working()
      ensures heapFree % BL_GRANULARITY == 0 && heapFree <= heapLimit
          && heapLimit + DESCRIPTOR_SIZE <= |memory| < 0x4000_0000
      ensures forall k :: 0 <= k < |descriptors| ==>
          (descriptors[k].basePage + descriptors[k].pageCount) * PAGE_SIZE <= |memory|
      ensures InBounds(descriptors, |memory| / PAGE_SIZE) && Laid(State(), memory, blocks) && Bounded()
    {
      var ds := Whole().ds;
      forall k | 0 <= k < |descriptors|
        ensures (descriptors[k].basePage + descriptors[k].pageCount) * PAGE_SIZE <= |memory|
        ensures descriptors[k].basePage + descriptors[k].pageCount <= |memory| / PAGE_SIZE
      {
        assert ds[|pending| + k] == descriptors[k];
      }
    }

    /** A block of at least `size` bytes: aligned, zero, apart from every block handed
        out before and from the descriptor in reserve, and in heap pages. When the heap
        is used up it is refilled from a free descriptor, the reserved descriptor going
        into use to describe the new pages. No block loses a byte. */
    method AllocateHeap(size: nat) returns (block: Option<nat>)
      requires Bounded() && size < 0x4000_0000
      modifies this
      ensures Bounded() && |memory| == old(|memory|) && pending == old(pending) && old(blocks) <= blocks
      ensures old(Working()) ==> Working() && BytesKept(old(blocks), old(memory), memory)
      ensures old(Valid()) ==> Valid()
      ensures match Allocate(old(State()), Rounded(size))
              case None => block.None? && State() == old(State()) && memory == old(memory) && blocks == old(blocks)
              case Some((address, h)) =>
                && block == Some(address) && State() == h && address % BL_GRANULARITY == 0
                && blocks == old(blocks) + (if old(heapFree) + Rounded(size) > old(heapLimit)
                    then [Block(old(heapLimit), DESCRIPTOR_SIZE)] else [])
                             + [Block(address, Rounded(size))]
                && (old(Working()) ==> Cleared(Block(address, Rounded(size)), memory))
                && (old(heapFree) + Rounded(size) <= old(heapLimit) ==> memory == old(memory))
    {
      hide Count, Once, HeapByte, FirstFit, Carved, InHeap, Laid, InBounds;
      RoundedUp(size);
      var rounded := Rounded(size);
      var address := heapFree;
      if heapFree + rounded <= heapLimit {
        if Working() {
          BumpKeeps(Whole(), memory, blocks, rounded);
        }
        heapFree := heapFree + rounded;
        blocks := blocks + [Block(address, rounded)];
        assert old(blocks) + [] == old(blocks);
        return Some(address);
      }
      block := RefillAndAllocate(rounded);
    }

    // The heap is used up: refill it, if pages can be found, and allocate from that.
    method RefillAndAllocate(rounded: nat) returns (block: Option<nat>)
      requires Bounded() && rounded % BL_GRANULARITY == 0 && heapFree + rounded > heapLimit
      modifies this
      ensures Bounded() && |memory| == old(|memory|) && pending == old(pending)
      ensures old(Working()) ==> Working() && BytesKept(old(blocks), old(memory), memory)
      ensures old(Valid()) ==> Valid()
      ensures match Allocate(old(State()), rounded)
              case None => block.None? && State() == old(State()) && memory == old(memory) && blocks == old(blocks)
              case Some((address, h)) =>
                && block == Some(address) && State() == h && address % BL_GRANULARITY == 0
                && blocks == old(blocks) + [Block(old(heapLimit), DESCRIPTOR_SIZE)] + [Block(address, rounded)]
                && (old(Working()) ==> Cleared(Block(address, rounded), memory))
    {
      hide Count, FirstFit, Carved, InHeap, Laid, InBounds, Allocate, Wiped, Cleared, Tiled, WithPending, BytesKept;
      AllocateRefills(State(), rounded);
      AllocateTiles(State(), rounded);
      SameBytes(blocks, memory);
      var node := heapLimit;
      var newHeapPages := (rounded + DESCRIPTOR_SIZE) / PAGE_SIZE + 1;
      if newHeapPages < BL_HEAP_PAGES {
        newHeapPages := BL_HEAP_PAGES;
      }
      assert newHeapPages == NewHeapPages(rounded);
      var k := FindFree(newHeapPages);
      if k == |descriptors| {
        return None;
      }
      if Working() {
        RefillKeeps(State(), pending, memory, blocks, rounded, k, newHeapPages);
      }
      RefillBounds(descriptors, k, newHeapPages, rounded, memory);
      Refill(k, newHeapPages);
      var address := heapFree;
      if heapFree + rounded < heapLimit {
        heapFree := heapFree + rounded;
        blocks := blocks + [Block(node, DESCRIPTOR_SIZE)] + [Block(address, rounded)];
        return Some(address);
      } else {
        assert false;
      }
    }

    // Turn the last n pages of free descriptor k into the heap, zeroed.
    method Refill(k: nat, n: nat)
      requires k < |descriptors| && n <= descriptors[k].pageCount && n > 0
      requires (descriptors[k].basePage + descriptors[k].pageCount) * PAGE_SIZE <= |memory|
      modifies this`heapFree, this`heapLimit, this`descriptors, this`memory
      ensures var start := (old(descriptors)[k].basePage + old(descriptors)[k].pageCount - n) * PAGE_SIZE;
              && descriptors == Carved(old(descriptors), k, n)
              && heapFree == start && heapLimit == start + n * PAGE_SIZE - DESCRIPTOR_SIZE
              && memory == Wiped(old(memory), start, n * PAGE_SIZE)
    {
      descriptors := descriptors[k := descriptors[k].(pageCount := descriptors[k].pageCount - n)];
      var basePage := descriptors[k].basePage + descriptors[k].pageCount;
      descriptors := descriptors + [Descriptor(LOADER_OSLOADER_HEAP, basePage, n)];
      heapFree := basePage * PAGE_SIZE;
      heapLimit := heapFree + n * PAGE_SIZE - DESCRIPTOR_SIZE;
      memory := memory[..heapFree] + seq(n * PAGE_SIZE, _ => 0 as Byte) + memory[heapFree + n * PAGE_SIZE..];
    }

    // Put a descriptor at the end of the list.
    method InsertTail(x: Descriptor)
      requires Working() && x.basePage + x.pageCount <= |memory| / PAGE_SIZE
      requires AllOnce(pending + (descriptors + [x]))
      modifies this`descriptors
      ensures Working() && descriptors == old(descriptors) + [x]
    {
      hide Count, HeapByte, AllOnce;
      ghost var ds := Whole().ds;
      assert pending + (descriptors + [x]) == ds + [x];
      forall a: nat | HeapByte(ds, a)
        ensures HeapByte(ds + [x], a)
      {
        HeapByteAppend(ds, x, a);
      }
      descriptors := descriptors + [x];
    }

    // The heap pages that were missing go on the list.
    method InsertPending(x: Descriptor)
      requires Working() && pending == [x]
      modifies this`descriptors, this`pending
      ensures Working() && descriptors == old(descriptors) + [x] && pending == []
    {
      hide Count, HeapByte, Once;
      ghost var ds := descriptors;
      forall p: nat, t: Option<nat>
        ensures Count(ds + [x], t, p) == Count([x] + ds, t, p)
      {
        CountAppend(ds, x, t, p);
        CountPrepend(x, ds, t, p);
      }
      SameOnce([x] + ds, ds + [x]);
      assert forall k :: 0 <= k < |ds| ==> ([x] + ds)[k + 1] == (ds + [x])[k];
      assert ([x] + ds)[0] == (ds + [x])[|ds|];
      descriptors, pending := descriptors + [x], [];
    }

    // The place on the list of the first free descriptor of at least n pages.
    method FindFree(n: nat) returns (k: nat)
      ensures k <= |descriptors|
      ensures FirstFit(descriptors, n) == if k < |descriptors| then Some(k) else None
    {
      k := 0;
      while k < |descriptors| && !(descriptors[k].IsFree() && descriptors[k].pageCount >= n)
        invariant k <= |descriptors|
        invariant forall j :: 0 <= j < k ==> !(descriptors[j].IsFree() && descriptors[j].pageCount >= n)
      {
        k := k + 1;
      }
    }

    // What callers do with memory they were handed: write to it, and to nothing else.
    method Store(k: nat, address: nat, bytes: seq<Byte>)
      requires Valid() && k < |blocks|
      requires blocks[k].address <= address && address + |bytes| <= blocks[k].address + blocks[k].size <= |memory|
      modifies this`memory
      ensures Valid() && |memory| == old(|memory|)
      ensures forall a: nat | a < |memory| ::
                memory[a] == if address <= a < address + |bytes| then bytes[a - address] else old(memory)[a]
    {
      hide Count, Once, HeapByte;
      memory := memory[..address] + bytes + memory[address + |bytes|..];
      assert ApartBlocks(blocks[k], Unused(State()));
      forall a: nat | Unused(State()).Has(a)
        ensures memory[a] == 0
      {
        assert !blocks[k].Has(a) && old(memory)[a] == 0;
      }
    }

    /** Give c pages from b on of descriptor i the type t. Everything that holds of the heap
        is kept when the change is sound and leaves the heap's own pages alone. */
    method GenerateDescriptor(i: nat, t: nat, b: nat, c: nat) returns (status: MemoryStatus)
      requires Bounded() && i < |descriptors| && descriptors[i].Holds(b, c)
      modifies this
      ensures (status, State()) == Generate(old(State()), i, t, b, c) && |memory| == old(|memory|)
      ensures old(Valid()) && Givable(old(descriptors)[i].memoryType, t) ==>
                && BytesKept(old(blocks), old(memory), memory)
                && (Sound(old(State()), i, t, b, c) ==> Valid())
    {
      hide Count, Once, HeapByte, Laid, InHeap, Sound, Allocate, Tiled, BytesKept, InBounds;
      var offset := b - descriptors[i].basePage;
      if offset == 0 && c == descriptors[i].pageCount {
        if Valid() && Givable(descriptors[i].memoryType, t) {
          WholeKeeps(State(), i, t, memory, blocks);
          SameBytes(blocks, memory);
        }
        descriptors := descriptors[i := descriptors[i].(memoryType := t)];
        status := SUCCESS;
      } else {
        status := SplitDescriptor(i, t, b, c);
      }
    }

    // The region is part of the descriptor: one or two more descriptors are needed.
    method SplitDescriptor(i: nat, t: nat, b: nat, c: nat) returns (status: MemoryStatus)
      requires Bounded() && i < |descriptors| && descriptors[i].Holds(b, c)
      requires NodesNeeded(descriptors[i], b, c) > 0
      modifies this
      ensures (status, State()) == Generate(old(State()), i, t, b, c) && |memory| == old(|memory|)
      ensures old(Valid()) && Givable(old(descriptors)[i].memoryType, t) ==>
                && BytesKept(old(blocks), old(memory), memory)
                && (Sound(old(State()), i, t, b, c) ==> Valid())
    {
      hide Count, Once, AllOnce, HeapByte, Laid, InHeap, InBounds, Sound, Allocate, Minus, Tiled, BytesKept;
      ghost var h, m0, blocks0 := State(), memory, blocks;
      ghost var given := Valid() && Givable(descriptors[i].memoryType, t);
      var offset := b - descriptors[i].basePage;
      HoldsInBounds(descriptors, i, b, c, |memory| / PAGE_SIZE);
      var node := AllocateHeap(DESCRIPTOR_SIZE);
      if node == None {
        return NO_MEMORY;
      }
      AllocateStays(h, i);
      AppendInBounds(descriptors, Descriptor(t, b, c), |memory| / PAGE_SIZE);
      if given {
        AppendKeeps(State(), i, Descriptor(t, b, c), memory, blocks);
        SoundLeaves(h, i, t, b, c);
      }
      descriptors := descriptors + [Descriptor(t, b, c)];
      ghost var mid, more := State(), [];
      assert mid.ds + more == mid.ds;
      if b == descriptors[i].basePage {
        descriptors := descriptors[i := Descriptor(descriptors[i].memoryType, b + c,
            Minus(descriptors[i].pageCount, c))];
      } else if offset + c == descriptors[i].pageCount {
        descriptors := descriptors[i := descriptors[i].(pageCount := Minus(descriptors[i].pageCount, c))];
      } else {
        ghost var m1, blocks1 := memory, blocks;
        node := AllocateHeap(DESCRIPTOR_SIZE);
        if given {
          BytesKeptTrans(blocks0, blocks1, m0, m1, memory);
        }
        if node == None {
          FailureIsClean(h, i, t, b, c);
          return NO_MEMORY;
        }
        AllocateStays(mid, i);
        mid, more := State(), [Descriptor(MEMORY_FREE, b + c, Minus(descriptors[i].pageCount, c + offset))];
        descriptors := descriptors + [Descriptor(MEMORY_FREE, b + c, Minus(descriptors[i].pageCount, c + offset))];
        descriptors := descriptors[i := descriptors[i].(pageCount := offset)];
      }
      if given && Sound(h, i, t, b, c) {
        MidFacts(mid, memory, blocks);
        TakenInBounds(mid.ds, i, b, c, |memory| / PAGE_SIZE);
        GenerateKeeps(h, i, t, b, c, mid, descriptors[i], more, memory, blocks);
      }
      return SUCCESS;
    }

    /** Allocate c pages, at b if one free descriptor holds them all there, else at the
        start of the first smallest free descriptor that is large enough. */
    method AllocateDescriptor(t: nat, b: nat, c: nat) returns (status: MemoryStatus, actualBase: nat)
      requires Valid() && Allocatable(t)
      modifies this
      ensures match Choose(old(descriptors), b, c)
              case None => status == NO_MEMORY && State() == old(State()) && memory == old(memory) && Valid()
              case Some(x) =>
                && actualBase == x.base && (status, State()) == Generate(old(State()), x.index, t, x.base, c)
                && BytesKept(old(blocks), old(memory), memory)
                && (Sound(old(State()), x.index, t, x.base, c) ==> Valid())
    {
      hide Count, Once, AllOnce, HeapByte, Laid, InHeap, InBounds, Sound, Generate, BytesKept;
      LaidFacts();
      ghost var ds := descriptors;
      var free := None;
      var k := 0;
      while k < |descriptors|
        invariant k <= |descriptors| && descriptors == ds && State() == old(State()) && Valid()
        invariant memory == old(memory) && blocks == old(blocks)
        invariant FirstHolding(ds, b, c, 0) == FirstHolding(ds, b, c, k)
        invariant free == BestFit(ds, c, k)
      {
        if descriptors[k].IsFree() {
          var offset := b - descriptors[k].basePage;
          if offset >= 0 && descriptors[k].pageCount >= offset + c {
            status := GenerateDescriptor(k, t, b, c);
            return status, b;
          } else if descriptors[k].pageCount >= c
                    && (free.None? || (free.Some? && descriptors[k].pageCount < descriptors[free.value].pageCount)) {
            free := Some(k);
          }
        }
        k := k + 1;
      }
      if free.Some? {
        actualBase := descriptors[free.value].basePage;
        status := GenerateDescriptor(free.value, t, actualBase, c);
      } else {
        status, actualBase := NO_MEMORY, 0;
      }
    }

    /** The descriptor of a page: found exactly when there is one, and the only one if
        no page is described twice. */
    method FindMemoryDescriptor(page: nat) returns (r: Option<nat>)
      ensures r == FirstOf(descriptors, page)
      ensures match r
              case Some(k) => k < |descriptors| && descriptors[k].Has(page)
                              && (Tiled(descriptors) ==> forall j ::
                                  0 <= j < |descriptors| && descriptors[j].Has(page) ==> j == k)
              case None => Count(descriptors, None, page) == 0
    {
      var k := 0;
      while k < |descriptors|
        invariant k <= |descriptors|
        invariant forall j :: 0 <= j < k ==> !descriptors[j].Has(page)
      {
        if descriptors[k].Has(page) {
          forall j | 0 <= j < |descriptors| && descriptors[j].Has(page) && Tiled(descriptors)
            ensures j == k
          {
            if j > k {
              TwiceCounted(descriptors, k, j, page);
            }
          }
          return Some(k);
        }
        k := k + 1;
      }
      NoneCounted(descriptors, page);
      return None;
    }

    /** What loading an image does in the end: its pages from the relocations on are given
        back, together with what its descriptor holds after them. They are free afterwards,
        and no other page changes type but those that a refill takes for the heap; without
        memory for that nothing changes. */
    method ReleasePages(relocPage: nat, endPage: nat) returns (released: bool)
      requires Valid()
      requires var k := FirstOf(descriptors, relocPage); k.Some? ==> Allocatable(descriptors[k.value].memoryType)
      modifies this
      ensures Valid() && BytesKept(old(blocks), old(memory), memory)
      ensures State() == if relocPage < endPage then Do(old(State()), HeapOp.ReleasePages(relocPage)) else old(State())
      ensures released ==>
                && relocPage < endPage && FirstOf(old(descriptors), relocPage).Some?
                && forall u: Option<nat>, p: nat ::
                  Released(old(State()), FirstOf(old(descriptors), relocPage).value, relocPage, State(), u, p)
      ensures !released ==> State() == old(State())
    {
      hide Count, Once, HeapByte, Laid, InHeap, Sound, Allocate, Generate, Tiled, BytesKept, InBounds;
      ghost var h := State();
      SameBytes(blocks, memory);
      var k := FindMemoryDescriptor(relocPage);
      if k == None || relocPage >= endPage {
        return false;
      }
      LaidFacts();
      var relocPageCount := descriptors[k.value].pageCount + descriptors[k.value].basePage - relocPage;
      ReleaseIsSound(h, k.value, relocPage, relocPageCount);
      var status := GenerateDescriptor(k.value, MEMORY_FREE, relocPage, relocPageCount);
      forall u: Option<nat>, p: nat
        ensures status == SUCCESS ==> Released(h, k.value, relocPage, State(), u, p)
      {
        ReleaseGivesPages(h, k.value, relocPage, relocPageCount, u, p);
      }
      ReleaseGivesPages(h, k.value, relocPage, relocPageCount, None, 0);
      return status == SUCCESS;
    }
  }

  lemma {:induction false} TwiceCounted(ds: seq<Descriptor>, k: nat, j: nat, p: nat)
    requires k < j < |ds| && ds[k].Has(p) && ds[j].Has(p)
    ensures Count(ds, None, p) >= 2
    decreases |ds|
  {
    if j < |ds| - 1 {
      TwiceCounted(ds[..|ds| - 1], k, j, p);
    } else {
      CountUpdate(ds[..j], k, ds[k], None, p);
    }
  }

  lemma {:induction false} NoneCounted(ds: seq<Descriptor>, p: nat)
    requires forall j :: 0 <= j < |ds| ==> !ds[j].Has(p)
    ensures Count(ds, None, p) == 0
    decreases |ds|
  {
    if ds != [] {
      NoneCounted(ds[..|ds| - 1], p);
    }
  }

  lemma MidFacts(h: Heap, memory: seq<Byte>, blocks: seq<Block>)
    requires Laid(h, memory, blocks)
    ensures InBounds(h.ds, |memory| / PAGE_SIZE) && |memory| < 0x4000_0000
  {
  }

  // A heap allocation keeps every descriptor in its place on the list, with its type
  // and base; only the length of a free one may shrink.
  lemma AllocateStays(h: Heap, i: nat)
    requires i < |h.ds| && Allocate(h, NODE).Some?
    ensures var ds := Allocate(h, NODE).value.1.ds;
            i < |ds| && ds[i].memoryType == h.ds[i].memoryType && ds[i].basePage == h.ds[i].basePage
                && ds[i].pageCount <= h.ds[i].pageCount && (!h.ds[i].IsFree() ==> ds[i] == h.ds[i])
  {
  }

  // While a sound change goes on, the descriptor still holds the region.
  lemma SoundLeaves(h: Heap, i: nat, t: nat, b: nat, c: nat)
    requires i < |h.ds| && h.ds[i].Holds(b, c) && h.free <= h.limit && Givable(h.ds[i].memoryType, t)
    ensures Sound(h, i, t, b, c) && NodesNeeded(h.ds[i], b, c) > 0 && Allocate(h, NODE).Some? ==>
              var h1 := Allocate(h, NODE).value.1;
              && i < |h1.ds| && h1.ds[i].Holds(b, c)
              && var h1' := h1.(ds := h1.ds + [Descriptor(t, b, c)]);
                 NodesNeeded(h.ds[i], b, c) == 2 && Allocate(h1', NODE).Some? ==>
                   var h2 := Allocate(h1', NODE).value.1; i < |h2.ds| && h2.ds[i].Holds(b, c)
  {
    hide FirstFit;
    assert NewHeapPages(NODE) == BL_HEAP_PAGES;
    FirstFitAppend(h.ds, Descriptor(t, b, c), BL_HEAP_PAGES);
  }

  // What may be left of a descriptor once a region of it is taken stays in bounds.
  lemma TakenInBounds(ds: seq<Descriptor>, i: nat, b: nat, c: nat, pages: nat)
    requires InBounds(ds, pages) && i < |ds| && ds[i].Holds(b, c) && pages < 0x8000_0000
    ensures var d, offset := ds[i], b - ds[i].basePage;
            && (offset == 0 ==> InBounds(ds[i := Descriptor(d.memoryType, b + c, Minus(d.pageCount, c))], pages))
            && (offset + c == d.pageCount ==> InBounds(ds[i := d.(pageCount := Minus(d.pageCount, c))], pages))
            && InBounds((ds + [Descriptor(MEMORY_FREE, b + c,
                Minus(d.pageCount, c + offset))])[i := d.(pageCount := offset)], pages)
  {
    MinusExact(ds[i].pageCount, c);
    MinusExact(ds[i].pageCount, c + (b - ds[i].basePage));
  }

  lemma WholeKeeps(h: Heap, i: nat, t: nat, memory: seq<Byte>, blocks: seq<Block>)
    requires Laid(h, memory, blocks) && InHeap(h, blocks) && Tiled(h.ds)
    requires i < |h.ds| && Givable(h.ds[i].memoryType, t)
    ensures var h' := h.(ds := h.ds[i := h.ds[i].(memoryType := t)]);
            Laid(h', memory, blocks) && InHeap(h', blocks) && Tiled(h'.ds)
  {
    hide Count, Change;
    var ds' := h.ds[i := h.ds[i].(memoryType := t)];
    RetypedWhole(h.ds, i, t);
    RetypedSame(h.ds, ds', h.ds[i].basePage, h.ds[i].pageCount, h.ds[i].memoryType, t);
    SameTiled(h.ds, ds');
    TiledOnce(ds');
    forall a: nat | HeapByte(h.ds, a)
      ensures HeapByte(ds', a)
    {
      CountUpdate(h.ds, i, ds'[i], Some(LOADER_OSLOADER_HEAP), a / PAGE_SIZE);
    }
  }
}
