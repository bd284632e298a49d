/** Page descriptors as a list: which pages they cover, and what allocating pages and
    refilling the heap do to the list. */
module MemoryDescriptors {
  import opened FatFormat

  // Memory types shared by the firmware's and the loader's numbering ...
  const MEMORY_FREE := 2
  const MEMORY_LOADED_PROGRAM := 4
  // ... types of the firmware only ...
  const MEMORY_FREE_CONTIGUOUS := 7
  const MEMORY_SPECIAL_MEMORY := 8
  // ... and types of the loader only.
  const LOADER_OSLOADER_HEAP := 7
  const LOADER_OSLOADER_STACK := 8
  const LOADER_SPECIAL_MEMORY := 22

  const PAGE_SIZE := 4096
  const BL_HEAP_PAGES := 16
  const BL_STACK_PAGES := 8
  const BL_GRANULARITY := 8
  const DESCRIPTOR_SIZE := 20

  datatype MemoryStatus = SUCCESS | NO_MEMORY

  datatype Descriptor = Descriptor(memoryType: nat, basePage: nat, pageCount: nat) {
    predicate Has(p: nat) {
      basePage <= p < basePage + pageCount
    }

    predicate IsFree() {
      memoryType == MEMORY_FREE
    }

    // The pages from b on, c of them, are all described here.
    predicate Holds(b: nat, c: nat) {
      basePage <= b && b + c <= basePage + pageCount
    }
  }

  // Whether d describes page p, as memory of type t if a type is given.
  function One(d: Descriptor, t: Option<nat>, p: nat): nat {
    if d.Has(p) && (t.None? || d.memoryType == t.value) then 1 else 0
  }

  /** How many descriptors describe page p (as memory of type t, if given). */
  ghost function Count(ds: seq<Descriptor>, t: Option<nat>, p: nat): nat
    decreases |ds|
  {
    if ds == [] then 0 else Count(ds[..|ds| - 1], t, p) + One(ds[|ds| - 1], t, p)
  }

  // The same pages are described, equally often.
  ghost predicate SamePages(ds: seq<Descriptor>, ds': seq<Descriptor>) {
    forall p: nat :: Count(ds', None, p) == Count(ds, None, p)
  }

  // No page is described twice.
  ghost predicate Tiled(ds: seq<Descriptor>) {
    forall p: nat :: Count(ds, None, p) <= 1
  }

  predicate InRegion(p: nat, b: nat, c: nat) {
    b <= p < b + c
  }

  // By how much the counts change when the c pages from b on change type.
  function Change(b: nat, c: nat, from: nat, to: nat, t: Option<nat>, p: nat): int {
    One(Descriptor(to, b, c), t, p) - One(Descriptor(from, b, c), t, p)
  }

  /** From ds to ds', exactly the c pages from b on went from type `from` to type `to`. */
  ghost predicate Retyped(ds: seq<Descriptor>, ds': seq<Descriptor>, b: nat, c: nat, from: nat, to: nat) {
    forall t: Option<nat>, p: nat :: Count(ds', t, p) == Count(ds, t, p) + Change(b, c, from, to, t, p)
  }

  // Whatever their types were, the pages are described as often as before.
  lemma RetypedSame(ds: seq<Descriptor>, ds': seq<Descriptor>, b: nat, c: nat, from: nat, to: nat)
    requires Retyped(ds, ds', b, c, from, to)
    ensures SamePages(ds, ds')
  {
  }

  lemma CountAppend(ds: seq<Descriptor>, d: Descriptor, t: Option<nat>, p: nat)
    ensures Count(ds + [d], t, p) == Count(ds, t, p) + One(d, t, p)
  {
    assert (ds + [d])[..|ds|] == ds;
  }

  lemma {:induction false} CountUpdate(ds: seq<Descriptor>, i: nat, d: Descriptor, t: Option<nat>, p: nat)
    requires i < |ds|
    ensures Count(ds, t, p) >= One(ds[i], t, p)
    ensures Count(ds[i := d], t, p) == Count(ds, t, p) - One(ds[i], t, p) + One(d, t, p)
    decreases |ds|
  {
    var n := |ds| - 1;
    if i < n {
      CountUpdate(ds[..n], i, d, t, p);
      assert ds[i := d][..n] == ds[..n][i := d];
    } else {
      assert ds[i := d][..n] == ds[..n];
    }
  }

  lemma RetypedWhole(ds: seq<Descriptor>, i: nat, to: nat)
    requires i < |ds|
    ensures Retyped(ds, ds[i := ds[i].(memoryType := to)], ds[i].basePage, ds[i].pageCount, ds[i].memoryType, to)
  {
    forall t: Option<nat>, p: nat
      ensures Count(ds[i := ds[i].(memoryType := to)], t, p)
          == Count(ds, t, p) + Change(ds[i].basePage, ds[i].pageCount, ds[i].memoryType, to, t, p)
    {
      CountUpdate(ds, i, ds[i].(memoryType := to), t, p);
    }
  }

  // The first free descriptor of at least n pages.
  function FirstFit(ds: seq<Descriptor>, n: nat): (r: Option<nat>)
    ensures match r
            case Some(i) => i < |ds| && ds[i].IsFree() && ds[i].pageCount >= n
                            && forall j :: 0 <= j < i ==> !(ds[j].IsFree() && ds[j].pageCount >= n)
            case None => forall j :: 0 <= j < |ds| ==> !(ds[j].IsFree() && ds[j].pageCount >= n)
    decreases |ds|
  {
    if ds == [] then None
    else
      var r := FirstFit(ds[..|ds| - 1], n);
      if r.Some? then r
      else if ds[|ds| - 1].IsFree() && ds[|ds| - 1].pageCount >= n then Some(|ds| - 1)
      else None
  }

  // Where pages are taken from, and at which base page.
  datatype Choice = Choice(index: nat, base: nat)

  // The first free descriptor that holds the region asked for.
  function FirstHolding(ds: seq<Descriptor>, b: nat, c: nat, k: nat): (r: Option<nat>)
    requires k <= |ds|
    ensures match r
            case Some(i) => k <= i < |ds| && ds[i].IsFree() && ds[i].Holds(b, c)
                            && forall j :: k <= j < i ==> !(ds[j].IsFree() && ds[j].Holds(b, c))
            case None => forall j :: k <= j < |ds| ==> !(ds[j].IsFree() && ds[j].Holds(b, c))
    decreases |ds| - k
  {
    if k == |ds| then None
    else if ds[k].IsFree() && ds[k].Holds(b, c) then Some(k)
    else FirstHolding(ds, b, c, k + 1)
  }

  // i is a smallest free descriptor of at least c pages among the first n.
  ghost predicate Smallest(ds: seq<Descriptor>, n: nat, c: nat, i: nat)
    requires n <= |ds|
  {
    && i < n && ds[i].IsFree() && ds[i].pageCount >= c
    && forall j :: 0 <= j < n && ds[j].IsFree() && ds[j].pageCount >= c ==>
        ds[i].pageCount <= ds[j].pageCount && (j < i ==> ds[i].pageCount < ds[j].pageCount)
  }

  /** The heap of the loader: the next free byte, the end of what may be handed out,
      and the descriptor list. */
  datatype Heap = Heap(free: nat, limit: nat, ds: seq<Descriptor>)

  function Rounded(size: nat): (r: nat)
    ensures r % 8 == 0 && size <= r < size + 8
  {
    (size + (BL_GRANULARITY - 1)) / BL_GRANULARITY * BL_GRANULARITY
  }

  // Pages to add when `size` more bytes are wanted, a descriptor to come after them.
  function NewHeapPages(size: nat): (r: nat)
    ensures r >= 16 && r * 4096 > size + 20 && (r > 16 ==> (r - 1) * 4096 <= size + 20)
  {
    var pages := (size + DESCRIPTOR_SIZE) / PAGE_SIZE + 1;
    if pages < BL_HEAP_PAGES then BL_HEAP_PAGES else pages
  }

  // The list after the last n pages of descriptor i became heap.
  function Carved(ds: seq<Descriptor>, i: nat, n: nat): seq<Descriptor>
    requires i < |ds| && n <= ds[i].pageCount
  {
    var d := ds[i].(pageCount := ds[i].pageCount - n);
    ds[i := d] + [Descriptor(LOADER_OSLOADER_HEAP, d.basePage + d.pageCount, n)]
  }

  /** What allocating `size` bytes, already rounded, from the heap gives. */
  function Allocate(h: Heap, size: nat): Option<(nat, Heap)> {
    if h.free + size <= h.limit then Some((h.free, h.(free := h.free + size)))
    else
      var n := NewHeapPages(size);
      match FirstFit(h.ds, n)
      case None => None
      case Some(i) =>
        var start := (h.ds[i].basePage + h.ds[i].pageCount - n) * PAGE_SIZE;
        Some((start, Heap(start + size, start + n * PAGE_SIZE - DESCRIPTOR_SIZE, Carved(h.ds, i, n))))
  }

  // What taking n pages from j for the heap does to the counts.
  lemma CarvedCount(ds: seq<Descriptor>, j: nat, n: nat, t: Option<nat>, p: nat)
    requires j < |ds| && n <= ds[j].pageCount
    ensures Count(Carved(ds, j, n), t, p) == Count(ds, t, p)
        + Change(ds[j].basePage + ds[j].pageCount - n, n, ds[j].memoryType, LOADER_OSLOADER_HEAP, t, p)
  {
    hide Count;
    var d := ds[j].(pageCount := ds[j].pageCount - n);
    CountUpdate(ds, j, d, t, p);
    CountAppend(ds[j := d], Descriptor(LOADER_OSLOADER_HEAP, d.basePage + d.pageCount, n), t, p);
  }

  /** Taking pages for the heap loses none and describes none twice. */
  lemma CarvedRetypes(ds: seq<Descriptor>, i: nat, n: nat)
    requires i < |ds| && ds[i].IsFree() && n <= ds[i].pageCount
    ensures Retyped(ds, Carved(ds, i, n), ds[i].basePage + ds[i].pageCount - n, n, MEMORY_FREE, LOADER_OSLOADER_HEAP)
  {
    hide Count, Change, Carved;
    forall t: Option<nat>, p: nat
      ensures Count(Carved(ds, i, n), t, p) == Count(ds, t, p)
          + Change(ds[i].basePage + ds[i].pageCount - n, n, MEMORY_FREE, LOADER_OSLOADER_HEAP, t, p)
    {
      CarvedCount(ds, i, n, t, p);
    }
  }

  /** A refilled heap always has room for what it was refilled for, with a descriptor
      to spare: the failure branch after a refill cannot be taken. */
  lemma RefillSuffices(size: nat, start: nat)
    ensures start + size < start + NewHeapPages(size) * PAGE_SIZE - DESCRIPTOR_SIZE
  {
  }

  // Unsigned 32-bit subtraction.
  function Minus(a: nat, b: nat): nat {
    (a - b) % 0x1_0000_0000
  }

  const NODE := 24  // a descriptor, as rounded by the heap

  /** Giving c pages from b on of descriptor i the type t: the status, and the heap
      afterwards. The descriptor is looked at again after each heap allocation, which may
      have taken pages from that very descriptor. What follows the region, if anything
      comes before it too, becomes free. */
  function Generate(h: Heap, i: nat, t: nat, b: nat, c: nat): (MemoryStatus, Heap)
    requires i < |h.ds| && h.ds[i].Holds(b, c)
  {
    var d := h.ds[i];
    var offset := b - d.basePage;
    if offset == 0 && c == d.pageCount then
      (SUCCESS, h.(ds := h.ds[i := d.(memoryType := t)]))
    else
      match Allocate(h, NODE)
      case None => (NO_MEMORY, h)
      case Some((_, h1)) =>
        var d1 := h1.ds[i];
        var ds1 := h1.ds + [Descriptor(t, b, c)];
        if b == d1.basePage then
          (SUCCESS, h1.(ds := ds1[i := Descriptor(d1.memoryType, b + c, Minus(d1.pageCount, c))]))
        else if offset + c == d1.pageCount then
          (SUCCESS, h1.(ds := ds1[i := d1.(pageCount := Minus(d1.pageCount, c))]))
        else
          match Allocate(h1.(ds := ds1), NODE)
          case None => (NO_MEMORY, h1.(ds := ds1))
          case Some((_, h2)) =>
            var d2 := h2.ds[i];
            var ds2 := h2.ds + [Descriptor(MEMORY_FREE, b + c, Minus(d2.pageCount, c + offset))];
            (SUCCESS, h2.(ds := ds2[i := d2.(pageCount := offset)]))
  }

  // The number of descriptors that Generate needs.
  function NodesNeeded(d: Descriptor, b: nat, c: nat): nat {
    if d.basePage == b && d.pageCount == c then 0
    else if d.basePage == b || d.basePage + d.pageCount == b + c then 1
    else 2
  }

  // By how much the counts change when the c pages from b on of d become type t.
  function Effect(d: Descriptor, t: nat, b: nat, c: nat, u: Option<nat>, p: nat): int
    requires d.Holds(b, c)
  {
    Change(b, c, d.memoryType, t, u, p)
    + if NodesNeeded(d, b, c) == 2 then Change(b + c, d.basePage + d.pageCount - (b + c), d.memoryType, MEMORY_FREE,
        u, p)
      else 0
  }

  // What is left of a descriptor once a region of it is taken.
  lemma OneTaken(d: Descriptor, b: nat, c: nat, t: Option<nat>, p: nat)
    requires d.Holds(b, c) && d.pageCount < 0x8000_0000
    ensures var offset := b - d.basePage;
            && (offset == 0 ==> One(Descriptor(d.memoryType, b + c, Minus(d.pageCount, c)), t, p)
                                == One(d, t, p) - One(Descriptor(d.memoryType, b, c), t, p))
            && (offset + c == d.pageCount ==> One(d.(pageCount := Minus(d.pageCount, c)), t, p)
                                              == One(d, t, p) - One(Descriptor(d.memoryType, b, c), t, p))
            && Minus(d.pageCount, c + offset) == d.pageCount - (c + offset)
            && One(d.(pageCount := offset), t, p)
               + One(Descriptor(d.memoryType, b + c, d.pageCount - (c + offset)), t, p)
               == One(d, t, p) - One(Descriptor(d.memoryType, b, c), t, p)
  {
    MinusExact(d.pageCount, c);
    MinusExact(d.pageCount, c + (b - d.basePage));
  }

  lemma MinusExact(a: nat, b: nat)
    requires b <= a < 0x1_0000_0000
    ensures Minus(a, b) == a - b
  {
  }

  // Where pages for the heap come from, should it have to be refilled on the way: the
  // region itself may be on the list by then.
  function RefillFrom(h: Heap, t: nat, b: nat, c: nat): Option<nat> {
    FirstFit(if h.free + NODE <= h.limit then h.ds + [Descriptor(t, b, c)] else h.ds, BL_HEAP_PAGES)
  }

  // A refill from descriptor j does not take pages of the region.
  predicate Spared(ds: seq<Descriptor>, j: nat, i: nat, b: nat, c: nat)
    requires i < |ds|
  {
    j != i || b + c + BL_HEAP_PAGES <= ds[i].basePage + ds[i].pageCount
  }

  /** Whether Generate leaves every page described as often as before, in terms of what
      can be seen before the call: there is room for the descriptors needed; or there is
      none even for the first and no pages to refill from, so that nothing is done; or
      the refill does not take pages of the region from under it. */
  predicate Sound(h: Heap, i: nat, t: nat, b: nat, c: nat)
    requires i < |h.ds|
  {
    || h.free + NodesNeeded(h.ds[i], b, c) * NODE <= h.limit
    || match RefillFrom(h, t, b, c)
       case None => h.free + NODE > h.limit
       case Some(j) => Spared(h.ds, j, i, b, c)
  }

  lemma FirstFitAppend(ds: seq<Descriptor>, d: Descriptor, n: nat)
    ensures FirstFit(ds + [d], n) == if FirstFit(ds, n).Some? then FirstFit(ds, n)
                                     else if d.IsFree() && d.pageCount >= n then Some(|ds|) else None
  {
    assert (ds + [d])[..|ds|] == ds;
  }

  lemma AppendedCount(ds: seq<Descriptor>, i: nat, x: Descriptor, kept: Descriptor, t: Option<nat>, p: nat)
    requires i < |ds|
    ensures Count((ds + [x])[i := kept], t, p) == Count(ds, t, p) + One(x, t, p) - One(ds[i], t, p) + One(kept, t, p)
  {
    CountAppend(ds, x, t, p);
    CountUpdate(ds + [x], i, kept, t, p);
  }

  // The list with the new descriptor on it, after a refill from descriptor j, if any,
  // that came before or, when late, after it.
  function Mid(ds: seq<Descriptor>, j: Option<nat>, added: Descriptor, late: bool): (r: seq<Descriptor>)
    requires j.Some? ==> j.value < |ds| + (if late then 1 else 0) && BL_HEAP_PAGES <= (ds + [added])[j.value].pageCount
    ensures |r| >= |ds|
    ensures forall i :: 0 <= i < |ds| ==>
        r[i] == if j == Some(i) then ds[i].(pageCount := ds[i].pageCount - BL_HEAP_PAGES) else ds[i]
  {
    if j.None? then ds + [added]
    else if late then Carved(ds + [added], j.value, BL_HEAP_PAGES)
    else Carved(ds, j.value, BL_HEAP_PAGES) + [added]
  }

  // What becomes of descriptor i once the region is described elsewhere.
  function Rest(mid: seq<Descriptor>, i: nat, b: nat, c: nat, late: bool): seq<Descriptor>
    requires i < |mid| && mid[i].basePage <= b
  {
    var d, offset := mid[i], b - mid[i].basePage;
    if !late && offset == 0 then mid[i := Descriptor(d.memoryType, b + c, Minus(d.pageCount, c))]
    else if !late && offset + c == d.pageCount then mid[i := d.(pageCount := Minus(d.pageCount, c))]
    else (mid + [Descriptor(MEMORY_FREE, b + c, Minus(d.pageCount, c + offset))])[i := d.(pageCount := offset)]
  }

  // The pages that a refill takes from descriptor j.
  function HeapGain(ds: seq<Descriptor>, j: nat): nat
    requires j < |ds| && BL_HEAP_PAGES <= ds[j].pageCount
  {
    ds[j].basePage + ds[j].pageCount - BL_HEAP_PAGES
  }

  lemma MidCount(ds: seq<Descriptor>, j: Option<nat>, added: Descriptor, late: bool, t: Option<nat>, p: nat)
    requires j.Some? ==>
        && j.value < |ds| + (if late then 1 else 0) && (ds + [added])[j.value].IsFree()
        && BL_HEAP_PAGES <= (ds + [added])[j.value].pageCount
    ensures Count(Mid(ds, j, added, late), t, p) == Count(ds, t, p) + One(added, t, p)
        + if j.None? then 0
          else Change(HeapGain(ds + [added], j.value), BL_HEAP_PAGES, MEMORY_FREE, LOADER_OSLOADER_HEAP, t, p)
  {
    hide Count, One, Carved, Change;
    CountAppend(ds, added, t, p);
    if j.Some? {
      if late {
        CarvedCount(ds + [added], j.value, BL_HEAP_PAGES, t, p);
      } else {
        CarvedCount(ds, j.value, BL_HEAP_PAGES, t, p);
        CountAppend(Carved(ds, j.value, BL_HEAP_PAGES), added, t, p);
      }
    }
  }

  lemma RestCount(mid: seq<Descriptor>, i: nat, b: nat, c: nat, late: bool, t: Option<nat>, p: nat)
    requires i < |mid| && mid[i].Holds(b, c) && mid[i].pageCount < 0x8000_0000
    ensures Count(Rest(mid, i, b, c, late), t, p) == Count(mid, t, p) - One(Descriptor(mid[i].memoryType, b, c), t, p)
        + if !late && (mid[i].basePage == b || mid[i].basePage + mid[i].pageCount == b + c) then 0
          else Change(b + c, mid[i].basePage + mid[i].pageCount - (b + c), mid[i].memoryType, MEMORY_FREE, t, p)
  {
    hide Count, One, Minus;
    var d, offset := mid[i], b - mid[i].basePage;
    OneTaken(d, b, c, t, p);
    if !late && offset == 0 {
      CountUpdate(mid, i, Descriptor(d.memoryType, b + c, Minus(d.pageCount, c)), t, p);
    } else if !late && offset + c == d.pageCount {
      CountUpdate(mid, i, d.(pageCount := Minus(d.pageCount, c)), t, p);
    } else {
      AppendedCount(mid, i, Descriptor(MEMORY_FREE, b + c, d.pageCount - (c + offset)), d.(pageCount := offset), t, p);
    }
  }

  // Whether the list is changed in the end: the whole descriptor, or with the room and
  // the pages that are needed.
  ghost predicate Refilling(h: Heap, i: nat, b: nat, c: nat)
    requires i < |h.ds|
  {
    h.free <= h.limit < h.free + NodesNeeded(h.ds[i], b, c) * NODE
  }

  // Generate with its heap allocations carried out, when there is room ...
  lemma GenerateWithRoom(h: Heap, i: nat, t: nat, b: nat, c: nat)
    requires i < |h.ds| && h.ds[i].Holds(b, c)
    requires 0 < NodesNeeded(h.ds[i], b, c) * NODE <= h.limit - h.free
    ensures Generate(h, i, t, b, c) == (SUCCESS, Heap(h.free + NodesNeeded(h.ds[i], b, c) * NODE, h.limit,
        Rest(Mid(h.ds, None, Descriptor(t, b, c), false), i, b, c, false)))
  {
    hide FirstFit, Minus, NewHeapPages;
  }

  // ... and when there is not.
  lemma GenerateRefilling(h: Heap, i: nat, t: nat, b: nat, c: nat)
    requires i < |h.ds| && h.ds[i].Holds(b, c) && Refilling(h, i, b, c)
    ensures var (status, h'), late := Generate(h, i, t, b, c), h.free + NODE <= h.limit;
            match RefillFrom(h, t, b, c)
            case Some(j) =>
              status == SUCCESS && h'.ds == Rest(Mid(h.ds, Some(j), Descriptor(t, b, c), late), i, b, c, late)
            case None =>
              status == NO_MEMORY && if late then h'.ds == h.ds + [Descriptor(t, b, c)] else h' == h
  {
    hide FirstFit, Minus;
    assert NewHeapPages(NODE) == BL_HEAP_PAGES;
    FirstFitAppend(h.ds, Descriptor(t, b, c), BL_HEAP_PAGES);
  }

  // Page by page, when no refill takes pages of the region: the region changes type, and
  // so do the pages taken.
  lemma SparedCount(ds: seq<Descriptor>, j: Option<nat>, i: nat, t: nat, b: nat, c: nat, late: bool, u: Option<nat>,
          p: nat)
    requires i < |ds| && ds[i].Holds(b, c) && ds[i].pageCount < 0x8000_0000 && 0 < NodesNeeded(ds[i], b, c)
    requires late ==> NodesNeeded(ds[i], b, c) == 2
    requires j.Some? ==>
        && j.value < |ds| + (if late then 1 else 0) && (ds + [Descriptor(t, b, c)])[j.value].IsFree()
        && BL_HEAP_PAGES <= (ds + [Descriptor(t, b, c)])[j.value].pageCount && Spared(ds, j.value, i, b, c)
    ensures Count(Rest(Mid(ds, j, Descriptor(t, b, c), late), i, b, c, late), u, p) ==
            Count(ds, u, p) + Effect(ds[i], t, b, c, u, p)
            + if j.None? then 0
              else Change(HeapGain(ds + [Descriptor(t, b, c)], j.value), BL_HEAP_PAGES, MEMORY_FREE,
                  LOADER_OSLOADER_HEAP, u, p)
  {
    hide Count, One, Mid, Rest, HeapGain;
    MidCount(ds, j, Descriptor(t, b, c), late, u, p);
    RestCount(Mid(ds, j, Descriptor(t, b, c), late), i, b, c, late, u, p);
  }

  // A page described twice, when a refill does.
  lemma UnsparedCount(ds: seq<Descriptor>, i: nat, t: nat, b: nat, c: nat, late: bool)
    requires i < |ds| && ds[i].Holds(b, c) && c > 0 && ds[i].IsFree() && BL_HEAP_PAGES <= ds[i].pageCount
    requires late ==> NodesNeeded(ds[i], b, c) == 2
    requires !Spared(ds, i, i, b, c)
    ensures Count(Rest(Mid(ds, Some(i), Descriptor(t, b, c), late), i, b, c, late), None, b + c - 1)
        > Count(ds, None, b + c - 1)
  {
    hide Count, Minus, Mid;
    var p, mid := b + c - 1, Mid(ds, Some(i), Descriptor(t, b, c), late);
    var d, offset := mid[i], b - ds[i].basePage;
    MidCount(ds, Some(i), Descriptor(t, b, c), late, None, p);
    if !late && offset == 0 {
      CountUpdate(mid, i, Descriptor(d.memoryType, b + c, Minus(d.pageCount, c)), None, p);
    } else {
      AppendedCount(mid, i, Descriptor(MEMORY_FREE, b + c, Minus(d.pageCount, c + offset)), d.(pageCount := offset),
          None, p);
    }
  }

  /** What giving a region another type does, for descriptors of every type and in all four
      ways the region can lie in one, when it is sound: the region has the new type, and
      what follows it is free if something comes before it too; if the heap had to be
      refilled, its new pages were free before and are heap now; no other page changes. A
      failure changes nothing. */
  lemma GenerateGivesRegion(h: Heap, i: nat, t: nat, b: nat, c: nat, u: Option<nat>, p: nat)
    requires i < |h.ds| && h.ds[i].Holds(b, c) && h.ds[i].pageCount < 0x8000_0000
    requires h.free <= h.limit && Sound(h, i, t, b, c)
    ensures var (status, h') := Generate(h, i, t, b, c);
            && (status == NO_MEMORY <==> Refilling(h, i, b, c) && RefillFrom(h, t, b, c).None?)
            && (status == NO_MEMORY ==> h' == h)
            && (status == SUCCESS ==>
                  Count(h'.ds, u, p) ==
                  Count(h.ds, u, p) + Effect(h.ds[i], t, b, c, u, p)
                  + if Refilling(h, i, b, c)
                    then Change(HeapGain(h.ds + [Descriptor(t, b, c)], RefillFrom(h, t, b, c).value), BL_HEAP_PAGES,
                        MEMORY_FREE, LOADER_OSLOADER_HEAP, u, p)
                    else 0)
  {
    hide Count, Rest, Mid, HeapGain, Generate, One;
    var x, late := Descriptor(t, b, c), h.free + NODE <= h.limit;
    RefillFacts(h, t, b, c);
    if NodesNeeded(h.ds[i], b, c) == 0 {
      GenerateWhole(h, i, t);
      RetypedWhole(h.ds, i, t);
    } else if Refilling(h, i, b, c) {
      GenerateRefilling(h, i, t, b, c);
      if RefillFrom(h, t, b, c).Some? {
        SparedCount(h.ds, RefillFrom(h, t, b, c), i, t, b, c, late, u, p);
      }
    } else {
      GenerateWithRoom(h, i, t, b, c);
      SparedCount(h.ds, None, i, t, b, c, false, u, p);
    }
  }

  lemma GenerateWhole(h: Heap, i: nat, t: nat)
    requires i < |h.ds|
    ensures Generate(h, i, t, h.ds[i].basePage, h.ds[i].pageCount)
        == (SUCCESS, h.(ds := h.ds[i := h.ds[i].(memoryType := t)]))
  {
  }

  lemma RefillFacts(h: Heap, t: nat, b: nat, c: nat)
    ensures RefillFrom(h, t, b, c).Some? ==>
              var j, ds := RefillFrom(h, t, b, c).value, h.ds + [Descriptor(t, b, c)];
              && j < |h.ds| + (if h.free + NODE <= h.limit then 1 else 0)
              && ds[j].IsFree() && BL_HEAP_PAGES <= ds[j].pageCount
  {
  }

  /** Exactly when generating descriptors for a region keeps the pages described as they
      were: otherwise the heap was refilled from the free descriptor at work, taking
      pages of the region, or the second descriptor could not be had after the first
      was already on the list. */
  lemma GenerateKeepsPagesIff(h: Heap, i: nat, t: nat, b: nat, c: nat)
    requires i < |h.ds| && h.ds[i].Holds(b, c) && c > 0 && h.ds[i].pageCount < 0x8000_0000 && h.free <= h.limit
    ensures SamePages(h.ds, Generate(h, i, t, b, c).1.ds) <==> Sound(h, i, t, b, c)
  {
    hide FirstFit, Generate, Count, Rest, Mid, RefillFrom;
    if Sound(h, i, t, b, c) {
      forall p: nat
        ensures Count(Generate(h, i, t, b, c).1.ds, None, p) == Count(h.ds, None, p)
      {
        GenerateGivesRegion(h, i, t, b, c, None, p);
      }
    } else {
      GenerateRefilling(h, i, t, b, c);
      RefillFacts(h, t, b, c);
      if RefillFrom(h, t, b, c).None? {
        CountAppend(h.ds, Descriptor(t, b, c), None, b);
      } else {
        UnsparedCount(h.ds, i, t, b, c, h.free + NODE <= h.limit);
      }
    }
  }

  lemma CountDisplay(a: Descriptor, b: Descriptor, more: seq<Descriptor>, t: Option<nat>, p: nat)
    requires |more| <= 2
    ensures Count([a, b] + more, t, p) == One(a, t, p) + One(b, t, p)
        + (if |more| > 0 then One(more[0], t, p) else 0) + (if |more| > 1 then One(more[1], t, p) else 0)
  {
    hide One;
    assert [] + [a] == [a] && [a] + [b] == [a, b];
    CountAppend([], a, t, p);
    CountAppend([a], b, t, p);
    if |more| > 0 {
      CountAppend([a, b], more[0], t, p);
    }
    if |more| > 1 {
      CountAppend([a, b] + [more[0]], more[1], t, p);
      assert [a, b] + more == [a, b] + [more[0]] + [more[1]];
    } else {
      assert [a, b] + more == if more == [] then [a, b] else [a, b] + [more[0]];
    }
  }

  /** It can go wrong: the first twenty pages of the only free descriptor, which has 32, are
      wanted, and the heap is used up. The refill takes its last sixteen. */
  lemma RefillTakesRegion(t: nat)
    ensures var ds := [Descriptor(LOADER_OSLOADER_HEAP, 16, 16), Descriptor(MEMORY_FREE, 256, 32)];
            var h := Heap(32 * PAGE_SIZE - 24, 32 * PAGE_SIZE - DESCRIPTOR_SIZE, ds);
            && Tiled(ds) && Choose(ds, 256, 20) == Some(Choice(1, 256))
            && Generate(h, 1, t, 256, 20).0 == SUCCESS && Count(Generate(h, 1, t, 256, 20).1.ds, None, 275) == 2
  {
    hide Count, Generate;
    var heap, free := Descriptor(LOADER_OSLOADER_HEAP, 16, 16), Descriptor(MEMORY_FREE, 256, 32);
    var ds := [heap, free];
    var h := Heap(32 * PAGE_SIZE - 24, 32 * PAGE_SIZE - DESCRIPTOR_SIZE, ds);
    assert ds[0] == heap && ds[1] == free && ds + [] == ds;
    forall p: nat
      ensures Count(ds, None, p) <= 1
    {
      CountDisplay(heap, free, [], None, p);
    }
    GenerateRefilling(h, 1, t, 256, 20);
    assert FirstFit(ds, BL_HEAP_PAGES) == Some(1);
    var rest, more := Descriptor(MEMORY_FREE, 276, Minus(16, 20)), [Descriptor(LOADER_OSLOADER_HEAP, 272, 16),
        Descriptor(t, 256, 20)];
    assert Rest(Mid(ds, Some(1), Descriptor(t, 256, 20), false), 1, 256, 20, false) == [heap, rest] + more;
    CountDisplay(heap, rest, more, None, 275);
  }

  lemma ReleaseIsSound(h: Heap, i: nat, b: nat, c: nat)
    requires i < |h.ds| && !h.ds[i].IsFree() && h.ds[i].Holds(b, c)
    requires h.ds[i].basePage + h.ds[i].pageCount == b + c
    ensures Sound(h, i, MEMORY_FREE, b, c)
    ensures Refilling(h, i, b, c) ==> RefillFrom(h, MEMORY_FREE, b, c) == FirstFit(h.ds, BL_HEAP_PAGES)
  {
    if RefillFrom(h, MEMORY_FREE, b, c).Some? {
      RefillFacts(h, MEMORY_FREE, b, c);
    }
  }

  /** Giving pages back: a region of a used descriptor that reaches the descriptor's end
      becomes free. Whatever room the heap has, no page is lost or described twice, and no
      page changes type but the region's and those that a refill takes for the heap. */
  lemma ReleaseGivesPages(h: Heap, i: nat, b: nat, c: nat, u: Option<nat>, p: nat)
    requires i < |h.ds| && !h.ds[i].IsFree() && h.ds[i].Holds(b, c) && h.ds[i].pageCount < 0x8000_0000
    requires h.ds[i].basePage + h.ds[i].pageCount == b + c && h.free <= h.limit
    ensures var (status, h') := Generate(h, i, MEMORY_FREE, b, c);
            var refilled := h.free + NodesNeeded(h.ds[i], b, c) * NODE > h.limit;
            && (status == NO_MEMORY <==> refilled && FirstFit(h.ds, BL_HEAP_PAGES).None?)
            && (status == NO_MEMORY ==> h' == h)
            && Count(h'.ds, None, p) == Count(h.ds, None, p)
            && (status == SUCCESS ==>
                  Count(h'.ds, u, p) == Count(h.ds, u, p) + Change(b, c, h.ds[i].memoryType, MEMORY_FREE, u, p)
                  + if refilled then Change(HeapGain(h.ds, FirstFit(h.ds, BL_HEAP_PAGES).value), BL_HEAP_PAGES,
                      MEMORY_FREE, LOADER_OSLOADER_HEAP, u, p)
                    else 0)
  {
    hide Generate, Count, Sound, RefillFrom, FirstFit;
    ReleaseIsSound(h, i, b, c);
    GenerateGivesRegion(h, i, MEMORY_FREE, b, c, None, p);
    GenerateGivesRegion(h, i, MEMORY_FREE, b, c, u, p);
  }

  // The first smallest free descriptor of at least c pages among the first n.
  function BestFit(ds: seq<Descriptor>, c: nat, n: nat): (r: Option<nat>)
    requires n <= |ds|
    ensures match r
            case Some(i) => Smallest(ds, n, c, i)
            case None => forall j :: 0 <= j < n ==> !(ds[j].IsFree() && ds[j].pageCount >= c)
  {
    if n == 0 then None
    else
      var r := BestFit(ds, c, n - 1);
      if ds[n - 1].IsFree() && ds[n - 1].pageCount >= c && (r.None? || ds[n - 1].pageCount < ds[r.value].pageCount)
      then Some(n - 1) else r
  }

  /** Where an allocation goes: to the base asked for if one free descriptor holds the
      whole region, else to the start of the first smallest free descriptor that is
      large enough. */
  function Choose(ds: seq<Descriptor>, b: nat, c: nat): (r: Option<Choice>)
    ensures match r
            case Some(x) => x.index < |ds| && ds[x.index].IsFree() && ds[x.index].Holds(x.base, c)
            case None => forall j :: 0 <= j < |ds| ==> !(ds[j].IsFree() && ds[j].pageCount >= c)
  {
    match FirstHolding(ds, b, c, 0)
    case Some(i) => Some(Choice(i, b))
    case None =>
      match BestFit(ds, c, |ds|)
      case Some(i) => Some(Choice(i, ds[i].basePage))
      case None => None
  }

  /** The choice described without saying how it is made. */
  lemma ChooseIsBest(ds: seq<Descriptor>, b: nat, c: nat)
    ensures Choose(ds, b, c).Some? <==> exists j :: 0 <= j < |ds| && ds[j].IsFree() && ds[j].pageCount >= c
    ensures (exists j :: 0 <= j < |ds| && ds[j].IsFree() && ds[j].Holds(b, c)) ==>
        Choose(ds, b, c).Some? && Choose(ds, b, c).value.base == b
    ensures (forall j :: 0 <= j < |ds| && ds[j].IsFree() ==> !ds[j].Holds(b, c)) && Choose(ds, b, c).Some? ==>
              var x := Choose(ds, b, c).value;
              Smallest(ds, |ds|, c, x.index) && x.base == ds[x.index].basePage
  {
  }

  // The first descriptor of a page.
  function FirstOf(ds: seq<Descriptor>, p: nat): (r: Option<nat>)
    ensures match r
            case Some(k) => k < |ds| && ds[k].Has(p) && forall j :: 0 <= j < k ==> !ds[j].Has(p)
            case None => forall j :: 0 <= j < |ds| ==> !ds[j].Has(p)
    decreases |ds|
  {
    if ds == [] then None
    else
      var r := FirstOf(ds[..|ds| - 1], p);
      if r.Some? then r else if ds[|ds| - 1].Has(p) then Some(|ds| - 1) else None
  }

  datatype HeapOp =
    | AllocateBytes(size: nat)
    | AllocatePages(memoryType: nat, base: nat, count: nat)
    | ReleasePages(page: nat)  // from there to the end of its descriptor

  ghost function Do(h: Heap, op: HeapOp): Heap {
    match op
    case AllocateBytes(size) =>
      (match Allocate(h, Rounded(size)) case None => h case Some((_, h')) => h')
    case AllocatePages(t, b, c) =>
      (match Choose(h.ds, b, c) case None => h case Some(x) => Generate(h, x.index, t, x.base, c).1)
    case ReleasePages(p) =>
      match FirstOf(h.ds, p)
      case None => h
      case Some(k) => Generate(h, k, MEMORY_FREE, p, h.ds[k].basePage + h.ds[k].pageCount - p).1
  }

  // Allocations must be sound; pages are given back by those who had them allocated.
  ghost predicate SoundOp(h: Heap, op: HeapOp) {
    && (op.AllocatePages? ==>
          && op.count > 0
          && (Choose(h.ds, op.base, op.count).Some? ==>
                var x := Choose(h.ds, op.base, op.count).value;
                h.ds[x.index].pageCount < 0x8000_0000 && Sound(h, x.index, op.memoryType, x.base, op.count)))
    && (op.ReleasePages? && FirstOf(h.ds, op.page).Some? ==>
          var d := h.ds[FirstOf(h.ds, op.page).value]; !d.IsFree() && d.pageCount < 0x8000_0000)
  }

  ghost predicate SoundRun(h: Heap, ops: seq<HeapOp>)
    decreases |ops|
  {
    ops == [] || (h.free <= h.limit && SoundOp(h, ops[0]) && SoundRun(Do(h, ops[0]), ops[1..]))
  }

  ghost function After(h: Heap, ops: seq<HeapOp>): Heap
    decreases |ops|
  {
    if ops == [] then h else After(Do(h, ops[0]), ops[1..])
  }

  lemma DoKeepsPages(h: Heap, op: HeapOp)
    requires h.free <= h.limit && SoundOp(h, op)
    ensures SamePages(h.ds, Do(h, op).ds)
  {
    hide Count, Generate, Allocate, Choose, Sound, FirstOf, Effect;
    match op {
      case AllocateBytes(size) =>
        AllocateKeepsPages(h, Rounded(size));
      case AllocatePages(t, b, c) =>
        ChooseIsFree(h.ds, b, c);
        if Choose(h.ds, b, c).Some? {
          var x := Choose(h.ds, b, c).value;
          GenerateKeepsPagesIff(h, x.index, t, x.base, c);
        }
      case ReleasePages(p) =>
        if FirstOf(h.ds, p).Some? {
          var k := FirstOf(h.ds, p).value;
          var c := h.ds[k].basePage + h.ds[k].pageCount - p;
          ReleaseIsSound(h, k, p, c);
          GenerateKeepsPagesIff(h, k, MEMORY_FREE, p, c);
        }
    }
  }

  /** Over any run of heap and page allocations and releases, refills included, the
      descriptors keep describing exactly the pages they did, each as often: a tiling stays
      a tiling. */
  lemma {:induction false} RunKeepsPages(h: Heap, ops: seq<HeapOp>)
    requires SoundRun(h, ops)
    ensures SamePages(h.ds, After(h, ops).ds) && (Tiled(h.ds) <==> Tiled(After(h, ops).ds))
    decreases |ops|
  {
    hide Count, Do, SoundOp;
    if ops != [] {
      DoKeepsPages(h, ops[0]);
      RunKeepsPages(Do(h, ops[0]), ops[1..]);
      SamePagesTrans(h.ds, Do(h, ops[0]).ds, After(h, ops).ds);
    } else {
      assert After(h, ops) == h;
    }
    SameTiled(h.ds, After(h, ops).ds);
  }

  lemma SamePagesTrans(a: seq<Descriptor>, b: seq<Descriptor>, c: seq<Descriptor>)
    requires SamePages(a, b) && SamePages(b, c)
    ensures SamePages(a, c)
  {
    forall p: nat
      ensures Count(c, None, p) == Count(a, None, p)
    {
      assert Count(b, None, p) == Count(a, None, p);
    }
  }

  lemma SameTiled(a: seq<Descriptor>, b: seq<Descriptor>)
    requires SamePages(a, b)
    ensures Tiled(a) <==> Tiled(b)
  {
    forall p: nat
      ensures Count(b, None, p) == Count(a, None, p)
    {
    }
  }

  lemma ChooseIsFree(ds: seq<Descriptor>, b: nat, c: nat)
    ensures Choose(ds, b, c).Some? ==>
              var x := Choose(ds, b, c).value; x.index < |ds| && ds[x.index].IsFree() && ds[x.index].Holds(x.base, c)
  {
  }

  lemma AllocateKeepsPages(h: Heap, size: nat)
    ensures match Allocate(h, size) case None => true case Some((_, h')) => SamePages(h.ds, h'.ds)
  {
    if h.free + size > h.limit {
      var n := NewHeapPages(size);
      var r := FirstFit(h.ds, n);
      if r.Some? {
        CarvedRetypes(h.ds, r.value, n);
      }
    }
  }
}
