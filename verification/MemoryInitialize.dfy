/** Taking over memory from the firmware: its descriptor list is copied into a heap and
    stack carved from one of the free stretches of that very list. */
module MemoryInitialize {
  import opened FatFormat
  import opened MemoryDescriptors
  import opened BootMemory

  const RESERVED_PAGES := BL_STACK_PAGES + BL_HEAP_PAGES

  predicate Usable(d: Descriptor) {
    d.memoryType == MEMORY_FREE || d.memoryType == MEMORY_FREE_CONTIGUOUS
  }

  // The loader's copy of a firmware descriptor.
  function Copy(d: Descriptor, source: bool): Descriptor
    requires source ==> d.pageCount >= RESERVED_PAGES
  {
    Descriptor(
      if d.memoryType == MEMORY_FREE_CONTIGUOUS then MEMORY_FREE
      else if d.memoryType == MEMORY_SPECIAL_MEMORY then LOADER_SPECIAL_MEMORY
      else d.memoryType,
      d.basePage,
      if source then d.pageCount - RESERVED_PAGES else d.pageCount)
  }

  // The copies of the first n descriptors, heap and stack coming from number i.
  function Copied(fw: seq<Descriptor>, i: nat, n: nat): (r: seq<Descriptor>)
    requires i < |fw| && n <= |fw| && fw[i].pageCount >= RESERVED_PAGES
    ensures |r| == n
  {
    if n == 0 then [] else Copied(fw, i, n - 1) + [Copy(fw[n - 1], n - 1 == i)]
  }

  // The loader's list: the copies, the stack and the heap.
  function Initial(fw: seq<Descriptor>, i: nat): seq<Descriptor>
    requires i < |fw| && fw[i].pageCount >= RESERVED_PAGES
  {
    var end := fw[i].basePage + fw[i].pageCount;
    Copied(fw, i, |fw|) + [Descriptor(LOADER_OSLOADER_STACK, end - BL_STACK_PAGES, BL_STACK_PAGES)]
    + [Descriptor(LOADER_OSLOADER_HEAP, end - RESERVED_PAGES, BL_HEAP_PAGES)]
  }

  // A firmware list: known types, pages that exist, none described twice.
  ghost predicate Firmware(fw: seq<Descriptor>, pages: nat) {
    && InBounds(fw, pages) && Tiled(fw)
    && forall k :: 0 <= k < |fw| ==> fw[k].memoryType <= MEMORY_SPECIAL_MEMORY
  }

  lemma CopyCount(d: Descriptor, source: bool, p: nat)
    requires source ==> d.pageCount >= RESERVED_PAGES
    ensures One(Copy(d, source), None, p) == One(d, None, p)
        - (if source && InRegion(p, d.basePage + d.pageCount - RESERVED_PAGES, RESERVED_PAGES) then 1 else 0)
  {
  }

  lemma CopiedMore(fw: seq<Descriptor>, i: nat, n: nat, p: nat)
    requires i < |fw| && n < |fw| && fw[i].pageCount >= RESERVED_PAGES
    ensures Count(Copied(fw, i, n + 1), None, p)
        == Count(Copied(fw, i, n), None, p) + One(Copy(fw[n], n == i), None, p)
  {
    CountAppend(Copied(fw, i, n), Copy(fw[n], n == i), None, p);
  }

  lemma {:induction false} CopiedCount(fw: seq<Descriptor>, i: nat, n: nat, p: nat)
    requires i < |fw| && n <= |fw| && fw[i].pageCount >= RESERVED_PAGES
    ensures var b := fw[i].basePage + fw[i].pageCount - RESERVED_PAGES;
            Count(Copied(fw, i, n), None, p) == Count(fw[..n], None, p)
                - (if i < n && InRegion(p, b, RESERVED_PAGES) then 1 else 0)
    decreases n
  {
    hide Count, One, Copy, Copied, InRegion;
    if n == 0 {
      NoneCopied(fw, i, p);
    } else {
      CopiedCount(fw, i, n - 1, p);
      CopiedMore(fw, i, n - 1, p);
      CopyCount(fw[n - 1], n - 1 == i, p);
      CountAppend(fw[..n - 1], fw[n - 1], None, p);
      assert fw[..n] == fw[..n - 1] + [fw[n - 1]];
    }
  }

  // 1 for a page of the region, 0 for others.
  function Within(p: nat, b: nat, c: nat): nat {
    if InRegion(p, b, c) then 1 else 0
  }

  /** Page p is described by ds, type by type, as by the firmware's list, except that it
      may be one of `stack` and `heap`: contiguous memory is free, special memory has the
      loader's number for it, and everything else keeps its type. */
  ghost predicate Converted(fw: seq<Descriptor>, ds: seq<Descriptor>, p: nat, stack: nat, heap: nat, taken: nat) {
    && (forall t: nat ::
          t !in {MEMORY_FREE, LOADER_OSLOADER_HEAP, LOADER_OSLOADER_STACK, LOADER_SPECIAL_MEMORY} ==>
            Count(ds, Some(t), p) == Count(fw, Some(t), p))
    && Count(ds, Some(LOADER_SPECIAL_MEMORY), p) == Count(fw, Some(MEMORY_SPECIAL_MEMORY), p)
    && Count(ds, Some(LOADER_OSLOADER_STACK), p) == stack && Count(ds, Some(LOADER_OSLOADER_HEAP), p) == heap
    && Count(ds, Some(MEMORY_FREE), p) + taken
       == Count(fw, Some(MEMORY_FREE), p) + Count(fw, Some(MEMORY_FREE_CONTIGUOUS), p)
  }

  lemma CopyAppended(fw: seq<Descriptor>, ds: seq<Descriptor>, d: Descriptor, source: bool, p: nat, taken: nat)
    requires d.memoryType <= MEMORY_SPECIAL_MEMORY && (source ==> d.pageCount >= RESERVED_PAGES && Usable(d))
    requires Converted(fw, ds, p, 0, 0, taken)
    ensures var more := if source then Within(p, d.basePage + d.pageCount - RESERVED_PAGES, RESERVED_PAGES) else 0;
            Converted(fw + [d], ds + [Copy(d, source)], p, 0, 0, taken + more)
  {
    hide Count, Copy;
    forall t: Option<nat>
      ensures Count(fw + [d], t, p) == Count(fw, t, p) + One(d, t, p)
      ensures Count(ds + [Copy(d, source)], t, p) == Count(ds, t, p) + One(Copy(d, source), t, p)
    {
      CountAppend(fw, d, t, p);
      CountAppend(ds, Copy(d, source), t, p);
    }
    CopyTypes(d, source);
  }

  lemma CopyTypes(d: Descriptor, source: bool)
    requires source ==> d.pageCount >= RESERVED_PAGES
    ensures Copy(d, source).memoryType == if Usable(d) then MEMORY_FREE
        else if d.memoryType == MEMORY_SPECIAL_MEMORY then LOADER_SPECIAL_MEMORY else d.memoryType
    ensures Copy(d, source).basePage == d.basePage
        && Copy(d, source).pageCount == d.pageCount - (if source then RESERVED_PAGES else 0)
  {
  }

  lemma {:induction false} CopiedConverts(fw: seq<Descriptor>, i: nat, n: nat, p: nat)
    requires i < |fw| && n <= |fw| && fw[i].pageCount >= RESERVED_PAGES && Usable(fw[i])
    requires forall k :: 0 <= k < |fw| ==> fw[k].memoryType <= MEMORY_SPECIAL_MEMORY
    ensures var b := fw[i].basePage + fw[i].pageCount - RESERVED_PAGES;
            Converted(fw[..n], Copied(fw, i, n), p, 0, 0, if i < n then Within(p, b, RESERVED_PAGES) else 0)
    decreases n
  {
    hide Copy, Converted, Usable, Within;
    if n == 0 {
      NoneConverted(fw, i, p);
    } else {
      CopiedConverts(fw, i, n - 1, p);
      var b := fw[i].basePage + fw[i].pageCount - RESERVED_PAGES;
      CopyAppended(fw[..n - 1], Copied(fw, i, n - 1), fw[n - 1], n - 1 == i, p,
                   if i < n - 1 then Within(p, b, RESERVED_PAGES) else 0);
      assert fw[..n] == fw[..n - 1] + [fw[n - 1]];
    }
  }

  lemma NoneConverted(fw: seq<Descriptor>, i: nat, p: nat)
    requires i < |fw| && fw[i].pageCount >= RESERVED_PAGES
    ensures Converted(fw[..0], Copied(fw, i, 0), p, 0, 0, 0)
  {
  }

  lemma NoneCopied(fw: seq<Descriptor>, i: nat, p: nat)
    requires i < |fw| && fw[i].pageCount >= RESERVED_PAGES
    ensures Count(Copied(fw, i, 0), None, p) == Count(fw[..0], None, p)
  {
  }

  /** The loader's list describes exactly the pages the firmware's did; the heap pages
      are the ones the heap was put in. */
  lemma InitialKeepsPages(fw: seq<Descriptor>, i: nat)
    requires i < |fw| && fw[i].pageCount >= RESERVED_PAGES
    ensures SamePages(fw, Initial(fw, i))
  {
    forall p: nat
      ensures Count(Initial(fw, i), None, p) == Count(fw, None, p)
    {
      InitialCount(fw, i, None, p);
      CopiedCount(fw, i, |fw|, p);
      assert fw[..|fw|] == fw;
    }
  }

  lemma InitialCount(fw: seq<Descriptor>, i: nat, t: Option<nat>, p: nat)
    requires i < |fw| && fw[i].pageCount >= RESERVED_PAGES
    ensures var end := fw[i].basePage + fw[i].pageCount;
            Count(Initial(fw, i), t, p) == Count(Copied(fw, i, |fw|), t, p)
              + One(Descriptor(LOADER_OSLOADER_STACK, end - BL_STACK_PAGES, BL_STACK_PAGES), t, p)
              + One(Descriptor(LOADER_OSLOADER_HEAP, end - RESERVED_PAGES, BL_HEAP_PAGES), t, p)
  {
    var end := fw[i].basePage + fw[i].pageCount;
    var a, x := Copied(fw, i, |fw|), Descriptor(LOADER_OSLOADER_STACK, end - BL_STACK_PAGES, BL_STACK_PAGES);
    CountAppend(a, x, t, p);
    CountAppend(a + [x], Descriptor(LOADER_OSLOADER_HEAP, end - RESERVED_PAGES, BL_HEAP_PAGES), t, p);
  }

  /** The loader's list, type by type, before any refill: the stack is the last 8 pages of
      number i, the heap the 16 before, and no other page changes hands. */
  lemma InitialConverts(fw: seq<Descriptor>, i: nat, p: nat)
    requires i < |fw| && fw[i].pageCount >= RESERVED_PAGES && Usable(fw[i])
    requires forall k :: 0 <= k < |fw| ==> fw[k].memoryType <= MEMORY_SPECIAL_MEMORY
    ensures var end := fw[i].basePage + fw[i].pageCount;
            Converted(fw, Initial(fw, i), p, Within(p, end - 8, 8), Within(p, end - 24, 16), Within(p, end - 24, 24))
  {
    hide Count, Copied, Initial, Usable;
    CopiedConverts(fw, i, |fw|, p);
    assert fw[..|fw|] == fw;
    forall t: Option<nat>
      ensures var end := fw[i].basePage + fw[i].pageCount;
              Count(Initial(fw, i), t, p) == Count(Copied(fw, i, |fw|), t, p)
                + One(Descriptor(LOADER_OSLOADER_STACK, end - BL_STACK_PAGES, BL_STACK_PAGES), t, p)
                + One(Descriptor(LOADER_OSLOADER_HEAP, end - RESERVED_PAGES, BL_HEAP_PAGES), t, p)
    {
      InitialCount(fw, i, t, p);
    }
  }

  // Where the loader takes its heap and stack from: the first free stretch that ends
  // where the loaded program starts, if that is large enough, else the first one that is.
  ghost predicate IsSource(fw: seq<Descriptor>, programBase: nat, i: nat) {
    && i < |fw| && Usable(fw[i]) && fw[i].pageCount >= RESERVED_PAGES
    && if fw[i].basePage + fw[i].pageCount == programBase && (forall k :: 0 <= k < i ==> !EndsAt(fw[k], programBase))
        then true
       else (forall k :: 0 <= k < i ==> !(Usable(fw[k]) && fw[k].pageCount >= RESERVED_PAGES))
            && forall k :: 0 <= k < |fw| && EndsAt(fw[k], programBase) && (forall j :: 0 <= j < k ==>
                !EndsAt(fw[j], programBase)) ==>
                fw[k].pageCount < RESERVED_PAGES
  }

  predicate EndsAt(d: Descriptor, page: nat) {
    Usable(d) && d.basePage + d.pageCount == page
  }

  method FindSource(fw: seq<Descriptor>, programBase: nat) returns (i: nat)
    ensures i <= |fw|
    ensures i < |fw| ==> IsSource(fw, programBase, i)
    ensures i == |fw| ==> forall k :: 0 <= k < |fw| ==> !(Usable(fw[k]) && fw[k].pageCount >= RESERVED_PAGES)
  {
    i := 0;
    while i < |fw| && !EndsAt(fw[i], programBase)
      invariant i <= |fw| && forall k :: 0 <= k < i ==> !EndsAt(fw[k], programBase)
    {
      i := i + 1;
    }
    ghost var below := i;
    if i == |fw| || fw[i].pageCount < RESERVED_PAGES {
      i := 0;
      while i < |fw| && !(Usable(fw[i]) && fw[i].pageCount >= RESERVED_PAGES)
        invariant i <= |fw| && forall k :: 0 <= k < i ==> !(Usable(fw[k]) && fw[k].pageCount >= RESERVED_PAGES)
      {
        i := i + 1;
      }
    }
  }

  // The page where the loaded program starts, if one is listed.
  method FindProgram(fw: seq<Descriptor>) returns (base: Option<nat>)
    ensures base.None? <==> forall k :: 0 <= k < |fw| ==> fw[k].memoryType != MEMORY_LOADED_PROGRAM
    ensures base.Some? ==> exists k ::
        && 0 <= k < |fw| && fw[k].memoryType == MEMORY_LOADED_PROGRAM && base.value == fw[k].basePage
        && forall j :: 0 <= j < k ==> fw[j].memoryType != MEMORY_LOADED_PROGRAM
  {
    var k := 0;
    while k < |fw|
      invariant k <= |fw| && forall j :: 0 <= j < k ==> fw[j].memoryType != MEMORY_LOADED_PROGRAM
    {
      if fw[k].memoryType == MEMORY_LOADED_PROGRAM {
        return Some(fw[k].basePage);
      }
      k := k + 1;
    }
    return None;
  }

  // Allocating a descriptor and putting it on the list.
  function Added(h: Heap, x: Descriptor): Option<Heap> {
    match Allocate(h, Rounded(DESCRIPTOR_SIZE))
    case None => None
    case Some((_, h')) => Some(h'.(ds := h'.ds + [x]))
  }

  // The same for the copies of the first n descriptors.
  function AddedCopies(h: Heap, fw: seq<Descriptor>, i: nat, n: nat): Option<Heap>
    requires i < |fw| && n <= |fw| && fw[i].pageCount >= RESERVED_PAGES
  {
    if n == 0 then Some(h)
    else
      match AddedCopies(h, fw, i, n - 1)
      case None => None
      case Some(h') => Added(h', Copy(fw[n - 1], n - 1 == i))
  }

  // The heap and stack taken from number i.
  function HeapOf(fw: seq<Descriptor>, i: nat): Descriptor
    requires i < |fw| && fw[i].pageCount >= RESERVED_PAGES
  {
    Descriptor(LOADER_OSLOADER_HEAP, fw[i].basePage + fw[i].pageCount - RESERVED_PAGES, BL_HEAP_PAGES)
  }

  function StackOf(fw: seq<Descriptor>, i: nat): Descriptor
    requires i < |fw| && fw[i].pageCount >= RESERVED_PAGES
  {
    Descriptor(LOADER_OSLOADER_STACK, fw[i].basePage + fw[i].pageCount - BL_STACK_PAGES, BL_STACK_PAGES)
  }

  // The heap with the parameter block in it.
  function Start(fw: seq<Descriptor>, i: nat, parameterBlockSize: nat): Heap
    requires i < |fw| && fw[i].pageCount >= RESERVED_PAGES
  {
    var b := HeapOf(fw, i).basePage;
    Heap(b * PAGE_SIZE + Rounded(parameterBlockSize), (b + BL_HEAP_PAGES) * PAGE_SIZE - DESCRIPTOR_SIZE, [])
  }

  // The stack and the heap itself come last.
  function Finished(h: Heap, fw: seq<Descriptor>, i: nat): Option<Heap>
    requires i < |fw| && fw[i].pageCount >= RESERVED_PAGES
  {
    match Added(h, StackOf(fw, i))
    case None => None
    case Some(h') => Added(h', HeapOf(fw, i))
  }

  /** Taking the list over: the heap in the end, if memory for every descriptor can be had,
      the heap being refilled from the copies made so far. */
  function TakenOver(fw: seq<Descriptor>, i: nat, parameterBlockSize: nat): Option<Heap>
    requires i < |fw| && fw[i].pageCount >= RESERVED_PAGES
  {
    match AddedCopies(Start(fw, i, parameterBlockSize), fw, i, |fw|)
    case None => None
    case Some(h) => Finished(h, fw, i)
  }

  /** From ds to ds', page p keeps its type, or goes from free to heap in a refill. */
  ghost predicate HeapFromFree(ds: seq<Descriptor>, ds': seq<Descriptor>, p: nat) {
    && Count(ds', None, p) == Count(ds, None, p)
    && (forall t: nat :: t != MEMORY_FREE && t != LOADER_OSLOADER_HEAP ==>
          Count(ds', Some(t), p) == Count(ds, Some(t), p))
    && Count(ds', Some(LOADER_OSLOADER_HEAP), p) >= Count(ds, Some(LOADER_OSLOADER_HEAP), p)
    && Count(ds', Some(MEMORY_FREE), p) + Count(ds', Some(LOADER_OSLOADER_HEAP), p)
       == Count(ds, Some(MEMORY_FREE), p) + Count(ds, Some(LOADER_OSLOADER_HEAP), p)
  }

  lemma AllocateFromFree(h: Heap, size: nat, p: nat)
    ensures Allocate(h, size).Some? ==> HeapFromFree(h.ds, Allocate(h, size).value.1.ds, p)
  {
    hide Count, Carved;
    if h.free + size > h.limit {
      var n := NewHeapPages(size);
      var r := FirstFit(h.ds, n);
      if r.Some? {
        CarvedRetypes(h.ds, r.value, n);
      }
    }
  }

  lemma AddedPages(h: Heap, x: Descriptor, ds: seq<Descriptor>, p: nat)
    requires HeapFromFree(ds, h.ds, p)
    ensures Added(h, x).Some? ==> HeapFromFree(ds + [x], Added(h, x).value.ds, p)
  {
    hide Count, Allocate;
    AllocateFromFree(h, Rounded(DESCRIPTOR_SIZE), p);
    if Added(h, x).Some? {
      var h' := Allocate(h, Rounded(DESCRIPTOR_SIZE)).value.1;
      forall t: Option<nat>
        ensures Count(ds + [x], t, p) == Count(ds, t, p) + One(x, t, p)
        ensures Count(h'.ds + [x], t, p) == Count(h'.ds, t, p) + One(x, t, p)
      {
        CountAppend(ds, x, t, p);
        CountAppend(h'.ds, x, t, p);
      }
    }
  }

  lemma SameAppended(ds: seq<Descriptor>, ds': seq<Descriptor>, x: Descriptor)
    requires SamePages(ds, ds')
    ensures SamePages(ds + [x], ds' + [x])
  {
    hide Count;
    forall p: nat
      ensures Count(ds' + [x], None, p) == Count(ds + [x], None, p)
    {
      CountAppend(ds, x, None, p);
      CountAppend(ds', x, None, p);
    }
  }

  lemma {:induction false} CopiesPages(h: Heap, fw: seq<Descriptor>, i: nat, n: nat, p: nat)
    requires i < |fw| && n <= |fw| && fw[i].pageCount >= RESERVED_PAGES && h.ds == []
    ensures AddedCopies(h, fw, i, n).Some? ==> HeapFromFree(Copied(fw, i, n), AddedCopies(h, fw, i, n).value.ds, p)
    decreases n
  {
    hide Added, Copy;
    if n > 0 {
      CopiesPages(h, fw, i, n - 1, p);
      if AddedCopies(h, fw, i, n - 1).Some? {
        AddedPages(AddedCopies(h, fw, i, n - 1).value, Copy(fw[n - 1], n - 1 == i), Copied(fw, i, n - 1), p);
      }
    }
  }

  lemma TakenOverPage(fw: seq<Descriptor>, i: nat, parameterBlockSize: nat, p: nat)
    requires i < |fw| && fw[i].pageCount >= RESERVED_PAGES
    ensures TakenOver(fw, i, parameterBlockSize).Some? ==>
              HeapFromFree(Initial(fw, i), TakenOver(fw, i, parameterBlockSize).value.ds, p)
  {
    hide Added, AddedCopies, Count, Copied, HeapFromFree;
    var start := Start(fw, i, parameterBlockSize);
    CopiesPages(start, fw, i, |fw|, p);
    if TakenOver(fw, i, parameterBlockSize).Some? {
      var h := AddedCopies(start, fw, i, |fw|).value;
      AddedPages(h, StackOf(fw, i), Copied(fw, i, |fw|), p);
      AddedPages(Added(h, StackOf(fw, i)).value, HeapOf(fw, i), Copied(fw, i, |fw|) + [StackOf(fw, i)], p);
    }
  }

  /** Whatever refills there were, the loader's list describes exactly the pages the
      firmware's did. */
  lemma TakenOverPages(fw: seq<Descriptor>, i: nat, parameterBlockSize: nat)
    requires i < |fw| && fw[i].pageCount >= RESERVED_PAGES
    ensures TakenOver(fw, i, parameterBlockSize).Some? ==> SamePages(fw, TakenOver(fw, i, parameterBlockSize).value.ds)
  {
    hide TakenOver, Initial, Count;
    if TakenOver(fw, i, parameterBlockSize).Some? {
      var ds := TakenOver(fw, i, parameterBlockSize).value.ds;
      InitialKeepsPages(fw, i);
      forall p: nat
        ensures Count(ds, None, p) == Count(fw, None, p)
      {
        TakenOverPage(fw, i, parameterBlockSize, p);
        assert Count(Initial(fw, i), None, p) == Count(fw, None, p);
      }
    }
  }

  /** Page p is described as by the firmware's list, type by type, except that the last 8
      pages of number i are stack, the 16 before them heap, and some that were free are heap
      as well, put there by refills. */
  ghost predicate Converts(fw: seq<Descriptor>, i: nat, ds: seq<Descriptor>, p: nat)
    requires i < |fw| && fw[i].pageCount >= RESERVED_PAGES
  {
    var end, heap := fw[i].basePage + fw[i].pageCount, Count(ds, Some(LOADER_OSLOADER_HEAP), p);
    && heap >= Within(p, end - 24, 16)
    && Converted(fw, ds, p, Within(p, end - 8, 8), heap, Within(p, end - 8, 8) + heap)
  }

  /** So it is for every page, whatever refills there were. */
  lemma TakenOverConverts(fw: seq<Descriptor>, i: nat, parameterBlockSize: nat, p: nat)
    requires i < |fw| && fw[i].pageCount >= RESERVED_PAGES && Usable(fw[i])
    requires forall k :: 0 <= k < |fw| ==> fw[k].memoryType <= MEMORY_SPECIAL_MEMORY
    ensures TakenOver(fw, i, parameterBlockSize).Some? ==>
              Converts(fw, i, TakenOver(fw, i, parameterBlockSize).value.ds, p)
  {
    hide TakenOver, Initial, Count;
    InitialConverts(fw, i, p);
    TakenOverPage(fw, i, parameterBlockSize, p);
  }

  /** What is free for the loader to hand out was free for the firmware: never a page of the
      firmware or of the loaded program. */
  lemma FreeWasFree(fw: seq<Descriptor>, i: nat, ds: seq<Descriptor>, k: nat, p: nat) returns (j: nat)
    requires i < |fw| && fw[i].pageCount >= RESERVED_PAGES && Converts(fw, i, ds, p)
    requires k < |ds| && ds[k].IsFree() && ds[k].Has(p)
    ensures j < |fw| && Usable(fw[j]) && fw[j].Has(p)
  {
    CountUpdate(ds, k, ds[k], Some(MEMORY_FREE), p);
    if Count(fw, Some(MEMORY_FREE), p) > 0 {
      j := Counted(fw, MEMORY_FREE, p);
    } else {
      j := Counted(fw, MEMORY_FREE_CONTIGUOUS, p);
    }
  }

  lemma {:induction false} Counted(ds: seq<Descriptor>, t: nat, p: nat) returns (k: nat)
    requires Count(ds, Some(t), p) > 0
    ensures k < |ds| && ds[k].Has(p) && ds[k].memoryType == t
    decreases |ds|
  {
    k := |ds| - 1;
    if One(ds[k], Some(t), p) == 0 {
      k := Counted(ds[..k], t, p);
    }
  }

  lemma {:induction false} CopiesFit(h: Heap, fw: seq<Descriptor>, i: nat, n: nat)
    requires i < |fw| && n <= |fw| && fw[i].pageCount >= RESERVED_PAGES && h.ds == []
    requires h.free + n * NODE <= h.limit
    ensures AddedCopies(h, fw, i, n) == Some(h.(free := h.free + n * NODE, ds := Copied(fw, i, n)))
    decreases n
  {
    hide Added, Copy;
    if n > 0 {
      CopiesFit(h, fw, i, n - 1);
      AddedFits(h.(free := h.free + (n - 1) * NODE, ds := Copied(fw, i, n - 1)), Copy(fw[n - 1], n - 1 == i));
    }
  }

  lemma AddedFits(h: Heap, x: Descriptor)
    requires h.free + NODE <= h.limit
    ensures Added(h, x) == Some(h.(free := h.free + NODE, ds := h.ds + [x]))
  {
  }

  /** A list that fits the first heap, as real ones do by far, is taken over as it is, with
      the stack and the heap at its end. */
  lemma TakenOverFits(fw: seq<Descriptor>, i: nat, parameterBlockSize: nat)
    requires i < |fw| && fw[i].pageCount >= RESERVED_PAGES
    requires Rounded(parameterBlockSize) + (|fw| + 2) * NODE <= BL_HEAP_PAGES * PAGE_SIZE - DESCRIPTOR_SIZE
    ensures var h := TakenOver(fw, i, parameterBlockSize);
            && h.Some? && h.value.ds == Initial(fw, i)
            && h.value.free == HeapOf(fw, i).basePage * PAGE_SIZE + Rounded(parameterBlockSize) + (|fw| + 2) * NODE
  {
    hide AddedCopies, Copied;
    var start := Start(fw, i, parameterBlockSize);
    CopiesFit(start, fw, i, |fw|);
  }

  // While the list is being made, no page is described twice.
  lemma {:induction false} PrefixCount(fw: seq<Descriptor>, i: nat, n: nat, p: nat)
    requires i < |fw| && n <= |fw|
    ensures Count(fw[..n], None, p) + (if i < n then 0 else One(fw[i], None, p)) <= Count(fw, None, p)
    decreases |fw|
  {
    hide One;
    if n < |fw| {
      var last := |fw| - 1;
      if i < last {
        PrefixCount(fw[..last], i, n, p);
        assert fw[..last][..n] == fw[..n];
      } else if n < last {
        PrefixCount(fw[..last], 0, n, p);
        assert fw[..last][..n] == fw[..n];
      }
    } else {
      assert fw[..n] == fw;
    }
  }

  lemma OnceSoFar(fw: seq<Descriptor>, i: nat, n: nat, ds: seq<Descriptor>, x: Descriptor, pages: nat)
    requires Firmware(fw, pages) && i < |fw| && fw[i].pageCount >= RESERVED_PAGES && n < |fw|
    requires x == Copy(fw[n], n == i) && SamePages(Copied(fw, i, n), ds)
    ensures AllOnce([HeapOf(fw, i)] + (ds + [x]))
  {
    hide Count, Copied;
    var all := [HeapOf(fw, i)] + (ds + [x]);
    forall p: nat
      ensures Count(all, None, p) <= 1
    {
      CountPrepend(HeapOf(fw, i), ds + [x], None, p);
      CountAppend(ds, x, None, p);
      assert Count(ds, None, p) == Count(Copied(fw, i, n), None, p);
      CopiedCount(fw, i, n, p);
      CopiedCount(fw, i, n + 1, p);
      CopiedMore(fw, i, n, p);
      PrefixCount(fw, i, n + 1, p);
      assert Count(fw, None, p) <= 1;
    }
    TiledOnce(all);
  }

  // With the stack, and the heap still to come.
  lemma OnceAtEnd(fw: seq<Descriptor>, i: nat, ds: seq<Descriptor>, pages: nat)
    requires Firmware(fw, pages) && i < |fw| && fw[i].pageCount >= RESERVED_PAGES
    requires SamePages(Copied(fw, i, |fw|), ds)
    ensures AllOnce([HeapOf(fw, i)] + (ds + [StackOf(fw, i)]))
  {
    hide Count, Copied;
    var all := [HeapOf(fw, i)] + (ds + [StackOf(fw, i)]);
    forall p: nat
      ensures Count(all, None, p) <= 1
    {
      CountPrepend(HeapOf(fw, i), ds + [StackOf(fw, i)], None, p);
      CountAppend(ds, StackOf(fw, i), None, p);
      assert Count(ds, None, p) == Count(Copied(fw, i, |fw|), None, p);
      CopiedCount(fw, i, |fw|, p);
      assert fw[..|fw|] == fw;
      PrefixCount(fw, i, |fw|, p);
      UpdateAtLeast(fw, i, p);
      assert Count(fw, None, p) <= 1;
    }
    TiledOnce(all);
  }

  lemma UpdateAtLeast(fw: seq<Descriptor>, i: nat, p: nat)
    requires i < |fw|
    ensures Count(fw, None, p) >= One(fw[i], None, p)
  {
    CountUpdate(fw, i, fw[i], None, p);
  }

  // Memory for one more descriptor, the list keeping its pages.
  method AddNode(m: BootMemory, ghost ds: seq<Descriptor>) returns (more: bool)
    requires m.Working() && SamePages(ds, m.descriptors)
    modifies m
    ensures m.Working() && |m.memory| == old(|m.memory|) && m.pending == old(m.pending)
    ensures more <==> Allocate(old(m.State()), Rounded(DESCRIPTOR_SIZE)).Some?
    ensures more ==> m.State() == Allocate(old(m.State()), Rounded(DESCRIPTOR_SIZE)).value.1
    ensures SamePages(ds, m.descriptors)
  {
    hide Count, Allocate, BootMemory.Working;
    ghost var h := m.State();
    AllocateKeepsPages(h, Rounded(DESCRIPTOR_SIZE));
    m.LaidFacts();
    var block := m.AllocateHeap(DESCRIPTOR_SIZE);
    if block.Some? {
      SamePagesTrans(ds, h.ds, m.descriptors);
    }
    more := block.Some?;
  }

  method AddCopies(m: BootMemory, fw: seq<Descriptor>, i: nat) returns (more: bool)
    requires m.Working() && m.descriptors == [] && Firmware(fw, |m.memory| / PAGE_SIZE)
    requires i < |fw| && fw[i].pageCount >= RESERVED_PAGES && m.pending == [HeapOf(fw, i)]
    modifies m
    ensures m.Working() && |m.memory| == old(|m.memory|) && m.pending == old(m.pending)
    ensures more <==> AddedCopies(old(m.State()), fw, i, |fw|).Some?
    ensures more ==> m.State() == AddedCopies(old(m.State()), fw, i, |fw|).value
    ensures more ==> SamePages(Copied(fw, i, |fw|), m.descriptors)
  {
    hide Count, Allocate, BootMemory.Working, Tiled, Copy, AllOnce;
    ghost var start := m.State();
    SameAsIs();
    for n := 0 to |fw|
      invariant m.Working() && |m.memory| == old(|m.memory|) && m.pending == old(m.pending)
      invariant AddedCopies(start, fw, i, n) == Some(m.State())
      invariant SamePages(Copied(fw, i, n), m.descriptors)
    {
      more := AddNode(m, Copied(fw, i, n));
      if !more {
        NoneFromThen(start, fw, i, n + 1, |fw|);
        return;
      }
      ghost var x, ds := Copy(fw[n], n == i), m.descriptors;
      OnceSoFar(fw, i, n, ds, x, |m.memory| / PAGE_SIZE);
      CopyInBounds(fw, i, n, |m.memory| / PAGE_SIZE);
      SameAppended(Copied(fw, i, n), ds, x);
      m.InsertTail(Copy(fw[n], n == i));
    }
    more := true;
  }

  lemma SameAsIs()
    ensures SamePages([], [])
  {
  }

  lemma CopyInBounds(fw: seq<Descriptor>, i: nat, n: nat, pages: nat)
    requires Firmware(fw, pages) && i < |fw| && n < |fw| && fw[i].pageCount >= RESERVED_PAGES
    ensures Copy(fw[n], n == i).basePage + Copy(fw[n], n == i).pageCount <= pages
  {
  }

  lemma {:induction false} NoneFromThen(h: Heap, fw: seq<Descriptor>, i: nat, n: nat, n': nat)
    requires i < |fw| && n <= n' <= |fw| && fw[i].pageCount >= RESERVED_PAGES && AddedCopies(h, fw, i, n).None?
    ensures AddedCopies(h, fw, i, n').None?
    decreases n'
  {
    if n < n' {
      NoneFromThen(h, fw, i, n, n' - 1);
    }
  }

  // The heap and stack come from number i, as the program listed tells.
  ghost predicate Source(fw: seq<Descriptor>, i: nat) {
    exists k :: 0 <= k < |fw| && fw[k].memoryType == MEMORY_LOADED_PROGRAM
        && (forall j :: 0 <= j < k ==> fw[j].memoryType != MEMORY_LOADED_PROGRAM) && IsSource(fw, fw[k].basePage, i)
  }

  ghost predicate NoSource(fw: seq<Descriptor>) {
    || (forall k :: 0 <= k < |fw| ==> fw[k].memoryType != MEMORY_LOADED_PROGRAM)
    || forall k :: 0 <= k < |fw| ==> !(Usable(fw[k]) && fw[k].pageCount >= RESERVED_PAGES)
  }

  /** Taking over the firmware's memory list, refilling the heap on the way if need be: the
      outcome is TakenOver's, and the list describes the firmware's pages. The parameter
      block itself must fit the first heap. */
  method MemoryInitialize(fw: seq<Descriptor>, memory: seq<Byte>, parameterBlockSize: nat)
    returns (status: MemoryStatus, m: BootMemory?, ghost i: nat)
    requires Firmware(fw, |memory| / PAGE_SIZE) && |memory| < 0x4000_0000
    requires Rounded(parameterBlockSize) <= BL_HEAP_PAGES * PAGE_SIZE - DESCRIPTOR_SIZE
    ensures NoSource(fw) ==> status == NO_MEMORY
    ensures !NoSource(fw) ==>
              && i < |fw| && fw[i].pageCount >= RESERVED_PAGES && Source(fw, i)
              && match TakenOver(fw, i, parameterBlockSize)
                 case None => status == NO_MEMORY
                 case Some(h) =>
                   && status == SUCCESS && m != null && fresh(m) && m.Valid() && m.State() == h
                   && SamePages(fw, m.descriptors) && forall p: nat :: Converts(fw, i, m.descriptors, p)
  {
    hide Converts, Count, Laid, Once, HeapByte, TakenOver, BootMemory.Valid, BootMemory.Working;
    m, i := null, 0;
    var program := FindProgram(fw);
    if program == None {
      return NO_MEMORY, null, 0;
    }
    var place := FindSource(fw, program.value);
    i := place;
    if place == |fw| {
      return NO_MEMORY, null, i;
    }
    var built, list := Build(fw, memory, parameterBlockSize, place);
    TakenOverPages(fw, place, parameterBlockSize);
    forall p: nat
      ensures TakenOver(fw, place, parameterBlockSize).Some? ==>
                Converts(fw, place, TakenOver(fw, place, parameterBlockSize).value.ds, p)
    {
      TakenOverConverts(fw, place, parameterBlockSize, p);
    }
    if !built {
      return NO_MEMORY, null, i;
    }
    return SUCCESS, list, i;
  }

  method Build(fw: seq<Descriptor>, memory: seq<Byte>, parameterBlockSize: nat, i: nat)
    returns (built: bool, m: BootMemory)
    requires Firmware(fw, |memory| / PAGE_SIZE) && |memory| < 0x4000_0000 && i < |fw|
    requires fw[i].pageCount >= RESERVED_PAGES
    requires Rounded(parameterBlockSize) <= BL_HEAP_PAGES * PAGE_SIZE - DESCRIPTOR_SIZE
    ensures fresh(m) && (built <==> TakenOver(fw, i, parameterBlockSize).Some?)
    ensures built ==> m.Valid() && m.State() == TakenOver(fw, i, parameterBlockSize).value
  {
    hide Count, AddedCopies, Finished, Tiled;
    m := Begin(fw, memory, parameterBlockSize, i);
    built := AddCopies(m, fw, i);
    if built {
      built := Finish(m, fw, i);
      if built {
        NowTiled(fw, i, parameterBlockSize, m.descriptors);
      }
    }
  }

  // The first heap, with the parameter block.
  method Begin(fw: seq<Descriptor>, memory: seq<Byte>, parameterBlockSize: nat, i: nat) returns (m: BootMemory)
    requires Firmware(fw, |memory| / PAGE_SIZE) && |memory| < 0x4000_0000 && i < |fw|
    requires fw[i].pageCount >= RESERVED_PAGES
    requires Rounded(parameterBlockSize) <= BL_HEAP_PAGES * PAGE_SIZE - DESCRIPTOR_SIZE
    ensures fresh(m) && m.Working() && |m.memory| == |memory| && m.State() == Start(fw, i, parameterBlockSize)
    ensures m.pending == [HeapOf(fw, i)]
  {
    hide Count, BootMemory.Working, Tiled;
    m := new BootMemory(fw[i].basePage + fw[i].pageCount - RESERVED_PAGES, memory);
    RoundedUp(parameterBlockSize);
    var block := m.AllocateHeap(parameterBlockSize);
  }

  // The last two descriptors.
  method Finish(m: BootMemory, fw: seq<Descriptor>, i: nat) returns (more: bool)
    requires m.Working() && Firmware(fw, |m.memory| / PAGE_SIZE)
    requires i < |fw| && fw[i].pageCount >= RESERVED_PAGES && m.pending == [HeapOf(fw, i)]
    requires SamePages(Copied(fw, i, |fw|), m.descriptors)
    modifies m
    ensures more <==> Finished(old(m.State()), fw, i).Some?
    ensures more ==> m.Working() && m.pending == [] && m.State() == Finished(old(m.State()), fw, i).value
  {
    hide Count, Allocate, BootMemory.Working, SamePages, Firmware, AllOnce, Copied;
    ghost var ds := Copied(fw, i, |fw|);
    more := AddNode(m, ds);
    if !more {
      return;
    }
    OnceAtEnd(fw, i, m.descriptors, |m.memory| / PAGE_SIZE);
    SameAppended(ds, m.descriptors, StackOf(fw, i));
    StackInBounds(fw, i, |m.memory| / PAGE_SIZE);
    var end := fw[i].basePage + fw[i].pageCount;
    m.InsertTail(Descriptor(LOADER_OSLOADER_STACK, end - BL_STACK_PAGES, BL_STACK_PAGES));
    more := AddNode(m, ds + [StackOf(fw, i)]);
    if !more {
      return;
    }
    m.InsertPending(Descriptor(LOADER_OSLOADER_HEAP, end - RESERVED_PAGES, BL_HEAP_PAGES));
  }

  lemma StackInBounds(fw: seq<Descriptor>, i: nat, pages: nat)
    requires Firmware(fw, pages) && i < |fw| && fw[i].pageCount >= RESERVED_PAGES
    ensures StackOf(fw, i).basePage + StackOf(fw, i).pageCount <= pages
  {
  }

  lemma NowTiled(fw: seq<Descriptor>, i: nat, parameterBlockSize: nat, ds: seq<Descriptor>)
    requires Tiled(fw) && i < |fw| && fw[i].pageCount >= RESERVED_PAGES
    requires TakenOver(fw, i, parameterBlockSize).Some? && ds == TakenOver(fw, i, parameterBlockSize).value.ds
    ensures Tiled(ds)
  {
    hide TakenOver, Count;
    TakenOverPages(fw, i, parameterBlockSize);
    SameTiled(fw, ds);
  }
}
