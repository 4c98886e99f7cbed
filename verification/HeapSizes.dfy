/** Sizes in kernel/src/memory/heap.c: how many pages a large block takes, how long
    a returned region is, and on which memory kmalloc succeeds. */
module HeapSizes {
  import opened Bits
  import opened BuddyPool
  import opened BuddyOps
  import opened BuddyCanonical
  import opened BuddyRuns
  import opened SlabHeap
  import opened HeapTheorems

  /* ---- Pages of a large block ---- */

  /** The sums of kmalloc over a large size do not wrap in 64 bits. */
  predicate SumFits(size: nat) {
    size + LARGE_HEADER + (PAGE_SIZE - 1) < WORD
  }

  /** A large block has the least number of pages that hold the size and the header. */
  lemma LargePagesLeast(size: nat, n: nat)
    requires SumFits(size)
    ensures LargePages(size) <= n <==> size + LARGE_HEADER <= n * PAGE_SIZE
  {
  }

  /** Where the sums wrap the count is 0 or 1. */
  lemma LargePagesWrapped(size: nat)
    requires !SumFits(size) && size < WORD
    ensures LargePages(size) == if size + LARGE_HEADER > WORD then 1 else 0
  {
  }

  /* ---- Length of what is returned ---- */

  function Length(h: Heap, x: Object): int
    requires InUse(h, x)
  {
    RegionOf(h, x).hi - RegionOf(h, x).lo
  }

  /** Long enough, and little wasted: a small region has 8 bytes or less than twice
      the size, a large one less than a page more than the size. */
  predicate Fitting(size: nat, length: int) {
    && size <= length
    && if size <= 2048 then length == 8 || 8 < length < 2 * size else length < size + PAGE_SIZE
  }

  /** What kmalloc returns fits the request. */
  lemma LengthBounds(t: OffsetTest, h: Heap, size: nat, h': Heap, x: Object)
    requires Sound(h) && Linkable(h) && SumFits(size) && (h', x) == Kmalloc(t, h, size) && x != Null
    ensures InUse(h', x) && Fitting(size, Length(h', x))
  {
    hide Sound, Refill, Take, AllocPages, LargePages;
    var c := CacheIndex(size);
    CacheIndexIsLeast(size, CLASSES - 1);
    if c >= 0 {
      SmallLongEnough(t, h, c, h', x);
      LeastClass(size, c);
    } else {
      LargeInUse(h, LargePages(size), h', x);
      LargePagesLeast(size, LargePages(size));
      LargePagesLeast(size, LargePages(size) - 1);
    }
  }

  lemma LeastClass(size: nat, c: nat)
    requires c == CacheIndex(size) < CLASSES
    ensures size <= SIZES[c] && (c > 0 ==> SIZES[c] < 2 * size) && (c == 0 ==> SIZES[c] == 8) && SIZES[c] >= 8
  {
    CacheIndexIsLeast(size, c);
    if c > 0 {
      CacheIndexIsLeast(size, c - 1);
    }
  }

  /* ---- On which memory kmalloc succeeds ---- */

  /** Above 2048 bytes kmalloc succeeds, for either reading of the test, if and only
      if there is an aligned run of free pages, a power of two in length, that holds
      the size and the header. */
  lemma LargeSucceedsIff(t: OffsetTest, h: Heap, size: nat)
    requires Sound(h) && Linkable(h) && Canonical(h.pool) && size > 2048 && SumFits(size)
    ensures Kmalloc(t, h, size).1 != Null <==>
      exists f: nat, o: nat :: FreeRun(h.pool, f, o) && size + LARGE_HEADER <= Pow2(o) * PAGE_SIZE
  {
    hide Sound, Canonical, LargePages, AllocPages, FreeRun;
    var n := LargePages(size);
    CacheIndexIsLeast(size, CLASSES - 1);
    LargePagesLeast(size, 0);
    RunsOfPages(h, n);
    forall o: nat ensures n <= Pow2(o) <==> size + LARGE_HEADER <= Pow2(o) * PAGE_SIZE {
      LargePagesLeast(size, Pow2(o));
    }
  }

  /** Pages can be had if and only if some aligned free run is long enough. */
  lemma RunsOfPages(h: Heap, n: nat)
    requires Sound(h) && 1 <= |h.pool.lists| && Canonical(h.pool) && n > 0
    ensures AllocPages(h.pool, n).1 != INVALID_ADDRESS <==>
      exists f: nat, o: nat :: FreeRun(h.pool, f, o) && n <= Pow2(o)
  {
    var p, m := h.pool, OrderOf(h.pool, n);
    AllocFailsIff(p, n);
    if AllocPages(p, n).1 != INVALID_ADDRESS {
      OrderIsLeast(p, n, m);
      var f: nat :| FreeRun(p, f, m);
    }
    forall f: nat, o: nat | FreeRun(p, f, o) && n <= Pow2(o) ensures n <= |p.page| && FreeRun(p, f, m) {
      SmallerRun(p, f, o, n, m);
    }
  }

  lemma SmallerRun(p: Pool, f: nat, o: nat, n: nat, m: nat)
    requires Valid(p) && FreeRun(p, f, o) && 0 < n <= Pow2(o) && m == OrderOf(p, n)
    ensures n <= |p.page| && FreeRun(p, f, m)
  {
    OrderIsLeast(p, n, o);
    AlignedWeaken(f, o, m);
    Pow2Mono(m, o);
  }

  /** A class has a slab with room: some object of one of its slabs is free. */
  ghost predicate HasRoom(h: Heap, c: nat) {
    exists f :: f in h.slabs && h.slabs[f].cls == c && h.slabs[f].free != []
  }

  /** Up to 1024 bytes kmalloc succeeds with the intended test if and only if the
      class of the size has a slab with a free object, or any page is free. */
  lemma SmallSucceedsIff(h: Heap, size: nat, c: nat)
    requires Sound(h) && Linkable(h) && 1 <= size <= 1024 && c < CLASSES && size <= SIZES[c]
    requires c > 0 ==> SIZES[c - 1] < size
    ensures Kmalloc(Intended, h, size).1 != Null <==> HasRoom(h, c) || exists i: nat :: FreeAt(h.pool, i)
  {
    hide Sound, Linkable, Kmalloc, AllocPages;
    CacheIndexIsLeast(size, c);
    if c > 0 {
      CacheIndexIsLeast(size, c - 1);
    }
    assert CacheIndex(size) == c;
    IntendedSucceedsIff(h, size);
    ListedIffRoom(h, c);
    OnePageIff(h);
  }

  lemma ListedIffRoom(h: Heap, c: nat)
    requires Sound(h) && c < CLASSES - 1
    ensures |h.partial| == CLASSES && (h.partial[c] != [] <==> HasRoom(h, c))
  {
    assert PartialOk(h.slabs, h.partial[c], c);
    if h.partial[c] != [] {
      assert h.partial[c][0] in h.partial[c];
    }
  }

  lemma OnePageIff(h: Heap)
    requires Sound(h)
    ensures 1 <= |h.pool.lists|
    ensures AllocPages(h.pool, 1).1 != INVALID_ADDRESS <==> exists i: nat :: FreeAt(h.pool, i)
  {
    AllocPagesKeeps(h.pool, 1);
    var (p', addr) := AllocPages(h.pool, 1);
    if addr == INVALID_ADDRESS {
      AllocPageFails(h.pool);
    } else {
      assert FreeAt(h.pool, addr / PAGE_SIZE);
    }
  }

  /** When a small request fails for want of a page, every slab of its class is used
      to the last object that its page has room for. */
  lemma FailsOnlyWhenFull(h: Heap, size: nat, c: nat, f: nat, i: nat)
    requires Sound(h) && Linkable(h) && 1 <= size <= 1024 && c < CLASSES && size <= SIZES[c]
    requires c > 0 ==> SIZES[c - 1] < size
    requires Kmalloc(Intended, h, size).1 == Null && f in h.slabs && h.slabs[f].cls == c
    requires (i + 1) * SIZES[c] <= PAGE_SIZE - SLAB_HEADER
    ensures InUse(h, Small(f, i)) && !exists j: nat :: FreeAt(h.pool, j)
  {
    SmallSucceedsIff(h, size, c);
    TotalIff(c, i + 1);
  }

  /* ---- Which object kmalloc returns ---- */

  /** The first object of a class without slabs is that right behind the header of
      the page that the buddy allocator hands out. */
  lemma FirstObject(h: Heap, size: nat, c: nat, h': Heap, x: Object)
    requires Sound(h) && Linkable(h) && size > 0 && c < CLASSES && CacheIndex(size) == c && h.partial[c] == []
    requires (h', x) == Kmalloc(Intended, h, size) && x != Null
    ensures x.Small? && x.index == 0 && x.frame * 0x1000 == AllocPages(h.pool, 1).1
    ensures InUse(h', x) && RegionOf(h', x).lo == AllocPages(h.pool, 1).1 + 2080
  {
    hide Sound, AllocPages, RegionOf;
    var (h1, ok) := Refill(h, c);
    RefillKeeps(h, c, h1, ok);
    FirstOfPartial(h1, c);
    SmallKmalloc(Intended, h, c, h1, ok, h', x);
    FreshFrame(h);
    AtHeaderEnd(h', x);
  }

  lemma FreshFrame(h: Heap)
    requires Sound(h)
    ensures 1 <= |h.pool.lists|
    ensures AllocPages(h.pool, 1).1 != INVALID_ADDRESS ==>
      AllocPages(h.pool, 1).1 / PAGE_SIZE * PAGE_SIZE == AllocPages(h.pool, 1).1
  {
    AllocPagesKeeps(h.pool, 1);
  }

  lemma AtHeaderEnd(h: Heap, x: Object)
    requires InUse(h, x) && x.Small? && x.index == 0
    ensures RegionOf(h, x).lo == x.frame * 0x1000 + 2080
  {
  }

  /** What was released last is handed out first: an object goes back to the head of
      its slab, and a slab that was full to the head of its list. */
  lemma FreedIsNext(h: Heap, f: nat, i: nat, size: nat, c: nat, h': Heap)
    requires Sound(h) && Linkable(h) && InUse(h, Small(f, i)) && h' == Kfree(h, Small(f, i)) && f in h'.slabs
    requires c == h.slabs[f].cls && size > 0 && CacheIndex(size) == c
    requires h.slabs[f].free == [] || (h.partial[c] != [] && h.partial[c][0] == f)
    ensures Linkable(h') && Kmalloc(Intended, h', size).1 == Small(f, i)
  {
    hide Sound, Kfree, Kmalloc;
    KfreeSound(h, Small(f, i), h');
    SoundIsLinkable(h');
    BackInFront(h, f, i, c, h');
    HeadIsTaken(h', f, i, size, c);
  }

  lemma BackInFront(h: Heap, f: nat, i: nat, c: nat, h': Heap)
    requires |h.partial| == CLASSES && 1 <= |h.pool.lists|
    requires InUse(h, Small(f, i)) && h' == Kfree(h, Small(f, i)) && f in h'.slabs && c == h.slabs[f].cls
    requires h.slabs[f].free == [] || (h.partial[c] != [] && h.partial[c][0] == f)
    ensures |h'.partial| == CLASSES && h'.partial[c] != [] && h'.partial[c][0] == f
    ensures h'.slabs[f] == Slab(c, [i] + h.slabs[f].free)
  {
    hide FreePages;
  }

  lemma HeadIsTaken(h: Heap, f: nat, i: nat, size: nat, c: nat)
    requires Linkable(h) && size > 0 && CacheIndex(size) == c < CLASSES && h.partial[c] != [] && h.partial[c][0] == f
    requires h.slabs[f].free != [] && h.slabs[f].free[0] == i
    ensures Kmalloc(Intended, h, size).1 == Small(f, i)
  {
    hide AllocPages;
  }
}
