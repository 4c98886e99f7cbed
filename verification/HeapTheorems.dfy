/** Results about the heap of kernel/src/memory/heap.c: undo, success, sizes,
    disjointness and page accounting, over single calls and over whole runs. */
module HeapTheorems {
  import opened Bits
  import opened BuddyPool
  import opened BuddyOps
  import opened BuddyCanonical
  import opened BuddyRuns
  import opened SlabHeap

  /* ---- Undo ---- */

  /** The block at frame f, just taken for so many pages, came from a listed block
      without a listed buddy of its own order. */
  ghost predicate Unpaired(p: Pool, pages: nat, f: nat)
    requires 1 <= |p.lists|
  {
    var top := FirstNonEmpty(p, OrderOf(p, pages));
    top < |p.lists| && Aligned(f, top) && !(top < |p.lists| - 1 && Listed(p, BuddyOf(f, top), top))
  }

  /** What undo depends on: a large block or a fresh slab at frame f came from a
      listed block without a listed buddy; a slab that was there before had an
      object in use. */
  ghost predicate Undoable(h: Heap, size: nat, f: nat)
    requires Linkable(h)
  {
    var c := CacheIndex(size);
    if c < 0 then Unpaired(h.pool, LargePages(size), f)
    else if h.partial[c] == [] then Unpaired(h.pool, 1, f)
    else |h.slabs[h.partial[c][0]].free| < Total(c)
  }

  /** From any sound heap, freeing what kmalloc has just returned restores every
      slab, the order of every list and the whole pool if and only if it is undoable;
      with the test as written that concerns large blocks only. */
  lemma MallocUndoIff(t: OffsetTest, h: Heap, size: nat, h': Heap, x: Object)
    requires Sound(h) && Linkable(h) && (h', x) == Kmalloc(t, h, size) && x != Null
    ensures Kfree(h', x) == h <==> Undoable(h, size, x.frame)
  {
    hide Sound, Refill, Take, Kfree, Unpaired;
    var c := CacheIndex(size);
    if c < 0 {
      UndoLargeIff(h, LargePages(size), h', x);
    } else if t.Intended? {
      UndoSmallIff(h, c, h', x);
    } else {
      AsWrittenSucceedsIff(h, size);
      CacheIndexIsLeast(size, CLASSES - 1);
    }
  }

  /** In canonical form, and without emptied slabs, it always is. */
  lemma MallocFreeUndo(t: OffsetTest, h: Heap, size: nat, h': Heap, x: Object)
    requires Sound(h) && Canonical(h.pool) && Linkable(h) && (t.Intended? ==> Tight(h))
    requires (h', x) == Kmalloc(t, h, size) && x != Null
    ensures Kfree(h', x) == h
  {
    hide Sound, Refill, Take, Kfree, Canonical, Tight;
    MallocUndoIff(t, h, size, h', x);
    var c := CacheIndex(size);
    if c < 0 {
      CanonicalIsUnpaired(h, LargePages(size), x.frame);
    } else if t.Intended? {
      TightHasRoom(h, c, h', x);
    } else {
      AsWrittenSucceedsIff(h, size);
      CacheIndexIsLeast(size, CLASSES - 1);
    }
  }

  lemma CanonicalIsUnpaired(h: Heap, n: nat, f: nat)
    requires Sound(h) && Canonical(h.pool) && 1 <= |h.pool.lists|
    requires AllocPages(h.pool, n).1 != INVALID_ADDRESS && f == AllocPages(h.pool, n).1 / PAGE_SIZE
    ensures Unpaired(h.pool, n, f)
  {
    var (pool, addr) := AllocPages(h.pool, n);
    UndoIff(h.pool, n, pool, addr, f, FirstNonEmpty(h.pool, OrderOf(h.pool, n)));
  }

  lemma TightHasRoom(h: Heap, c: nat, h': Heap, x: Object)
    requires Sound(h) && Tight(h) && Canonical(h.pool) && Linkable(h) && c < CLASSES
    requires (h', x) == FromCache(Intended, h, c) && x != Null
    ensures x.Small?
    ensures if h.partial[c] == [] then Unpaired(h.pool, 1, x.frame) else |h.slabs[h.partial[c][0]].free| < Total(c)
  {
    hide Unpaired, Canonical;
    var (h1, ok) := Refill(h, c);
    RefillKeeps(h, c, h1, ok);
    FirstOfPartial(h1, c);
    SmallKmalloc(Intended, h, c, h1, ok, h', x);
    if h.partial[c] == [] {
      CanonicalIsUnpaired(h, 1, x.frame);
    }
  }

  lemma UndoSmallIff(h: Heap, c: nat, h': Heap, x: Object)
    requires Sound(h) && Linkable(h) && c < CLASSES
    requires (h', x) == FromCache(Intended, h, c) && x != Null
    ensures x.Small?
    ensures Kfree(h', x) == h <==>
      if h.partial[c] == [] then Unpaired(h.pool, 1, x.frame) else |h.slabs[h.partial[c][0]].free| < Total(c)
  {
    hide Unpaired;
    var (h1, ok) := Refill(h, c);
    RefillKeeps(h, c, h1, ok);
    FirstOfPartial(h1, c);
    SmallKmalloc(Intended, h, c, h1, ok, h', x);
    if h.partial[c] == [] {
      UndoOnNewSlabIff(h, c, h1, h', x);
    } else if |h.slabs[h.partial[c][0]].free| < Total(c) {
      UndoOnPartial(h, c, h.partial[c][0], h', x);
    } else {
      EmptiedOnFree(h, c, h.partial[c][0], h', x);
    }
  }

  /** A slab with no object in use before is given back, not restored. */
  lemma EmptiedOnFree(h: Heap, c: nat, f: nat, h': Heap, x: Object)
    requires 1 <= |h.pool.lists| && c < CLASSES == |h.partial| && h.partial[c] != [] && f == h.partial[c][0]
    requires f in h.slabs && h.slabs[f].cls == c && SlabOk(h.slabs[f]) && |h.slabs[f].free| >= Total(c)
    requires (h', x) == Take(Intended, h, c) && x != Null && InUse(h', x)
    ensures Kfree(h', x) != h
  {
    var s := h.slabs[f];
    Pigeonhole(s.free, Total(c));
    assert x == Small(f, s.free[0]) && h'.slabs[f] == Slab(c, s.free[1..]);
    assert f !in Kfree(h', x).slabs;
  }

  lemma UndoOnPartial(h: Heap, c: nat, f: nat, h': Heap, x: Object)
    requires 1 <= |h.pool.lists| && c < CLASSES == |h.partial| && h.partial[c] != [] && f == h.partial[c][0]
    requires f in h.slabs && h.slabs[f].cls == c && SlabOk(h.slabs[f]) && |h.slabs[f].free| < Total(c) &&
      h.slabs[f].free != []
    requires (h', x) == Take(Intended, h, c) && InUse(h', x)
    ensures Kfree(h', x) == h
  {
    var s := h.slabs[f];
    assert x == Small(f, s.free[0]) && h'.slabs[f] == Slab(c, s.free[1..]);
    assert [s.free[0]] + s.free[1..] == s.free;
    assert h'.slabs[f := Slab(c, s.free)] == h.slabs;
    if s.free[1..] == [] {
      assert h'.partial[c] == h.partial[c][1..] && [f] + h.partial[c][1..] == h.partial[c];
      assert h'.partial[c := h.partial[c]] == h.partial;
    }
  }

  lemma UndoOnNewSlabIff(h: Heap, c: nat, h1: Heap, h': Heap, x: Object)
    requires Sound(h) && c < CLASSES && h.partial[c] == [] && (h1, true) == Refill(h, c)
    requires h1.partial[c] != [] && h1.partial[c][0] in h1.slabs && (h', x) == Take(Intended, h1, c) && InUse(h', x)
    ensures Kfree(h', x) == h <==> Unpaired(h.pool, 1, x.frame)
  {
    hide Unpaired;
    var (pool, addr) := AllocPages(h.pool, 1);
    var f: nat := addr / PAGE_SIZE;
    TakenFrame(h, 1, pool, addr, f, 0);
    PoolUndoIff(h.pool, 1, pool, addr, f);
    var all := AllObjects(Total(c));
    assert h1.slabs[f] == Slab(c, all) && x == Small(f, all[0]) && h'.slabs[f] == Slab(c, all[1..]);
    assert h'.slabs - {f} == h.slabs;
    assert Without(h'.partial[c], f) == [];
    assert h'.partial[c := []] == h.partial;
  }

  lemma PoolUndoIff(p: Pool, n: nat, p': Pool, addr: nat, f: nat)
    requires Valid(p) && (p', addr) == AllocPages(p, n) && addr != INVALID_ADDRESS && addr == f * PAGE_SIZE && f != 0
    ensures FreePages(p', addr, n) == p <==> Unpaired(p, n, f)
  {
    UndoIff(p, n, p', addr, f, FirstNonEmpty(p, OrderOf(p, n)));
  }

  lemma UndoLargeIff(h: Heap, n: nat, h': Heap, x: Object)
    requires Sound(h) && 1 <= |h.pool.lists| && (h', x) == LargeBlock(h, n) && x != Null
    ensures x.Large? && (Kfree(h', x) == h <==> Unpaired(h.pool, n, x.frame))
  {
    hide Unpaired;
    var (pool, addr) := AllocPages(h.pool, n);
    TakenFrame(h, n, pool, addr, addr / PAGE_SIZE, OrderOf(h.pool, n));
    PoolUndoIff(h.pool, n, pool, addr, addr / PAGE_SIZE);
    assert h'.large - {addr / PAGE_SIZE} == h.large;
  }

  /* ---- When kmalloc succeeds ---- */

  /** As the code is written, kmalloc succeeds exactly on sizes above 2048 for
      which the buddy allocator has a block: every small request returns NULL. */
  lemma AsWrittenSucceedsIff(h: Heap, size: nat)
    requires Sound(h) && Linkable(h)
    ensures Kmalloc(AsWritten, h, size).1 != Null <==>
            size > 2048 && AllocPages(h.pool, LargePages(size)).1 != INVALID_ADDRESS
    ensures var x := Kmalloc(AsWritten, h, size).1; x == Null || x.Large?
  {
    CacheIndexIsLeast(size, CLASSES - 1);
  }

  /** With the intended test it also succeeds on sizes 1 to 1024 unless the class
      has no slab with room and the buddy allocator no page; sizes 1025 to 2048
      fail in either reading, since the last class holds no object. */
  lemma IntendedSucceedsIff(h: Heap, size: nat)
    requires Sound(h) && Linkable(h)
    ensures Kmalloc(Intended, h, size).1 != Null <==>
      || (1 <= size <= 1024 && 0 <= CacheIndex(size) < CLASSES
          && (h.partial[CacheIndex(size)] != [] || AllocPages(h.pool, 1).1 != INVALID_ADDRESS))
      || (size > 2048 && AllocPages(h.pool, LargePages(size)).1 != INVALID_ADDRESS)
  {
    var c := CacheIndex(size);
    CacheIndexIsLeast(size, CLASSES - 1);
    CacheIndexIsLeast(size, CLASSES - 2);
    if size != 0 && c >= 0 {
      var (h1, ok) := Refill(h, c);
      RefillKeeps(h, c, h1, ok);
      if ok {
        FirstOfPartial(h1, c);
        TakeKeeps(Intended, h1, c, Take(Intended, h1, c).0, Take(Intended, h1, c).1);
      }
    }
  }

  /** As written, a small request never changes an object or a list of another
      class; all it can do is leave one fresh slab in its own class. */
  lemma AsWrittenSmall(h: Heap, size: nat, h': Heap, x: Object)
    requires Sound(h) && Linkable(h) && 1 <= size <= 2048 && (h', x) == Kmalloc(AsWritten, h, size)
    ensures x == Null && Sound(h')
    ensures 0 <= CacheIndex(size) < CLASSES && (h.partial[CacheIndex(size)] != [] ==> h' == h)
    ensures forall y :: InUse(h', y) <==> InUse(h, y)
  {
    CacheIndexIsLeast(size, CLASSES - 1);
    KmallocSound(AsWritten, h, size, h', x);
    var c := CacheIndex(size);
    var (h1, ok) := Refill(h, c);
    RefillKeeps(h, c, h1, ok);
    if h.partial[c] == [] && ok {
      var (pool, addr) := AllocPages(h.pool, 1);
      TakenFrame(h, 1, pool, addr, addr / PAGE_SIZE, 0);
      forall y ensures InUse(h1, y) <==> InUse(h, y) {
        if y.Small? && y.index < Total(c) {
          assert AllObjects(Total(c))[y.index] == y.index;
        }
      }
    }
  }

  /** What the test as written makes of a heap: one untouched slab at most in
      every class, and no object of a slab in use. */
  ghost predicate Barren(h: Heap) {
    && |h.partial| == CLASSES
    && (forall c :: 0 <= c < CLASSES ==> |h.partial[c]| <= 1)
    && (forall f :: f in h.slabs ==> h.slabs[f].cls < CLASSES && h.slabs[f].free == AllObjects(Total(h.slabs[f].cls)))
  }

  lemma BarrenHolds(h: Heap, f: nat, g: nat)
    requires Sound(h) && Barren(h) && f in h.slabs && g in h.slabs
    ensures h.slabs[f].cls == h.slabs[g].cls ==> f == g
    ensures forall i: nat :: !InUse(h, Small(f, i))
  {
    var c := h.slabs[f].cls;
    assert PartialOk(h.slabs, h.partial[c], c);
    Totals(c);
    forall i: nat ensures !InUse(h, Small(f, i)) {
      if i < Total(c) {
        assert AllObjects(Total(c))[i] == i;
        assert i in AllObjects(Total(c));
      }
    }
  }

  lemma KmallocBarren(h: Heap, size: nat)
    requires Sound(h) && Linkable(h) && Barren(h)
    ensures Barren(Kmalloc(AsWritten, h, size).0)
  {
    hide Sound, AllocPages;
    var c := CacheIndex(size);
    if size != 0 && c >= 0 {
      var (h1, ok) := Refill(h, c);
      RefillBarren(h, c, h1, ok);
      RefillKeeps(h, c, h1, ok);
      SoundIsLinkable(h1);
    }
  }

  lemma RefillBarren(h: Heap, c: nat, h1: Heap, ok: bool)
    requires 1 <= |h.pool.lists| && Barren(h) && c < CLASSES && (h1, ok) == Refill(h, c)
    ensures Barren(h1)
  {
  }

  lemma KfreeBarren(h: Heap, x: Object)
    requires Sound(h) && Barren(h)
    ensures Barren(Kfree(h, x))
  {
    if x.Small? && x.frame in h.slabs {
      BarrenHolds(h, x.frame, x.frame);
    }
  }

  /* ---- Sizes and places ---- */

  datatype Region = Region(lo: nat, hi: nat)

  /** The bytes that an object in use occupies, from the start of physical memory. */
  function RegionOf(h: Heap, x: Object): Region
    requires InUse(h, x)
  {
    match x
    case Small(f, i) => Region(f * PAGE_SIZE + SLAB_HEADER + i * SIZES[h.slabs[f].cls],
                               f * PAGE_SIZE + SLAB_HEADER + (i + 1) * SIZES[h.slabs[f].cls])
    case Large(f) => Region(f * PAGE_SIZE + LARGE_HEADER, (f + h.large[f]) * PAGE_SIZE)
  }

  /** What kmalloc returns is at least as long as requested, unless the 64-bit
      sums of the large path wrap, which happens exactly from 2^64 - 7 on. */
  lemma LongEnoughIff(t: OffsetTest, h: Heap, size: nat, h': Heap, x: Object)
    requires Sound(h) && Linkable(h) && size < WORD && (h', x) == Kmalloc(t, h, size) && x != Null
    ensures InUse(h', x)
    ensures size <= RegionOf(h', x).hi - RegionOf(h', x).lo <==> size < WORD - 7
  {
    hide Sound, Refill, Take, AllocPages;
    var c := CacheIndex(size);
    if c >= 0 {
      SmallLongEnough(t, h, c, h', x);
    } else {
      LargeInUse(h, LargePages(size), h', x);
      LargeLongEnough(size, LargePages(size));
    }
  }

  /** An object of a slab is as long as its class says. */
  lemma SmallLongEnough(t: OffsetTest, h: Heap, c: nat, h': Heap, x: Object)
    requires Sound(h) && Linkable(h) && c < CLASSES && (h', x) == FromCache(t, h, c) && x != Null
    ensures InUse(h', x) && x.Small? && RegionOf(h', x).hi - RegionOf(h', x).lo == SIZES[c] <= 2048
  {
    hide Sound, AllocPages;
    var (h1, ok) := Refill(h, c);
    RefillKeeps(h, c, h1, ok);
    FirstOfPartial(h1, c);
    SmallKmalloc(t, h, c, h1, ok, h', x);
    StepBySize(x.index, SIZES[c]);
  }

  lemma LargeInUse(h: Heap, n: nat, h': Heap, x: Object)
    requires Sound(h) && 1 <= |h.pool.lists| && (h', x) == LargeBlock(h, n) && x != Null
    ensures InUse(h', x) && n != 0 && RegionOf(h', x).hi - RegionOf(h', x).lo == n * PAGE_SIZE - LARGE_HEADER
  {
    LargeKmalloc(h, n, h', x);
  }

  /** A size at which the sums wrap: one page is taken for nearly all of memory. */
  lemma WrappedSize(t: OffsetTest, h: Heap, h': Heap, x: Object)
    requires Sound(h) && Linkable(h) && (h', x) == Kmalloc(t, h, WORD - 1)
    ensures x != Null <==> AllocPages(h.pool, 1).1 != INVALID_ADDRESS
    ensures x != Null ==> InUse(h', x) && RegionOf(h', x).hi - RegionOf(h', x).lo == PAGE_SIZE - LARGE_HEADER
  {
    hide Sound, AllocPages;
    assert LargePages(WORD - 1) == 1;
    LargeKmalloc(h, 1, h', x);
  }

  lemma StepBySize(i: nat, size: nat)
    ensures (i + 1) * size == i * size + size
  {
  }

  lemma LargeLongEnough(size: nat, n: nat)
    requires 2048 < size < WORD && n == LargePages(size) && n != 0
    ensures size <= n * PAGE_SIZE - LARGE_HEADER <==> size < WORD - 7
  {
  }

  /** The first and one past the last byte of the pages that back an object. */
  function BackingOf(h: Heap, x: Object): Region
    requires InUse(h, x)
  {
    Region(x.frame * PAGE_SIZE, (x.frame + if x.Small? then 1 else h.large[x.frame]) * PAGE_SIZE)
  }

  function HeaderEnd(x: Object): nat
    requires x != Null
  {
    x.frame * PAGE_SIZE + if x.Small? then SLAB_HEADER else LARGE_HEADER
  }

  /** An object lies inside its pages and behind its header. */
  lemma InsideBacking(h: Heap, x: Object)
    requires Sound(h) && InUse(h, x)
    ensures BackingOf(h, x).lo <= HeaderEnd(x) <= RegionOf(h, x).lo < RegionOf(h, x).hi <= BackingOf(h, x).hi
  {
    match x {
      case Small(f, i) =>
        var c := h.slabs[f].cls;
        Totals(c);
        MulMono(SIZES[c], i + 1, Total(c));
        StepBySize(i, SIZES[c]);
      case Large(f) =>
    }
  }

  /** The pages that back an object are allocated in the buddy pool. */
  lemma BackingAllocated(h: Heap, x: Object, i: nat)
    requires Sound(h) && InUse(h, x) && BackingOf(h, x).lo <= i * PAGE_SIZE < BackingOf(h, x).hi
    ensures i < |h.pool.page| && h.pool.page[i] == ALLOCATED
  {
    BlockOf(h, x.frame);
    assert HeldBlock(h.pool, x.frame, Blocks(h)[x.frame]);
    BackingInBlock(h, x);
  }

  lemma LargeFits(h: Heap, f: nat)
    requires Sound(h) && f in h.large && f !in h.slabs
    ensures Blocks(h)[f] == OrderOf(h.pool, h.large[f])
    ensures h.large[f] <= Pow2(OrderOf(h.pool, h.large[f]))
  {
  }

  ghost predicate RegionsApart(a: Region, b: Region) {
    a.hi <= b.lo || b.hi <= a.lo
  }

  /** Objects in use are pairwise disjoint. */
  lemma ObjectsDisjoint(h: Heap, x: Object, y: Object)
    requires Sound(h) && InUse(h, x) && InUse(h, y) && x != y
    ensures RegionsApart(RegionOf(h, x), RegionOf(h, y))
  {
    if x.frame != y.frame {
      InsideBacking(h, x);
      InsideBacking(h, y);
      BackingsApart(h, x, y);
    } else {
      SlotsApart(x.frame * PAGE_SIZE + SLAB_HEADER, SIZES[h.slabs[x.frame].cls], x.index, y.index);
    }
  }

  lemma SlotsApart(base: nat, size: nat, i: nat, j: nat)
    requires i != j
    ensures RegionsApart(Region(base + i * size, base + (i + 1) * size), Region(base + j * size, base + (j + 1) * size))
  {
    if i < j {
      MulMono(size, i + 1, j);
    } else {
      MulMono(size, j + 1, i);
    }
  }

  lemma BackingsApart(h: Heap, x: Object, y: Object)
    requires Sound(h) && InUse(h, x) && InUse(h, y) && x.frame != y.frame
    ensures RegionsApart(BackingOf(h, x), BackingOf(h, y))
  {
    BlockOf(h, x.frame);
    BlockOf(h, y.frame);
    assert BlocksApart(x.frame, Blocks(h)[x.frame], y.frame, Blocks(h)[y.frame]);
    BackingInBlock(h, x);
    BackingInBlock(h, y);
  }

  lemma BackingInBlock(h: Heap, x: Object)
    requires Sound(h) && InUse(h, x) && x.frame in Blocks(h)
    ensures BackingOf(h, x).hi <= (x.frame + Pow2(Blocks(h)[x.frame])) * PAGE_SIZE
  {
    BlockOf(h, x.frame);
    if x.Large? {
      LargeFits(h, x.frame);
    }
  }

  /** No object in use overlaps the header of any slab, used or not, or of any
      large block. */
  lemma HeadersUntouched(h: Heap, x: Object, g: nat)
    requires Sound(h) && InUse(h, x) && (g in h.slabs || g in h.large)
    ensures var header := if g in h.slabs then SLAB_HEADER else LARGE_HEADER;
      RegionsApart(RegionOf(h, x), Region(g * PAGE_SIZE, g * PAGE_SIZE + header))
  {
    InsideBacking(h, x);
    if x.frame != g {
      BlockOf(h, x.frame);
      BlockOf(h, g);
      assert BlocksApart(x.frame, Blocks(h)[x.frame], g, Blocks(h)[g]);
      BackingInBlock(h, x);
    }
  }

  /* ---- What the heap holds ---- */

  /** heap_init: no slab and no large block. */
  function EmptyHeap(p: Pool): Heap {
    Heap(p, map[], seq(CLASSES, i => []), map[])
  }

  lemma EmptyHeapSound(p: Pool)
    requires Valid(p) && FrameZeroReserved(p)
    ensures Sound(EmptyHeap(p)) && Tight(EmptyHeap(p)) && Barren(EmptyHeap(p))
  {
    assert Blocks(EmptyHeap(p)) == map[];
  }

  /** What a tight heap holds: every slab has an object in use, but for at most
      one slab of the class that holds none. */
  lemma NoEmptiedSlab(h: Heap, f: nat, g: nat)
    requires Sound(h) && Tight(h) && f in h.slabs && g in h.slabs
    ensures h.slabs[f].cls < CLASSES - 1 ==> exists i :: InUse(h, Small(f, i))
    ensures h.slabs[f].cls == CLASSES - 1 && h.slabs[g].cls == CLASSES - 1 ==> f == g
  {
    assert PartialOk(h.slabs, h.partial[CLASSES - 1], CLASSES - 1);
    if h.slabs[f].cls < CLASSES - 1 {
      var i := Missing(h.slabs[f].free, Total(h.slabs[f].cls));
      assert InUse(h, Small(f, i));
    }
  }

  /** Fewer than n numbers leave out some number below n. */
  lemma {:induction false} Missing(s: seq<nat>, n: nat) returns (i: nat)
    requires NoDup(s) && |s| < n
    ensures i < n && i !in s
    decreases n
  {
    if n - 1 in s {
      WithoutMembers(s, n - 1);
      i := Missing(Without(s, n - 1), n - 1);
    } else {
      i := n - 1;
    }
  }

  /** When everything has been released, all that is left of the heap is at most
      the one page of the class that holds no object. */
  lemma AllReleased(h: Heap, f: nat)
    requires Sound(h) && Tight(h) && forall x :: !InUse(h, x)
    ensures f in Blocks(h) ==> f in h.slabs && h.slabs[f].cls == CLASSES - 1 && h.partial[CLASSES - 1] == [f]
  {
    BlockOf(h, f);
    assert f in h.large ==> InUse(h, Large(f));
    if f in h.slabs {
      NoEmptiedSlab(h, f, f);
      assert SlabOk(h.slabs[f]);
      assert PartialOk(h.slabs, h.partial[CLASSES - 1], CLASSES - 1);
    }
  }
}
