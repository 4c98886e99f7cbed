/** The heap of kernel/src/memory/heap.c on values: which slabs and large blocks
    it owns, the free list of every slab and the list of slabs with room in every
    size class. Headers, bitmaps and intrusive pointers are a function of these
    (module Kheap). */
module SlabHeap {
  import opened Bits
  import opened BuddyPool
  import opened BuddyOps
  import opened BuddyCanonical
  import opened BuddyRuns

  const SLAB_HEADER: nat := 2080
  const LARGE_HEADER: nat := 8
  const CLASSES: nat := 9
  const SIZES: seq<nat> := [8, 16, 32, 64, 128, 256, 512, 1024, 2048]
  const WORD: nat := 0x1_0000_0000_0000_0000

  /** The test on an object's offset. heap.c:105 rejects the offsets that are
      multiples of the object size; rejecting the others is what its callers need. */
  datatype OffsetTest = AsWritten | Intended

  /** How many objects of a class fit behind the slab header. */
  function Total(c: nat): nat
    requires c < CLASSES
  {
    (PAGE_SIZE - SLAB_HEADER) / SIZES[c]
  }

  /** heap_cache_index: the smallest class that holds the size, or -1. */
  function CacheIndex(size: nat): int {
    ClassFrom(if size < 8 then 8 else size, 0)
  }

  function ClassFrom(rounded: nat, c: nat): (r: int)
    requires c <= CLASSES
    ensures r == -1 || (c <= r < CLASSES && rounded <= SIZES[r])
    ensures forall i :: c <= i < (if r == -1 then CLASSES else r) ==> SIZES[i] < rounded
    decreases CLASSES - c
  {
    if c == CLASSES then -1 else if rounded <= SIZES[c] then c else ClassFrom(rounded, c + 1)
  }

  /** Objects that are free, in list order. */
  datatype Slab = Slab(cls: nat, free: seq<nat>)

  datatype Heap = Heap(pool: Pool, slabs: map<nat, Slab>, partial: seq<seq<nat>>, large: map<nat, nat>)

  /** What kmalloc hands out. */
  datatype Object = Null | Small(frame: nat, index: nat) | Large(frame: nat)

  /* ---- Operations ---- */

  function AllObjects(n: nat): seq<nat> {
    seq(n, i => i)
  }

  /** heap_alloc_slab_page for a class whose list is empty. */
  function Refill(h: Heap, c: nat): (r: (Heap, bool))
    requires c < CLASSES == |h.partial| && 1 <= |h.pool.lists|
    ensures |r.0.partial| == CLASSES && |r.0.pool.lists| == |h.pool.lists|
  {
    if h.partial[c] != [] then (h, true)
    else
      var (pool, addr) := AllocPages(h.pool, 1);
      if addr == INVALID_ADDRESS then (h.(pool := pool), false)
      else
        var f := addr / PAGE_SIZE;
        (Heap(pool, h.slabs[f := Slab(c, AllObjects(Total(c)))], h.partial[c := [f]], h.large), true)
  }

  /** Take the first free object of the first slab of the class. */
  function Take(t: OffsetTest, h: Heap, c: nat): (Heap, Object)
    requires c < CLASSES == |h.partial| && h.partial[c] != [] && h.partial[c][0] in h.slabs
  {
    var f := h.partial[c][0];
    var s := h.slabs[f];
    if s.free == [] || t.AsWritten? then (h, Null)
    else
      var left := s.free[1..];
      (h.(slabs := h.slabs[f := s.(free := left)],
          partial := h.partial[c := if left == [] then Without(h.partial[c], f) else h.partial[c]]),
       Small(f, s.free[0]))
  }

  /** The pages of a large block, with the 64-bit sums of kmalloc. */
  function LargePages(size: nat): nat {
    ((size + LARGE_HEADER) % WORD + PAGE_SIZE - 1) % WORD / PAGE_SIZE
  }

  /** A large block of some pages straight from the buddy allocator. */
  function LargeBlock(h: Heap, pages: nat): (Heap, Object)
    requires 1 <= |h.pool.lists|
  {
    var (pool, addr) := AllocPages(h.pool, pages);
    if addr == INVALID_ADDRESS then (h.(pool := pool), Null)
    else (h.(pool := pool, large := h.large[addr / PAGE_SIZE := pages]), Large(addr / PAGE_SIZE))
  }

  ghost predicate Linkable(h: Heap) {
    && |h.partial| == CLASSES && 1 <= |h.pool.lists|
    && forall c :: 0 <= c < CLASSES && h.partial[c] != [] ==> h.partial[c][0] in h.slabs
  }

  /** heap_alloc_from_cache. */
  function FromCache(t: OffsetTest, h: Heap, c: nat): (Heap, Object)
    requires Linkable(h) && c < CLASSES
  {
    var (h1, ok) := Refill(h, c);
    if ok then Take(t, h1, c) else (h1, Null)
  }

  function Kmalloc(t: OffsetTest, h: Heap, size: nat): (Heap, Object)
    requires Linkable(h)
  {
    if size == 0 then (h, Null)
    else
      var c := CacheIndex(size);
      if c >= 0 then FromCache(t, h, c) else LargeBlock(h, LargePages(size))
  }

  /** heap_free_small on an object that is in use. */
  function FreeSmall(h: Heap, f: nat, i: nat): Heap
    requires |h.partial| == CLASSES && 1 <= |h.pool.lists| && f in h.slabs && h.slabs[f].cls < CLASSES
  {
    var c := h.slabs[f].cls;
    var free := [i] + h.slabs[f].free;
    if |free| == Total(c)
    then Heap(FreePages(h.pool, f * PAGE_SIZE, 1), h.slabs - {f}, h.partial[c := Without(h.partial[c], f)], h.large)
    else h.(slabs := h.slabs[f := Slab(c, free)], partial := if |free| == 1 then h.partial[c := [f] + h.partial[c]]
      else h.partial)
  }

  /** The objects in use. */
  predicate InUse(h: Heap, x: Object) {
    match x
    case Null => false
    case Small(f, i) => f in h.slabs && h.slabs[f].cls < CLASSES && i < Total(h.slabs[f].cls) && i !in h.slabs[f].free
    case Large(f) => f in h.large
  }

  function Kfree(h: Heap, x: Object): Heap
    requires |h.partial| == CLASSES && 1 <= |h.pool.lists|
  {
    if !InUse(h, x) then h
    else
      match x
      case Small(f, i) => FreeSmall(h, f, i)
      case Large(f) => h.(pool := FreePages(h.pool, f * PAGE_SIZE, h.large[f]), large := h.large - {f})
  }

  /* ---- Invariant ---- */

  /** The buddy blocks that the heap holds: a page for every slab, a rounded
      block for every large allocation. */
  ghost function Blocks(h: Heap): BuddyRuns.Live
    requires 1 <= |h.pool.lists|
  {
    BlocksOf(h.slabs.Keys, h.large, |h.pool.lists|)
  }

  ghost function BlocksOf(slabs: set<nat>, large: map<nat, nat>, lists: nat): BuddyRuns.Live
    requires 1 <= lists
  {
    map f | f in slabs + large.Keys :: if f in slabs then 0 else OrderFrom(large[f], 0, lists - 1)
  }

  ghost predicate SlabOk(s: Slab) {
    s.cls < CLASSES && NoDup(s.free) && forall i :: i in s.free ==> i < Total(s.cls)
  }

  ghost predicate PartialOk(slabs: map<nat, Slab>, list: seq<nat>, c: nat) {
    && NoDup(list)
    && forall f :: f in list <==> f in slabs && slabs[f].cls == c && (slabs[f].free != [] || c == CLASSES - 1)
  }

  ghost predicate Held(p: Pool, live: BuddyRuns.Live) {
    Valid(p) && FrameZeroReserved(p) && LiveOk(p, live)
  }

  ghost predicate Lists(slabs: map<nat, Slab>, partial: seq<seq<nat>>) {
    && |partial| == CLASSES
    && (forall f :: f in slabs ==> SlabOk(slabs[f]))
    && (forall c :: 0 <= c < CLASSES ==> PartialOk(slabs, partial[c], c))
    && |partial[CLASSES - 1]| <= 1
  }

  ghost predicate Sound(h: Heap) {
    && Valid(h.pool) && Held(h.pool, Blocks(h))
    && Lists(h.slabs, h.partial)
    && h.slabs.Keys !! h.large.Keys
    && (forall f :: f in h.large ==> 0 < h.large[f] <= |h.pool.page|)
  }

  /** No emptied slab is retained: every slab of a class up to 1024 has an object in use. */
  ghost predicate Tight(h: Heap) {
    forall f :: f in h.slabs && h.slabs[f].cls < CLASSES - 1 ==> |h.slabs[f].free| < Total(h.slabs[f].cls)
  }

  /** As Tight, except for a slab just made for class c. */
  ghost predicate TightBut(h: Heap, c: nat)
    requires c < CLASSES == |h.partial|
  {
    forall f :: f in h.slabs && h.slabs[f].cls < CLASSES - 1 ==>
      |h.slabs[f].free| < Total(h.slabs[f].cls)
      || (h.partial[c] == [f] && h.slabs[f].cls == c && |h.slabs[f].free| == Total(c))
  }

  lemma SoundIsLinkable(h: Heap)
    requires Sound(h)
    ensures Linkable(h)
  {
    forall c | 0 <= c < CLASSES && h.partial[c] != [] ensures h.partial[c][0] in h.slabs {
      assert PartialOk(h.slabs, h.partial[c], c);
      assert h.partial[c][0] in h.partial[c];
    }
  }

  lemma Totals(c: nat)
    requires c < CLASSES
    ensures c == CLASSES - 1 <==> Total(c) == 0
    ensures Total(c) * SIZES[c] <= PAGE_SIZE - SLAB_HEADER
  {
  }

  /** A slab has room for as many objects as fit between its header and the end of
      the page, and no fewer. */
  lemma TotalIff(c: nat, n: nat)
    requires c < CLASSES
    ensures n <= Total(c) <==> n * SIZES[c] <= PAGE_SIZE - SLAB_HEADER
  {
    var size, space := SIZES[c], PAGE_SIZE - SLAB_HEADER;
    assert Total(c) == space / size && space == size * (space / size) + space % size;
    if n <= Total(c) {
      MulMono(size, n, Total(c));
    } else {
      MulMono(size, Total(c) + 1, n);
      assert size * (Total(c) + 1) == size * Total(c) + size;
    }
  }

  /** The classes, with the number of objects in a slab of each. */
  lemma ClassTable()
    ensures SIZES == [8, 16, 32, 64, 128, 256, 512, 1024, 2048]
    ensures seq(CLASSES, c requires 0 <= c < CLASSES => Total(c)) == [252, 126, 63, 31, 15, 7, 3, 1, 0]
    ensures SLAB_HEADER == 4 + 4 * 2 + 4 + 8 + 8 + 256 * 8 && LARGE_HEADER == 4 + 4
  {
  }

  /** The class that kmalloc picks is the smallest that holds the size. */
  lemma CacheIndexIsLeast(size: nat, c: nat)
    requires c < CLASSES
    ensures 0 <= CacheIndex(size) <= c <==> size <= SIZES[c]
  {
  }

  /* ---- What every operation keeps ---- */

  lemma TakenFrame(h: Heap, pages: nat, pool: Pool, addr: nat, f: nat, o: nat)
    requires Sound(h) && (pool, addr) == AllocPages(h.pool, pages) && addr != INVALID_ADDRESS
    requires f == addr / PAGE_SIZE && o == OrderOf(h.pool, pages)
    ensures f !in h.slabs && f !in h.large && f != 0 && addr == f * PAGE_SIZE && 0 < pages <= |h.pool.page|
    ensures |pool.lists| == |h.pool.lists| && Held(pool, Blocks(h)[f := o])
  {
    AllocLive(h.pool, Blocks(h), pages, pool, addr);
    AllocPagesKeeps(h.pool, pages);
    assert f !in Blocks(h);
    assert FreeAt(h.pool, f);
    assert !FreeAt(h.pool, 0);
  }

  lemma BlocksWithSlab(h: Heap, h': Heap, f: nat)
    requires 1 <= |h.pool.lists| == |h'.pool.lists| && h'.large == h.large && f !in h.large && f !in h.slabs
    requires h'.slabs.Keys == h.slabs.Keys + {f}
    ensures Blocks(h') == Blocks(h)[f := 0]
  {
  }

  lemma BlocksWithLarge(h: Heap, h': Heap, f: nat, n: nat)
    requires 1 <= |h.pool.lists| == |h'.pool.lists| && h'.slabs == h.slabs && f !in h.slabs && f !in h.large
    requires h'.large == h.large[f := n]
    ensures Blocks(h') == Blocks(h)[f := OrderOf(h.pool, n)]
  {
  }

  lemma BlockOf(h: Heap, f: nat)
    requires 1 <= |h.pool.lists|
    ensures f in Blocks(h) <==> f in h.slabs || f in h.large
    ensures f in h.slabs ==> Blocks(h)[f] == 0
    ensures f in h.large && f !in h.slabs ==> Blocks(h)[f] == OrderOf(h.pool, h.large[f])
  {
  }

  lemma SameBlocks(h: Heap, h': Heap)
    requires 1 <= |h.pool.lists| && h'.pool == h.pool && h'.large == h.large && h'.slabs.Keys == h.slabs.Keys
    ensures Blocks(h') == Blocks(h)
  {
  }

  lemma RefillKeeps(h: Heap, c: nat, h1: Heap, ok: bool)
    requires Sound(h) && c < CLASSES && (h1, ok) == Refill(h, c)
    ensures Sound(h1) && (ok <==> h1.partial[c] != [])
    ensures !ok ==> h1 == h
  {
    if h.partial[c] == [] {
      var (pool, addr) := AllocPages(h.pool, 1);
      if addr == INVALID_ADDRESS {
        AllocFailureIsNoOp(h.pool, 1);
        assert h1 == h;
      } else {
        NewSlab(h, c, pool, addr, addr / PAGE_SIZE, h1);
      }
    }
  }

  lemma AllocFailureIsNoOp(p: Pool, pages: nat)
    requires Valid(p) && AllocPages(p, pages).1 == INVALID_ADDRESS
    ensures AllocPages(p, pages).0 == p
  {
    AllocPagesKeeps(p, pages);
  }

  lemma NewSlab(h: Heap, c: nat, pool: Pool, addr: nat, f: nat, h1: Heap)
    requires Sound(h) && c < CLASSES && h.partial[c] == []
    requires (pool, addr) == AllocPages(h.pool, 1) && addr != INVALID_ADDRESS && f == addr / PAGE_SIZE
    requires h1 == Heap(pool, h.slabs[f := Slab(c, AllObjects(Total(c)))], h.partial[c := [f]], h.large)
    ensures Sound(h1) && f !in h.slabs && f !in h.large && f != 0
  {
    TakenFrame(h, 1, pool, addr, f, 0);
    BlocksWithSlab(h, h1, f);
    ListsWithSlab(h.slabs, h.partial, c, f, h1.slabs, h1.partial);
  }

  lemma ListsWithSlab(slabs: map<nat, Slab>, partial: seq<seq<nat>>, c: nat, f: nat, slabs': map<nat, Slab>,
                      partial': seq<seq<nat>>)
    requires Lists(slabs, partial) && c < CLASSES && partial[c] == [] && f !in slabs
    requires slabs' == slabs[f := Slab(c, AllObjects(Total(c)))] && partial' == partial[c := [f]]
    ensures Lists(slabs', partial')
  {
    Totals(c);
    forall d | 0 <= d < CLASSES ensures PartialOk(slabs', partial'[d], d) {
      assert PartialOk(slabs, partial[d], d);
    }
  }

  lemma TakeKeeps(t: OffsetTest, h: Heap, c: nat, h': Heap, x: Object)
    requires Sound(h) && c < CLASSES && h.partial[c] != []
    requires PartialOk(h.slabs, h.partial[c], c) && h.partial[c][0] in h.partial[c]
    requires (h', x) == Take(t, h, c)
    ensures Sound(h') && h'.pool == h.pool
    ensures x == Null <==> t.AsWritten? || c == CLASSES - 1
    ensures x == Null ==> h' == h
    ensures x != Null ==> var f := h.partial[c][0];
      && x == Small(f, h.slabs[f].free[0]) && x.index < Total(c) && InUse(h', x) && !InUse(h, x)
      && h.slabs[f].cls == c && h'.slabs == h.slabs[f := Slab(c, h.slabs[f].free[1..])]
  {
    var f := h.partial[c][0];
    var s := h.slabs[f];
    assert SlabOk(s);
    Totals(c);
    if x != Null {
      assert s.free[0] in s.free;
      SameBlocks(h, h');
      ListsAfterTake(h.slabs, h.partial, c, f, h'.slabs, h'.partial);
    } else if c == CLASSES - 1 {
      assert s.free != [] ==> s.free[0] in s.free;
    }
  }

  lemma ListsAfterTake(slabs: map<nat, Slab>, partial: seq<seq<nat>>, c: nat, f: nat, slabs': map<nat, Slab>,
                       partial': seq<seq<nat>>)
    requires Lists(slabs, partial) && c < CLASSES && f in partial[c] && f in slabs && slabs[f].cls == c &&
      slabs[f].free != []
    requires slabs' == slabs[f := Slab(c, slabs[f].free[1..])]
    requires partial' == partial[c := if slabs[f].free[1..] == [] then Without(partial[c], f) else partial[c]]
    ensures Lists(slabs', partial')
  {
    var s := slabs[f];
    assert SlabOk(s) && s.free[0] in s.free;
    assert forall i :: i in s.free[1..] ==> i in s.free;
    Totals(c);
    WithoutMembers(partial[c], f);
    forall d | 0 <= d < CLASSES ensures PartialOk(slabs', partial'[d], d) {
      assert PartialOk(slabs, partial[d], d);
    }
  }

  lemma FirstOfPartial(h: Heap, c: nat)
    requires Sound(h) && c < CLASSES && h.partial[c] != []
    ensures PartialOk(h.slabs, h.partial[c], c) && h.partial[c][0] in h.partial[c] && h.partial[c][0] in h.slabs
    ensures SlabOk(h.slabs[h.partial[c][0]]) && h.slabs[h.partial[c][0]].cls == c
    ensures c < CLASSES - 1 ==> h.slabs[h.partial[c][0]].free != []
  {
    assert PartialOk(h.slabs, h.partial[c], c);
  }

  /** kmalloc on a small size: what it needs to succeed, and what it keeps. */
  lemma SmallKmalloc(t: OffsetTest, h: Heap, c: nat, h1: Heap, ok: bool, h': Heap, x: Object)
    requires Sound(h) && c < CLASSES && (h1, ok) == Refill(h, c)
    requires ok ==> h1.partial[c] != [] && h1.partial[c][0] in h1.slabs && (h', x) == Take(t, h1, c)
    requires !ok ==> (h', x) == (h1, Null)
    ensures Sound(h') && h'.pool == h1.pool
    ensures x == Null <==> t.AsWritten? || c == CLASSES - 1 || !ok
    ensures x == Null ==> h' == h1
    ensures x != Null ==> x.Small? && x.index < Total(c) && InUse(h', x) && h'.slabs[x.frame].cls == c
  {
    RefillKeeps(h, c, h1, ok);
    if ok {
      FirstOfPartial(h1, c);
      TakeKeeps(t, h1, c, h', x);
    }
  }

  /** kmalloc keeps the heap sound, and what it returns is in use. */
  lemma KmallocSound(t: OffsetTest, h: Heap, size: nat, h': Heap, x: Object)
    requires Sound(h) && Linkable(h) && (h', x) == Kmalloc(t, h, size)
    ensures Sound(h')
    ensures x != Null ==> InUse(h', x)
  {
    var c := CacheIndex(size);
    if size != 0 && c >= 0 {
      var (h1, ok) := Refill(h, c);
      RefillKeeps(h, c, h1, ok);
      if ok {
        FirstOfPartial(h1, c);
      }
      SmallKmalloc(t, h, c, h1, ok, h', x);
    } else if size != 0 {
      LargeKmalloc(h, LargePages(size), h', x);
    }
  }

  lemma KmallocCanonical(t: OffsetTest, h: Heap, size: nat)
    requires Sound(h) && Linkable(h) && Canonical(h.pool)
    ensures Canonical(Kmalloc(t, h, size).0.pool)
  {
    var c := CacheIndex(size);
    if size != 0 && c >= 0 {
      AllocPagesCanonical(h.pool, 1);
      var (h1, ok) := Refill(h, c);
      assert Canonical(h1.pool);
      if ok {
        TakeKeepsPool(t, h1, c);
      }
    } else if size != 0 {
      AllocPagesCanonical(h.pool, LargePages(size));
    }
  }

  lemma TakeKeepsPool(t: OffsetTest, h: Heap, c: nat)
    requires c < CLASSES == |h.partial| && h.partial[c] != [] && h.partial[c][0] in h.slabs
    ensures Take(t, h, c).0.pool == h.pool
  {
  }

  /** With the intended test kmalloc keeps no slab without an object in use. */
  lemma KmallocTight(h: Heap, size: nat)
    requires Sound(h) && Linkable(h) && Tight(h)
    ensures Tight(Kmalloc(Intended, h, size).0)
  {
    var c := CacheIndex(size);
    if size != 0 && c >= 0 {
      var (h1, ok) := Refill(h, c);
      RefillTight(h, c, h1, ok);
      RefillKeeps(h, c, h1, ok);
      if ok {
        FirstOfPartial(h1, c);
        TightAfterTake(h1, c, h1.partial[c][0], Take(Intended, h1, c).0);
      }
    }
  }

  lemma RefillTight(h: Heap, c: nat, h1: Heap, ok: bool)
    requires c < CLASSES == |h.partial| && 1 <= |h.pool.lists| && (h1, ok) == Refill(h, c) && Tight(h)
    ensures TightBut(h1, c) && (!ok ==> Tight(h1))
  {
  }

  lemma TightAfterTake(h: Heap, c: nat, f: nat, h': Heap)
    requires c < CLASSES == |h.partial| && h.partial[c] != [] && f == h.partial[c][0]
    requires f in h.slabs && h.slabs[f].cls == c && (c < CLASSES - 1 ==> h.slabs[f].free != [])
    requires TightBut(h, c) && h' == Take(Intended, h, c).0
    ensures Tight(h')
  {
  }

  lemma LargeKmalloc(h: Heap, n: nat, h': Heap, x: Object)
    requires Sound(h) && (h', x) == LargeBlock(h, n)
    ensures Sound(h')
    ensures x != Null ==>
      InUse(h', x) && x.Large? && x.frame !in h.large && x.frame !in h.slabs && x.frame != 0 && n != 0
    ensures x == Null <==> AllocPages(h.pool, n).1 == INVALID_ADDRESS
  {
    var (pool, addr) := AllocPages(h.pool, n);
    if addr != INVALID_ADDRESS {
      TakenFrame(h, n, pool, addr, addr / PAGE_SIZE, OrderOf(h.pool, n));
      BlocksWithLarge(h, h', addr / PAGE_SIZE, n);
    } else {
      AllocFailureIsNoOp(h.pool, n);
      assert h' == h;
    }
  }

  /* ---- Freeing ---- */

  lemma ReleasedFrame(h: Heap, f: nat, pages: nat, pool: Pool)
    requires Sound(h) && f in Blocks(h) && pages != 0 && OrderOf(h.pool, pages) == Blocks(h)[f]
    requires pool == FreePages(h.pool, f * PAGE_SIZE, pages)
    ensures f != 0 && |pool.lists| == |h.pool.lists|
    ensures Held(pool, Blocks(h) - {f})
    ensures FreeContract(h.pool, f * PAGE_SIZE, pages)
    ensures var o := OrderOf(h.pool, pages); AllFree(pool, f, f + Pow2(o)) && SameOutside(h.pool, pool, f, f + Pow2(o))
  {
    assert HeldBlock(h.pool, f, Blocks(h)[f]);
    assert h.pool.page[f] == ALLOCATED;
    FreeLive(h.pool, Blocks(h), f, pages);
    FreePagesKeeps(h.pool, f * PAGE_SIZE, pages);
    assert !FreeAt(h.pool, 0);
  }

  lemma FreeLargeKeeps(h: Heap, f: nat, n: nat, pool: Pool, h': Heap)
    requires Sound(h) && f in h.large && n == h.large[f] && pool == FreePages(h.pool, f * PAGE_SIZE, n)
    requires h' == h.(pool := pool, large := h.large - {f})
    ensures Sound(h')
  {
    BlockOf(h, f);
    ReleasedFrame(h, f, n, pool);
    assert (h.large - {f})[f := n] == h.large;
    BlocksWithLarge(h', h, f, n);
    AddThenRemove(Blocks(h'), f, OrderOf(h.pool, n));
  }

  lemma FreeSmallKeeps(h: Heap, f: nat, i: nat, h': Heap)
    requires Sound(h) && InUse(h, Small(f, i)) && h' == FreeSmall(h, f, i)
    ensures Sound(h')
  {
    ListsAfterFree(h.slabs, h.partial, h.slabs[f].cls, f, i, h'.slabs, h'.partial);
    if |h.slabs[f].free| + 1 == Total(h.slabs[f].cls) {
      ReleaseSlab(h, f, h');
    } else {
      SameBlocks(h, h');
    }
  }

  lemma ListsAfterFree(slabs: map<nat, Slab>, partial: seq<seq<nat>>, c: nat, f: nat, i: nat,
                       slabs': map<nat, Slab>, partial': seq<seq<nat>>)
    requires Lists(slabs, partial) && f in slabs && slabs[f].cls == c < CLASSES && i < Total(c) && i !in slabs[f].free
    requires var free := [i] + slabs[f].free;
      if |free| == Total(c) then slabs' == slabs - {f} && partial' == partial[c := Without(partial[c], f)]
      else slabs' == slabs[f := Slab(c, free)] && partial' == if |free| == 1 then partial[c := [f] + partial[c]]
        else partial
    ensures Lists(slabs', partial') && |slabs[f].free| < Total(c)
  {
    var s := slabs[f];
    assert SlabOk(s);
    Totals(c);
    Pigeonhole([i] + s.free, Total(c));
    WithoutMembers(partial[c], f);
    assert PartialOk(slabs, partial[c], c);
    forall d | 0 <= d < CLASSES ensures PartialOk(slabs', partial'[d], d) {
      assert PartialOk(slabs, partial[d], d);
    }
  }

  lemma ReleaseSlab(h: Heap, f: nat, h': Heap)
    requires Sound(h) && f in h.slabs && h'.pool == FreePages(h.pool, f * PAGE_SIZE, 1)
    requires h'.slabs == h.slabs - {f} && h'.large == h.large
    ensures 1 <= |h'.pool.lists| && Held(h'.pool, Blocks(h'))
  {
    ReleasedFrame(h, f, 1, h'.pool);
    BlocksWithSlab(h', h, f);
    AddThenRemove(Blocks(h'), f, 0);
  }

  /** A list without repetition of numbers below n has at most n elements. */
  lemma {:induction false} Pigeonhole(s: seq<nat>, n: nat)
    requires NoDup(s) && forall x :: x in s ==> x < n
    ensures |s| <= n
    decreases n
  {
    if n == 0 {
      assert forall k :: 0 <= k < |s| ==> s[k] in s;
    } else {
      WithoutMembers(s, n - 1);
      Pigeonhole(Without(s, n - 1), n - 1);
    }
  }

  /** kfree keeps the heap sound, and the pointer is no longer in use. */
  lemma KfreeSound(h: Heap, x: Object, h': Heap)
    requires Sound(h) && h' == Kfree(h, x)
    ensures Sound(h') && !InUse(h', x)
  {
    if InUse(h, x) {
      match x
      case Small(f, i) => FreeSmallKeeps(h, f, i, h');
      case Large(f) => FreeLargeKeeps(h, f, h.large[f], h'.pool, h');
    }
  }

  lemma KfreeCanonical(h: Heap, x: Object)
    requires Sound(h) && Canonical(h.pool)
    ensures Canonical(Kfree(h, x).pool)
  {
    if InUse(h, x) {
      var f := x.frame;
      var n := if x.Small? then 1 else h.large[f];
      BlockOf(h, f);
      ReleasedFrame(h, f, n, FreePages(h.pool, f * PAGE_SIZE, n));
      FreePagesCanonical(h.pool, f * PAGE_SIZE, n);
    }
  }

  /** kfree gives an emptied slab back at once. */
  lemma KfreeTight(h: Heap, x: Object)
    requires Sound(h) && Tight(h)
    ensures Tight(Kfree(h, x))
  {
    if InUse(h, x) && x.Small? {
      var f := x.frame;
      assert SlabOk(h.slabs[f]);
      ListsAfterFree(h.slabs, h.partial, h.slabs[f].cls, f, x.index, Kfree(h, x).slabs, Kfree(h, x).partial);
    }
  }
}
