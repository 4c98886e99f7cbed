/** Whole runs of the heap of kernel/src/memory/heap.c beside other clients of the
    buddy allocator, which take and give back blocks of their own. */
module HeapRuns {
  import opened Bits
  import opened BuddyPool
  import opened BuddyOps
  import opened BuddyCanonical
  import opened BuddyRuns
  import opened SlabHeap
  import opened HeapTheorems
  import opened HeapObjects

  /** Blocks of other clients and those of the heap together account for the
      whole pool: they are disjoint, and cover exactly the allocated pages. */
  ghost predicate Shared(p0: Pool, p: Pool, own: BuddyRuns.Live, others: BuddyRuns.Live) {
    others.Keys !! own.Keys && Safe(p0, World(p, own + others))
  }

  ghost predicate Accounted(p0: Pool, h: Heap, others: BuddyRuns.Live)
    requires 1 <= |h.pool.lists|
  {
    Shared(p0, h.pool, Blocks(h), others)
  }

  lemma SharedAlloc(p0: Pool, p: Pool, own: BuddyRuns.Live, others: BuddyRuns.Live, n: nat, p': Pool, addr: nat,
                    f: nat, o: nat)
    requires Shared(p0, p, own, others) && AllocPages(p, n) == (p', addr) && addr != INVALID_ADDRESS
    requires f == addr / PAGE_SIZE && o == OrderOf(p, n)
    ensures Shared(p0, p', own[f := o], others)
  {
    var w := World(p, own + others);
    StepSafe(p0, w, Alloc(n));
    AllocLive(p, w.live, n, p', addr);
    UnionAdd(own, others, f, o);
    assert Step(w, Alloc(n)) == World(p', w.live[f := o]);
  }

  lemma UnionAdd(own: BuddyRuns.Live, others: BuddyRuns.Live, f: nat, o: nat)
    requires f !in own + others
    ensures (own + others)[f := o] == own[f := o] + others && f !in others
  {
  }

  lemma SharedFree(p0: Pool, p: Pool, own: BuddyRuns.Live, others: BuddyRuns.Live, n: nat, p': Pool, f: nat)
    requires Shared(p0, p, own, others) && f != 0 && n != 0 && f in own && own[f] == OrderOf(p, n)
    requires p' == FreePages(p, f * PAGE_SIZE, n)
    ensures Shared(p0, p', own - {f}, others)
  {
    var w := World(p, own + others);
    UnionRemove(own, others, f);
    StepSafe(p0, w, Free(f, n));
    assert Step(w, Free(f, n)) == World(p', w.live - {f});
  }

  lemma UnionRemove(own: BuddyRuns.Live, others: BuddyRuns.Live, f: nat)
    requires f in own && others.Keys !! own.Keys
    ensures (own + others) - {f} == (own - {f}) + others && f in own + others && (own + others)[f] == own[f]
  {
  }

  lemma AccountedSame(p0: Pool, h: Heap, others: BuddyRuns.Live, h': Heap)
    requires 1 <= |h.pool.lists| && Accounted(p0, h, others) && h'.pool == h.pool && Blocks(h') == Blocks(h)
    ensures Accounted(p0, h', others)
  {
  }

  lemma MallocAccounted(p0: Pool, t: OffsetTest, h: Heap, others: BuddyRuns.Live, size: nat)
    requires Sound(h) && Linkable(h) && Accounted(p0, h, others)
    ensures 1 <= |Kmalloc(t, h, size).0.pool.lists| && Accounted(p0, Kmalloc(t, h, size).0, others)
  {
    var (h', x) := Kmalloc(t, h, size);
    KmallocSound(t, h, size, h', x);
    var c := CacheIndex(size);
    if size != 0 && c >= 0 {
      var (h1, ok) := Refill(h, c);
      RefillAccounted(p0, h, others, c, h1, ok);
      if ok {
        RefillKeeps(h, c, h1, ok);
        FirstOfPartial(h1, c);
        TakeKeeps(t, h1, c, h', x);
        SameBlocks(h1, h');
        AccountedSame(p0, h1, others, h');
      }
    } else if size != 0 {
      LargeAccounted(p0, h, others, LargePages(size), h');
    }
  }

  lemma RefillAccounted(p0: Pool, h: Heap, others: BuddyRuns.Live, c: nat, h1: Heap, ok: bool)
    requires Sound(h) && c < CLASSES && Accounted(p0, h, others) && (h1, ok) == Refill(h, c)
    ensures 1 <= |h1.pool.lists| && Accounted(p0, h1, others)
  {
    RefillKeeps(h, c, h1, ok);
    if h.partial[c] == [] && ok {
      var (pool, addr) := AllocPages(h.pool, 1);
      var f: nat := addr / PAGE_SIZE;
      TakenFrame(h, 1, pool, addr, f, 0);
      BlocksWithSlab(h, h1, f);
      SharedAlloc(p0, h.pool, Blocks(h), others, 1, pool, addr, f, 0);
    }
  }

  lemma LargeAccounted(p0: Pool, h: Heap, others: BuddyRuns.Live, n: nat, h': Heap)
    requires Sound(h) && Accounted(p0, h, others) && Sound(h') && h' == LargeBlock(h, n).0
    ensures Accounted(p0, h', others)
  {
    var (pool, addr) := AllocPages(h.pool, n);
    if addr == INVALID_ADDRESS {
      AllocFailureIsNoOp(h.pool, n);
      assert h' == h;
    } else {
      var f: nat := addr / PAGE_SIZE;
      TakenFrame(h, n, pool, addr, f, OrderOf(h.pool, n));
      BlocksWithLarge(h, h', f, n);
      SharedAlloc(p0, h.pool, Blocks(h), others, n, pool, addr, f, OrderOf(h.pool, n));
    }
  }

  lemma FreeAccounted(p0: Pool, h: Heap, others: BuddyRuns.Live, x: Object)
    requires Sound(h) && Accounted(p0, h, others)
    ensures 1 <= |Kfree(h, x).pool.lists| && Accounted(p0, Kfree(h, x), others)
  {
    var h' := Kfree(h, x);
    KfreeSound(h, x, h');
    if InUse(h, x) {
      var f := x.frame;
      BlockOf(h, f);
      if x.Large? {
        ReleasedFrame(h, f, h.large[f], h'.pool);
        RemovedLarge(h, h', f);
        SharedFree(p0, h.pool, Blocks(h), others, h.large[f], h'.pool, f);
      } else if |h.slabs[f].free| + 1 == Total(h.slabs[f].cls) {
        ReleasedFrame(h, f, 1, h'.pool);
        RemovedSlab(h, h', f);
        SharedFree(p0, h.pool, Blocks(h), others, 1, h'.pool, f);
      } else {
        SameBlocks(h, h');
        AccountedSame(p0, h, others, h');
      }
    }
  }

  lemma RemovedLarge(h: Heap, h': Heap, f: nat)
    requires 1 <= |h.pool.lists| == |h'.pool.lists| && f in h.large && f !in h.slabs
    requires h'.slabs == h.slabs && h'.large == h.large - {f}
    ensures Blocks(h') == Blocks(h) - {f}
  {
  }

  lemma RemovedSlab(h: Heap, h': Heap, f: nat)
    requires 1 <= |h.pool.lists| == |h'.pool.lists| && f in h.slabs && f !in h.large
    requires h'.slabs == h.slabs - {f} && h'.large == h.large
    ensures Blocks(h') == Blocks(h) - {f}
  {
  }

  /* ---- Requests ---- */

  /** The heap, the blocks of everybody else, and what kmalloc handed out and has
      not been given back. */
  datatype Site = Site(heap: Heap, others: BuddyRuns.Live, granted: seq<Grant>)

  datatype Request =
    | Malloc(size: nat)
    | Release(object: Object)
    | OtherAlloc(pages: nat)
    | OtherFree(frame: nat, pages: nat)

  ghost function Serve(t: OffsetTest, s: Site, r: Request): Site
    requires Sound(s.heap) && Linkable(s.heap)
  {
    match r
    case Malloc(size) =>
      var (heap, x) := Kmalloc(t, s.heap, size);
      KmallocSound(t, s.heap, size, heap, x);
      s.(heap := heap, granted := if x == Null then s.granted else [Grant(x, RegionOf(heap, x), size)] + s.granted)
    case Release(x) => s.(heap := Kfree(s.heap, x), granted := Revoke(s.granted, x))
    case OtherAlloc(n) => Served(s, Step(World(s.heap.pool, s.others), Alloc(n)))
    case OtherFree(f, n) => Served(s, Step(World(s.heap.pool, s.others), Free(f, n)))
  }

  function Served(s: Site, w: World): Site {
    s.(heap := s.heap.(pool := w.pool), others := w.live)
  }

  /** Others free only blocks of their own; a release may name anything. */
  predicate Due(s: Site, r: Request)
    requires 1 <= |s.heap.pool.lists|
  {
    r.OtherFree? ==> Matched(World(s.heap.pool, s.others), Free(r.frame, r.pages))
  }

  /** The heap is sound, and its blocks and those of the others are disjoint and
      together exactly the allocated pages. What was handed out is what is in use,
      pairwise disjoint and as long as requested. */
  ghost predicate Coherent(p0: Pool, s: Site) {
    && Sound(s.heap) && FrameZeroReserved(p0) && Accounted(p0, s.heap, s.others)
    && Ledger(s.heap, s.granted)
  }

  lemma SharedSwap(p0: Pool, p: Pool, own: BuddyRuns.Live, others: BuddyRuns.Live)
    requires Shared(p0, p, own, others)
    ensures Shared(p0, p, others, own)
  {
    assert own + others == others + own;
  }

  /** A pool in which the blocks of the heap are still held keeps the heap sound. */
  lemma SoundInPool(p0: Pool, h: Heap, p': Pool, others: BuddyRuns.Live)
    requires Sound(h) && FrameZeroReserved(p0) && |p'.lists| == |h.pool.lists| && Shared(p0, p', Blocks(h), others)
    ensures Sound(h.(pool := p')) && Blocks(h.(pool := p')) == Blocks(h)
    ensures Accounted(p0, h.(pool := p'), others)
  {
    hide LiveOk;
    SubLive(p', Blocks(h), others);
    SameBlocksIn(h, p');
  }

  lemma SubLive(p: Pool, own: BuddyRuns.Live, others: BuddyRuns.Live)
    requires own.Keys !! others.Keys && LiveOk(p, own + others)
    ensures LiveOk(p, own)
  {
    forall f | f in own ensures HeldBlock(p, f, own[f]) {
      assert f in own + others && (own + others)[f] == own[f];
    }
    forall f, g | f in own && g in own && f != g ensures BlocksApart(f, own[f], g, own[g]) {
      assert (own + others)[f] == own[f] && (own + others)[g] == own[g];
    }
  }

  lemma SameBlocksIn(h: Heap, p': Pool)
    requires 1 <= |h.pool.lists| == |p'.lists|
    ensures Blocks(h.(pool := p')) == Blocks(h)
  {
  }

  lemma OtherStep(p0: Pool, s: Site, op: Op, w': World)
    requires Coherent(p0, s) && 1 <= |s.heap.pool.lists| && w' == Step(World(s.heap.pool, s.others), op)
    requires op.Free? ==> Matched(World(s.heap.pool, s.others), op)
    ensures Coherent(p0, Served(s, w'))
    ensures Canonical(s.heap.pool) ==> Canonical(w'.pool)
  {
    var p, own := s.heap.pool, Blocks(s.heap);
    SharedSwap(p0, p, own, s.others);
    var w := World(p, s.others + own);
    match op {
      case Alloc(n) =>
        StepSafe(p0, w, op);
        var (p', addr) := AllocPages(p, n);
        if addr == INVALID_ADDRESS {
          AllocFailureIsNoOp(p, n);
        } else {
          SharedAlloc(p0, p, s.others, own, n, p', addr, addr / PAGE_SIZE, OrderOf(p, n));
        }
      case Free(f, n) =>
        assert (s.others + own)[f] == s.others[f];
        StepSafe(p0, w, op);
        NotFrameZero(p0, w, f);
        SharedFree(p0, p, s.others, own, n, w'.pool, f);
    }
    SharedSwap(p0, w'.pool, w'.live, own);
    SoundInPool(p0, s.heap, w'.pool, w'.live);
    LedgerInPool(s.heap, s.heap.(pool := w'.pool), s.granted);
  }

  lemma NotFrameZero(p0: Pool, w: World, f: nat)
    requires Safe(p0, w) && FrameZeroReserved(p0) && f in w.live
    ensures f != 0
  {
    assert HeldBlock(w.pool, f, w.live[f]);
    assert w.pool.page[f] == ALLOCATED;
  }

  /** One request keeps the site coherent -- what kmalloc returns overlaps nothing
      that is still out -- and the pool canonical; with the intended test the heap
      stays tight, and with the test as written barren. */
  lemma ServeKeeps(p0: Pool, t: OffsetTest, s: Site, r: Request)
    requires Coherent(p0, s) && Linkable(s.heap) && Due(s, r)
    ensures Coherent(p0, Serve(t, s, r))
    ensures Canonical(s.heap.pool) ==> Canonical(Serve(t, s, r).heap.pool)
    ensures t.Intended? && Tight(s.heap) ==> Tight(Serve(t, s, r).heap)
    ensures t.AsWritten? && Barren(s.heap) ==> Barren(Serve(t, s, r).heap)
  {
    hide Canonical, Sound, Accounted, Ledger, Kmalloc, Kfree;
    var h := s.heap;
    match r
    case Malloc(size) =>
      KmallocSound(t, h, size, Kmalloc(t, h, size).0, Kmalloc(t, h, size).1);
      MallocAccounted(p0, t, h, s.others, size);
      LedgerAfterMalloc(t, h, size, Kmalloc(t, h, size).0, Kmalloc(t, h, size).1, s.granted);
      if Canonical(h.pool) { KmallocCanonical(t, h, size); }
      if t.Intended? && Tight(h) { KmallocTight(h, size); }
      if t.AsWritten? && Barren(h) { KmallocBarren(h, size); }
    case Release(x) =>
      KfreeSound(h, x, Kfree(h, x));
      FreeAccounted(p0, h, s.others, x);
      LedgerAfterFree(h, x, Kfree(h, x), s.granted);
      if Canonical(h.pool) { KfreeCanonical(h, x); }
      if Tight(h) { KfreeTight(h, x); }
      if Barren(h) { KfreeBarren(h, x); }
    case OtherAlloc(n) => OtherStep(p0, s, Alloc(n), Step(World(h.pool, s.others), Alloc(n)));
    case OtherFree(f, n) => OtherStep(p0, s, Free(f, n), Step(World(h.pool, s.others), Free(f, n)));
  }

  /** Every request of the run is due when its turn comes. */
  ghost predicate DueRun(p0: Pool, t: OffsetTest, s: Site, rs: seq<Request>)
    requires Coherent(p0, s)
    decreases |rs|
  {
    SoundIsLinkable(s.heap);
    rs == [] || (Due(s, rs[0]) && (ServeKeeps(p0, t, s, rs[0]); DueRun(p0, t, Serve(t, s, rs[0]), rs[1..])))
  }

  ghost function ServeAll(p0: Pool, t: OffsetTest, s: Site, rs: seq<Request>): Site
    requires Coherent(p0, s) && DueRun(p0, t, s, rs)
    decreases |rs|
  {
    SoundIsLinkable(s.heap);
    if rs == [] then s
    else
      ServeKeeps(p0, t, s, rs[0]);
      ServeAll(p0, t, Serve(t, s, rs[0]), rs[1..])
  }

  /** Over every run of the heap and its neighbours the heap stays sound, the pool
      canonical, and their blocks disjoint and together exactly the allocated
      pages. What kmalloc handed out and has not been given back is exactly what is
      in use, pairwise disjoint and as long as requested. With the intended test no
      emptied slab is retained; with the test as written every class holds at most
      one slab, which nobody uses. */
  lemma {:induction false} RunAccounted(p0: Pool, t: OffsetTest, s: Site, rs: seq<Request>)
    requires Coherent(p0, s) && DueRun(p0, t, s, rs)
    ensures Coherent(p0, ServeAll(p0, t, s, rs))
    ensures Canonical(s.heap.pool) ==> Canonical(ServeAll(p0, t, s, rs).heap.pool)
    ensures t.Intended? && Tight(s.heap) ==> Tight(ServeAll(p0, t, s, rs).heap)
    ensures t.AsWritten? && Barren(s.heap) ==> Barren(ServeAll(p0, t, s, rs).heap)
    decreases |rs|
  {
    SoundIsLinkable(s.heap);
    if rs != [] {
      ServeKeeps(p0, t, s, rs[0]);
      RunAccounted(p0, t, Serve(t, s, rs[0]), rs[1..]);
    }
  }

  /** After boot nothing has been handed out. */
  lemma EmptySite(p0: Pool)
    requires Safe(p0, World(p0, map[])) && FrameZeroReserved(p0)
    ensures Coherent(p0, Site(EmptyHeap(p0), map[], []))
  {
    EmptyHeapSound(p0);
    var none: BuddyRuns.Live := map[];
    assert Blocks(EmptyHeap(p0)) == none && none + none == none;
  }

  /** Two grants of a coherent site have no byte in common, and each is in use. */
  lemma GrantsApart(p0: Pool, s: Site, i: nat, j: nat)
    requires Coherent(p0, s) && i < |s.granted| && j < |s.granted| && i != j
    ensures RegionsApart(s.granted[i].region, s.granted[j].region) && s.granted[i].held != s.granted[j].held
    ensures InUse(s.heap, s.granted[i].held) && s.granted[i].region == RegionOf(s.heap, s.granted[i].held)
    ensures s.granted[i].size < WORD - 7 ==> s.granted[i].size <= s.granted[i].region.hi - s.granted[i].region.lo
  {
    assert Honoured(s.heap, s.granted[i]) && Honoured(s.heap, s.granted[j]);
    assert RegionsApart(s.granted[if i < j then i else j].region, s.granted[if i < j then j else i].region);
  }
}
