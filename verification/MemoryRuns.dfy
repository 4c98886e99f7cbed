/** The three layers together: the slab heap, the page tables and all other
    clients on one buddy allocator, over any sequence of their operations. */
module MemoryRuns {
  import opened Bits
  import opened BuddyPool
  import opened BuddyOps
  import opened BuddyCanonical
  import opened BuddyRuns
  import opened PageTables
  import opened VmmOps
  import opened SlabHeap
  import opened HeapTheorems
  import opened HeapObjects
  import HeapRuns
  import VmmRuns

  /** The heap with its pool, what kmalloc handed out and has not been given back,
      the blocks of all other clients, and memory. */
  datatype Machine = Machine(heap: Heap, granted: seq<Grant>, clients: BuddyRuns.Live, mem: Memory) {
    function Space(): PageTables.Space { PageTables.Space(heap.pool, mem) }
  }

  /** Requests to the heap come with the memory after its writes. */
  datatype Event =
    | Malloc(size: nat, after: Memory)
    | Release(held: Object, after: Memory)
    | TakePages(pages: nat)
    | GivePages(frame: nat, pages: nat)
    | Mapping(virt: nat, phys: nat, flags: nat)
    | Unmapping(virt: nat)
    | Store(frame: nat, content: Table)

  /* ---- Who owns what ---- */

  /** The page tables on pages of the allocator, as blocks of one page. */
  ghost function TablePages(s: PageTables.Space, root: nat): BuddyRuns.Live {
    map t: nat | 0 <= t < |s.pool.page| && s.pool.page[t] == ALLOCATED && VmmRuns.Reaches(s.mem, root, t) :: 0
  }

  /** Three owners whose blocks are disjoint and together the allocated pages. */
  ghost predicate Partition(p0: Pool, p: Pool, a: BuddyRuns.Live, b: BuddyRuns.Live, c: BuddyRuns.Live) {
    a.Keys !! b.Keys && a.Keys !! c.Keys && b.Keys !! c.Keys && Safe(p0, World(p, a + b + c))
  }

  lemma PartitionViews(p0: Pool, p: Pool, a: BuddyRuns.Live, b: BuddyRuns.Live, c: BuddyRuns.Live)
    ensures Partition(p0, p, a, b, c) <==> b.Keys !! c.Keys && HeapRuns.Shared(p0, p, a, b + c)
    ensures Partition(p0, p, a, b, c) <==> a.Keys !! c.Keys && HeapRuns.Shared(p0, p, b, a + c)
    ensures Partition(p0, p, a, b, c) <==> a.Keys !! b.Keys && HeapRuns.Shared(p0, p, c, a + b)
  {
    hide Safe;
    assert a + (b + c) == a + b + c;
    if a.Keys !! b.Keys { assert b + (a + c) == a + b + c; }
    if a.Keys !! c.Keys && b.Keys !! c.Keys { assert c + (a + b) == a + b + c; }
  }

  /** Heap and page tables are sound, and every allocated page belongs to exactly
      one of the heap, the other clients and the page tables. */
  ghost predicate Shares(p0: Pool, m: Machine, root: nat) {
    && SlabHeap.Sound(m.heap) && FrameZeroReserved(p0) && VmmRuns.WellFormed(m.Space(), root)
    && Partition(p0, m.heap.pool, Blocks(m.heap), m.clients, TablePages(m.Space(), root))
  }

  /** In addition, what was handed out is what is in use, pairwise disjoint and as
      long as requested. */
  ghost predicate Coherent(p0: Pool, m: Machine, root: nat) {
    Shares(p0, m, root) && Ledger(m.heap, m.granted)
  }

  /** No page is counted twice and none is lost. */
  lemma WholeMemory(p0: Pool, m: Machine, root: nat, i: nat)
    requires Shares(p0, m, root) && i < |m.heap.pool.page|
    ensures var p, own, tables := m.heap.pool, Blocks(m.heap), TablePages(m.Space(), root);
      && (p.page[i] == ALLOCATED <==> Covered(own, i) || Covered(m.clients, i) || i in tables)
      && !(Covered(own, i) && Covered(m.clients, i)) && !(Covered(own, i) && i in tables) &&
        !(Covered(m.clients, i) && i in tables)
      && (p.page[i] == RESERVED <==> p0.page[i] == RESERVED)
      && (p.page[i] != ALLOCATED && p.page[i] != RESERVED <==> FreeAt(p, i))
  {
    var p, own, tables := m.heap.pool, Blocks(m.heap), TablePages(m.Space(), root);
    var all := own + m.clients + tables;
    assert PageOk(p, i);
    CoveredUnion(own, m.clients, i);
    CoveredUnion(own + m.clients, tables, i);
    TableCovers(tables, i);
    CoveredApart(p, all, own, m.clients, i);
    CoveredApart(p, all, own, tables, i);
    CoveredApart(p, all, m.clients, tables, i);
  }

  /** Pages of the heap and of other clients are no tables. */
  lemma OwnedIsNoTable(p0: Pool, m: Machine, root: nat, i: nat)
    requires Shares(p0, m, root) && i < |m.heap.pool.page|
    requires Covered(Blocks(m.heap), i) || Covered(m.clients, i)
    ensures !VmmRuns.Reaches(m.mem, root, i)
  {
    WholeMemory(p0, m, root, i);
  }

  lemma HeapPageIsNoTable(p0: Pool, m: Machine, root: nat, f: nat)
    requires Shares(p0, m, root) && HeapPage(m.heap, f)
    ensures f < |m.heap.pool.page| && !VmmRuns.Reaches(m.mem, root, f)
  {
    var own := Blocks(m.heap);
    BlockOf(m.heap, f);
    assert HeldBlock(m.heap.pool, f, own[f]);
    assert f in own && f <= f < f + Pow2(own[f]);
    OwnedIsNoTable(p0, m, root, f);
  }

  lemma CoveredUnion(a: BuddyRuns.Live, b: BuddyRuns.Live, i: nat)
    requires a.Keys !! b.Keys
    ensures Covered(a + b, i) <==> Covered(a, i) || Covered(b, i)
  {
    if Covered(a, i) {
      var f :| f in a && f <= i < f + Pow2(a[f]);
      assert f in a + b && (a + b)[f] == a[f];
    }
    if Covered(b, i) {
      var f :| f in b && f <= i < f + Pow2(b[f]);
      assert f in a + b && (a + b)[f] == b[f];
    }
    if Covered(a + b, i) {
      var f :| f in a + b && f <= i < f + Pow2((a + b)[f]);
      assert if f in b then (a + b)[f] == b[f] else (a + b)[f] == a[f];
    }
  }

  lemma TableCovers(tables: BuddyRuns.Live, i: nat)
    requires forall t :: t in tables ==> tables[t] == 0
    ensures Covered(tables, i) <==> i in tables
  {
    assert Pow2(0) == 1;
  }

  lemma CoveredApart(p: Pool, all: BuddyRuns.Live, a: BuddyRuns.Live, b: BuddyRuns.Live, i: nat)
    requires LiveOk(p, all) && a.Keys !! b.Keys
    requires forall f :: f in a ==> f in all && all[f] == a[f]
    requires forall f :: f in b ==> f in all && all[f] == b[f]
    ensures !(Covered(a, i) && Covered(b, i))
  {
    forall f, g | f in a && g in b && f <= i < f + Pow2(a[f]) ensures !(g <= i < g + Pow2(b[g])) {
      assert BlocksApart(f, all[f], g, all[g]);
    }
  }

  /* ---- Tables under a changing pool ---- */

  lemma TablePagesByLevel(s: PageTables.Space, root: nat, level: map<nat, nat>, t: nat)
    requires PageTables.Sound(s, root, level)
    ensures t in TablePages(s, root) <==> t in level && t < |s.pool.page| && s.pool.page[t] == ALLOCATED
  {
    VmmRuns.ReachesIff(s.mem, root, level, t);
  }

  /** While the tables of a tree stay the same and their pages held, the tree stays
      sound, whatever others do to the pool. */
  lemma TablesStay(p0: Pool, s: PageTables.Space, s': PageTables.Space, root: nat, level: map<nat, nat>,
                   rest: BuddyRuns.Live, rest': BuddyRuns.Live)
    requires PageTables.Sound(s, root, level) && Tree(s'.mem, root, level) && |s'.mem| == |s.mem|
    requires HeapRuns.Shared(p0, s.pool, TablePages(s, root), rest)
    requires HeapRuns.Shared(p0, s'.pool, TablePages(s, root), rest')
    ensures PageTables.Sound(s', root, level) && TablePages(s', root) == TablePages(s, root)
  {
    var tables := TablePages(s, root);
    forall t | t in level && t < |s.pool.page|
      ensures !FreeAt(s'.pool, t) && (s'.pool.page[t] == ALLOCATED <==> s.pool.page[t] == ALLOCATED)
    {
      TablePagesByLevel(s, root, level, t);
      assert PageOk(s.pool, t) && !FreeAt(s.pool, t);
      assert s.pool.page[t] == RESERVED <==> s'.pool.page[t] == RESERVED;
      if t in tables {
        assert t in tables + rest' && (tables + rest')[t] == 0;
        assert HeldBlock(s'.pool, t, 0) && Pow2(0) == 1;
      }
    }
    assert PageTables.Sound(s', root, level);
    forall t: nat ensures t in TablePages(s', root) <==> t in tables {
      TablePagesByLevel(s, root, level, t);
      TablePagesByLevel(s', root, level, t);
    }
  }

  /** A page that a walk takes from the pool for a new table becomes a table page. */
  lemma OneTableMore(p0: Pool, s: PageTables.Space, root: nat, level: map<nat, nat>, s': PageTables.Space,
                     level': map<nat, nat>, addr: nat, f: nat, rest: BuddyRuns.Live)
    requires PageTables.Sound(s, root, level) && PageTables.Sound(s', root, level')
    requires HeapRuns.Shared(p0, s.pool, TablePages(s, root), rest)
    requires (s'.pool, addr) == AllocPages(s.pool, 1) && addr != INVALID_ADDRESS && f == addr / PAGE_SIZE
    requires level'.Keys == level.Keys + {f}
    ensures HeapRuns.Shared(p0, s'.pool, TablePages(s', root), rest)
  {
    hide TablePages, AllocPages, PageTables.Sound;
    ValidPool(s, root, level);
    OnePageTaken(s.pool, s'.pool, addr, f);
    TableTaken(s, root, level, s', level', f);
    HeapRuns.SharedAlloc(p0, s.pool, TablePages(s, root), rest, 1, s'.pool, addr, f, 0);
  }

  /** Page f is allocated, and every page that was not free keeps its state. */
  ghost predicate Taken(p: Pool, p': Pool, f: nat) {
    && |p'.page| == |p.page| && f < |p.page| && p'.page[f] == ALLOCATED
    && forall t :: 0 <= t < |p.page| && t != f && !FreeAt(p, t) ==> p'.page[t] == p.page[t]
  }

  lemma OnePageTaken(p: Pool, p': Pool, addr: nat, f: nat)
    requires Valid(p) && (p', addr) == AllocPages(p, 1) && addr != INVALID_ADDRESS && f == addr / PAGE_SIZE
    ensures Taken(p, p', f) && OrderOf(p, 1) == 0
  {
    AllocPagesKeeps(p, 1);
    assert OrderOf(p, 1) == 0 && Pow2(0) == 1;
    assert HeldBlock(p', f, 0) && p'.page[f] == ALLOCATED;
  }

  lemma TableTaken(s: PageTables.Space, root: nat, level: map<nat, nat>, s': PageTables.Space,
                   level': map<nat, nat>, f: nat)
    requires PageTables.Sound(s, root, level) && PageTables.Sound(s', root, level')
    requires Taken(s.pool, s'.pool, f) && level'.Keys == level.Keys + {f}
    ensures TablePages(s', root) == TablePages(s, root)[f := 0]
  {
    var tables := TablePages(s, root);
    forall t: nat ensures t in TablePages(s', root) <==> t in tables[f := 0] {
      TablePagesByLevel(s, root, level, t);
      TablePagesByLevel(s', root, level', t);
      assert t in level && t < |s.pool.page| ==> !FreeAt(s.pool, t);
    }
  }

  /** The creating walk takes pages for tables only. */
  lemma {:induction false} WalkAccounts(p0: Pool, s: PageTables.Space, root: nat, level: map<nat, nat>,
                                        path: seq<nat>, rest: BuddyRuns.Live)
    requires PageTables.Sound(s, root, level) && ValidPath(path)
    requires forall k :: 0 <= k <= |path| ==> Descend(s.mem, root, path[..k]) != Untracked
    requires HeapRuns.Shared(p0, s.pool, TablePages(s, root), rest)
    ensures var s' := WalkCreate(s, root, path).0;
      HeapRuns.Shared(p0, s'.pool, TablePages(s', root), rest) && (Canonical(s.pool) ==> Canonical(s'.pool))
    decreases |path|
  {
    if path != [] {
      var q, i := path[..|path| - 1], path[|path| - 1];
      assert path[..|path|] == path;
      forall k | 0 <= k <= |q| ensures Descend(s.mem, root, q[..k]) != Untracked {
        assert q[..k] == path[..k];
      }
      WalkAccounts(p0, s, root, level, q, rest);
      var level1 := WalkCreateKeeps(s, root, level, q);
      var (s1, w) := WalkCreate(s, root, q);
      if w.At? {
        DescendLevel(s1.mem, root, level1, q);
        assert Descend(s1.mem, root, path) == Child(s1.mem, w.frame, i);
        NextLevelAccounts(p0, s1, root, level1, q, w.frame, i, rest);
      }
    }
  }

  lemma NextLevelAccounts(p0: Pool, s: PageTables.Space, root: nat, level: map<nat, nat>, path: seq<nat>, t: nat,
                          i: nat, rest: BuddyRuns.Live)
    requires PageTables.Sound(s, root, level) && ValidPath(path) && |path| <= 2 && i < ENTRIES && t < |s.mem|
    requires Descend(s.mem, root, path) == At(t) && Child(s.mem, t, i) != Untracked
    requires HeapRuns.Shared(p0, s.pool, TablePages(s, root), rest)
    ensures var s' := NextLevel(s, t, i).0;
      HeapRuns.Shared(p0, s'.pool, TablePages(s', root), rest) && (Canonical(s.pool) ==> Canonical(s'.pool))
  {
    hide HeapRuns.Shared, PageTables.Sound, TablePages, Canonical, AllocPages, BuddyPool.Valid, Usable, Descend, Tree;
    var level' := NextLevelKeeps(s, root, level, path, t, i);
    ValidPool(s, root, level);
    var (pool, addr) := AllocPages(s.pool, 1);
    if Child(s.mem, t, i) == Absent && addr != INVALID_ADDRESS {
      OneTableMore(p0, s, root, level, NextLevel(s, t, i).0, level', addr, addr / PAGE_SIZE, rest);
    }
    if Canonical(s.pool) { AllocPagesCanonical(s.pool, 1); }
    AllocFailureKeeps(s.pool);
  }

  lemma AllocFailureKeeps(p: Pool)
    requires Valid(p)
    ensures AllocPages(p, 1).1 == INVALID_ADDRESS ==> AllocPages(p, 1).0 == p
  {
    AllocPagesKeeps(p, 1);
  }

  lemma ValidPool(s: PageTables.Space, root: nat, level: map<nat, nat>)
    requires PageTables.Sound(s, root, level)
    ensures Valid(s.pool) && Usable(s) && 1 <= |s.pool.lists|
  {
  }

  /* ---- Steps ---- */

  /** The heap writes its own pages, other clients free only blocks of their own,
      walks meet no huge page, what an unmapping gives back is a page of a client,
      and tables are written by the page-table manager alone. Heap requests may name
      anything. */
  ghost predicate Due(t: OffsetTest, m: Machine, root: nat, e: Event)
    requires Linkable(m.heap)
  {
    match e
    case Malloc(size, after) => ChangedOnly(m.mem, after, m.heap, Kmalloc(t, m.heap, size).0)
    case Release(x, after) => ChangedOnly(m.mem, after, m.heap, Kfree(m.heap, x))
    case TakePages(_) => true
    case GivePages(f, n) => Matched(World(m.heap.pool, m.clients), Free(f, n))
    case Mapping(virt, _, _) => Walkable(m.mem, root, virt)
    case Unmapping(virt) => Walkable(m.mem, root, virt) && UnmapsClientPage(m, root, virt)
    case Store(f, _) => f < |m.mem| && !VmmRuns.Reaches(m.mem, root, f)
  }

  /** What the unmapping of virt frees, if anything, is a single page of a client. */
  predicate UnmapsClientPage(m: Machine, root: nat, virt: nat) {
    Lookup(m.mem, root, virt).Maps? ==> FreesClientPage(m, And(Lookup(m.mem, root, virt).entry, ADDR_MASK))
  }

  predicate FreesClientPage(m: Machine, addr: nat) {
    FreeActs(m.heap.pool, addr, 1) ==> FrameOf(addr) in m.clients && m.clients[FrameOf(addr)] == 0
  }

  function InPool(m: Machine, w: World): Machine {
    m.(heap := m.heap.(pool := w.pool), clients := w.live)
  }

  ghost function Perform(t: OffsetTest, m: Machine, root: nat, e: Event): Machine
    requires SlabHeap.Sound(m.heap) && Linkable(m.heap) && Usable(m.Space())
  {
    match e
    case Malloc(size, after) =>
      var (heap, x) := Kmalloc(t, m.heap, size);
      KmallocSound(t, m.heap, size, heap, x);
      var granted := if x == Null then m.granted else [Grant(x, RegionOf(heap, x), size)] + m.granted;
      m.(heap := heap, granted := granted, mem := after)
    case Release(x, after) => m.(heap := Kfree(m.heap, x), granted := Revoke(m.granted, x), mem := after)
    case TakePages(n) => InPool(m, Step(World(m.heap.pool, m.clients), Alloc(n)))
    case GivePages(f, n) => InPool(m, Step(World(m.heap.pool, m.clients), Free(f, n)))
    case Mapping(virt, phys, flags) => InSpace(m, MapPage(m.Space(), root, virt, phys, flags).0)
    case Unmapping(virt) => AfterUnmap(m, root, virt)
    case Store(f, content) => if f < |m.mem| then m.(mem := m.mem[f := content]) else m
  }

  function InSpace(m: Machine, s: PageTables.Space): Machine {
    m.(heap := m.heap.(pool := s.pool), mem := s.mem)
  }

  function AfterUnmap(m: Machine, root: nat, virt: nat): Machine
    requires Usable(m.Space())
  {
    InSpace(m, UnmapPage(m.Space(), root, virt).0).(clients := ClientsAfterUnmap(m, Lookup(m.mem, root, virt)))
  }

  function ClientsAfterUnmap(m: Machine, tr: Translation): BuddyRuns.Live {
    if tr.Maps? && FreeActs(m.heap.pool, And(tr.entry, ADDR_MASK), 1)
      then m.clients - {FrameOf(And(tr.entry, ADDR_MASK))}
    else m.clients
  }

  /** The map of all translations after an event. */
  ghost function Translated(m: Machine, root: nat, e: Event, tr: nat -> Translation): nat -> Translation
    requires Usable(m.Space())
  {
    match e
    case Mapping(virt, phys, flags) =>
      VmmRuns.Updated(tr, VmmRuns.Map(virt, phys, flags), MapPage(m.Space(), root, virt, phys, flags).1)
    case Unmapping(virt) => VmmRuns.Updated(tr, VmmRuns.Unmap(virt), UnmapPage(m.Space(), root, virt).1)
    case _ => tr
  }

  /** A heap with another pool in which its blocks and all tables are still held. */
  lemma SamePartition(p0: Pool, m: Machine, root: nat, heap: Heap, clients: BuddyRuns.Live)
    requires Shares(p0, m, root) && SlabHeap.Sound(heap)
    requires Partition(p0, heap.pool, Blocks(heap), clients, TablePages(m.Space(), root))
    ensures Shares(p0, m.(heap := heap, clients := clients), root)
  {
    var s, s' := m.Space(), PageTables.Space(heap.pool, m.mem);
    var tables := TablePages(s, root);
    var level :| PageTables.Sound(s, root, level);
    PartitionViews(p0, m.heap.pool, Blocks(m.heap), m.clients, tables);
    PartitionViews(p0, heap.pool, Blocks(heap), clients, tables);
    TablesStay(p0, s, s', root, level, Blocks(m.heap) + m.clients, Blocks(heap) + clients);
  }

  lemma HeapEvent(p0: Pool, t: OffsetTest, m: Machine, root: nat, r: HeapRuns.Request, heap: Heap)
    requires Shares(p0, m, root) && Linkable(m.heap) && (r.Malloc? || r.Release?)
    requires heap == HeapRuns.Serve(t, HeapRuns.Site(m.heap, m.clients + TablePages(m.Space(), root), m.granted),
      r).heap
    requires Ledger(m.heap, m.granted)
    ensures Shares(p0, m.(heap := heap), root)
    ensures Canonical(m.heap.pool) ==> Canonical(heap.pool)
    ensures t.Intended? && Tight(m.heap) ==> Tight(heap)
    ensures t.AsWritten? && Barren(m.heap) ==> Barren(heap)
  {
    hide Canonical, Tight, Barren, VmmRuns.WellFormed, Safe, TablePages, Ledger;
    var tables := TablePages(m.Space(), root);
    var site := HeapRuns.Site(m.heap, m.clients + tables, m.granted);
    PartitionViews(p0, m.heap.pool, Blocks(m.heap), m.clients, tables);
    HeapRuns.ServeKeeps(p0, t, site, r);
    PartitionViews(p0, heap.pool, Blocks(heap), m.clients, tables);
    SamePartition(p0, m, root, heap, m.clients);
  }

  /** The heap writes only its own pages, hence no table. */
  lemma HeapWrites(p0: Pool, m: Machine, root: nat, heap: Heap, after: Memory)
    requires Shares(p0, m, root) && Shares(p0, m.(heap := heap), root) && ChangedOnly(m.mem, after, m.heap, heap)
    ensures Shares(p0, m.(heap := heap, mem := after), root)
    ensures forall virt: nat :: Lookup(after, root, virt) == Lookup(m.mem, root, virt)
  {
    hide VmmRuns.Reaches, SlabHeap.Sound;
    forall f | 0 <= f < |m.mem| && after[f] != m.mem[f] ensures !VmmRuns.Reaches(m.mem, root, f) {
      if HeapPage(m.heap, f) {
        HeapPageIsNoTable(p0, m, root, f);
      } else {
        HeapPageIsNoTable(p0, m.(heap := heap), root, f);
      }
    }
    Writes(p0, m.(heap := heap), root, after);
  }

  /** Writes to pages that are no tables disturb nobody. */
  lemma Writes(p0: Pool, m: Machine, root: nat, after: Memory)
    requires Shares(p0, m, root) && |after| == |m.mem|
    requires forall f :: 0 <= f < |m.mem| && after[f] != m.mem[f] ==> !VmmRuns.Reaches(m.mem, root, f)
    ensures Shares(p0, m.(mem := after), root)
    ensures forall virt: nat :: Lookup(after, root, virt) == Lookup(m.mem, root, virt)
  {
    hide TablePages, VmmRuns.Reaches, SlabHeap.Sound, Safe;
    var s, s', own := m.Space(), m.(mem := after).Space(), Blocks(m.heap);
    var level :| PageTables.Sound(s, root, level);
    forall t | t in level && t < |m.mem| ensures after[t] == m.mem[t] {
      VmmRuns.ReachesIff(s.mem, root, level, t);
    }
    ForeignKeepsTree(s.mem, root, level, after);
    PartitionViews(p0, s.pool, own, m.clients, TablePages(s, root));
    TablesStay(p0, s, s', root, level, own + m.clients, own + m.clients);
    forall virt: nat ensures Lookup(after, root, virt) == Lookup(m.mem, root, virt) {
      assert Lookup(after, root, virt) == LookupAt(m.mem, root, Path(virt), Index(virt, 1));
    }
  }

  lemma ClientEvent(p0: Pool, m: Machine, root: nat, op: BuddyRuns.Op, w: World)
    requires Shares(p0, m, root) && 1 <= |m.heap.pool.lists|
    requires op.Free? ==> Matched(World(m.heap.pool, m.clients), op)
    requires w == Step(World(m.heap.pool, m.clients), op)
    ensures Shares(p0, InPool(m, w), root)
    ensures Canonical(m.heap.pool) ==> Canonical(w.pool)
  {
    hide Canonical, VmmRuns.WellFormed, TablePages;
    var p, own, tables := m.heap.pool, Blocks(m.heap), TablePages(m.Space(), root);
    PartitionViews(p0, p, own, m.clients, tables);
    ClientStep(p0, p, m.clients, own + tables, op, w);
    PartitionViews(p0, w.pool, own, w.live, tables);
    HeapRuns.SoundInPool(p0, m.heap, w.pool, w.live + tables);
    SamePartition(p0, m, root, m.heap.(pool := w.pool), w.live);
  }

  lemma ClientStep(p0: Pool, p: Pool, clients: BuddyRuns.Live, rest: BuddyRuns.Live, op: BuddyRuns.Op, w: World)
    requires HeapRuns.Shared(p0, p, clients, rest) && FrameZeroReserved(p0) && 1 <= |p.lists|
    requires op.Free? ==> Matched(World(p, clients), op)
    requires w == Step(World(p, clients), op)
    ensures HeapRuns.Shared(p0, w.pool, w.live, rest)
    ensures Canonical(p) ==> Canonical(w.pool)
  {
    match op {
      case Alloc(n) =>
        StepSafe(p0, World(p, clients + rest), op);
        var (p', addr) := AllocPages(p, n);
        if addr == INVALID_ADDRESS {
          AllocFailureIsNoOp(p, n);
        } else {
          HeapRuns.SharedAlloc(p0, p, clients, rest, n, p', addr, addr / PAGE_SIZE, OrderOf(p, n));
        }
      case Free(f, n) =>
        assert (clients + rest)[f] == clients[f];
        StepSafe(p0, World(p, clients + rest), op);
        HeapRuns.NotFrameZero(p0, World(p, clients + rest), f);
        HeapRuns.SharedFree(p0, p, clients, rest, n, w.pool, f);
    }
  }

  /** vmm_map takes pages for tables only: the heap stays sound. */
  lemma MapEvent(p0: Pool, m: Machine, root: nat, virt: nat, phys: nat, flags: nat, m': Machine)
    requires Shares(p0, m, root) && Usable(m.Space()) && Walkable(m.mem, root, virt)
    requires m' == InSpace(m, MapPage(m.Space(), root, virt, phys, flags).0)
    ensures Shares(p0, m', root) && (Canonical(m.heap.pool) ==> Canonical(m'.heap.pool))
  {
    hide Canonical;
    var s, s', own := m.Space(), m'.Space(), Blocks(m.heap);
    var level :| PageTables.Sound(s, root, level);
    PartitionViews(p0, s.pool, own, m.clients, TablePages(s, root));
    MapAccounts(p0, s, root, level, virt, phys, flags, s', own + m.clients);
    PartitionViews(p0, s'.pool, own, m.clients, TablePages(s', root));
    HeapRuns.SoundInPool(p0, m.heap, s'.pool, m.clients + TablePages(s', root));
  }

  lemma MapAccounts(p0: Pool, s: PageTables.Space, root: nat, level: map<nat, nat>, virt: nat, phys: nat, flags: nat,
                    s': PageTables.Space, rest: BuddyRuns.Live)
    requires PageTables.Sound(s, root, level) && Usable(s) && Walkable(s.mem, root, virt)
    requires s' == MapPage(s, root, virt, phys, flags).0
    requires HeapRuns.Shared(p0, s.pool, TablePages(s, root), rest)
    ensures VmmRuns.WellFormed(s', root) && HeapRuns.Shared(p0, s'.pool, TablePages(s', root), rest)
    ensures |s'.pool.lists| == |s.pool.lists| && (Canonical(s.pool) ==> Canonical(s'.pool))
  {
    hide Canonical, HeapRuns.Shared, Walkable, TablePages;
    PathIsValid(virt);
    WalkableWalks(s.mem, root, virt);
    var level1 := WalkCreateKeeps(s, root, level, Path(virt));
    WalkAccounts(p0, s, root, level, Path(virt), rest);
    var (s1, w) := WalkCreate(s, root, Path(virt));
    if w.At? {
      StoreLeaf(s1, root, level1, virt, w.frame, LeafEntry(phys, flags), s');
      TablesStay(p0, s1, s', root, level1, rest, rest);
    }
    SameLists(p0, s, s', root, rest);
  }

  lemma SameLists(p0: Pool, s: PageTables.Space, s': PageTables.Space, root: nat, rest: BuddyRuns.Live)
    requires HeapRuns.Shared(p0, s.pool, TablePages(s, root), rest) &&
      HeapRuns.Shared(p0, s'.pool, TablePages(s', root), rest)
    ensures |s'.pool.lists| == |s.pool.lists|
  {
  }

  /** vmm_unmap gives a page of a client back, if any: heap and tables stay sound. */
  lemma UnmapEvent(p0: Pool, m: Machine, root: nat, virt: nat, m': Machine)
    requires Shares(p0, m, root) && Usable(m.Space()) && Walkable(m.mem, root, virt) && UnmapsClientPage(m, root, virt)
    requires m' == AfterUnmap(m, root, virt)
    ensures Shares(p0, m', root) && (Canonical(m.heap.pool) ==> Canonical(m'.heap.pool))
    ensures VmmRuns.Admitted(m.Space(), root, VmmRuns.Unmap(virt))
  {
    hide Canonical, Walkable, Lookup, TablePages, UnmapPage, FreeActs, SlabHeap.Sound, Safe, And, FrameOf;
    var s, s', own, tables := m.Space(), m'.Space(), Blocks(m.heap), TablePages(m.Space(), root);
    var level :| PageTables.Sound(s, root, level);
    var (s1, ok) := UnmapPage(s, root, virt);
    assert s' == s1;
    PartitionViews(p0, s.pool, own, m.clients, tables);
    UnmapAccounts(p0, s, root, level, virt, s1, ok, own, m.clients, m'.clients, Lookup(m.mem, root, virt));
    PartitionViews(p0, s'.pool, own, m'.clients, tables);
    HeapRuns.SoundInPool(p0, m.heap, s'.pool, m'.clients + tables);
  }

  lemma UnmapAccounts(p0: Pool, s: PageTables.Space, root: nat, level: map<nat, nat>, virt: nat,
                      s': PageTables.Space, ok: bool,
                      own: BuddyRuns.Live, clients: BuddyRuns.Live, clients': BuddyRuns.Live, tr: Translation)
    requires PageTables.Sound(s, root, level) && Usable(s) && Walkable(s.mem, root, virt) && FrameZeroReserved(p0)
    requires Partition(p0, s.pool, own, clients, TablePages(s, root))
    requires (s', ok) == UnmapPage(s, root, virt) && tr == Lookup(s.mem, root, virt)
    requires tr.Maps? && FreeActs(s.pool, And(tr.entry, ADDR_MASK), 1) ==>
      FrameOf(And(tr.entry, ADDR_MASK)) in clients && clients[FrameOf(And(tr.entry, ADDR_MASK))] == 0
    requires clients' == if tr.Maps? && FreeActs(s.pool, And(tr.entry, ADDR_MASK), 1)
      then clients - {FrameOf(And(tr.entry, ADDR_MASK))} else clients
    ensures PageTables.Sound(s', root, level) && TablePages(s', root) == TablePages(s, root) &&
      |s'.pool.lists| == |s.pool.lists|
    ensures Partition(p0, s'.pool, own, clients', TablePages(s, root))
    ensures tr.Maps? ==> VmmRuns.FreesNoTable(s, root, tr.entry)
    ensures Canonical(s.pool) ==> Canonical(s'.pool)
  {
    hide Canonical, Walkable, Lookup, TablePages, UnmapPage, Safe;
    var tables := TablePages(s, root);
    UnmapRemovesOne(s, root, level, virt, s', ok);
    if tr.Maps? {
      var addr := And(tr.entry, ADDR_MASK);
      UnmapPool(s, root, virt);
      PartitionViews(p0, s.pool, own, clients, tables);
      ClientPageFreed(p0, s.pool, clients, own + tables, addr, s'.pool, clients');
      PartitionViews(p0, s'.pool, own, clients', tables);
      if FreeActs(s.pool, addr, 1) {
        ClientIsNoTable(s, root, level, clients, FrameOf(addr));
      }
      TablesStay(p0, s, s', root, level, own + clients, own + clients');
    }
  }

  lemma UnmapPool(s: PageTables.Space, root: nat, virt: nat)
    requires Usable(s) && UnmapPage(s, root, virt).1 && Lookup(s.mem, root, virt).Maps?
    ensures UnmapPage(s, root, virt).0.pool == FreePages(s.pool, And(Lookup(s.mem, root, virt).entry, ADDR_MASK), 1)
    ensures |UnmapPage(s, root, virt).0.mem| == |s.mem|
  {
  }

  lemma ClientIsNoTable(s: PageTables.Space, root: nat, level: map<nat, nat>, clients: BuddyRuns.Live, f: nat)
    requires PageTables.Sound(s, root, level) && clients.Keys !! TablePages(s, root).Keys
    requires f < |s.pool.page| && s.pool.page[f] == ALLOCATED && f in clients
    ensures f !in level && !VmmRuns.Reaches(s.mem, root, f)
  {
    VmmRuns.ReachesIff(s.mem, root, level, f);
    TablePagesByLevel(s, root, level, f);
  }

  lemma ClientPageFreed(p0: Pool, p: Pool, clients: BuddyRuns.Live, rest: BuddyRuns.Live, addr: nat, p': Pool,
                        clients': BuddyRuns.Live)
    requires HeapRuns.Shared(p0, p, clients, rest) && FrameZeroReserved(p0) && p' == FreePages(p, addr, 1)
    requires FreeActs(p, addr, 1) ==> FrameOf(addr) in clients && clients[FrameOf(addr)] == 0
    requires clients' == if FreeActs(p, addr, 1) then clients - {FrameOf(addr)} else clients
    ensures HeapRuns.Shared(p0, p', clients', rest) && |p'.lists| == |p.lists|
    ensures Canonical(p) ==> Canonical(p')
  {
    if FreeActs(p, addr, 1) {
      var f := FrameOf(addr);
      var w := World(p, clients + rest);
      assert w.live[f] == 0;
      HeapRuns.NotFrameZero(p0, w, f);
      FreeLive(p, w.live, f, 1);
      FreePagesCoalesces(p, addr, 1);
      FreePagesCoalesces(p, f * PAGE_SIZE, 1);
      HeapRuns.SharedFree(p0, p, clients, rest, 1, p', f);
      if Canonical(p) { FreePagesCanonical(p, f * PAGE_SIZE, 1); }
    }
  }

  /* ---- What an unmapping may free ---- */

  /** A page that becomes free while it belongs to a block that stays with its owner
      spoils the accounts. */
  lemma FreedWhileOwned(p0: Pool, m: Machine, root: nat, i: nat)
    requires 1 <= |m.heap.pool.lists| && i < |m.heap.pool.page| && FreeAt(m.heap.pool, i)
    requires Covered(Blocks(m.heap), i) || Covered(m.clients, i)
    ensures !Shares(p0, m, root)
  {
    if Shares(p0, m, root) {
      WholeMemory(p0, m, root, i);
    }
  }

  /** The second page of a block whose first page alone was freed has no owner. */
  lemma RestOfBlockLost(p0: Pool, m: Machine, root: nat, m': Machine, f: nat)
    requires Shares(p0, m, root) && f in m.clients && m.clients[f] > 0
    requires 1 <= |m'.heap.pool.lists| && Blocks(m'.heap) == Blocks(m.heap) && m'.clients == m.clients - {f}
    requires f + 1 < |m.heap.pool.page| && m.heap.pool.page[f + 1] == ALLOCATED ==>
      f + 1 < |m'.heap.pool.page| && m'.heap.pool.page[f + 1] == ALLOCATED
    requires forall t: nat :: VmmRuns.Reaches(m'.mem, root, t) ==> VmmRuns.Reaches(m.mem, root, t)
    ensures !Shares(p0, m', root)
  {
    hide VmmRuns.Reaches, Covered, Shares;
    Formed(p0, m, root);
    ClientBlock(p0, m, root, f);
    WholeMemory(p0, m, root, f + 1);
    if Shares(p0, m', root) {
      WholeMemory(p0, m', root, f + 1);
    }
  }

  /** The second page of a client's block is allocated, and no other block of a
      client holds it. */
  lemma ClientBlock(p0: Pool, m: Machine, root: nat, f: nat)
    requires Shares(p0, m, root) && 1 <= |m.heap.pool.lists| && f in m.clients && m.clients[f] > 0
    ensures f + 1 < |m.heap.pool.page| && m.heap.pool.page[f + 1] == ALLOCATED
    ensures Covered(m.clients, f + 1) && !Covered(m.clients - {f}, f + 1)
  {
    hide Shares, TablePages, Blocks, LiveOk, Covered;
    var all := Blocks(m.heap) + m.clients + TablePages(m.Space(), root);
    ClientsLive(p0, m, root, all);
    SecondPage(m.heap.pool, m.clients, all, f);
    OnlyOwner(m.heap.pool, m.clients, all, f, f + 1);
  }

  lemma ClientsLive(p0: Pool, m: Machine, root: nat, all: BuddyRuns.Live)
    requires Shares(p0, m, root) && all == Blocks(m.heap) + m.clients + TablePages(m.Space(), root)
    ensures LiveOk(m.heap.pool, all)
    ensures forall g :: g in m.clients ==> g in all && all[g] == m.clients[g]
  {
    hide SlabHeap.Sound, VmmRuns.WellFormed, TablePages, LiveOk;
  }

  lemma OnlyOwner(p: Pool, clients: BuddyRuns.Live, all: BuddyRuns.Live, f: nat, i: nat)
    requires LiveOk(p, all) && f in clients && f <= i < f + Pow2(clients[f])
    requires forall g :: g in clients ==> g in all && all[g] == clients[g]
    ensures !Covered(clients - {f}, i)
  {
    forall g | g in clients && g != f ensures !(g <= i < g + Pow2(clients[g])) {
      assert BlocksApart(g, all[g], f, all[f]);
    }
  }

  lemma SecondPage(p: Pool, clients: BuddyRuns.Live, all: BuddyRuns.Live, f: nat)
    requires LiveOk(p, all) && f in clients && f in all && all[f] == clients[f] > 0
    ensures f < f + 1 < f + Pow2(clients[f]) && Covered(clients, f) && Covered(clients, f + 1)
    ensures f + 1 < |p.page| && p.page[f + 1] == ALLOCATED
  {
    assert HeldBlock(p, f, all[f]);
    Pow2Mono(1, all[f]);
    assert Pow2(1) == 2;
  }

  /** Unmapping keeps all accounts if and only if what it frees, if anything, is a
      single page of a client: a page of the heap, a table or the first page of a
      larger block must not be mapped and unmapped. */
  lemma UnmapSharesIff(p0: Pool, m: Machine, root: nat, virt: nat, m': Machine)
    requires Shares(p0, m, root) && Usable(m.Space()) && Walkable(m.mem, root, virt) && m' == AfterUnmap(m, root, virt)
    ensures Shares(p0, m', root) <==> UnmapsClientPage(m, root, virt)
  {
    hide Shares, Walkable, Lookup, UnmapPage, FreeActs, FrameOf, And;
    if UnmapsClientPage(m, root, virt) {
      UnmapEvent(p0, m, root, virt, m');
    } else {
      var addr := And(Lookup(m.mem, root, virt).entry, ADDR_MASK);
      UnmapOthersPage(p0, m, root, virt, m', addr, FrameOf(addr));
    }
  }

  lemma UnmapOthersPage(p0: Pool, m: Machine, root: nat, virt: nat, m': Machine, addr: nat, f: nat)
    requires Shares(p0, m, root) && Usable(m.Space()) && Walkable(m.mem, root, virt) && m' == AfterUnmap(m, root, virt)
    requires Lookup(m.mem, root, virt).Maps? && addr == And(Lookup(m.mem, root, virt).entry, ADDR_MASK)
    requires FreeActs(m.heap.pool, addr, 1) && f == FrameOf(addr) && !(f in m.clients && m.clients[f] == 0)
    ensures !Shares(p0, m', root)
  {
    hide Walkable, Lookup, UnmapPage, SlabHeap.Sound, Partition, FrameOf, And, Covered;
    var s := m.Space();
    var (s1, ok) := UnmapPage(s, root, virt);
    VmmRuns.UnmapWellFormedIff(s, root, virt, s1, ok);
    UnmapSucceeds(s, root, virt);
    FreedPage(s.pool, addr, f);
    SameHeapBlocks(m.heap, m'.heap);
    WholeMemory(p0, m, root, f);
    if VmmRuns.Reaches(m.mem, root, f) {
      assert !VmmRuns.WellFormed(m'.Space(), root);
    } else if Covered(Blocks(m.heap), f) {
      FreedWhileOwned(p0, m', root, f);
    } else if f in m.clients {
      UnmapReaches(s, root, virt);
      RestOfBlockLost(p0, m, root, m', f);
    } else {
      assert m'.clients == m.clients;
      FreedWhileOwned(p0, m', root, f);
    }
  }

  lemma UnmapSucceeds(s: PageTables.Space, root: nat, virt: nat)
    requires Usable(s) && VmmRuns.WellFormed(s, root) && Walkable(s.mem, root, virt) && Lookup(s.mem, root, virt).Maps?
    ensures var (s', ok) := UnmapPage(s, root, virt);
      ok && s'.pool == FreePages(s.pool, And(Lookup(s.mem, root, virt).entry, ADDR_MASK), 1)
  {
    hide Walkable, Lookup, UnmapPage;
    var level :| PageTables.Sound(s, root, level);
    var (s', ok) := UnmapPage(s, root, virt);
    UnmapRemovesOne(s, root, level, virt, s', ok);
    UnmapPool(s, root, virt);
  }

  lemma FreedPage(p: Pool, addr: nat, f: nat)
    requires Valid(p) && FreeActs(p, addr, 1) && f == FrameOf(addr)
    ensures var p' := FreePages(p, addr, 1);
      && |p'.page| == |p.page| && |p'.lists| == |p.lists| && f < |p.page| && p.page[f] == ALLOCATED && FreeAt(p', f)
      && forall i :: 0 <= i < |p.page| && i != f && p.page[i] == ALLOCATED ==> p'.page[i] == ALLOCATED
  {
    assert OrderOf(p, 1) == 0 && Pow2(0) == 1;
    FreePagesKeeps(p, addr, 1);
    assert FreeAt(FreePages(p, addr, 1), f);
  }

  lemma SameHeapBlocks(h: Heap, h': Heap)
    requires 1 <= |h.pool.lists| == |h'.pool.lists| && h'.slabs == h.slabs && h'.large == h.large
    ensures Blocks(h') == Blocks(h)
  {
  }

  /** Removing a last-level entry leaves the same tables reachable. */
  lemma UnmapReaches(s: PageTables.Space, root: nat, virt: nat)
    requires Usable(s) && VmmRuns.WellFormed(s, root) && UnmapPage(s, root, virt).1
    ensures forall t: nat :: VmmRuns.Reaches(UnmapPage(s, root, virt).0.mem, root, t) ==>
      VmmRuns.Reaches(s.mem, root, t)
  {
    hide UnmapPage, VmmRuns.Reaches;
    var level :| PageTables.Sound(s, root, level);
    var s' := UnmapPage(s, root, virt).0;
    VmmRuns.UnmapKeepsTree(s, root, level, virt, s');
    forall t: nat | VmmRuns.Reaches(s'.mem, root, t) ensures VmmRuns.Reaches(s.mem, root, t) {
      VmmRuns.ReachesIff(s.mem, root, level, t);
      VmmRuns.ReachesIff(s'.mem, root, level, t);
    }
  }

  /** The whole invariant survives an unmapping exactly then. */
  lemma UnmapCoherentIff(p0: Pool, m: Machine, root: nat, virt: nat, m': Machine)
    requires Coherent(p0, m, root) && Usable(m.Space()) && Walkable(m.mem, root, virt) &&
      m' == AfterUnmap(m, root, virt)
    ensures Coherent(p0, m', root) <==> UnmapsClientPage(m, root, virt)
  {
    hide Shares, Ledger, Walkable, Lookup, UnmapPage;
    UnmapSharesIff(p0, m, root, virt, m');
    LedgerInPool(m.heap, m'.heap, m.granted);
  }

  /** Every event keeps the three layers sound and their accounts in order, keeps
      what was handed out disjoint and in use, keeps canonical form and tightness,
      and translates addresses as a plain map does. */
  lemma EventKeeps(p0: Pool, t: OffsetTest, m: Machine, root: nat, e: Event, tr: nat -> Translation)
    requires Coherent(p0, m, root) && SlabHeap.Sound(m.heap) && Linkable(m.heap) && Usable(m.Space())
    requires Due(t, m, root, e) && VmmRuns.Represents(m.mem, root, tr)
    ensures var m' := Perform(t, m, root, e);
      && Coherent(p0, m', root) && VmmRuns.Represents(m'.mem, root, Translated(m, root, e, tr))
      && (Canonical(m.heap.pool) ==> Canonical(m'.heap.pool))
      && (t.Intended? && Tight(m.heap) ==> Tight(m'.heap))
      && (t.AsWritten? && Barren(m.heap) ==> Barren(m'.heap))
  {
    hide Shares, Canonical, Walkable, Lookup, MapPage, UnmapPage, VmmRuns.WellFormed, VmmRuns.Reaches, Ledger,
      ChangedOnly;
    hide SlabHeap.Sound, Kmalloc, Kfree;
    var m' := Perform(t, m, root, e);
    match e
    case Malloc(size, after) =>
      HeapEvent(p0, t, m, root, HeapRuns.Malloc(size), m'.heap);
      HeapWrites(p0, m, root, m'.heap, after);
      LedgerAfterMalloc(t, m.heap, size, m'.heap, Kmalloc(t, m.heap, size).1, m.granted);
      GrantsNeutral(p0, m, root, m'.heap, m'.granted, after);
    case Release(x, after) =>
      HeapEvent(p0, t, m, root, HeapRuns.Release(x), m'.heap);
      HeapWrites(p0, m, root, m'.heap, after);
      LedgerAfterFree(m.heap, x, m'.heap, m.granted);
      GrantsNeutral(p0, m, root, m'.heap, m'.granted, after);
    case _ =>
      PoolEventKeeps(p0, t, m, root, e, tr);
  }

  lemma GrantsNeutral(p0: Pool, m: Machine, root: nat, heap: Heap, granted: seq<Grant>, after: Memory)
    requires Shares(p0, m.(heap := heap, mem := after), root)
    ensures Shares(p0, m.(heap := heap, granted := granted, mem := after), root)
  {
  }

  /** Events that are no requests to the heap. */
  lemma PoolEventKeeps(p0: Pool, t: OffsetTest, m: Machine, root: nat, e: Event, tr: nat -> Translation)
    requires Coherent(p0, m, root) && SlabHeap.Sound(m.heap) && Linkable(m.heap) && Usable(m.Space())
    requires Due(t, m, root, e) && VmmRuns.Represents(m.mem, root, tr) && !e.Malloc? && !e.Release?
    ensures var m' := Perform(t, m, root, e);
      && Coherent(p0, m', root) && VmmRuns.Represents(m'.mem, root, Translated(m, root, e, tr))
      && m'.heap.slabs == m.heap.slabs && m'.heap.large == m.heap.large && m'.heap.partial == m.heap.partial
      && (Canonical(m.heap.pool) ==> Canonical(m'.heap.pool))
  {
    hide Shares, Canonical, VmmRuns.Represents, Walkable, Lookup, MapPage, UnmapPage, VmmRuns.WellFormed,
      VmmRuns.Reaches, Ledger;
    var m' := Perform(t, m, root, e);
    Formed(p0, m, root);
    LedgerInPool(m.heap, m'.heap, m.granted);
    match e
    case TakePages(n) => ClientEvent(p0, m, root, Alloc(n), Step(World(m.heap.pool, m.clients), Alloc(n)));
    case GivePages(f, n) => ClientEvent(p0, m, root, Free(f, n), Step(World(m.heap.pool, m.clients), Free(f, n)));
    case Mapping(virt, phys, flags) =>
      MapEvent(p0, m, root, virt, phys, flags, m');
      var (s', ok) := MapPage(m.Space(), root, virt, phys, flags);
      VmmRuns.PerformRefines(m.Space(), root, VmmRuns.Map(virt, phys, flags), s', ok, tr);
    case Unmapping(virt) =>
      UnmapEvent(p0, m, root, virt, m');
      var (s', ok) := UnmapPage(m.Space(), root, virt);
      VmmRuns.PerformRefines(m.Space(), root, VmmRuns.Unmap(virt), s', ok, tr);
    case Store(f, content) =>
      Writes(p0, m, root, m'.mem);
      VmmRuns.PerformRefines(m.Space(), root, VmmRuns.Write(f, content), m'.Space(), true, tr);
  }

  lemma Formed(p0: Pool, m: Machine, root: nat)
    requires Shares(p0, m, root)
    ensures VmmRuns.WellFormed(m.Space(), root) && SlabHeap.Sound(m.heap) && Linkable(m.heap) && Usable(m.Space())
  {
    SoundIsLinkable(m.heap);
    var level :| PageTables.Sound(m.Space(), root, level);
  }

  /* ---- Runs ---- */

  ghost predicate DueRun(p0: Pool, t: OffsetTest, m: Machine, root: nat, es: seq<Event>)
    requires Coherent(p0, m, root)
    decreases |es|
  {
    Formed(p0, m, root);
    es == [] || (Due(t, m, root, es[0]) && (PerformCoherent(p0, t, m, root, es[0]); DueRun(p0, t,
      Perform(t, m, root, es[0]), root, es[1..])))
  }

  lemma PerformCoherent(p0: Pool, t: OffsetTest, m: Machine, root: nat, e: Event)
    requires Coherent(p0, m, root) && SlabHeap.Sound(m.heap) && Linkable(m.heap) && Usable(m.Space()) &&
      Due(t, m, root, e)
    ensures Coherent(p0, Perform(t, m, root, e), root)
  {
    hide Shares, Ledger, Perform;
    EventKeeps(p0, t, m, root, e, (virt: nat) => Lookup(m.mem, root, virt));
  }

  ghost function RunAll(p0: Pool, t: OffsetTest, m: Machine, root: nat, es: seq<Event>): Machine
    requires Coherent(p0, m, root) && DueRun(p0, t, m, root, es)
    decreases |es|
  {
    Formed(p0, m, root);
    if es == [] then m
    else
      PerformCoherent(p0, t, m, root, es[0]);
      RunAll(p0, t, Perform(t, m, root, es[0]), root, es[1..])
  }

  ghost function TranslatedAll(p0: Pool, t: OffsetTest, m: Machine, root: nat, es: seq<Event>,
                               tr: nat -> Translation): nat -> Translation
    requires Coherent(p0, m, root) && DueRun(p0, t, m, root, es)
    decreases |es|
  {
    Formed(p0, m, root);
    if es == [] then tr
    else
      PerformCoherent(p0, t, m, root, es[0]);
      TranslatedAll(p0, t, Perform(t, m, root, es[0]), root, es[1..], Translated(m, root, es[0], tr))
  }

  /** Over every run of the whole memory stack: heap requests keep the page tables
      sound and mappings the heap, every allocated page has exactly one owner, what
      kmalloc handed out and has not been given back is in use, pairwise disjoint and
      as long as requested, no reserved page is touched, the pool stays canonical and
      the heap tight, and every address translates as in a plain map with the same
      updates. */
  lemma {:induction false} RunKeeps(p0: Pool, t: OffsetTest, m: Machine, root: nat, es: seq<Event>,
                                    tr: nat -> Translation)
    requires Coherent(p0, m, root) && DueRun(p0, t, m, root, es) && VmmRuns.Represents(m.mem, root, tr)
    ensures var m' := RunAll(p0, t, m, root, es);
      && Coherent(p0, m', root) && VmmRuns.Represents(m'.mem, root, TranslatedAll(p0, t, m, root, es, tr))
      && (Canonical(m.heap.pool) ==> Canonical(m'.heap.pool))
      && (t.Intended? && Tight(m.heap) ==> Tight(m'.heap))
      && (t.AsWritten? && Barren(m.heap) ==> Barren(m'.heap))
    decreases |es|
  {
    hide Shares, Ledger, Perform, Due, Translated, Canonical, Tight, Barren, VmmRuns.Represents, Linkable, Usable;
    Formed(p0, m, root);
    if es != [] {
      EventKeeps(p0, t, m, root, es[0], tr);
      RunKeeps(p0, t, Perform(t, m, root, es[0]), root, es[1..], Translated(m, root, es[0], tr));
    }
  }

  /** After boot: an empty heap, no clients, and an empty root table on a page that
      the allocator does not hand out. */
  lemma BootCoherent(p0: Pool, m: Machine, root: nat)
    requires Safe(p0, World(p0, map[])) && FrameZeroReserved(p0)
    requires m == Machine(EmptyHeap(p0), [], map[], m.mem) && |p0.page| <= |m.mem|
    requires root < |m.mem| && !FreeAt(p0, root) && m.mem[root] == Zeros(ENTRIES)
    ensures Coherent(p0, m, root) && Tight(m.heap) && Barren(m.heap)
    ensures VmmRuns.Represents(m.mem, root, virt => Unmapped)
  {
    hide TablePages, Lookup, Tree, SlabHeap.Sound;
    EmptyHeapSound(p0);
    EmptyRoot(m.Space(), root, 0);
    assert PageTables.Sound(m.Space(), root, map[root := 4]);
    NoTablesYet(p0, m.Space(), root);
    var none: BuddyRuns.Live := map[];
    assert Blocks(m.heap) == none && none + none + none == none;
    forall virt: nat ensures Lookup(m.mem, root, virt) == Unmapped {
      EmptyRoot(m.Space(), root, virt);
    }
  }

  lemma NoTablesYet(p0: Pool, s: PageTables.Space, root: nat)
    requires Safe(p0, World(p0, map[])) && s.pool == p0
    ensures TablePages(s, root) == map[]
  {
    forall i | 0 <= i < |p0.page| ensures p0.page[i] != ALLOCATED {
      assert !Covered(map[], i);
    }
  }
}
