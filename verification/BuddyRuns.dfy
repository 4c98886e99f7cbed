/** Whole runs of the buddy allocator: any sequence of allocations and of frees
    that match an earlier allocation. */
module BuddyRuns {
  import opened Bits
  import opened BuddyPool
  import opened BuddyOps
  import opened BuddyCanonical
  import opened BuddyRanges
  import opened BuddyMap

  /** Blocks handed out and not yet given back: first frame to order. */
  type Live = map<nat, nat>

  ghost predicate BlocksApart(f: nat, o: nat, g: nat, q: nat) {
    f + Pow2(o) <= g || g + Pow2(q) <= f
  }

  /** Live blocks are aligned, in bounds, wholly allocated and pairwise disjoint. */
  ghost predicate LiveOk(p: Pool, live: Live) {
    && (forall f :: f in live ==> HeldBlock(p, f, live[f]))
    && (forall f, g :: f in live && g in live && f != g ==> BlocksApart(f, live[f], g, live[g]))
  }

  ghost predicate Covered(live: Live, i: nat) {
    exists f :: f in live && f <= i < f + Pow2(live[f])
  }

  lemma AllocLive(p: Pool, live: Live, pages: nat, p': Pool, addr: nat)
    requires Valid(p) && LiveOk(p, live) && (p', addr) == AllocPages(p, pages) && addr != INVALID_ADDRESS
    ensures var f, o := addr / PAGE_SIZE, OrderOf(p, pages);
      && f !in live && LiveOk(p', live[f := o])
      && forall g :: g in live ==> BlocksApart(f, o, g, live[g])
  {
    AllocPagesKeeps(p, pages);
    var f, o := addr / PAGE_SIZE, OrderOf(p, pages);
    forall g | g in live
      ensures BlocksApart(f, o, g, live[g]) && HeldBlock(p', g, live[g])
    {
      HeldApartFromFree(p, f, o, g, live[g]);
      HeldElsewhere(p, p', f, o, g, live[g]);
    }
  }

  lemma HeldApartFromFree(p: Pool, f: nat, o: nat, g: nat, q: nat)
    requires Shape(p) && AllFree(p, f, f + Pow2(o)) && HeldBlock(p, g, q)
    ensures BlocksApart(f, o, g, q)
  {
    assert FreeAt(p, f) && p.page[g] == ALLOCATED;
    assert !(g <= f < g + Pow2(q));
    assert f <= g < f + Pow2(o) ==> FreeAt(p, g);
  }

  lemma HeldElsewhere(p: Pool, p': Pool, f: nat, o: nat, g: nat, q: nat)
    requires Shape(p) && HeldBlock(p, g, q) && BlocksApart(f, o, g, q) && SameOutside(p, p', f, f + Pow2(o))
    ensures HeldBlock(p', g, q)
  {
    forall i | g <= i < g + Pow2(q) ensures p'.page[i] == ALLOCATED {
      assert p.page[i] == ALLOCATED && !FreeAt(p, i);
    }
  }

  lemma FreeLive(p: Pool, live: Live, f: nat, pages: nat)
    requires Valid(p) && LiveOk(p, live) && f in live && f != 0 && pages != 0 && OrderOf(p, pages) == live[f]
    ensures FreeActs(p, f * PAGE_SIZE, pages) && FrameOf(f * PAGE_SIZE) == f
    ensures FreeContract(p, f * PAGE_SIZE, pages)
    ensures Valid(FreePages(p, f * PAGE_SIZE, pages)) && LiveOk(FreePages(p, f * PAGE_SIZE, pages), live - {f})
  {
    var o := live[f];
    assert HeldBlock(p, f, o) && p.page[f] == ALLOCATED;
    FrameIsNotNil(p, f);
    assert f * PAGE_SIZE / PAGE_SIZE == f && f * PAGE_SIZE % PAGE_SIZE == 0;
    FreePagesKeeps(p, f * PAGE_SIZE, pages);
    var p' := FreePages(p, f * PAGE_SIZE, pages);
    forall g | g in live - {f}
      ensures HeldBlock(p', g, live[g])
    {
      assert BlocksApart(f, o, g, live[g]);
      HeldElsewhere(p, p', f, o, g, live[g]);
    }
  }

  /* ---- Runs ---- */

  datatype Op = Alloc(pages: nat) | Free(frame: nat, pages: nat)

  datatype World = World(pool: Pool, live: Live)

  function Step(w: World, op: Op): (w': World)
    requires 1 <= |w.pool.lists|
    ensures |w'.pool.lists| == |w.pool.lists| && |w'.pool.page| == |w.pool.page|
  {
    match op
    case Alloc(n) =>
      var (p', addr) := AllocPages(w.pool, n);
      World(p', if addr == INVALID_ADDRESS then w.live else w.live[addr / PAGE_SIZE := OrderOf(w.pool, n)])
    case Free(f, n) =>
      // The block at address 0 is never taken back.
      World(FreePages(w.pool, f * PAGE_SIZE, n), if f == 0 then w.live else w.live - {f})
  }

  /** A free names a live block and a page count of that block's order. */
  predicate Matched(w: World, op: Op)
    requires 1 <= |w.pool.lists|
  {
    op.Free? ==> op.pages != 0 && op.frame in w.live && OrderOf(w.pool, op.pages) == w.live[op.frame]
  }

  function Run(w: World, ops: seq<Op>): (w': World)
    requires 1 <= |w.pool.lists|
    ensures |w'.pool.lists| == |w.pool.lists| && |w'.pool.page| == |w.pool.page|
    decreases ops
  {
    if ops == [] then w else Run(Step(w, ops[0]), ops[1..])
  }

  predicate MatchedRun(w: World, ops: seq<Op>)
    requires 1 <= |w.pool.lists|
    decreases ops
  {
    ops == [] || (Matched(w, ops[0]) && MatchedRun(Step(w, ops[0]), ops[1..]))
  }

  /** What every run from the pool p0 keeps: the live blocks are sound, they are
      exactly the allocated pages, and the reserved pages are those of p0. */
  ghost predicate Safe(p0: Pool, w: World) {
    && Valid(w.pool) && LiveOk(w.pool, w.live)
    && |w.pool.page| == |p0.page| && |w.pool.lists| == |p0.lists|
    && (forall i :: 0 <= i < |p0.page| ==> (w.pool.page[i] == ALLOCATED <==> Covered(w.live, i)))
    && (forall i :: 0 <= i < |p0.page| ==> (w.pool.page[i] == RESERVED <==> p0.page[i] == RESERVED))
  }

  lemma StepSafe(p0: Pool, w: World, op: Op)
    requires Safe(p0, w) && Matched(w, op)
    ensures Safe(p0, Step(w, op))
    ensures Canonical(w.pool) ==> Canonical(Step(w, op).pool)
  {
    match op
    case Alloc(n) => AllocSafe(p0, w, n);
    case Free(f, n) => FreeSafe(p0, w, f, n);
  }

  lemma AllocSafe(p0: Pool, w: World, pages: nat)
    requires Safe(p0, w)
    ensures Safe(p0, Step(w, Alloc(pages)))
    ensures Canonical(w.pool) ==> Canonical(Step(w, Alloc(pages)).pool)
  {
    var p := w.pool;
    AllocPagesKeeps(p, pages);
    var (p', addr) := AllocPages(p, pages);
    if addr != INVALID_ADDRESS {
      AllocLive(p, w.live, pages, p', addr);
      var f, o := addr / PAGE_SIZE, OrderOf(p, pages);
      TakenAccounts(p, p', w.live, f, o);
      assert Step(w, Alloc(pages)) == World(p', w.live[f := o]);
    }
    if Canonical(p) {
      AllocPagesCanonical(p, pages);
    }
  }

  lemma TakenAccounts(p: Pool, p': Pool, live: Live, f: nat, o: nat)
    requires Shape(p) && f !in live && HeldBlock(p', f, o) && AllFree(p, f, f + Pow2(o)) &&
      SameOutside(p, p', f, f + Pow2(o))
    requires forall i :: 0 <= i < |p.page| ==> (p.page[i] == ALLOCATED <==> Covered(live, i))
    ensures forall i :: 0 <= i < |p.page| ==> (p'.page[i] == ALLOCATED <==> Covered(live[f := o], i))
    ensures forall i :: 0 <= i < |p.page| ==> (p'.page[i] == RESERVED <==> p.page[i] == RESERVED)
  {
    var live' := live[f := o];
    forall i | 0 <= i < |p.page|
      ensures p'.page[i] == ALLOCATED <==> Covered(live', i)
      ensures p'.page[i] == RESERVED <==> p.page[i] == RESERVED
    {
      CoveredAdd(live, f, o, i);
      if FreeAt(p, i) {
        assert f <= i < f + Pow2(o) || FreeAt(p', i);
      }
    }
  }

  lemma CoveredAdd(live: Live, f: nat, o: nat, i: nat)
    requires f !in live
    ensures Covered(live[f := o], i) <==> Covered(live, i) || f <= i < f + Pow2(o)
  {
    var live' := live[f := o];
    if Covered(live, i) {
      var g :| g in live && g <= i < g + Pow2(live[g]);
      assert g in live' && live'[g] == live[g];
    }
    if Covered(live', i) {
      var g :| g in live' && g <= i < g + Pow2(live'[g]);
      assert g != f ==> g in live && live'[g] == live[g];
    }
    assert f in live' && live'[f] == o;
  }

  lemma FreeSafe(p0: Pool, w: World, f: nat, pages: nat)
    requires Safe(p0, w) && Matched(w, Free(f, pages))
    ensures Safe(p0, Step(w, Free(f, pages)))
    ensures Canonical(w.pool) ==> Canonical(Step(w, Free(f, pages)).pool)
  {
    var p := w.pool;
    if f != 0 {
      FreeLive(p, w.live, f, pages);
      FreePagesKeeps(p, f * PAGE_SIZE, pages);
      var p', live' := FreePages(p, f * PAGE_SIZE, pages), w.live - {f};
      RemoveThenAdd(w.live, f);
      ReleasedAccounts(p, p', w.live, f);
      assert Step(w, Free(f, pages)) == World(p', live');
      if Canonical(p) {
        FreePagesCanonical(p, f * PAGE_SIZE, pages);
      }
    }
  }

  lemma RemoveThenAdd(live: Live, f: nat)
    requires f in live
    ensures (live - {f})[f := live[f]] == live
  {
  }

  lemma AddThenRemove(live: Live, f: nat, o: nat)
    requires f !in live
    ensures live[f := o] - {f} == live
  {
  }

  lemma ReleasedAccounts(p: Pool, p': Pool, live: Live, f: nat)
    requires Shape(p) && LiveOk(p, live) && f in live
    requires AllFree(p', f, f + Pow2(live[f])) && SameOutside(p, p', f, f + Pow2(live[f]))
    requires forall i :: 0 <= i < |p.page| ==> (p.page[i] == ALLOCATED <==> Covered(live, i))
    ensures forall i :: 0 <= i < |p.page| ==> (p'.page[i] == ALLOCATED <==> Covered(live - {f}, i))
    ensures forall i :: 0 <= i < |p.page| ==> (p'.page[i] == RESERVED <==> p.page[i] == RESERVED)
  {
    var live', o := live - {f}, live[f];
    RemoveThenAdd(live, f);
    forall i | 0 <= i < |p.page|
      ensures p'.page[i] == ALLOCATED <==> Covered(live', i)
      ensures p'.page[i] == RESERVED <==> p.page[i] == RESERVED
    {
      CoveredAdd(live', f, o, i);
      if f <= i < f + Pow2(o) {
        assert FreeAt(p', i) && p.page[i] == ALLOCATED;
        forall g | g in live' ensures !(g <= i < g + Pow2(live'[g])) {
          assert BlocksApart(f, live[f], g, live[g]);
        }
      } else if FreeAt(p, i) {
        assert FreeAt(p', i);
      }
    }
  }

  /** Every run keeps its live blocks disjoint, aligned and out of reserved
      memory, accounts for every page, and keeps the canonical form. */
  lemma {:induction false} RunSafe(p0: Pool, w: World, ops: seq<Op>)
    requires Safe(p0, w) && MatchedRun(w, ops)
    ensures Safe(p0, Run(w, ops))
    ensures Canonical(w.pool) ==> Canonical(Run(w, ops).pool)
    decreases ops
  {
    if ops != [] {
      StepSafe(p0, w, ops[0]);
      RunSafe(p0, Step(w, ops[0]), ops[1..]);
    }
  }

  function Boot(rs: seq<Range>, n: nat): World {
    World(InitPool(rs, n), map[])
  }

  lemma BootSafe(rs: seq<Range>, n: nat)
    requires n <= ORDER_LIMIT && Separate(rs, n)
    ensures Safe(InitPool(rs, n), Boot(rs, n))
  {
    InitPoolEffect(rs, n);
  }

  /** From boot on, a page is reserved if and only if no usable range holds it,
      and every other page is either free or in exactly one live block. */
  lemma Conservation(rs: seq<Range>, n: nat, ops: seq<Op>, i: nat)
    requires n <= ORDER_LIMIT && Separate(rs, n) && MatchedRun(Boot(rs, n), ops) && i < Pow2(n)
    ensures var w := Run(Boot(rs, n), ops);
      && (w.pool.page[i] == RESERVED <==> !InSome(rs, i))
      && (InSome(rs, i) <==> (FreeAt(w.pool, i) || Covered(w.live, i)))
      && !(FreeAt(w.pool, i) && Covered(w.live, i))
      && forall f, g ::
        f in w.live && g in w.live && f <= i < f + Pow2(w.live[f]) && g <= i < g + Pow2(w.live[g]) ==> f == g
  {
    InitPoolEffect(rs, n);
    BootSafe(rs, n);
    RunSafe(InitPool(rs, n), Boot(rs, n), ops);
    var w := Run(Boot(rs, n), ops);
    assert PageOk(w.pool, i);
    forall f, g | f in w.live && g in w.live && f != g
      ensures !(f <= i < f + Pow2(w.live[f]) && g <= i < g + Pow2(w.live[g]))
    {
      assert BlocksApart(f, w.live[f], g, w.live[g]);
    }
  }

  /** From a memory map on, over every run: a page is reserved if and only if no
      usable entry holds it, and every other page is free or in a live block. */
  lemma MapConservation(es: seq<MapEntry>, n: nat, ops: seq<Op>, i: nat)
    requires n <= ORDER_LIMIT && SumsFit(es) && EntriesApart(es) && i < Pow2(n)
    requires MatchedRun(Boot(EntryRanges(es, Pow2(n)), n), ops)
    ensures var w := Run(Boot(EntryRanges(es, Pow2(n)), n), ops);
      && (w.pool.page[i] == RESERVED <==> !UsableFrame(es, Pow2(n), i))
      && (UsableFrame(es, Pow2(n), i) <==> FreeAt(w.pool, i) || Covered(w.live, i))
  {
    hide UsableFrame, SumsFit, EntriesApart;
    var rs := EntryRanges(es, Pow2(n));
    EntriesSeparate(es, n);
    InitFromMap(es, n, i);
    InitPoolEffect(rs, n);
    Conservation(rs, n, ops, i);
  }

  /** Two runs that leave the same pages in use have the same free blocks. */
  lemma HistoriesAgree(rs: seq<Range>, n: nat, ops: seq<Op>, ops': seq<Op>)
    requires n <= ORDER_LIMIT && Separate(rs, n) && Canonical(InitPool(rs, n))
    requires MatchedRun(Boot(rs, n), ops) && MatchedRun(Boot(rs, n), ops')
    requires forall i: nat :: Covered(Run(Boot(rs, n), ops).live, i) <==> Covered(Run(Boot(rs, n), ops').live, i)
    ensures forall f: nat, o: nat ::
      Listed(Run(Boot(rs, n), ops).pool, f, o) <==> Listed(Run(Boot(rs, n), ops').pool, f, o)
  {
    BootSafe(rs, n);
    var p0 := InitPool(rs, n);
    RunSafe(p0, Boot(rs, n), ops);
    RunSafe(p0, Boot(rs, n), ops');
    SafeWorldsAgree(p0, Run(Boot(rs, n), ops), Run(Boot(rs, n), ops'));
  }

  lemma SafeWorldsAgree(p0: Pool, w: World, w': World)
    requires Safe(p0, w) && Safe(p0, w') && Canonical(w.pool) && Canonical(w'.pool)
    requires forall i: nat :: Covered(w.live, i) <==> Covered(w'.live, i)
    ensures forall f: nat, o: nat :: Listed(w.pool, f, o) <==> Listed(w'.pool, f, o)
  {
    forall i | 0 <= i < |p0.page| ensures FreeAt(w.pool, i) <==> FreeAt(w'.pool, i) {
      assert PageOk(w.pool, i) && PageOk(w'.pool, i);
      assert Covered(w.live, i) <==> Covered(w'.live, i);
    }
    SameFreePagesSameBlocks(w.pool, w'.pool);
  }

  /** Giving everything back, in whatever order, restores the initial free blocks. */
  lemma FreeingAllRestores(rs: seq<Range>, n: nat, ops: seq<Op>)
    requires n <= ORDER_LIMIT && Separate(rs, n) && Canonical(InitPool(rs, n))
    requires MatchedRun(Boot(rs, n), ops) && Run(Boot(rs, n), ops).live == map[]
    ensures forall f: nat, o: nat :: Listed(Run(Boot(rs, n), ops).pool, f, o) <==> Listed(InitPool(rs, n), f, o)
  {
    assert Run(Boot(rs, n), []) == Boot(rs, n);
    HistoriesAgree(rs, n, ops, []);
  }

  /** Every state that a run from w reaches is canonical. */
  ghost predicate AlwaysCanonical(w: World)
    requires 1 <= |w.pool.lists|
  {
    forall ops :: MatchedRun(w, ops) ==> Canonical(Run(w, ops).pool)
  }

  lemma AlwaysCanonicalIff(p0: Pool, w: World)
    requires Safe(p0, w)
    ensures AlwaysCanonical(w) <==> Canonical(w.pool)
  {
    var none: seq<Op> := [];
    assert MatchedRun(w, none) && Run(w, none) == w;
    if Canonical(w.pool) {
      forall ops | MatchedRun(w, ops) ensures Canonical(Run(w, ops).pool) {
        RunSafe(p0, w, ops);
      }
    }
  }

  /** From boot on every state is canonical if and only if no two usable ranges
      meet mergeably. */
  lemma RunsCanonicalIff(rs: seq<Range>, n: nat)
    requires n <= ORDER_LIMIT && Separate(rs, n)
    ensures AlwaysCanonical(Boot(rs, n)) <==>
            forall i, j :: 0 <= i < |rs| && 0 <= j < |rs| ==> !Mergeable(rs[i], rs[j])
  {
    InitCanonicalIff(rs, n);
    BootSafe(rs, n);
    AlwaysCanonicalIff(InitPool(rs, n), Boot(rs, n));
  }
}
