/** Canonical form is not only enough for what clients of the buddy allocator see
    over whole runs, it is also needed: each of the three promises below holds
    along all runs if and only if the pool is canonical at their start. */
module BuddyHistories {
  import opened Bits
  import opened BuddyPool
  import opened BuddyOps
  import opened BuddyCanonical
  import opened BuddyRanges
  import opened BuddyRuns

  ghost predicate SameListed(p: Pool, p': Pool) {
    forall f: nat, o: nat :: Listed(p, f, o) <==> Listed(p', f, o)
  }

  /** An allocation fails only for a bad size or for want of an aligned run of
      free pages. */
  ghost predicate FailsExactly(p: Pool)
    requires 1 <= |p.lists|
  {
    forall pages: nat :: AllocPages(p, pages).1 == INVALID_ADDRESS <==>
      pages == 0 || pages > |p.page| || !exists f: nat :: FreeRun(p, f, OrderOf(p, pages))
  }

  ghost predicate AlwaysFailsExactly(w: World)
    requires 1 <= |w.pool.lists|
  {
    forall ops :: MatchedRun(w, ops) ==> FailsExactly(Run(w, ops).pool)
  }

  /** A run that gives back exactly what it took restores the free blocks. */
  ghost predicate AlwaysRestores(w: World)
    requires 1 <= |w.pool.lists|
  {
    forall ops :: MatchedRun(w, ops) && Run(w, ops).live == w.live ==> SameListed(Run(w, ops).pool, w.pool)
  }

  /** Runs that leave the same pages in use leave the same free blocks. */
  ghost predicate AlwaysAgrees(w: World)
    requires 1 <= |w.pool.lists|
  {
    forall ops, ops' :: MatchedRun(w, ops) && MatchedRun(w, ops') && SameCovered(Run(w, ops).live, Run(w, ops').live)
      ==> SameListed(Run(w, ops).pool, Run(w, ops').pool)
  }

  ghost predicate SameCovered(live: Live, live': Live) {
    forall i: nat :: Covered(live, i) <==> Covered(live', i)
  }

  /** Two runs one after the other. */
  lemma {:induction false} RunConcat(w: World, a: seq<Op>, b: seq<Op>)
    requires 1 <= |w.pool.lists|
    ensures Run(w, a + b) == Run(Run(w, a), b)
    ensures MatchedRun(w, a + b) <==> MatchedRun(w, a) && MatchedRun(Run(w, a), b)
    decreases a
  {
    if a == [] {
      assert a + b == b;
    } else {
      assert (a + b)[0] == a[0] && (a + b)[1..] == a[1..] + b;
      RunConcat(Step(w, a[0]), a[1..], b);
    }
  }

  lemma OneStep(w: World, op: Op)
    requires 1 <= |w.pool.lists|
    ensures Run(w, [op]) == Step(w, op) && (MatchedRun(w, [op]) <==> Matched(w, op))
  {
    var rest := [op][1..];
    assert rest == [] && Run(Step(w, op), rest) == Step(w, op);
  }

  lemma OrderOfPower(p: Pool, o: nat, pages: nat)
    requires Shape(p) && o < |p.lists| && pages == Pow2(o)
    ensures pages <= |p.page| && OrderOf(p, pages) == o
  {
    Pow2Mono(o, |p.lists| - 1);
    OrderIsLeast(p, pages, o);
    if OrderOf(p, pages) < o {
      Pow2Mono(OrderOf(p, pages), o);
      OrderIsLeast(p, pages, OrderOf(p, pages));
    }
  }

  /** Two listed buddies. */
  ghost predicate Twins(p: Pool, f: nat, o: nat) {
    o + 1 < |p.lists| && Aligned(f, o) && Listed(p, f, o) && Listed(p, BuddyOf(f, o), o)
  }

  lemma TwinsIff(p: Pool)
    ensures Canonical(p) <==> forall f: nat, o: nat :: !Twins(p, f, o)
  {
    if !Canonical(p) {
      var f: nat, o: nat :| Listed(p, f, o) && o < |p.lists| - 1 && Aligned(f, o) && Listed(p, BuddyOf(f, o), o);
      assert Twins(p, f, o);
    }
  }

  /* ---- Failure ---- */

  ghost function FreeSet(p: Pool): set<int> {
    set i | 0 <= i < |p.page| && FreeAt(p, i)
  }

  lemma Shrinks(p: Pool, p': Pool, f: nat, o: nat)
    requires |p'.page| == |p.page| && FreeAt(p, f) && !FreeAt(p', f)
    requires AllFree(p, f, f + Pow2(o)) && SameOutside(p, p', f, f + Pow2(o))
    ensures |FreeSet(p')| < |FreeSet(p)|
  {
    var rest := FreeSet(p) - {f} - FreeSet(p');
    assert FreeSet(p) - {f} == FreeSet(p') + rest;
  }

  /** Allocating twice the size of a listed block leaves that block listed. */
  lemma LargerAllocation(p: Pool, o: nat, pages: nat, p': Pool, addr: nat)
    requires Valid(p) && o + 1 < |p.lists| && pages == Pow2(o + 1)
    requires (p', addr) == AllocPages(p, pages) && addr != INVALID_ADDRESS
    ensures forall f: nat :: Listed(p, f, o) ==> Listed(p', f, o)
    ensures |FreeSet(p')| < |FreeSet(p)|
  {
    OrderOfPower(p, o + 1, pages);
    AllocPagesKeeps(p, pages);
    AllocateBlockEffect(p, o + 1);
    var f := addr / PAGE_SIZE;
    assert p'.page[f] == ALLOCATED;
    Shrinks(p, p', f, o + 1);
  }

  /** Take blocks of the next order until there is none: the twins stay listed. */
  lemma {:induction false} Exhaust(p0: Pool, w: World, f: nat, o: nat, pages: nat) returns (ops: seq<Op>)
    requires Safe(p0, w) && Twins(w.pool, f, o) && pages == Pow2(o + 1)
    ensures MatchedRun(w, ops)
    ensures var p := Run(w, ops).pool; Twins(p, f, o) && AllocPages(p, pages).1 == INVALID_ADDRESS
    decreases |FreeSet(w.pool)|
  {
    ops := [];
    var (p', addr) := AllocPages(w.pool, pages);
    if addr != INVALID_ADDRESS {
      var w' := Step(w, Alloc(pages));
      AllocSafe(p0, w, pages);
      LargerAllocation(w.pool, o, pages, p', addr);
      var rest := Exhaust(p0, w', f, o, pages);
      OneStep(w, Alloc(pages));
      RunConcat(w, [Alloc(pages)], rest);
      ops := [Alloc(pages)] + rest;
    }
  }

  lemma TwinsMakeRun(p: Pool, f: nat, o: nat, pages: nat)
    requires Valid(p) && Twins(p, f, o) && pages == Pow2(o + 1)
    ensures pages <= |p.page| && OrderOf(p, pages) == o + 1 && FreeRun(p, ParentOf(f, o), o + 1)
  {
    OrderOfPower(p, o + 1, pages);
    BuddyFacts(f, o);
    var b := BuddyOf(f, o);
    assert BlockOk(p, f, o) && BlockOk(p, b, o);
    BlockIsFree(p, f, o);
    BlockIsFree(p, b, o);
  }

  /** Along all runs, failure means that no aligned run of free pages is large
      enough, if and only if the pool is canonical at the start. */
  lemma AlwaysFailsExactlyIff(p0: Pool, w: World)
    requires Safe(p0, w)
    ensures AlwaysFailsExactly(w) <==> Canonical(w.pool)
  {
    TwinsIff(w.pool);
    if Canonical(w.pool) {
      forall ops | MatchedRun(w, ops) ensures FailsExactly(Run(w, ops).pool) {
        RunSafe(p0, w, ops);
        forall pages: nat { AllocFailsIff(Run(w, ops).pool, pages); }
      }
    } else {
      var f: nat, o: nat :| Twins(w.pool, f, o);
      var pages := Pow2(o + 1);
      var ops := Exhaust(p0, w, f, o, pages);
      RunSafe(p0, w, ops);
      TwinsMakeRun(Run(w, ops).pool, f, o, pages);
      assert !FailsExactly(Run(w, ops).pool);
    }
  }

  /* ---- Restoring ---- */

  /** A block of higher order than o holds frame x. */
  ghost predicate InLarger(p: Pool, x: nat, o: nat) {
    exists g: nat, q: nat :: Listed(p, g, q) && o < q && g <= x < g + Pow2(q)
  }

  lemma LargerNotListed(p: Pool, x: nat, o: nat)
    requires Valid(p) && InLarger(p, x, o)
    ensures !Listed(p, x, o)
  {
    var g: nat, q: nat :| Listed(p, g, q) && o < q && g <= x < g + Pow2(q);
    assert BlockOk(p, g, q) && (Listed(p, x, o) ==> BlockOk(p, x, o));
  }

  /** What is freed ends up inside one listed block. */
  lemma {:induction false} CoalesceCovers(p: Pool, f: nat, o: nat) returns (g: nat, q: nat)
    requires Floating(p, f, o)
    ensures Listed(Coalesce(p, f, o), g, q) && o <= q && g <= f && f + Pow2(o) <= g + Pow2(q)
    decreases |p.lists| - o
  {
    CoalesceStep(p, f, o);
    if Merges(p, f, o) {
      MergeStep(p, f, o);
      g, q := CoalesceCovers(RemoveFree(p, BuddyOf(f, o), o), ParentOf(f, o), o + 1);
    } else {
      AddFills(p, f, f + Pow2(o), f, o, f, f);
      g, q := f, o;
    }
  }

  /** Freeing never cuts a listed block. */
  lemma {:induction false} CoalesceKeepsLarger(p: Pool, f: nat, o: nat, x: nat, k: nat)
    requires Floating(p, f, o) && InLarger(p, x, k)
    ensures InLarger(Coalesce(p, f, o), x, k)
    decreases |p.lists| - o
  {
    hide Coalesce, BuddyOf, ParentOf, Aligned, Listed;
    var g: nat, q: nat :| Listed(p, g, q) && k < q && g <= x < g + Pow2(q);
    CoalesceStep(p, f, o);
    if Merges(p, f, o) {
      MergeStep(p, f, o);
      var b, f' := BuddyOf(f, o), ParentOf(f, o);
      var p1 := RemoveFree(p, b, o);
      if g == b && q == o {
        var h, r := CoalesceCovers(p1, f', o + 1);
        assert Listed(Coalesce(p, f, o), h, r) && k < r && h <= x < h + Pow2(r);
      } else {
        assert Listed(p1, g, q);
        CoalesceKeepsLarger(p1, f', o + 1, x, k);
      }
    } else {
      AddFills(p, f, f + Pow2(o), f, o, f, f);
      assert Listed(Coalesce(p, f, o), g, q);
    }
  }

  /** Freeing a block next to its listed buddy puts it into a larger block. */
  lemma CoalesceMerges(p: Pool, f: nat, o: nat)
    requires Floating(p, f, o) && o + 1 < |p.lists| && Listed(p, BuddyOf(f, o), o)
    ensures InLarger(Coalesce(p, f, o), f, o)
  {
    assert BlockOk(p, BuddyOf(f, o), o);
    CoalesceStep(p, f, o);
    MergeStep(p, f, o);
    var g, q := CoalesceCovers(RemoveFree(p, BuddyOf(f, o), o), ParentOf(f, o), o + 1);
    assert Listed(Coalesce(p, f, o), g, q) && o < q && g <= f < g + Pow2(q);
  }

  /** An allocation of exactly the order of a listed block pops that list. */
  lemma PopHead(p0: Pool, w: World, o: nat, pages: nat, h: nat, w': World)
    requires Safe(p0, w) && FrameZeroReserved(w.pool) && o < |w.pool.lists| && w.pool.lists[o] != []
    requires pages == Pow2(o) && h == w.pool.lists[o][0] && w' == Step(w, Alloc(pages))
    ensures Safe(p0, w') && FrameZeroReserved(w'.pool)
    ensures w'.live == w.live[h := o] && h !in w.live && h != 0
    ensures w'.pool.lists == w.pool.lists[o := w.pool.lists[o][1..]]
  {
    var p := w.pool;
    OrderOfPower(p, o, pages);
    AllocateBlockEffect(p, o);
    assert Listed(p, h, o) && BlockOk(p, h, o);
    FrameIsNotNil(p, h);
    assert AllocateBlock(p, o).1 == h;
    assert h * PAGE_SIZE / PAGE_SIZE == h;
    AllocSafe(p0, w, pages);
    AllocLive(p, w.live, pages, w'.pool, h * PAGE_SIZE);
  }

  lemma FreeStep(p0: Pool, w: World, f: nat, o: nat, pages: nat, w': World)
    requires Safe(p0, w) && f != 0 && f in w.live && w.live[f] == o && pages == Pow2(o)
    requires w' == Step(w, Free(f, pages))
    ensures Matched(w, Free(f, pages)) && Safe(p0, w')
    ensures Floating(w.pool, f, o) && w' == World(Coalesce(w.pool, f, o), w.live - {f})
  {
    var p := w.pool;
    assert HeldBlock(p, f, o);
    OrderOfPower(p, o, pages);
    FreeLive(p, w.live, f, pages);
    FreePagesCoalesces(p, f * PAGE_SIZE, pages);
    FreeBlockEffect(p, f, o);
    FreeSafe(p0, w, f, pages);
  }

  /** From twins on, some run gives back all it took and yet leaves other free
      blocks: pop the list until one of the twins comes off, then free it first. */
  lemma {:induction false} Disturb(p0: Pool, w: World, o: nat, pages: nat, i: nat) returns (ops: seq<Op>, f: nat)
    requires Safe(p0, w) && FrameZeroReserved(w.pool) && pages == Pow2(o)
    requires o < |w.pool.lists| && i < |w.pool.lists[o]| && Twins(w.pool, w.pool.lists[o][i], o)
    ensures MatchedRun(w, ops) && Run(w, ops).live == w.live
    ensures Listed(w.pool, f, o) && InLarger(Run(w, ops).pool, f, o)
    decreases i
  {
    var h := w.pool.lists[o][0];
    var alloc, free := Alloc(pages), Free(h, pages);
    var w1 := Step(w, alloc);
    PopHead(p0, w, o, pages, h, w1);
    AddThenRemove(w.live, h, o);
    var mid: seq<Op>;
    if Listed(w.pool, h, o) && Twins(w.pool, h, o) {
      mid, f := [], h;
      DisturbHead(p0, w, o, pages, h, w1);
    } else {
      StillTwins(w.pool, o, i, w1.pool);
      mid, f := Disturb(p0, w1, o, pages, i - 1);
      RunSafe(p0, w1, mid);
      var w2 := Run(w1, mid);
      FreeStep(p0, w2, h, o, pages, Step(w2, free));
      CoalesceKeepsLarger(w2.pool, h, o, f, o);
      assert f in w.pool.lists[o];
    }
    var w2 := Run(w1, mid);
    OneStep(w2, free);
    RunConcat(w1, mid, [free]);
    OneStep(w, alloc);
    RunConcat(w, [alloc], mid + [free]);
    ops := [alloc] + (mid + [free]);
  }

  lemma DisturbHead(p0: Pool, w: World, o: nat, pages: nat, h: nat, w1: World)
    requires Safe(p0, w) && FrameZeroReserved(w.pool) && pages == Pow2(o) && Twins(w.pool, h, o)
    requires w.pool.lists[o][0] == h && w1 == Step(w, Alloc(pages))
    ensures 1 <= |w1.pool.lists| && Matched(w1, Free(h, pages))
    ensures var w' := Step(w1, Free(h, pages)); w'.live == w.live && InLarger(w'.pool, h, o)
  {
    PopHead(p0, w, o, pages, h, w1);
    AddThenRemove(w.live, h, o);
    FreeStep(p0, w1, h, o, pages, Step(w1, Free(h, pages)));
    CoalesceMerges(w1.pool, h, o);
  }

  /** When the head is not a twin, popping it keeps the twins further down. */
  lemma StillTwins(p: Pool, o: nat, i: nat, p': Pool)
    requires o + 1 < |p.lists| && i < |p.lists[o]| && Twins(p, p.lists[o][i], o)
    requires !Twins(p, p.lists[o][0], o) && p'.lists == p.lists[o := p.lists[o][1..]]
    requires Valid(p)
    ensures i > 0 && p'.lists[o][i - 1] == p.lists[o][i] && Twins(p', p.lists[o][i], o)
  {
    var x, h := p.lists[o][i], p.lists[o][0];
    assert i > 0;
    BuddyFacts(x, o);
    assert Listed(p, h, o) && BlockOk(p, h, o);
    assert BuddyOf(x, o) != h;
    assert p'.lists[o][i - 1] == x;
  }

  /** Along all runs, giving back all that was taken restores the free blocks, if
      and only if the pool is canonical at the start. */
  lemma AlwaysRestoresIff(p0: Pool, w: World)
    requires Safe(p0, w) && FrameZeroReserved(w.pool)
    ensures AlwaysRestores(w) <==> Canonical(w.pool)
  {
    if Canonical(w.pool) {
      forall ops | MatchedRun(w, ops) && Run(w, ops).live == w.live
        ensures SameListed(Run(w, ops).pool, w.pool)
      {
        RunSafe(p0, w, ops);
        SafeWorldsAgree(p0, Run(w, ops), w);
      }
    } else {
      var ops := NotRestored(p0, w);
    }
  }

  lemma NotRestored(p0: Pool, w: World) returns (ops: seq<Op>)
    requires Safe(p0, w) && FrameZeroReserved(w.pool) && !Canonical(w.pool)
    ensures MatchedRun(w, ops) && Run(w, ops).live == w.live && !SameListed(Run(w, ops).pool, w.pool)
  {
    TwinsIff(w.pool);
    var x: nat, o: nat :| Twins(w.pool, x, o);
    var i :| 0 <= i < |w.pool.lists[o]| && w.pool.lists[o][i] == x;
    var f;
    ops, f := Disturb(p0, w, o, Pow2(o), i);
    RunSafe(p0, w, ops);
    LargerNotListed(Run(w, ops).pool, f, o);
  }

  /** Along all runs, the pages in use determine the free blocks, if and only if
      the pool is canonical at the start. */
  lemma AlwaysAgreesIff(p0: Pool, w: World)
    requires Safe(p0, w) && FrameZeroReserved(w.pool)
    ensures AlwaysAgrees(w) <==> Canonical(w.pool)
  {
    if Canonical(w.pool) {
      forall ops, ops' | MatchedRun(w, ops) && MatchedRun(w, ops') && SameCovered(Run(w, ops).live, Run(w, ops').live)
        ensures SameListed(Run(w, ops).pool, Run(w, ops').pool)
      {
        RunSafe(p0, w, ops);
        RunSafe(p0, w, ops');
        SafeWorldsAgree(p0, Run(w, ops), Run(w, ops'));
      }
    } else {
      var ops := NotRestored(p0, w);
      var none: seq<Op> := [];
      assert MatchedRun(w, none) && Run(w, none) == w;
      assert SameCovered(Run(w, ops).live, Run(w, none).live);
    }
  }

  /** From boot on, all three promises stand or fall with the memory map: they
      hold if and only if no two usable ranges meet mergeably. */
  lemma BootPromisesIff(rs: seq<Range>, n: nat)
    requires n <= ORDER_LIMIT && Separate(rs, n) && !InSome(rs, 0)
    ensures var w, apart := Boot(rs, n), forall i, j :: 0 <= i < |rs| && 0 <= j < |rs| ==> !Mergeable(rs[i], rs[j]);
      (AlwaysFailsExactly(w) <==> apart) && (AlwaysRestores(w) <==> apart) && (AlwaysAgrees(w) <==> apart)
  {
    var p0 := InitPool(rs, n);
    InitPoolEffect(rs, n);
    InitCanonicalIff(rs, n);
    BootSafe(rs, n);
    AlwaysFailsExactlyIff(p0, Boot(rs, n));
    AlwaysRestoresIff(p0, Boot(rs, n));
    AlwaysAgreesIff(p0, Boot(rs, n));
  }
}
