/** What kmalloc and kfree of kernel/src/memory/heap.c do to the objects in use,
    and a ledger of what was handed out and not yet released. */
module HeapObjects {
  import opened Bits
  import opened BuddyPool
  import opened BuddyOps
  import opened SlabHeap
  import opened HeapTheorems

  /* ---- The objects in use before and after ---- */

  /** x, unless it is Null, has come into use, and nothing else has changed. */
  ghost predicate Gains(h: Heap, h': Heap, x: Object) {
    forall y :: InUse(h', y) <==> InUse(h, y) || (x != Null && y == x)
  }

  /** x has gone out of use, if it was in use, and nothing else has changed. */
  ghost predicate Loses(h: Heap, h': Heap, x: Object) {
    forall y :: InUse(h', y) <==> InUse(h, y) && y != x
  }

  ghost predicate SameRegions(h: Heap, h': Heap) {
    forall y :: InUse(h, y) && InUse(h', y) ==> RegionOf(h', y) == RegionOf(h, y)
  }

  /** kmalloc keeps the heap sound. What it returns was not in use and now is, and
      every object that was in use still is, at the same place. */
  lemma KmallocKeeps(t: OffsetTest, h: Heap, size: nat, h': Heap, x: Object)
    requires Sound(h) && Linkable(h) && (h', x) == Kmalloc(t, h, size)
    ensures Sound(h') && !InUse(h, x)
    ensures Gains(h, h', x) && SameRegions(h, h')
  {
    hide Sound, Gains, SameRegions;
    KmallocSound(t, h, size, h', x);
    var c := CacheIndex(size);
    if size == 0 {
      NothingChanges(h);
    } else if c >= 0 {
      var (h1, ok) := Refill(h, c);
      RefillUse(h, c, h1, ok);
      RefillKeeps(h, c, h1, ok);
      if ok {
        TakeUse(t, h1, c, h', x);
        ThroughRefill(h, h1, h', x);
      } else {
        NothingChanges(h);
      }
    } else {
      LargeUse(h, LargePages(size), h', x);
    }
  }

  lemma NothingChanges(h: Heap)
    ensures Gains(h, h, Null) && SameRegions(h, h)
  {
  }

  lemma ThroughRefill(h: Heap, h1: Heap, h': Heap, x: Object)
    requires Gains(h, h1, Null) && SameRegions(h, h1) && Gains(h1, h', x) && SameRegions(h1, h') && !InUse(h1, x)
    ensures Gains(h, h', x) && SameRegions(h, h') && !InUse(h, x)
  {
    forall y ensures InUse(h', y) <==> InUse(h, y) || (x != Null && y == x) {
      assert InUse(h1, y) <==> InUse(h, y);
    }
  }

  /** All objects of a fresh slab are free. */
  lemma RefillUse(h: Heap, c: nat, h1: Heap, ok: bool)
    requires Sound(h) && c < CLASSES && (h1, ok) == Refill(h, c)
    ensures Gains(h, h1, Null) && SameRegions(h, h1)
  {
    if h.partial[c] == [] && ok {
      var (pool, addr) := AllocPages(h.pool, 1);
      var f: nat := addr / PAGE_SIZE;
      TakenFrame(h, 1, pool, addr, f, 0);
      FreshIsFree(h.slabs, h1.slabs, f, c, h, h1);
    }
  }

  lemma FreshIsFree(slabs: map<nat, Slab>, slabs': map<nat, Slab>, f: nat, c: nat, h: Heap, h1: Heap)
    requires f !in slabs && c < CLASSES && slabs' == slabs[f := Slab(c, AllObjects(Total(c)))]
    requires h.slabs == slabs && h1.slabs == slabs' && h1.large == h.large
    ensures Gains(h, h1, Null) && SameRegions(h, h1)
  {
    forall y ensures InUse(h1, y) <==> InUse(h, y) {
      if y.Small? && y.frame == f && y.index < Total(c) {
        assert AllObjects(Total(c))[y.index] == y.index;
      }
    }
  }

  lemma TakeUse(t: OffsetTest, h: Heap, c: nat, h': Heap, x: Object)
    requires Sound(h) && c < CLASSES && h.partial[c] != [] && h.partial[c][0] in h.slabs && (h', x) == Take(t, h, c)
    ensures Gains(h, h', x) && SameRegions(h, h') && !InUse(h, x)
  {
    FirstOfPartial(h, c);
    TakeKeeps(t, h, c, h', x);
    if x != Null {
      HeadLeaves(h.slabs[h.partial[c][0]].free);
    } else {
      NothingChanges(h);
    }
  }

  lemma HeadLeaves(s: seq<nat>)
    requires NoDup(s) && s != []
    ensures forall j :: j in s[1..] <==> j in s && j != s[0]
  {
  }

  lemma LargeUse(h: Heap, n: nat, h': Heap, x: Object)
    requires Sound(h) && (h', x) == LargeBlock(h, n)
    ensures Gains(h, h', x) && SameRegions(h, h') && !InUse(h, x)
  {
    hide Gains, SameRegions;
    LargeKmalloc(h, n, h', x);
    if x != Null {
      LargeJoins(h, h', x.frame, n);
    } else {
      AllocFailureIsNoOp(h.pool, n);
      NothingChanges(h);
    }
  }

  lemma LargeJoins(h: Heap, h': Heap, f: nat, n: nat)
    requires f !in h.large && h'.slabs == h.slabs && h'.large == h.large[f := n]
    ensures Gains(h, h', Large(f)) && SameRegions(h, h')
  {
  }

  /** kfree keeps the heap sound. What it is given is no longer in use, and every
      other object in use still is, at the same place. */
  lemma KfreeKeeps(h: Heap, x: Object, h': Heap)
    requires Sound(h) && h' == Kfree(h, x)
    ensures Sound(h')
    ensures Loses(h, h', x) && SameRegions(h, h')
  {
    hide Sound, Loses, SameRegions;
    KfreeSound(h, x, h');
    if !InUse(h, x) {
      NothingLost(h, x);
    } else if x.Small? {
      FreeSmallUse(h, x.frame, x.index, h');
    } else {
      LargeLeaves(h, h', x.frame);
    }
  }

  lemma NothingLost(h: Heap, x: Object)
    requires !InUse(h, x)
    ensures Loses(h, h, x) && SameRegions(h, h)
  {
  }

  lemma LargeLeaves(h: Heap, h': Heap, f: nat)
    requires h'.slabs == h.slabs && h'.large == h.large - {f}
    ensures Loses(h, h', Large(f)) && SameRegions(h, h')
  {
  }

  lemma FreeSmallUse(h: Heap, f: nat, i: nat, h': Heap)
    requires Sound(h) && InUse(h, Small(f, i)) && h' == FreeSmall(h, f, i)
    ensures Loses(h, h', Small(f, i)) && SameRegions(h, h')
  {
    var c := h.slabs[f].cls;
    var free := [i] + h.slabs[f].free;
    assert SlabOk(h.slabs[f]);
    assert forall j :: j in free <==> j == i || j in h.slabs[f].free;
    if |free| == Total(c) {
      FullList(free, Total(c));
    }
  }

  /** n different numbers below n are all of them. */
  lemma FullList(s: seq<nat>, n: nat)
    requires NoDup(s) && |s| == n && forall x :: x in s ==> x < n
    ensures forall j: nat :: j < n ==> j in s
  {
    forall j: nat | j < n ensures j in s {
      if j !in s {
        Pigeonhole([j] + s, n);
      }
    }
  }

  /* ---- What is written ---- */

  ghost predicate HeapPage(h: Heap, f: nat) {
    f in h.slabs || f in h.large
  }

  /** Only pages that belong to the heap before or after have changed. */
  ghost predicate ChangedOnly<T(!new)>(mem: seq<T>, mem': seq<T>, h: Heap, h': Heap) {
    |mem'| == |mem| && forall f :: 0 <= f < |mem| && mem'[f] != mem[f] ==> HeapPage(h, f) || HeapPage(h', f)
  }

  /* ---- What was handed out ---- */

  /** What kmalloc once returned for a request, where it lay, and the request. */
  datatype Grant = Grant(held: Object, region: Region, size: nat)

  /** The grants without those of an object. */
  function Revoke(gs: seq<Grant>, x: Object): seq<Grant> {
    if gs == [] then []
    else if gs[0].held == x then Revoke(gs[1..], x)
    else [gs[0]] + Revoke(gs[1..], x)
  }

  /** No two grants overlap; the same bytes are never granted twice. */
  ghost predicate Disjoint(gs: seq<Grant>) {
    forall i, j :: 0 <= i < j < |gs| ==> RegionsApart(gs[i].region, gs[j].region)
  }

  /** The grants are exactly the objects in use, each where it was granted, not
      empty and as long as requested, and they do not overlap. */
  ghost predicate Ledger(h: Heap, gs: seq<Grant>) {
    && Disjoint(gs)
    && (forall g :: g in gs ==> Honoured(h, g))
    && (forall x :: InUse(h, x) ==> exists g :: g in gs && g.held == x)
  }

  ghost predicate Honoured(h: Heap, g: Grant) {
    && InUse(h, g.held) && g.region == RegionOf(h, g.held) && g.region.lo < g.region.hi
    && (g.size < WORD - 7 ==> g.size <= g.region.hi - g.region.lo)
  }

  lemma {:induction false} RevokeMembers(gs: seq<Grant>, x: Object, g: Grant)
    ensures g in Revoke(gs, x) <==> g in gs && g.held != x
    decreases |gs|
  {
    if gs != [] {
      RevokeMembers(gs[1..], x, g);
    }
  }

  lemma {:induction false} RevokeDisjoint(gs: seq<Grant>, x: Object)
    requires Disjoint(gs)
    ensures Disjoint(Revoke(gs, x))
    decreases |gs|
  {
    if gs != [] {
      var rest := gs[1..];
      forall i, j | 0 <= i < j < |rest| ensures RegionsApart(rest[i].region, rest[j].region) {
        assert rest[i] == gs[i + 1] && rest[j] == gs[j + 1];
      }
      RevokeDisjoint(rest, x);
      var left := Revoke(rest, x);
      forall j | 0 <= j < |left| ensures RegionsApart(gs[0].region, left[j].region) {
        RevokeMembers(rest, x, left[j]);
        assert left[j] in rest;
        var k :| 0 <= k < |rest| && rest[k] == left[j];
        assert gs[k + 1] == left[j];
      }
    }
  }

  /** The ledger depends on slabs and large blocks only. */
  lemma LedgerInPool(h: Heap, h': Heap, gs: seq<Grant>)
    requires Ledger(h, gs) && h'.slabs == h.slabs && h'.large == h.large
    ensures Ledger(h', gs)
  {
    assert forall x :: InUse(h', x) <==> InUse(h, x);
    forall g | g in gs ensures Honoured(h', g) {
      assert Honoured(h, g);
    }
  }

  /** A new grant is apart from all that are still out. */
  lemma LedgerAfterMalloc(t: OffsetTest, h: Heap, size: nat, h': Heap, x: Object, gs: seq<Grant>)
    requires Sound(h) && Linkable(h) && Ledger(h, gs) && (h', x) == Kmalloc(t, h, size)
    ensures x == Null ==> Ledger(h', gs)
    ensures x != Null ==> InUse(h', x) && Ledger(h', [Grant(x, RegionOf(h', x), size)] + gs)
  {
    hide Kmalloc, Sound, RegionOf;
    KmallocKeeps(t, h, size, h', x);
    forall g | g in gs ensures Honoured(h', g) {
      assert Honoured(h, g);
    }
    if x != Null {
      var g0 := Grant(x, RegionOf(h', x), size);
      InsideBacking(h', x);
      if size < WORD - 7 {
        LongEnoughIff(t, h, size, h', x);
      }
      forall k | 0 <= k < |gs| ensures RegionsApart(g0.region, gs[k].region) {
        assert Honoured(h, gs[k]) && Honoured(h', gs[k]);
        ObjectsDisjoint(h', x, gs[k].held);
      }
      LedgerAdds(h, h', x, g0, gs);
    }
  }

  lemma LedgerAdds(h: Heap, h': Heap, x: Object, g0: Grant, gs: seq<Grant>)
    requires Ledger(h, gs) && Gains(h, h', x) && x == g0.held && Honoured(h', g0)
    requires forall g :: g in gs ==> Honoured(h', g)
    requires forall k :: 0 <= k < |gs| ==> RegionsApart(g0.region, gs[k].region)
    ensures Ledger(h', [g0] + gs)
  {
    var gs' := [g0] + gs;
    forall y | InUse(h', y) ensures exists g :: g in gs' && g.held == y {
      if y == x {
        assert g0 in gs';
      } else {
        var g :| g in gs && g.held == y;
        assert g in gs';
      }
    }
  }

  lemma LedgerAfterFree(h: Heap, x: Object, h': Heap, gs: seq<Grant>)
    requires Sound(h) && Ledger(h, gs) && h' == Kfree(h, x)
    ensures Ledger(h', Revoke(gs, x))
  {
    hide Kfree, Sound, RegionOf;
    KfreeKeeps(h, x, h');
    var gs' := Revoke(gs, x);
    RevokeDisjoint(gs, x);
    forall g | g in gs' ensures Honoured(h', g) {
      RevokeMembers(gs, x, g);
      assert Honoured(h, g);
    }
    forall y | InUse(h', y) ensures exists g :: g in gs' && g.held == y {
      var g :| g in gs && g.held == y;
      RevokeMembers(gs, x, g);
    }
  }
}
