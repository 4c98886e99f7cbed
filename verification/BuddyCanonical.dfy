/** The canonical form of the buddy allocator and what follows from it: which
    blocks are listed, when an allocation fails, and when a free undoes an
    allocation. */
module BuddyCanonical {
  import opened Bits
  import opened BuddyPool
  import opened BuddyOps

  /** No two buddies of one order below the maximum are both listed. */
  ghost predicate Canonical(p: Pool) {
    forall f: nat, o: nat :: Listed(p, f, o) && o < |p.lists| - 1 && Aligned(f, o) ==> !Listed(p, BuddyOf(f, o), o)
  }

  ghost predicate FreeRun(p: Pool, f: nat, o: nat) {
    o < |p.lists| && Aligned(f, o) && f + Pow2(o) <= |p.page| && AllFree(p, f, f + Pow2(o))
  }

  /** A free run that is not half of a larger one. */
  ghost predicate MaximalFreeRun(p: Pool, f: nat, o: nat) {
    FreeRun(p, f, o) && (o == |p.lists| - 1 || !FreeRun(p, ParentOf(f, o), o + 1))
  }

  /* ---- Preservation ---- */

  lemma AllocateCanonical(p: Pool, order: nat)
    requires Valid(p) && Canonical(p) && order < |p.lists|
    ensures Canonical(AllocateBlock(p, order).0)
  {
    AllocateBlockEffect(p, order);
    var (p', f) := AllocateBlock(p, order);
    if f != NO_FRAME {
      var top := FirstNonEmpty(p, order);
      assert BlockOk(p, f, top);
      forall g: nat, q: nat | Listed(p', g, q) && q < |p.lists| - 1 && Aligned(g, q)
        ensures !Listed(p', BuddyOf(g, q), q)
      {
        if order <= q < top {
          UpperHalf(f, top, q);
          BuddyFacts(g, q);
          NotFreeNotListed(p', f);
        }
      }
    }
  }

  lemma NotFreeNotListed(p: Pool, f: nat)
    requires Valid(p) && f < |p.page| && !FreeAt(p, f)
    ensures forall o: nat :: !Listed(p, f, o)
  {
    assert forall o: nat :: Listed(p, f, o) ==> BlockOk(p, f, o);
  }

  /** Below order top, the buddy of f + 2^q is f. */
  lemma UpperHalf(f: nat, top: nat, q: nat)
    requires Aligned(f, top) && q < top
    ensures Aligned(f, q) && Aligned(f + Pow2(q), q)
    ensures BuddyOf(f, q) == f + Pow2(q) && BuddyOf(f + Pow2(q), q) == f
  {
    AlignedWeaken(f, top, q + 1);
    AlignedWeaken(f, top, q);
    BuddyFacts(f, q);
  }

  lemma {:induction false} CoalesceCanonical(p: Pool, f: nat, o: nat)
    requires Floating(p, f, o) && Canonical(p)
    ensures Canonical(Coalesce(p, f, o))
    decreases |p.lists| - o
  {
    CoalesceStep(p, f, o);
    if Merges(p, f, o) {
      MergeStep(p, f, o);
      var p1 := RemoveFree(p, BuddyOf(f, o), o);
      forall g: nat, q: nat | Listed(p1, g, q) && q < |p1.lists| - 1 && Aligned(g, q)
        ensures !Listed(p1, BuddyOf(g, q), q)
      {
        assert Listed(p, g, q);
      }
      CoalesceCanonical(p1, ParentOf(f, o), o + 1);
    } else {
      if o < |p.lists| - 1 {
        MergePartnerIsListed(p, f, o);
      }
      AddCanonical(p, f, f + Pow2(o), f, o, f, f);
    }
  }

  /** Listing a block whose buddy is not listed keeps the form canonical. */
  lemma AddCanonical(p: Pool, lo: nat, hi: nat, f: nat, o: nat, lo': nat, hi': nat)
    requires Consistent(p, lo, hi) && o < |p.lists| && Aligned(f, o)
    requires lo <= lo' <= hi' <= hi <= |p.page|
    requires (f == lo && lo' == f + Pow2(o) && hi' == hi) || (f + Pow2(o) == hi && hi' == f && lo' == lo)
    requires Canonical(p) && (o < |p.lists| - 1 ==> !Listed(p, BuddyOf(f, o), o))
    ensures Canonical(AddFree(p, f, o))
  {
    AddFills(p, lo, hi, f, o, lo', hi');
    var p' := AddFree(p, f, o);
    forall g: nat, q: nat | Listed(p', g, q) && q < |p'.lists| - 1 && Aligned(g, q)
      ensures !Listed(p', BuddyOf(g, q), q)
    {
      BuddyFacts(g, q);
      assert Listed(p, g, q) || (g == f && q == o);
    }
  }

  lemma AllocPagesCanonical(p: Pool, pages: nat)
    requires Valid(p) && Canonical(p)
    ensures Canonical(AllocPages(p, pages).0)
  {
    if !(pages == 0 || pages > Pow2(|p.lists| - 1)) {
      AllocateCanonical(p, OrderOf(p, pages));
    }
  }

  lemma FreePagesCanonical(p: Pool, addr: nat, pages: nat)
    requires Valid(p) && Canonical(p) && FreeContract(p, addr, pages)
    ensures Canonical(FreePages(p, addr, pages))
  {
    if FreeActs(p, addr, pages) {
      FreeBlockEffect(p, FrameOf(addr), OrderOf(p, pages));
      CoalesceCanonical(p, FrameOf(addr), OrderOf(p, pages));
    }
  }

  /* ---- The listed blocks are the maximal free runs ---- */

  /** Every aligned run of free pages lies inside one listed block. */
  lemma {:induction false} FreeRunInBlock(p: Pool, f: nat, o: nat) returns (g: nat, q: nat)
    requires Valid(p) && Canonical(p) && FreeRun(p, f, o)
    ensures o <= q && Listed(p, g, q) && g <= f && f + Pow2(o) <= g + Pow2(q)
    decreases o
  {
    hide Valid, Canonical, Listed;
    if o == 0 {
      g, q := PageInBlock(p, f);
    } else {
      var c := o - 1;
      var b := f + Pow2(c);
      UpperHalf(f, o, c);
      g, q := FreeRunInBlock(p, f, c);
      WholeOrHalf(p, f, o, c, f, g, q);
      if q < o {
        var g', q' := FreeRunInBlock(p, b, c);
        WholeOrHalf(p, f, o, c, b, g', q');
        HalvesNotListed(p, f, o, c);
        g, q := g', q';
      }
    }
  }

  lemma PageInBlock(p: Pool, f: nat) returns (g: nat, q: nat)
    requires Valid(p) && FreeAt(p, f)
    ensures Listed(p, g, q) && g <= f < g + Pow2(q)
  {
    assert PageOk(p, f);
    if p.page[f] == FREE_BODY {
      g, q :| Listed(p, g, q) && g < f < g + Pow2(q);
    } else {
      g, q := f, p.page[f];
    }
  }

  /** A listed block that holds the half b of the block (f, o) holds all of it, or
      is that half. */
  lemma WholeOrHalf(p: Pool, f: nat, o: nat, c: nat, b: nat, g: nat, q: nat)
    requires Valid(p) && Listed(p, g, q) && o == c + 1 && Aligned(f, o) && (b == f || b == f + Pow2(c))
    requires c <= q && g <= b && b + Pow2(c) <= g + Pow2(q)
    ensures if o <= q then g <= f && f + Pow2(o) <= g + Pow2(q) else q == c && g == b
  {
    assert BlockOk(p, g, q);
    if o <= q {
      Nest(f, o, g, q);
    }
  }

  lemma HalvesNotListed(p: Pool, f: nat, o: nat, c: nat)
    requires Canonical(p) && o == c + 1 < |p.lists| && Aligned(f, o)
    ensures !(Listed(p, f, c) && Listed(p, f + Pow2(c), c))
  {
    UpperHalf(f, o, c);
  }

  lemma ListedIsFreeRun(p: Pool, f: nat, o: nat)
    requires Valid(p) && Listed(p, f, o)
    ensures FreeRun(p, f, o)
  {
    assert BlockOk(p, f, o);
    BlockIsFree(p, f, o);
  }

  /** A free run that holds the first page of a listed block lies in the block. */
  lemma RunInListed(p: Pool, f: nat, o: nat, g: nat, q: nat)
    requires Valid(p) && Canonical(p) && Listed(p, f, o)
    requires FreeRun(p, g, q) && g <= f < g + Pow2(q)
    ensures q <= o && f <= g && g + Pow2(q) <= f + Pow2(o)
  {
    hide Valid, Canonical, Listed, FreeRun;
    var h, r := FreeRunInBlock(p, g, q);
    OnlyBlock(p, f, o, h, r);
  }

  lemma OnlyBlock(p: Pool, f: nat, o: nat, h: nat, r: nat)
    requires Valid(p) && Listed(p, f, o) && Listed(p, h, r) && h <= f < h + Pow2(r)
    ensures h == f && r == o
  {
    assert BlockOk(p, f, o) && BlockOk(p, h, r);
  }

  lemma ListedIffMaximal(p: Pool, f: nat, o: nat)
    requires Valid(p) && Canonical(p)
    ensures Listed(p, f, o) <==> MaximalFreeRun(p, f, o)
  {
    hide Valid, Canonical, MaximalFreeRun, Listed;
    if Listed(p, f, o) {
      ListedIsMaximal(p, f, o);
    }
    if MaximalFreeRun(p, f, o) {
      MaximalIsListed(p, f, o);
    }
  }

  lemma ListedIsMaximal(p: Pool, f: nat, o: nat)
    requires Valid(p) && Canonical(p) && Listed(p, f, o)
    ensures MaximalFreeRun(p, f, o)
  {
    hide Valid, Canonical;
    ListedIsFreeRun(p, f, o);
    BuddyFacts(f, o);
    if o < |p.lists| - 1 && FreeRun(p, ParentOf(f, o), o + 1) {
      RunInListed(p, f, o, ParentOf(f, o), o + 1);
    }
  }

  lemma MaximalIsListed(p: Pool, f: nat, o: nat)
    requires Valid(p) && Canonical(p) && MaximalFreeRun(p, f, o)
    ensures Listed(p, f, o)
  {
    hide Valid, Canonical, Listed;
    var g, q := FreeRunInBlock(p, f, o);
    ListedIsFreeRun(p, g, q);
    if o < q {
      BuddyFacts(f, o);
      Nest(ParentOf(f, o), o + 1, g, q);
    }
  }

  /** A valid pool is canonical exactly when its listed blocks are the maximal
      aligned power-of-two runs of free pages. */
  lemma CanonicalIffMaximalRuns(p: Pool)
    requires Valid(p)
    ensures Canonical(p) <==> forall f: nat, o: nat :: Listed(p, f, o) <==> MaximalFreeRun(p, f, o)
  {
    if Canonical(p) {
      forall f: nat, o: nat ensures Listed(p, f, o) <==> MaximalFreeRun(p, f, o) {
        ListedIffMaximal(p, f, o);
      }
    } else {
      var f: nat, o: nat :| Listed(p, f, o) && o < |p.lists| - 1 && Aligned(f, o) && Listed(p, BuddyOf(f, o), o);
      var b := BuddyOf(f, o);
      ListedIsFreeRun(p, f, o);
      ListedIsFreeRun(p, b, o);
      BuddyFacts(f, o);
      assert FreeRun(p, ParentOf(f, o), o + 1);
      assert !MaximalFreeRun(p, f, o);
    }
  }

  /** Two histories that leave the same pages free have the same free blocks. */
  lemma SameFreePagesSameBlocks(p: Pool, p': Pool)
    requires Valid(p) && Canonical(p) && Valid(p') && Canonical(p')
    requires |p.page| == |p'.page| && |p.lists| == |p'.lists|
    requires forall i :: 0 <= i < |p.page| ==> (FreeAt(p, i) <==> FreeAt(p', i))
    ensures forall f: nat, o: nat :: Listed(p, f, o) <==> Listed(p', f, o)
  {
    forall f: nat, o: nat ensures Listed(p, f, o) <==> Listed(p', f, o) {
      ListedIffMaximal(p, f, o);
      ListedIffMaximal(p', f, o);
      assert forall g: nat, q: nat :: FreeRun(p, g, q) <==> FreeRun(p', g, q);
    }
  }

  /* ---- When allocation fails ---- */

  /** An allocation of an admissible size fails exactly when no aligned run of
      2^order free pages exists; other sizes always fail. */
  lemma AllocFailsIff(p: Pool, pages: nat)
    requires Valid(p) && Canonical(p)
    ensures AllocPages(p, pages).1 == INVALID_ADDRESS <==>
            pages == 0 || pages > |p.page| || !exists f: nat :: FreeRun(p, f, OrderOf(p, pages))
  {
    AllocPagesKeeps(p, pages);
    if 0 < pages <= |p.page| {
      var o := OrderOf(p, pages);
      AllocateBlockEffect(p, o);
      var (p', f) := AllocateBlock(p, o);
      if f == NO_FRAME {
        forall g: nat ensures !FreeRun(p, g, o) {
          if FreeRun(p, g, o) {
            var h, q := FreeRunInBlock(p, g, o);
          }
        }
      } else {
        FrameIsNotNil(p', f);
        assert FreeRun(p, f, o);
      }
    }
  }

  /* ---- When freeing undoes allocating ---- */

  /** q has the lists of p, and its pages outside [lo, hi). */
  ghost predicate AgreeOutside(p: Pool, q: Pool, lo: nat, hi: nat) {
    && q.lists == p.lists && |q.page| == |p.page|
    && forall i :: 0 <= i < |p.page| && !(lo <= i < hi) ==> q.page[i] == p.page[i]
  }

  /** Coalescing first takes back, one by one, the halves that splitting listed. */
  lemma {:induction false} CoalesceUnwindsSplit(p: Pool, f: nat, current: nat, order: nat, r: Pool) returns (r': Pool)
    requires order <= current < |p.lists| && Aligned(f, current) && f + Pow2(current) <= |p.page|
    requires AgreeOutside(Split(p, f, current, order), r, f, f + Pow2(order))
    ensures AgreeOutside(p, r', f, f + Pow2(current))
    ensures Coalesce(r, f, order) == Coalesce(r', f, current)
    decreases current
  {
    if order == current {
      r' := r;
    } else {
      var c := current - 1;
      var b := f + Pow2(c);
      UpperHalf(f, current, c);
      var r2 := CoalesceUnwindsSplit(AddFree(p, b, c), f, c, order, r);
      CoalesceStep(r2, f, c);
      assert r2.page[b] == c;
      r' := RemoveFree(r2, b, c);
      assert Without([b] + p.lists[c], b) == p.lists[c];
      assert r'.lists == p.lists;
    }
  }

  lemma {:induction false} CoalesceMarks(p: Pool, f: nat, o: nat, i: nat)
    requires o < |p.lists| <= ORDER_LIMIT + 1 && Aligned(f, o) && f <= i < f + Pow2(o) && i < |p.page|
    ensures Coalesce(p, f, o).page[i] >= o
    decreases |p.lists| - o
  {
    hide Coalesce, BuddyOf, ParentOf, Aligned;
    CoalesceStep(p, f, o);
    if Merges(p, f, o) {
      BuddyFacts(f, o);
      CoalesceMarks(RemoveFree(p, BuddyOf(f, o), o), ParentOf(f, o), o + 1, i);
    }
  }

  /** Freeing what was just allocated restores the whole pool -- page states and
      the order of every list -- exactly when the address is not 0 and the block
      that was taken off its list had no free buddy of its own order. */
  lemma UndoIff(p: Pool, pages: nat, p': Pool, addr: nat, f: nat, top: nat)
    requires Valid(p) && (p', addr) == AllocPages(p, pages) && addr != INVALID_ADDRESS
    requires f == addr / PAGE_SIZE && top == FirstNonEmpty(p, OrderOf(p, pages))
    ensures top < |p.lists| && Listed(p, f, top) && Aligned(f, top)
    ensures FreePages(p', addr, pages) == p <==>
            addr != 0 && !(top < |p.lists| - 1 && Listed(p, BuddyOf(f, top), top))
  {
    var o := OrderOf(p, pages);
    assert (p', f) == AllocateBlock(p, o) && f != NO_FRAME
        && (addr != 0 ==> FreeActs(p', addr, pages) && FrameOf(addr) == f) by {
      AllocPagesKeeps(p, pages);
      assert p'.page[f] == ALLOCATED;
    }
    UndoBlock(p, o, top, p', f);
    if addr != 0 {
      FreePagesCoalesces(p', addr, pages);
      SameOrder(p, p', pages);
    }
  }

  lemma UndoBlock(p: Pool, order: nat, top: nat, p': Pool, f: nat)
    requires Valid(p) && order <= top < |p.lists| && top == FirstNonEmpty(p, order)
    requires (p', f) == AllocateBlock(p, order)
    ensures Listed(p, f, top) && Aligned(f, top) && p != p'
    ensures Coalesce(p', f, order) == p <==> !(top < |p.lists| - 1 && Listed(p, BuddyOf(f, top), top))
  {
    AllocateBlockEffect(p, order);
    assert BlockOk(p, f, top);
    assert p'.page[f] != p.page[f];
    var r := UndoReduces(p, order, top);
    UndoTop(p, f, top, r);
  }

  lemma UndoReduces(p: Pool, order: nat, top: nat) returns (r: Pool)
    requires Valid(p) && order <= top < |p.lists| && top == FirstNonEmpty(p, order)
    ensures var (p', f) := AllocateBlock(p, order);
      && p.lists[top] != [] && f == p.lists[top][0]
      && AgreeOutside(RemoveFree(p, f, top), r, f, f + Pow2(top))
      && Coalesce(p', f, order) == Coalesce(r, f, top)
  {
    var (p', f) := AllocateBlock(p, order);
    assert Listed(p, f, top) && BlockOk(p, f, top);
    PopIsRemove(p, top);
    r := CoalesceUnwindsSplit(RemoveFree(p, f, top), f, top, order, p');
  }

  lemma UndoTop(p: Pool, f: nat, top: nat, r: Pool)
    requires Valid(p) && top < |p.lists| && p.lists[top] != [] && f == p.lists[top][0]
    requires AgreeOutside(RemoveFree(p, f, top), r, f, f + Pow2(top))
    ensures Aligned(f, top)
    ensures Coalesce(r, f, top) == p <==> !(top < |p.lists| - 1 && Listed(p, BuddyOf(f, top), top))
  {
    assert Listed(p, f, top) && BlockOk(p, f, top);
    RemoveOpens(p, 0, 0, f, top, f, f + Pow2(top));
    CoalesceStep(r, f, top);
    var b := BuddyOf(f, top);
    if top < |p.lists| - 1 {
      MergePartnerIsListed(RemoveFree(p, f, top), f, top);
      BuddyFacts(f, top);
      assert r.page[b] == p.page[b];
    }
    if top < |p.lists| - 1 && Listed(p, b, top) {
      CoalesceMarks(RemoveFree(r, b, top), ParentOf(f, top), top + 1, f);
    } else {
      RelistRestores(p, f, top, r);
    }
  }

  lemma RelistRestores(p: Pool, f: nat, o: nat, r: Pool)
    requires BlockOk(p, f, o) && o < |p.lists| && p.lists[o] != [] && f == p.lists[o][0]
    requires AgreeOutside(RemoveFree(p, f, o), r, f, f + Pow2(o))
    ensures AddFree(r, f, o) == p
  {
    assert [f] + p.lists[o][1..] == p.lists[o];
    assert AddFree(r, f, o).lists == p.lists;
    assert AddFree(r, f, o).page == p.page;
  }

  /** In canonical form an allocation at a non-zero address is always undone. */
  lemma ExactUndo(p: Pool, pages: nat)
    requires Valid(p) && Canonical(p)
    ensures var (p', addr) := AllocPages(p, pages);
      addr != INVALID_ADDRESS && addr != 0 ==> FreePages(p', addr, pages) == p
  {
    var (p', addr) := AllocPages(p, pages);
    if addr != INVALID_ADDRESS && addr != 0 {
      UndoIff(p, pages, p', addr, addr / PAGE_SIZE, FirstNonEmpty(p, OrderOf(p, pages)));
    }
  }
}
