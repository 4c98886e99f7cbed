/** Allocation and freeing of kernel/src/memory/buddy.c on pool values, and the
    invariant that they keep. The functions follow the code branch by branch;
    module Buddy proves the in-place code equal to them. */
module BuddyOps {
  import opened Bits
  import opened BuddyPool

  /** buddy_order_from_pages, starting from a given order. */
  function OrderFrom(pages: nat, order: nat, n: nat): (r: nat)
    requires order <= n
    ensures order <= r <= n
    ensures pages <= Pow2(r) || r == n
    ensures order < r ==> Pow2(r - 1) < pages
    decreases n - order
  {
    if Pow2(order) < pages && order < n then OrderFrom(pages, order + 1, n) else order
  }

  function OrderOf(p: Pool, pages: nat): nat
    requires 1 <= |p.lists|
  {
    OrderFrom(pages, 0, |p.lists| - 1)
  }

  lemma SameOrder(p: Pool, p': Pool, pages: nat)
    requires 1 <= |p.lists| == |p'.lists|
    ensures OrderOf(p, pages) == OrderOf(p', pages)
  {
  }

  /** For requests that fit, the order is the least one that is large enough. */
  lemma OrderIsLeast(p: Pool, pages: nat, o: nat)
    requires Shape(p) && 1 <= pages <= |p.page|
    ensures OrderOf(p, pages) <= o <==> pages <= Pow2(o)
  {
    var r := OrderOf(p, pages);
    if r <= o {
      Pow2Mono(r, o);
    } else {
      Pow2Mono(o, r - 1);
    }
  }

  /** The smallest order from o up whose list is not empty, or |lists|. */
  function FirstNonEmpty(p: Pool, o: nat): (q: nat)
    requires o <= |p.lists|
    ensures o <= q <= |p.lists|
    ensures forall i :: o <= i < q ==> p.lists[i] == []
    ensures q < |p.lists| ==> p.lists[q] != []
    decreases |p.lists| - o
  {
    if o == |p.lists| || p.lists[o] != [] then o else FirstNonEmpty(p, o + 1)
  }

  /** Halve the block (f, current) down to the given order, listing the upper halves. */
  function Split(p: Pool, f: nat, current: nat, order: nat): (r: Pool)
    requires current < |p.lists|
    ensures |r.lists| == |p.lists| && |r.page| == |p.page|
    decreases current
  {
    if order < current
    then Split(AddFree(p, f + Pow2(current - 1), current - 1), f, current - 1, order)
    else p
  }

  function AllocateBlock(p: Pool, order: nat): (r: (Pool, nat))
    ensures |r.0.lists| == |p.lists| && |r.0.page| == |p.page|
  {
    if order >= |p.lists| then (p, NO_FRAME)
    else
      var q := FirstNonEmpty(p, order);
      if q == |p.lists| then (p, NO_FRAME)
      else
        var f := p.lists[q][0];
        var p' := Split(p.(lists := p.lists[q := p.lists[q][1..]]), f, q, order);
        (p'.(page := MarkAllocated(p'.page, f, order)), f)
  }

  /** buddy_alloc_pages: the new pool and the physical address handed out. */
  function AllocPages(p: Pool, pages: nat): (r: (Pool, nat))
    requires 1 <= |p.lists|
    ensures |r.0.lists| == |p.lists| && |r.0.page| == |p.page|
  {
    if pages == 0 || pages > Pow2(|p.lists| - 1) then (p, INVALID_ADDRESS)
    else
      var (p', f) := AllocateBlock(p, OrderOf(p, pages));
      (p', if f == NO_FRAME then INVALID_ADDRESS else f * PAGE_SIZE)
  }

  /** The merge loop of buddy_free_pages followed by its final insertion. */
  function Coalesce(p: Pool, f: nat, o: nat): (r: Pool)
    requires o < |p.lists|
    ensures |r.lists| == |p.lists| && |r.page| == |p.page|
    decreases |p.lists| - o
  {
    var b := Xor(f, Pow2(o));
    if o < |p.lists| - 1 && b < |p.page| && p.page[b] == o
    then Coalesce(RemoveFree(p, b, o), if f < b then f else b, o + 1)
    else AddFree(p, f, o)
  }

  /** The frame that buddy_free_pages computes: the quotient is cut to 32 bits. */
  function FrameOf(addr: nat): nat {
    addr / PAGE_SIZE % 0x1_0000_0000
  }

  /** buddy_free_pages gets past its checks of the arguments. */
  predicate FreeActs(p: Pool, addr: nat, pages: nat) {
    && addr != 0 && addr != INVALID_ADDRESS && pages != 0
    && addr % PAGE_SIZE == 0
    && FrameOf(addr) < |p.page|
    && p.page[FrameOf(addr)] == ALLOCATED
  }

  function FreePages(p: Pool, addr: nat, pages: nat): (r: Pool)
    requires 1 <= |p.lists|
    ensures |r.lists| == |p.lists| && |r.page| == |p.page|
  {
    if FreeActs(p, addr, pages) then Coalesce(p, FrameOf(addr), OrderOf(p, pages)) else p
  }

  lemma FreePagesCoalesces(p: Pool, addr: nat, pages: nat)
    requires 1 <= |p.lists| && FreeActs(p, addr, pages)
    ensures FreePages(p, addr, pages) == Coalesce(p, FrameOf(addr), OrderOf(p, pages))
  {
  }

  /** What the code leaves to the caller of buddy_free_pages: whenever it gets past
      its checks, the block named by the address and the page count is aligned and
      holds no free page. */
  ghost predicate FreeContract(p: Pool, addr: nat, pages: nat)
    requires 1 <= |p.lists|
  {
    FreeActs(p, addr, pages) ==> Releasable(p, FrameOf(addr), OrderOf(p, pages))
  }

  ghost predicate Releasable(p: Pool, f: nat, o: nat) {
    && o < |p.lists| && Aligned(f, o) && f + Pow2(o) <= |p.page|
    && forall i :: f <= i < f + Pow2(o) ==> !FreeAt(p, i)
  }

  ghost predicate HeldBlock(p: Pool, f: nat, o: nat) {
    o < |p.lists| && Aligned(f, o) && AllInState(p, f, f + Pow2(o), ALLOCATED)
  }

  /* ---- What the steps change ---- */

  /** Outside [lo, hi) the same pages are free and the others keep their state. */
  ghost predicate SameOutside(p: Pool, p': Pool, lo: nat, hi: nat) {
    && |p'.page| == |p.page| && |p'.lists| == |p.lists|
    && forall i :: 0 <= i < |p.page| && !(lo <= i < hi) ==>
         (FreeAt(p', i) <==> FreeAt(p, i)) && (!FreeAt(p, i) ==> p'.page[i] == p.page[i])
  }

  /** What halving (f, current) down to order does: the upper halves get listed. */
  ghost predicate SplitTo(p: Pool, p': Pool, f: nat, current: nat, order: nat) {
    && |p'.page| == |p.page| && |p'.lists| == |p.lists|
    && AllFree(p', f + Pow2(order), f + Pow2(current))
    && (forall i :: 0 <= i < |p.page| && !(f <= i < f + Pow2(current)) ==> p'.page[i] == p.page[i])
    && (forall g: nat, q: nat :: Listed(p', g, q) <==>
          Listed(p, g, q) || (order <= q < current && g == f + Pow2(q)))
  }

  /** One round of the splitting loop. */
  lemma SplitStep(p: Pool, f: nat, current: nat, c: nat, order: nat, u: nat)
    requires order <= c && current == c + 1 && Floating(p, f, current) && u == f + Pow2(c)
    ensures u + Pow2(c) <= |p.page| && Floating(AddFree(p, u, c), f, c)
    ensures Split(p, f, current, order) == Split(AddFree(p, u, c), f, c, order)
    ensures forall g: nat, q: nat :: Listed(AddFree(p, u, c), g, q) <==> Listed(p, g, q) || (g == u && q == c)
  {
    AlignedWeaken(f, current, c);
    AlignedStep(f, c);
    AddFills(p, f, f + Pow2(current), u, c, f, u);
  }

  lemma {:induction false} SplitKeeps(p: Pool, f: nat, current: nat, order: nat)
    requires order <= current && Floating(p, f, current)
    ensures Floating(Split(p, f, current, order), f, order)
    ensures SplitTo(p, Split(p, f, current, order), f, current, order)
    decreases current
  {
    if order < current {
      var c, u := current - 1, f + Pow2(current - 1);
      SplitStep(p, f, current, c, order, u);
      var p2 := AddFree(p, u, c);
      SplitKeeps(p2, f, c, order);
      var p' := Split(p2, f, c, order);
      assert Split(p, f, current, order) == p';
      SplitComposes(p, p', f, c, order);
    }
  }

  lemma SplitComposes(p: Pool, p': Pool, f: nat, c: nat, order: nat)
    requires order <= c < |p.lists| && f + Pow2(c + 1) <= |p.page|
    requires forall g: nat, q: nat ::
      Listed(AddFree(p, f + Pow2(c), c), g, q) <==> Listed(p, g, q) || (g == f + Pow2(c) && q == c)
    requires SplitTo(AddFree(p, f + Pow2(c), c), p', f, c, order)
    ensures SplitTo(p, p', f, c + 1, order)
  {
    var p2 := AddFree(p, f + Pow2(c), c);
    forall i | f + Pow2(order) <= i < f + Pow2(c + 1)
      ensures FreeAt(p', i)
    {
      if f + Pow2(c) <= i {
        assert p'.page[i] == p2.page[i];
      }
    }
  }

  lemma PopIsRemove(p: Pool, q: nat)
    requires q < |p.lists| && p.lists[q] != []
    ensures p.(lists := p.lists[q := p.lists[q][1..]]) == RemoveFree(p, p.lists[q][0], q)
  {
  }

  /** What is listed after an allocation from the list of order top. */
  ghost predicate TakenFrom(p: Pool, p': Pool, f: nat, top: nat, order: nat) {
    && Listed(p, f, top) && f == p.lists[top][0] && order <= top
    && forall g: nat, q: nat :: Listed(p', g, q) <==>
         (Listed(p, g, q) && !(g == f && q == top)) || (order <= q < top && g == f + Pow2(q))
  }

  lemma TakeBlock(p: Pool, top: nat, order: nat, p': Pool, f: nat)
    requires Valid(p) && order <= top < |p.lists| && p.lists[top] != [] && f == p.lists[top][0]
    requires p' == var p2 := Split(RemoveFree(p, f, top), f, top, order); p2.(page := MarkAllocated(p2.page, f, order))
    ensures Valid(p') && TakenFrom(p, p', f, top, order) && BlockOk(p, f, top)
    ensures HeldBlock(p', f, order)
    ensures AllFree(p', f + Pow2(order), f + Pow2(top))
    ensures forall i :: 0 <= i < |p.page| && !(f <= i < f + Pow2(top)) ==> p'.page[i] == p.page[i]
  {
    assert Listed(p, f, top) && BlockOk(p, f, top);
    Pow2Mono(order, top);
    RemoveOpens(p, 0, 0, f, top, f, f + Pow2(top));
    var p1 := RemoveFree(p, f, top);
    SplitKeeps(p1, f, top, order);
    var p2 := Split(p1, f, top, order);
    MarkAllocatedCloses(p2, f, order);
    AlignedWeaken(f, top, order);
    forall i | f + Pow2(order) <= i < f + Pow2(top) ensures FreeAt(p', i) {
      assert FreeAt(p2, i);
    }
  }

  /** A successful allocation takes an aligned run of free pages out of the pool
      and changes nothing else; a failed one means that every list that could
      serve is empty, and changes nothing at all. */
  lemma AllocateBlockEffect(p: Pool, order: nat)
    requires Valid(p) && order < |p.lists|
    ensures var (p', f) := AllocateBlock(p, order);
      if f == NO_FRAME then p' == p && forall q :: order <= q < |p.lists| ==> p.lists[q] == []
      else
        && Valid(p') && HeldBlock(p', f, order)
        && AllFree(p, f, f + Pow2(order))
        && SameOutside(p, p', f, f + Pow2(order))
        && TakenFrom(p, p', f, FirstNonEmpty(p, order), order)
  {
    var top := FirstNonEmpty(p, order);
    if top < |p.lists| {
      var f := p.lists[top][0];
      PopIsRemove(p, top);
      TakeBlock(p, top, order, AllocateBlock(p, order).0, f);
      FrameIsNotNil(p, f);
      Pow2Mono(order, top);
      BlockIsFree(p, f, top);
    }
  }

  lemma FrameIsNotNil(p: Pool, f: nat)
    requires Shape(p) && f < |p.page|
    ensures f < NO_FRAME && |p.page| <= 0x8_0000
  {
    Pow2Mono(|p.lists| - 1, ORDER_LIMIT);
    Pow2Values();
  }

  /** In a consistent pool a page outside the hole whose state names an order
      starts a listed block, so unlinking it cannot fail. */
  lemma MergePartnerIsListed(p: Pool, f: nat, o: nat)
    requires Floating(p, f, o) && o < |p.lists| - 1
    ensures var b := BuddyOf(f, o);
      b < |p.page| && b + Pow2(o) <= |p.page| && (p.page[b] == o <==> Listed(p, b, o))
  {
    var b := BuddyOf(f, o);
    BuddyFacts(f, o);
    assert ParentOf(f, o) + Pow2(o + 1) <= |p.page|;
    assert PageOk(p, b);
    if Listed(p, b, o) {
      assert BlockOk(p, b, o);
    }
  }

  /** The merge loop goes on with the buddy of the block at frame f. */
  predicate Merges(p: Pool, f: nat, o: nat)
    requires Aligned(f, o)
  {
    o < |p.lists| - 1 && BuddyOf(f, o) < |p.page| && p.page[BuddyOf(f, o)] == o
  }

  lemma CoalesceStep(p: Pool, f: nat, o: nat)
    requires o < |p.lists| && Aligned(f, o)
    ensures Coalesce(p, f, o) ==
      if Merges(p, f, o) then Coalesce(RemoveFree(p, BuddyOf(f, o), o), ParentOf(f, o), o + 1)
      else AddFree(p, f, o)
  {
    XorFindsBuddy(f, o);
  }

  /** Coalescing makes exactly the given block free. */
  lemma {:induction false} CoalesceEffect(p: Pool, f: nat, o: nat)
    requires Floating(p, f, o)
    ensures var p' := Coalesce(p, f, o);
      Valid(p') && AllFree(p', f, f + Pow2(o)) && SameOutside(p, p', f, f + Pow2(o))
    decreases |p.lists| - o
  {
    CoalesceStep(p, f, o);
    if Merges(p, f, o) {
      MergeStep(p, f, o);
      var b := BuddyOf(f, o);
      var p1, f' := RemoveFree(p, b, o), ParentOf(f, o);
      CoalesceEffect(p1, f', o + 1);
      ThroughMerge(p, p1, Coalesce(p1, f', o + 1), f, b, o, f');
    } else {
      AddFills(p, f, f + Pow2(o), f, o, f, f);
    }
  }

  lemma ThroughMerge(p: Pool, p1: Pool, p': Pool, f: nat, b: nat, o: nat, f': nat)
    requires p1.page == p.page && |p1.lists| == |p.lists|
    requires (f' == f && b == f + Pow2(o)) || (f' == b && f == b + Pow2(o))
    requires AllFree(p, b, b + Pow2(o)) && AllFree(p', f', f' + Pow2(o + 1))
    requires SameOutside(p1, p', f', f' + Pow2(o + 1))
    ensures AllFree(p', f, f + Pow2(o)) && SameOutside(p, p', f, f + Pow2(o))
  {
    forall i | 0 <= i < |p.page| && !(f <= i < f + Pow2(o))
      ensures (FreeAt(p', i) <==> FreeAt(p, i)) && (!FreeAt(p, i) ==> p'.page[i] == p.page[i])
    {
      assert FreeAt(p1, i) <==> FreeAt(p, i);
    }
  }

  /** One round of the merge loop: the buddy leaves its list and joins the hole. */
  lemma MergeStep(p: Pool, f: nat, o: nat)
    requires Floating(p, f, o) && Merges(p, f, o)
    ensures var b, f' := BuddyOf(f, o), ParentOf(f, o);
      && Listed(p, b, o) && AllFree(p, b, b + Pow2(o))
      && Floating(RemoveFree(p, b, o), f', o + 1)
      && ((f' == f && b == f + Pow2(o)) || (f' == b && f == b + Pow2(o)))
    ensures forall g: nat, q: nat :: Listed(RemoveFree(p, BuddyOf(f, o), o), g, q) <==>
      Listed(p, g, q) && !(g == BuddyOf(f, o) && q == o)
  {
    var b := BuddyOf(f, o);
    MergePartnerIsListed(p, f, o);
    BuddyFacts(f, o);
    var f' := ParentOf(f, o);
    RemoveOpens(p, f, f + Pow2(o), b, o, f', f' + Pow2(o + 1));
    BlockIsFree(p, b, o);
  }

  lemma HeldIsReleasable(p: Pool, f: nat, o: nat)
    requires Valid(p) && HeldBlock(p, f, o)
    ensures Releasable(p, f, o)
  {
  }

  lemma FreeBlockEffect(p: Pool, f: nat, o: nat)
    requires Valid(p) && Releasable(p, f, o)
    ensures Floating(p, f, o)
    ensures var p' := Coalesce(p, f, o);
      Valid(p') && AllFree(p', f, f + Pow2(o)) && SameOutside(p, p', f, f + Pow2(o))
  {
    OpenHole(p, f, f + Pow2(o));
    CoalesceEffect(p, f, o);
  }

  /** The public operations keep the invariant. */
  lemma AllocPagesKeeps(p: Pool, pages: nat)
    requires Valid(p)
    ensures var (p', addr) := AllocPages(p, pages);
      && Valid(p')
      && (addr == INVALID_ADDRESS ==> p' == p)
      && (addr != INVALID_ADDRESS ==>
            var f, o := addr / PAGE_SIZE, OrderOf(p, pages);
            && addr % PAGE_SIZE == 0 && FrameOf(addr) == f
            && (p', f) == AllocateBlock(p, o) && f != NO_FRAME
            && 1 <= pages <= Pow2(o)
            && HeldBlock(p', f, o) && AllFree(p, f, f + Pow2(o)) && SameOutside(p, p', f, f + Pow2(o)))
  {
    if !(pages == 0 || pages > Pow2(|p.lists| - 1)) {
      var o := OrderOf(p, pages);
      AllocateBlockEffect(p, o);
      var (p', f) := AllocateBlock(p, o);
      if f != NO_FRAME {
        FrameIsNotNil(p', f);
        assert f * PAGE_SIZE / PAGE_SIZE == f && f * PAGE_SIZE % PAGE_SIZE == 0;
      }
    }
  }

  lemma FreePagesKeeps(p: Pool, addr: nat, pages: nat)
    requires Valid(p) && FreeContract(p, addr, pages)
    ensures Valid(FreePages(p, addr, pages))
    ensures FreeActs(p, addr, pages) ==>
      var f, o := FrameOf(addr), OrderOf(p, pages);
      AllFree(FreePages(p, addr, pages), f, f + Pow2(o)) && SameOutside(p, FreePages(p, addr, pages), f, f + Pow2(o))
  {
    if FreeActs(p, addr, pages) {
      FreeBlockEffect(p, FrameOf(addr), OrderOf(p, pages));
    }
  }

  ghost predicate NoFreePage(p: Pool) {
    forall i :: 0 <= i < |p.page| ==> !FreeAt(p, i)
  }

  lemma AllocPageFails(p: Pool)
    requires Valid(p) && AllocPages(p, 1).1 == INVALID_ADDRESS
    ensures NoFreePage(p)
  {
    AllocateBlockEffect(p, 0);
    if AllocateBlock(p, 0).1 != NO_FRAME {
      FrameIsNotNil(p, AllocateBlock(p, 0).1);
    }
    assert forall f: nat, o: nat :: !Listed(p, f, o);
    forall i | 0 <= i < |p.page| ensures !FreeAt(p, i) {
      assert PageOk(p, i);
    }
  }
}
