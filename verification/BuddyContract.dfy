/** The contract of buddy_free_pages in kernel/src/memory/buddy.c. The code looks
    at the state of the first page only; what it leaves to its callers is exactly
    what keeping the invariant takes. */
module BuddyContract {
  import opened Bits
  import opened BuddyPool
  import opened BuddyOps

  lemma XorParts(a: nat, b: nat)
    ensures Xor(a, b) / 2 == Xor(a / 2, b / 2)
    ensures Xor(a, b) % 2 == if a % 2 == b % 2 then 0 else 1
  {
  }

  lemma {:induction false} XorTwice(a: nat, b: nat)
    ensures Xor(Xor(a, b), b) == a
    decreases a + b
  {
    if a + b > 0 {
      hide Xor;
      XorParts(a, b);
      XorParts(Xor(a, b), b);
      XorTwice(a / 2, b / 2);
    }
  }

  /** A misaligned block has no merge partner: the partner would be listed, hence
      aligned, and so would be its buddy. */
  lemma NoPartner(p: Pool, f: nat, o: nat)
    requires Valid(p) && o < |p.lists| && !Aligned(f, o)
    ensures var b := Xor(f, Pow2(o)); !(b < |p.page| && p.page[b] == o)
  {
    var b := Xor(f, Pow2(o));
    if b < |p.page| && p.page[b] == o {
      assert PageOk(p, b) && Listed(p, b, o) && BlockOk(p, b, o);
      XorFindsBuddy(b, o);
      XorTwice(f, Pow2(o));
    }
  }

  /** Merging leaves smaller listed blocks inside on their lists, and marks their
      heads as inner pages. */
  lemma {:induction false} BuriedStaysListed(p: Pool, f: nat, o: nat, g: nat, q: nat)
    requires q < o < |p.lists| && Aligned(f, o) && f < g < f + Pow2(o) && g < |p.page| && Listed(p, g, q)
    ensures Listed(Coalesce(p, f, o), g, q) && Coalesce(p, f, o).page[g] == FREE_BODY
    decreases |p.lists| - o
  {
    CoalesceStep(p, f, o);
    if Merges(p, f, o) {
      BuddyFacts(f, o);
      BuriedStaysListed(RemoveFree(p, BuddyOf(f, o), o), ParentOf(f, o), o + 1, g, q);
    }
  }

  /** A free page in an aligned block whose first page is not free belongs to a
      smaller listed block further inside. */
  lemma FreeInside(p: Pool, f: nat, o: nat, i: nat) returns (g: nat, q: nat)
    requires Valid(p) && o < |p.lists| && Aligned(f, o) && f < |p.page| && p.page[f] == ALLOCATED
    requires f <= i < f + Pow2(o) && FreeAt(p, i)
    ensures q < o && f < g < f + Pow2(o) && Listed(p, g, q) && g < |p.page|
  {
    assert PageOk(p, i);
    if p.page[i] == FREE_BODY {
      g, q :| Listed(p, g, q) && g < i < g + Pow2(q);
    } else {
      g, q := i, p.page[i];
    }
    assert BlockOk(p, g, q);
    BlockIsFree(p, g, q);
    assert !FreeAt(p, f);
    if o <= q {
      Nest(f, o, g, q);
      assert false;
    }
    Nest(g, q, f, o);
  }

  lemma AddedIsOk(p: Pool, f: nat, o: nat)
    requires o < |p.lists| && Valid(AddFree(p, f, o))
    ensures Aligned(f, o)
  {
    assert Listed(AddFree(p, f, o), f, o);
  }

  /** Freeing a block whose first page is allocated keeps the pool valid if and
      only if the block is aligned and holds no free page. */
  lemma CoalesceValidIff(p: Pool, f: nat, o: nat)
    requires Valid(p) && o < |p.lists| && f < |p.page| && p.page[f] == ALLOCATED
    ensures Valid(Coalesce(p, f, o)) <==> Releasable(p, f, o)
    ensures Releasable(p, f, o) <==> Aligned(f, o) && forall i :: f <= i < f + Pow2(o) ==> !FreeAt(p, i)
  {
    if !Aligned(f, o) {
      NoPartner(p, f, o);
      if Valid(AddFree(p, f, o)) { AddedIsOk(p, f, o); }
    } else {
      BlockFits(f, o, |p.lists| - 1);
      if Releasable(p, f, o) {
        FreeBlockEffect(p, f, o);
      } else {
        var i :| f <= i < f + Pow2(o) && FreeAt(p, i);
        var g, q := FreeInside(p, f, o, i);
        BuriedStaysListed(p, f, o, g, q);
        assert Valid(Coalesce(p, f, o)) ==> BlockOk(Coalesce(p, f, o), g, q);
      }
    }
  }

  /** buddy_free_pages keeps the pool valid if and only if its contract is met. */
  lemma FreeValidIff(p: Pool, addr: nat, pages: nat)
    requires Valid(p)
    ensures Valid(FreePages(p, addr, pages)) <==> FreeContract(p, addr, pages)
  {
    if FreeActs(p, addr, pages) {
      FreePagesCoalesces(p, addr, pages);
      CoalesceValidIff(p, FrameOf(addr), OrderOf(p, pages));
    }
  }

  /** A live page at an odd frame, freed as if it were two pages: the code does it,
      and the pool is no longer valid. */
  lemma OddPair(p: Pool, f: nat, addr: nat)
    requires Valid(p) && 2 <= |p.lists| && f % 2 == 1 && f < |p.page| && p.page[f] == ALLOCATED && addr == f * PAGE_SIZE
    ensures FreeActs(p, addr, 2) && !Valid(FreePages(p, addr, 2))
  {
    FrameIsNotNil(p, f);
    assert addr / PAGE_SIZE == f && addr % PAGE_SIZE == 0;
    assert OrderOf(p, 2) == 1;
    assert !Aligned(f, 1);
    FreeValidIff(p, addr, 2);
  }

  /** The block named by the address and the page count ends inside the page table. */
  predicate Fits(p: Pool, addr: nat, pages: nat)
    requires 1 <= |p.lists|
  {
    FreeActs(p, addr, pages) ==> FrameOf(addr) + Pow2(OrderOf(p, pages)) <= |p.page|
  }

  ghost predicate ReservedStay(p: Pool, p': Pool) {
    |p'.page| == |p.page| && forall i :: 0 <= i < |p.page| && p.page[i] == RESERVED ==> p'.page[i] == RESERVED
  }

  /** It keeps the pool valid and frees no reserved page if and only if, whenever
      it does anything, the block is aligned and wholly allocated. */
  lemma FreeSafeIff(p: Pool, addr: nat, pages: nat)
    requires Valid(p)
    ensures Valid(FreePages(p, addr, pages)) && ReservedStay(p, FreePages(p, addr, pages))
       <==> (FreeActs(p, addr, pages) ==> HeldBlock(p, FrameOf(addr), OrderOf(p, pages)))
  {
    FreeValidIff(p, addr, pages);
    var p', f, o := FreePages(p, addr, pages), FrameOf(addr), OrderOf(p, pages);
    if FreeActs(p, addr, pages) {
      if HeldBlock(p, f, o) {
        HeldIsReleasable(p, f, o);
      }
      if Releasable(p, f, o) {
        FreePagesKeeps(p, addr, pages);
        HeldIffReserved(p, f, o, p');
      }
    }
  }

  lemma HeldIffReserved(p: Pool, f: nat, o: nat, p': Pool)
    requires Valid(p) && Releasable(p, f, o) && |p'.page| == |p.page| && |p'.lists| == |p.lists|
    requires AllFree(p', f, f + Pow2(o)) && SameOutside(p, p', f, f + Pow2(o))
    ensures ReservedStay(p, p') <==> HeldBlock(p, f, o)
  {
    forall i | f <= i < f + Pow2(o)
      ensures p.page[i] in {ALLOCATED, RESERVED} && p'.page[i] != RESERVED
    {
      assert PageOk(p, i) && !FreeAt(p, i) && FreeAt(p', i);
    }
    forall i | 0 <= i < |p.page| && p.page[i] == RESERVED && !(f <= i < f + Pow2(o)) ensures p'.page[i] == RESERVED {
      assert !FreeAt(p, i);
    }
  }

  /* ---- What is ignored ---- */

  /** No page of the freed block stays allocated. */
  lemma {:induction false} CoalesceFrees(p: Pool, f: nat, o: nat, i: nat)
    requires o < |p.lists| <= ORDER_LIMIT + 1 && Aligned(f, o) && f <= i < f + Pow2(o) && i < |p.page|
    ensures Coalesce(p, f, o).page[i] != ALLOCATED
    decreases |p.lists| - o
  {
    hide Coalesce, BuddyOf, ParentOf, Aligned;
    CoalesceStep(p, f, o);
    if Merges(p, f, o) {
      BuddyFacts(f, o);
      CoalesceFrees(RemoveFree(p, BuddyOf(f, o), o), ParentOf(f, o), o + 1, i);
    }
  }

  /** buddy_free_pages leaves the pool as it was if and only if the count is 0, the
      address is 0, invalid or no multiple of the page size, its frame cut to 32 bits
      is none of the pool, or the first page is not allocated. */
  lemma FreeIgnoredIff(p: Pool, addr: nat, pages: nat)
    requires Valid(p)
    ensures var f := addr / 0x1000 % 0x1_0000_0000;
      FreePages(p, addr, pages) == p <==>
        || pages == 0 || addr == 0 || addr == 0xFFFF_FFFF_FFFF_FFFF || addr % 0x1000 != 0
        || f >= |p.page| || p.page[f] != ALLOCATED
  {
    var f, o := FrameOf(addr), OrderOf(p, pages);
    if FreeActs(p, addr, pages) {
      FreePagesCoalesces(p, addr, pages);
      if Aligned(f, o) {
        CoalesceFrees(p, f, o, f);
      } else {
        NoPartner(p, f, o);
      }
    }
  }
}
