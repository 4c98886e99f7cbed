/** kernel/src/memory/buddy.c in place: the page-state table, the list heads and
    the two link arrays, updated as the code updates them. */
module Buddy {
  import opened Bits
  import opened BuddyPool
  import opened BuddyOps
  import opened BuddyLinks
  import opened BuddyRanges
  import opened BuddyMap
  import opened BuddyCanonical
  import opened BuddyContract

  type uint8 = x: int | 0 <= x < 0x100 witness 0
  type uint32 = x: int | 0 <= x < 0x1_0000_0000 witness 0

  /** The memory map response of the boot loader; the pointer may be null. */
  datatype MemoryMap = NoMap | Map(entries: seq<MapEntry>)

  lemma HoleUnlisted(p: Pool, lo: nat, hi: nat, f: nat)
    requires Consistent(p, lo, hi) && lo <= f < hi
    ensures !OnSome(p.lists, f)
  {
    forall q, k ensures !At(p.lists, q, k, f) {
      assert q >= 0 && At(p.lists, q, k, f) ==> Listed(p, f, q);
    }
  }

  lemma FloatingUnlisted(p: Pool, f: nat, o: nat, g: nat)
    requires Floating(p, f, o) && f <= g < f + Pow2(o)
    ensures !OnSome(p.lists, g)
  {
    HoleUnlisted(p, f, f + Pow2(o), g);
  }

  lemma ListedIsOnSome(p: Pool, f: nat, o: nat) returns (i: nat)
    requires Distinct(p.lists) && Listed(p, f, o)
    ensures At(p.lists, o, i, f)
    ensures Unlisted(p.lists, f) == RemoveFree(p, f, o).lists
  {
    i :| 0 <= i < |p.lists[o]| && p.lists[o][i] == f;
    assert At(p.lists, o, i, f);
    RemoveIsUnlisted(p.lists, f, o, i);
    assert forall k :: 0 <= k < |p.lists[o]| ==> At(p.lists, o, k, p.lists[o][k]);
    WithoutAt(p.lists[o], i);
  }

  /** What the merge loop relies on: page states from order o up name listed
      blocks, and a misaligned block has no partner. */
  ghost predicate MayMerge(p: Pool, f: nat, o: nat) {
    && Shape(p) && o < |p.lists| && f < f + Pow2(o) <= |p.page| && !OnSome(p.lists, f)
    && (forall b: nat, q: nat :: o <= q < |p.lists| && b < |p.page| && p.page[b] == q ==> Listed(p, b, q))
    && (Aligned(f, o) || var b := Xor(f, Pow2(o)); !(b < |p.page| && p.page[b] == o))
  }

  lemma AllocatedMayMerge(p: Pool, f: nat, o: nat)
    requires BuddyPool.Valid(p) && o < |p.lists| && f + Pow2(o) <= |p.page| && p.page[f] == ALLOCATED
    ensures MayMerge(p, f, o)
  {
    forall q, k ensures !At(p.lists, q, k, f) {
      assert q >= 0 && At(p.lists, q, k, f) ==> Listed(p, f, q) && BlockOk(p, f, q);
    }
    forall b: nat, q: nat | o <= q < |p.lists| && b < |p.page| && p.page[b] == q ensures Listed(p, b, q) {
      assert PageOk(p, b);
    }
    if !Aligned(f, o) {
      NoPartner(p, f, o);
    }
  }

  /** One round of the merge loop, or its end; b is the buddy and f' the merged block. */
  lemma LoopStep(p: Pool, f: nat, o: nat, b: nat, f': nat, o': nat)
    requires MayMerge(p, f, o) && b == Xor(f, Pow2(o)) && f' == (if f < b then f else b) && o' == o + 1
    requires Distinct(p.lists)
    ensures if o < |p.lists| - 1 && b < |p.page| && p.page[b] == o then
      && Listed(p, b, o) && MayMerge(RemoveFree(p, b, o), f', o')
      && Coalesce(p, f, o) == Coalesce(RemoveFree(p, b, o), f', o')
    else Coalesce(p, f, o) == AddFree(p, f, o)
  {
    if o < |p.lists| - 1 && b < |p.page| && p.page[b] == o {
      assert Listed(p, b, o);
      Unlists(p, b, o, f);
      MergedMayMerge(p, f, o, b, f', o', RemoveFree(p, b, o));
    }
  }

  lemma MergedMayMerge(p: Pool, f: nat, o: nat, b: nat, f': nat, o': nat, p': Pool)
    requires MayMerge(p, f, o) && o' == o + 1 < |p.lists| && b == Xor(f, Pow2(o)) && f' == (if f < b then f else b)
    requires b < |p.page| && p.page[b] == o && p'.page == p.page && |p'.lists| == |p.lists|
    requires !OnSome(p'.lists, f) && !OnSome(p'.lists, b)
    requires forall g: nat, q: nat :: q != o ==> (Listed(p', g, q) <==> Listed(p, g, q))
    ensures MayMerge(p', f', o')
  {
    MergedFits(f, o, b, f', o', |p.lists| - 1);
  }

  lemma MergedFits(f: nat, o: nat, b: nat, f': nat, o': nat, n: nat)
    requires Aligned(f, o) && f < Pow2(n) && o' == o + 1 <= n && b == Xor(f, Pow2(o)) && f' == (if f < b then f else b)
    ensures Aligned(f', o') && f' < f' + Pow2(o') <= Pow2(n)
  {
    XorFindsBuddy(f, o);
    BuddyFacts(f, o);
    BlockFits(f', o', n);
  }

  /** After b has left its list, neither b nor a frame that was on none is listed. */
  lemma Unlists(p: Pool, b: nat, o: nat, f: nat)
    requires Distinct(p.lists) && Listed(p, b, o) && !OnSome(p.lists, f)
    ensures !OnSome(RemoveFree(p, b, o).lists, f) && !OnSome(RemoveFree(p, b, o).lists, b)
    ensures forall g: nat, q: nat :: q != o ==> (Listed(RemoveFree(p, b, o), g, q) <==> Listed(p, g, q))
  {
    var i := ListedIsOnSome(p, b, o);
    RemoveIsUnlisted(p.lists, b, o, i);
    AtAfterRemove(p.lists, b, o, i, RemoveFree(p, b, o).lists);
  }

  /** The frames of r are in transit. */
  ghost predicate Pending(p: Pool, r: Range) {
    r.End() <= |p.page| && Consistent(p, r.first, r.End())
  }

  /** One round of the loop of buddy_add_range. */
  lemma RangeStep(p: Pool, r: Range, o: nat)
    requires Pending(p, r) && r.count > 0 && o == FitOrder(r, |p.lists| - 1)
    ensures !OnSome(p.lists, r.first) && Pending(AddFree(p, r.first, o), Rest(r, o))
    ensures AddRange(p, r) == AddRange(AddFree(p, r.first, o), Rest(r, o))
  {
    AddFills(p, r.first, r.End(), r.first, o, Rest(r, o).first, Rest(r, o).End());
    HoleUnlisted(p, r.first, r.End(), r.first);
  }

  /** One round of the loop over the memory map. */
  lemma InitLoopStep(rs: seq<Range>, i: nat, n: nat)
    requires i < |rs| && n <= ORDER_LIMIT && Separate(rs, n)
    ensures Pending(InitPool(rs[..i], n), rs[i])
    ensures InitPool(rs[..i + 1], n) == AddRange(InitPool(rs[..i], n), rs[i])
  {
    var xs := rs[..i + 1];
    assert xs[..i] == rs[..i];
    InitPoolEffect(rs[..i], n);
    LastIsReserved(xs, n, InitPool(rs[..i], n));
  }

  lemma MapPromise(response: MemoryMap, n: nat)
    requires n <= ORDER_LIMIT
    ensures response.Map? && SumsFit(response.entries) && EntriesApart(response.entries) ==>
      forall i: nat :: i < Pow2(n) ==>
        var p := InitPool(EntryRanges(response.entries, Pow2(n)), n);
        if UsableFrame(response.entries, Pow2(n), i) then FreeAt(p, i) else p.page[i] == RESERVED
  {
    if response.Map? && SumsFit(response.entries) && EntriesApart(response.entries) {
      forall i: nat | i < Pow2(n)
        ensures var p := InitPool(EntryRanges(response.entries, Pow2(n)), n);
          if UsableFrame(response.entries, Pow2(n), i) then FreeAt(p, i) else p.page[i] == RESERVED
      {
        InitFromMap(response.entries, n, i);
      }
    }
  }

  lemma NothingToAdd(p: Pool, r: Range)
    requires Pending(p, r) && 1 <= |p.lists|
    ensures r.count == 0 ==> AddRange(p, r) == p && BuddyPool.Valid(p)
  {
    if r.count == 0 {
      AddRangeKeeps(p, r);
    }
  }

  lemma ResetLinked(heads: seq<nat>, next: seq<nat>, prev: seq<nat>, n: nat)
    requires |heads| == n + 1 && |next| == |prev| == Pow2(n) <= NO_FRAME
    requires (forall q :: 0 <= q < |heads| ==> heads[q] == NO_FRAME)
    requires (forall f :: 0 <= f < |next| ==> next[f] == prev[f] == NO_FRAME)
    ensures Linked(heads, next, prev, Reset(n).lists)
  {
  }

  class Buddy {
    const maxOrder: nat
    const pageState: array<uint8>
    const freeList: array<uint32>
    const freeNext: array<uint32>
    const freePrev: array<uint32>
    ghost var lists: seq<seq<nat>>

    ghost const Repr: set<object> := {this, pageState, freeList, freeNext, freePrev}

    /** The arrays store some lists; nothing is said about page states. */
    ghost predicate Wired()
      reads this, pageState, freeList, freeNext, freePrev
    {
      && freeList != freeNext && freeList != freePrev && freeNext != freePrev
      && maxOrder <= ORDER_LIMIT && |lists| == maxOrder + 1
      && freeNext.Length == freePrev.Length == pageState.Length == Pow2(maxOrder) <= 0x8_0000
      && Linked(freeList[..], freeNext[..], freePrev[..], lists)
    }

    ghost function Model(): Pool
      reads this, pageState
    {
      Pool(pageState[..], lists)
    }

    ghost predicate Valid()
      reads this, pageState, freeList, freeNext, freePrev
    {
      Wired() && BuddyPool.Valid(Model())
    }

    /** Static storage: all arrays start out zero, before buddy_init. */
    constructor (n: nat)
      requires n <= ORDER_LIMIT
      ensures fresh(Repr) && maxOrder == n
      ensures pageState.Length == freeNext.Length == freePrev.Length == Pow2(n) && freeList.Length == n + 1
      ensures freeList != freeNext && freeList != freePrev && freeNext != freePrev
    {
      maxOrder := n;
      pageState := new uint8[Pow2(n)](_ => 0);
      freeList := new uint32[n + 1](_ => 0);
      freeNext := new uint32[Pow2(n)](_ => 0);
      freePrev := new uint32[Pow2(n)](_ => 0);
      lists := [];
    }

    static method OrderFromPages(maxOrder: nat, pages: nat) returns (order: uint8)
      requires maxOrder <= ORDER_LIMIT
      ensures order == OrderFrom(pages, 0, maxOrder)
    {
      order := 0;
      var size := 1;
      while size < pages && order < maxOrder
        invariant order <= maxOrder && size == Pow2(order)
        invariant OrderFrom(pages, 0, maxOrder) == OrderFrom(pages, order, maxOrder)
      {
        size := size * 2;
        order := order + 1;
      }
    }

    method MarkBlockFree(frame: uint32, order: uint8)
      requires frame + Pow2(order) <= pageState.Length <= 0x8_0000 && order <= ORDER_LIMIT
      modifies pageState
      ensures pageState[..] == MarkFree(old(pageState[..]), frame, order)
    {
      pageState[frame] := order;
      var index := frame + 1;
      while index < frame + Pow2(order)
        invariant frame + 1 <= index <= frame + Pow2(order)
        invariant forall i :: 0 <= i < pageState.Length ==>
          pageState[i] == if i == frame then order else if frame < i < index then FREE_BODY else old(pageState[i])
      {
        pageState[index] := FREE_BODY;
        index := index + 1;
      }
    }

    method MarkBlockAllocated(frame: uint32, order: uint8)
      requires frame + Pow2(order) <= pageState.Length
      modifies pageState
      ensures pageState[..] == MarkAllocated(old(pageState[..]), frame, order)
    {
      var index := frame;
      while index < frame + Pow2(order)
        invariant frame <= index <= frame + Pow2(order)
        invariant forall i :: 0 <= i < pageState.Length ==>
          pageState[i] == if frame <= i < index then ALLOCATED else old(pageState[i])
      {
        pageState[index] := ALLOCATED;
        index := index + 1;
      }
    }

    method AddFreeBlock(frame: uint32, order: uint8)
      requires Wired() && order <= maxOrder && frame + Pow2(order) <= pageState.Length && !OnSome(lists, frame)
      modifies this`lists, pageState, freeList, freeNext, freePrev
      ensures Wired() && Model() == AddFree(old(Model()), frame, order)
    {
      HeadOnList(order);
      MarkBlockFree(frame, order);
      if freeList[order] != NO_FRAME {
        freePrev[freeList[order]] := frame;
      }
      freePrev[frame] := NO_FRAME;
      freeNext[frame] := freeList[order];
      freeList[order] := frame;

      AddFront(old(freeList[..]), old(freeNext[..]), old(freePrev[..]), lists, frame, order, freeNext[..],
        freePrev[..]);
      assert freeList[..] == old(freeList[..])[order := frame];
      lists := lists[order := [frame] + lists[order]];
    }

    lemma HeadOnList(order: nat)
      requires Wired() && order <= maxOrder
      ensures freeList[order] != NO_FRAME <==> lists[order] != []
      ensures lists[order] != [] ==>
        freeList[order] == lists[order][0] < freeNext.Length && At(lists, order, 0, freeList[order])
    {
      assert freeList[order] == freeList[..][order];
      assert lists[order] != [] ==> At(lists, order, 0, lists[order][0]);
    }

    /** buddy_remove_free_block, with its failures: it unlinks a frame from
        whatever list holds it, but refuses one that is on no list or heads the
        list of another order. */
    method RemoveFreeBlock(frame: uint32, order: uint8) returns (ok: bool)
      requires Wired() && order <= maxOrder && frame < freeNext.Length
      modifies this`lists, freeList, freeNext, freePrev
      ensures Wired()
      ensures ok <==> exists q, k :: At(old(lists), q, k, frame) && (q == order || k > 0)
      ensures lists == if ok then Unlisted(old(lists), frame) else old(lists)
      ensures !ok ==>
        freeList[..] == old(freeList[..]) && freeNext[..] == old(freeNext[..]) && freePrev[..] == old(freePrev[..])
    {
      var previous := freePrev[frame];
      var next := freeNext[frame];
      ghost var q, k := WhereIs(frame);
      HeadOnList(order);

      if previous == NO_FRAME {
        if freeList[order] != frame {
          return false;
        }
        freeList[order] := next;
      } else if freeNext[previous] != frame {
        return false;
      } else {
        freeNext[previous] := next;
      }

      if next != NO_FRAME {
        freePrev[next] := previous;
      }
      freeNext[frame] := NO_FRAME;
      freePrev[frame] := NO_FRAME;

      assert At(lists, q, k, frame) && (q == order || k > 0);
      Unlink(old(freeList[..]), old(freeNext[..]), old(freePrev[..]), lists, frame, q, k,
             freeList[..], freeNext[..], freePrev[..]);
      lists := Unlisted(lists, frame);
      return true;
    }

    /** Position of a frame in the lists, with what the links say about it. */
    lemma WhereIs(frame: nat) returns (q: nat, k: nat)
      requires Wired() && frame < freeNext.Length
      ensures OnSome(lists, frame) ==> At(lists, q, k, frame) && (freePrev[frame] == NO_FRAME <==> k == 0)
      ensures OnSome(lists, frame) ==> forall q', k' :: At(lists, q', k', frame) ==> q' == q && k' == k
      ensures freePrev[frame] != NO_FRAME ==>
        OnSome(lists, frame) && freePrev[frame] < freeNext.Length && freeNext[freePrev[frame]] == frame
      ensures freeNext[frame] != NO_FRAME ==> freeNext[frame] < freeNext.Length && freeNext[frame] != frame
      ensures freePrev[frame] != frame
      ensures !OnSome(lists, frame) ==> forall q', k' :: !At(lists, q', k', frame)
    {
      q, k := 0, 0;
      LinksInverse(freeList[..], freeNext[..], freePrev[..], lists, frame);
      assert freePrev[..][frame] == freePrev[frame] && freeNext[..][frame] == freeNext[frame];
      if OnSome(lists, frame) {
        q, k :| At(lists, q, k, frame);
        if k > 0 {
          assert At(lists, q, k - 1, lists[q][k - 1]);
        }
        if k + 1 < |lists[q]| {
          assert At(lists, q, k + 1, lists[q][k + 1]);
        }
      }
    }

    method PopFreeBlock(order: uint8) returns (frame: uint32)
      requires Wired() && order <= maxOrder
      modifies this`lists, freeList, freeNext, freePrev
      ensures Wired()
      ensures if old(lists)[order] == [] then frame == NO_FRAME && lists == old(lists)
              else frame == old(lists)[order][0] && lists == old(lists)[order := old(lists)[order][1..]]
    {
      frame := freeList[order];
      HeadOnList(order);
      if frame == NO_FRAME {
        return;
      }
      ghost var q, k := WhereIs(frame);

      freeList[order] := freeNext[frame];
      if freeList[order] != NO_FRAME {
        freePrev[freeList[order]] := NO_FRAME;
      }
      freeNext[frame] := NO_FRAME;
      freePrev[frame] := NO_FRAME;

      Unlink(old(freeList[..]), old(freeNext[..]), old(freePrev[..]), lists, frame, order, 0,
             freeList[..], freeNext[..], freePrev[..]);
      RemoveIsUnlisted(lists, frame, order, 0);
      assert lists[order][..0] + lists[order][1..] == lists[order][1..];
      lists := Unlisted(lists, frame);
    }

    method AddRangeOf(first: uint32, count: uint32, ghost range: Range)
      requires Wired() && range == Range(first, count) && Pending(Model(), range)
      modifies this`lists, pageState, freeList, freeNext, freePrev
      ensures Valid() && Model() == AddRange(old(Model()), range)
    {
      hide BuddyPool.Valid, Consistent, Aligned, OnSome;
      ghost var r := range;
      ghost var target := AddRange(Model(), r);
      AddRangeKeeps(Model(), r);
      var frame: uint32, pages: uint32 := first, count;
      while pages > 0
        invariant r.first == frame && r.count == pages && r.End() == first + count
        invariant Wired() && Pending(Model(), r)
        invariant AddRange(Model(), r) == target
        decreases pages
      {
        var order := LargestFit(frame, pages, r);
        RangeStep(Model(), r, order);
        AddFreeBlock(frame, order);
        var blockSize := Pow2(order);
        frame := frame + blockSize;
        pages := pages - blockSize;
        r := Rest(r, order);
      }
    }

    /** The inner loop of buddy_add_range. */
    method LargestFit(frame: uint32, pages: uint32, ghost r: Range) returns (order: uint8)
      requires pages > 0 && maxOrder <= ORDER_LIMIT && r.first == frame && r.count == pages
      ensures order == FitOrder(r, maxOrder)
    {
      order := maxOrder;
      LowBitsClearIff(frame, order);
      while Pow2(order) > pages || And(frame, Pow2(order) - 1) != 0
        invariant order <= maxOrder
        invariant FitOrder(r, order) == FitOrder(r, maxOrder)
        invariant And(frame, Pow2(order) - 1) == 0 <==> Aligned(frame, order)
        decreases order
      {
        var smaller := order - 1;
        FitStep(r, order, smaller);
        LowBitsClearIff(frame, smaller);
        order := smaller;
      }
    }

    /** The 32-bit test at buddy.c:170 rejects exactly the orders above 19. */
    static predicate Rejected(order: uint8, maxOrder: nat) {
      Pow2(order) * PAGE_SIZE % 0x1_0000_0000 < UNSPLITTABLE_SIZE || order > maxOrder
    }

    method AllocateBlockOf(order: uint8) returns (frame: uint32)
      requires Valid() && order < 32
      modifies this`lists, pageState, freeList, freeNext, freePrev
      ensures Valid() && (Model(), frame) == AllocateBlock(old(Model()), order)
    {
      RejectedIff(order, maxOrder);
      if Rejected(order, maxOrder) {
        return NO_FRAME;
      }
      AllocateBlockEffect(Model(), order);
      var current := order;
      while current <= maxOrder
        invariant order <= current <= maxOrder + 1
        invariant Valid() && Model() == old(Model())
        invariant FirstNonEmpty(Model(), current) == FirstNonEmpty(Model(), order)
      {
        HeadOnList(current);
        if freeList[current] == NO_FRAME {
          current := current + 1;
          continue;
        }
        frame := TakeFrom(current, order);
        return;
      }
      frame := NO_FRAME;
    }

    /** The body of the search loop: pop a block, split it, mark what is left. */
    method TakeFrom(top: uint8, order: uint8) returns (frame: uint32)
      requires Valid() && order <= top <= maxOrder && lists[top] != [] && FirstNonEmpty(Model(), order) == top
      modifies this`lists, pageState, freeList, freeNext, freePrev
      ensures Valid() && (Model(), frame) == AllocateBlock(old(Model()), order)
    {
      AllocateBlockEffect(Model(), order);
      ghost var p := Model();
      PopIsRemove(p, top);
      assert Listed(p, p.lists[top][0], top);
      assert BlockOk(p, p.lists[top][0], top);
      RemoveOpens(p, 0, 0, p.lists[top][0], top, p.lists[top][0], p.lists[top][0] + Pow2(top));
      frame := PopFreeBlock(top);
      assert Model() == RemoveFree(p, frame, top);
      SplitBlock(frame, top, order);
      MarkBlockAllocated(frame, order);
    }

    /** The inner loop: give the upper halves back, down to the wanted order. */
    method SplitBlock(frame: uint32, top: uint8, order: uint8)
      requires Wired() && order <= top <= maxOrder && Floating(Model(), frame, top)
      modifies this`lists, pageState, freeList, freeNext, freePrev
      ensures Wired() && Model() == Split(old(Model()), frame, top, order) && Floating(Model(), frame, order)
    {
      hide Consistent, Aligned, OnSome;
      ghost var target := Split(Model(), frame, top, order);
      var current := top;
      while current > order
        invariant order <= current <= top
        invariant Wired() && Floating(Model(), frame, current)
        invariant Split(Model(), frame, current, order) == target
      {
        var half := current - 1;
        var upper := frame + Pow2(half);
        SplitStep(Model(), frame, current, half, order, upper);
        FloatingUnlisted(Model(), frame, current, upper);
        AddFreeBlock(upper, half);
        current := half;
      }
    }

    method AllocPagesOf(pages: nat) returns (addr: nat)
      requires Valid()
      modifies this`lists, pageState, freeList, freeNext, freePrev
      ensures Valid() && (Model(), addr) == AllocPages(old(Model()), pages)
    {
      if pages == 0 || pages > Pow2(maxOrder) {
        return INVALID_ADDRESS;
      }
      var order := OrderFromPages(maxOrder, pages);
      var frame := AllocateBlockOf(order);
      if frame == NO_FRAME {
        return INVALID_ADDRESS;
      }
      return frame * PAGE_SIZE;
    }

    /** buddy_free_pages. The block must end inside the page table, or the code
        writes past it; the invariant survives exactly when the contract is met. */
    method FreePagesOf(addr: nat, pages: nat)
      requires Valid() && Fits(Model(), addr, pages)
      modifies this`lists, pageState, freeList, freeNext, freePrev
      ensures Wired() && Model() == FreePages(old(Model()), addr, pages)
      ensures Valid() <==> FreeContract(old(Model()), addr, pages)
    {
      FreeValidIff(Model(), addr, pages);
      if addr == 0 || addr == INVALID_ADDRESS || pages == 0 {
        return;
      }
      if addr % PAGE_SIZE != 0 {
        return;
      }
      var frame: uint32 := addr / PAGE_SIZE % 0x1_0000_0000;
      if frame >= Pow2(maxOrder) {
        return;
      }
      if pageState[frame] != ALLOCATED {
        return;
      }
      var order := OrderFromPages(maxOrder, pages);
      AllocatedMayMerge(Model(), frame, order);
      CoalesceFrom(frame, order);
    }

    /** The merge loop and the final insertion. */
    method CoalesceFrom(start: uint32, startOrder: uint8)
      requires Wired() && startOrder <= maxOrder && MayMerge(Model(), start, startOrder)
      modifies this`lists, pageState, freeList, freeNext, freePrev
      ensures Wired() && Model() == Coalesce(old(Model()), start, startOrder)
    {
      ghost var target := Coalesce(Model(), start, startOrder);
      var frame: uint32, order: uint8 := start, startOrder;
      while order < maxOrder
        invariant order <= maxOrder && Wired() && MayMerge(Model(), frame, order)
        invariant Coalesce(Model(), frame, order) == target
        decreases maxOrder - order
      {
        var buddy := Xor(frame, Pow2(order));
        var merged, larger := if frame < buddy then frame else buddy, order + 1;
        LoopStep(Model(), frame, order, buddy, merged, larger);
        if buddy >= Pow2(maxOrder) {
          break;
        }
        if pageState[buddy] != order {
          break;
        }
        var removed := RemoveListed(buddy, order);
        if !removed {
          break;
        }
        frame, order := merged, larger;
      }
      ghost var b := Xor(frame, Pow2(order));
      LoopStep(Model(), frame, order, b, if frame < b then frame else b, order + 1);
      AddFreeBlock(frame, order);
    }

    /** Unlinking a listed block cannot fail. */
    method RemoveListed(frame: uint32, order: uint8) returns (ok: bool)
      requires Wired() && order <= maxOrder && frame < freeNext.Length && Listed(Model(), frame, order)
      modifies this`lists, freeList, freeNext, freePrev
      ensures ok && Wired() && Model() == RemoveFree(old(Model()), frame, order)
    {
      ghost var i := ListedIsOnSome(Model(), frame, order);
      ok := RemoveFreeBlock(frame, order);
    }

    method ResetAll()
      requires maxOrder <= ORDER_LIMIT && freeList.Length == maxOrder + 1
      requires pageState.Length == freeNext.Length == freePrev.Length == Pow2(maxOrder)
      requires freeList != freeNext && freeList != freePrev && freeNext != freePrev
      modifies this`lists, pageState, freeList, freeNext, freePrev
      ensures Wired() && Model() == Reset(maxOrder)
    {
      ResetPages();
      var order := 0;
      while order <= maxOrder
        invariant 0 <= order <= maxOrder + 1
        invariant forall k :: 0 <= k < order ==> freeList[k] == NO_FRAME
        modifies freeList
      {
        freeList[order] := NO_FRAME;
        order := order + 1;
      }
      lists := Reset(maxOrder).lists;
      FrameIsNotNil(Reset(maxOrder), 0);
      ResetLinked(freeList[..], freeNext[..], freePrev[..], maxOrder);
    }

    method ResetPages()
      requires pageState.Length == freeNext.Length == freePrev.Length == Pow2(maxOrder)
      requires freeNext != freePrev
      modifies pageState, freeNext, freePrev
      ensures pageState[..] == Reset(maxOrder).page
      ensures forall k :: 0 <= k < pageState.Length ==> freeNext[k] == freePrev[k] == NO_FRAME
    {
      var i := 0;
      while i < pageState.Length
        invariant 0 <= i <= pageState.Length
        invariant forall k :: 0 <= k < i ==> pageState[k] == RESERVED && freeNext[k] == freePrev[k] == NO_FRAME
      {
        pageState[i] := RESERVED;
        freeNext[i] := NO_FRAME;
        freePrev[i] := NO_FRAME;
        i := i + 1;
      }
    }

    /** buddy_init. A memory map without response or entries leaves all pages reserved. */
    method Init(response: MemoryMap)
      requires maxOrder <= ORDER_LIMIT && freeList.Length == maxOrder + 1
      requires pageState.Length == freeNext.Length == freePrev.Length == Pow2(maxOrder)
      requires freeList != freeNext && freeList != freePrev && freeNext != freePrev
      requires response.Map? ==> Separate(EntryRanges(response.entries, Pow2(maxOrder)), maxOrder)
      modifies this`lists, pageState, freeList, freeNext, freePrev
      ensures Valid()
      ensures Model() == InitPool(if response.NoMap? then [] else EntryRanges(response.entries, Pow2(maxOrder)),
        maxOrder)
      ensures response.NoMap? ==> forall i: nat :: i < Pow2(maxOrder) ==> Model().page[i] == RESERVED
      ensures response.Map? && SumsFit(response.entries) && EntriesApart(response.entries) ==>
        forall i: nat :: i < Pow2(maxOrder) ==>
          if UsableFrame(response.entries, Pow2(maxOrder), i) then FreeAt(Model(), i) else Model().page[i] == RESERVED
    {
      hide SumsFit, EntriesApart, UsableFrame, EntryRange;
      MapPromise(response, maxOrder);
      ResetAll();
      ResetIsInitialised(maxOrder);
      if response.NoMap? || |response.entries| == 0 {
        return;
      }
      AddEntries(response.entries, EntryRanges(response.entries, Pow2(maxOrder)));
    }

    method AddEntries(entries: seq<MapEntry>, ghost rs: seq<Range>)
      requires Valid() && Model() == Reset(maxOrder)
      requires rs == EntryRanges(entries, Pow2(maxOrder)) && Separate(rs, maxOrder)
      modifies this`lists, pageState, freeList, freeNext, freePrev
      ensures Valid() && Model() == InitPool(rs, maxOrder)
    {
      var i := 0;
      while i < |entries|
        invariant 0 <= i <= |rs|
        invariant Valid() && Model() == InitPool(rs[..i], maxOrder)
      {
        InitLoopStep(rs, i, maxOrder);
        AddEntry(entries[i], rs[i]);
        i := i + 1;
      }
      assert rs[..i] == rs;
    }

    /** The body of the loop over the memory map; an entry without frames is skipped. */
    method AddEntry(entry: MapEntry, ghost r: Range)
      requires Valid() && r == EntryRange(entry, Pow2(maxOrder)) && Pending(Model(), r)
      modifies this`lists, pageState, freeList, freeNext, freePrev
      ensures Valid() && Model() == AddRange(old(Model()), r)
    {
      hide EntryRange, Consistent, AddRange;
      NothingToAdd(Model(), r);
      var first, count := FramesOf(entry, Pow2(maxOrder));
      if count != 0 {
        AddRangeOf(first, count, r);
      }
    }

    static method FramesOf(entry: MapEntry, maxPages: nat) returns (first: nat, count: nat)
      ensures Range(first, count) == EntryRange(entry, maxPages)
    {
      first, count := 0, 0;
      if entry.Missing? || entry.kind != USABLE {
        return;
      }
      var start := AlignUp(entry.base, PAGE_SIZE);
      var end := AlignDown((entry.base + entry.length) % WORD64, PAGE_SIZE);
      if end <= start {
        return;
      }
      var firstFrame := start / PAGE_SIZE;
      var lastFrame := end / PAGE_SIZE;
      if firstFrame >= maxPages {
        return;
      }
      if lastFrame > maxPages {
        lastFrame := maxPages;
      }
      return firstFrame, lastFrame - firstFrame;
    }

    /** A caller that frees what it has just allocated leaves every entry of the
        page table, the list heads and both link arrays as it was. */
    method AllocThenFree(pages: nat) returns (addr: nat)
      requires Valid() && Canonical(Model())
      modifies this`lists, pageState, freeList, freeNext, freePrev
      ensures Valid() && addr == old(AllocPages(Model(), pages)).1
      ensures addr != 0 ==>
        && pageState[..] == old(pageState[..]) && freeList[..] == old(freeList[..])
        && freeNext[..] == old(freeNext[..]) && freePrev[..] == old(freePrev[..])
    {
      ghost var p, heads, next, prev := Model(), freeList[..], freeNext[..], freePrev[..];
      UndoContract(p, pages, AllocPages(p, pages).0, AllocPages(p, pages).1);
      addr := AllocPagesOf(pages);
      FreePagesOf(addr, pages);
      if addr != 0 {
        LinksDetermined(heads, next, prev, freeList[..], freeNext[..], freePrev[..], p.lists);
      }
    }

    method AllocPage() returns (addr: nat)
      requires Valid()
      modifies this`lists, pageState, freeList, freeNext, freePrev
      ensures Valid() && (Model(), addr) == AllocPages(old(Model()), 1)
    {
      addr := AllocPagesOf(1);
    }

    method FreePage(addr: nat)
      requires Valid()
      modifies this`lists, pageState, freeList, freeNext, freePrev
      ensures Valid() && Model() == FreePages(old(Model()), addr, 1)
    {
      SinglePageContract(Model(), addr);
      FreePagesOf(addr, 1);
    }
  }

  lemma FitStep(r: Range, o: nat, o': nat)
    requires r.count > 0 && o == o' + 1 && !(Pow2(o) <= r.count && Aligned(r.first, o))
    ensures FitOrder(r, o) == FitOrder(r, o')
  {
  }

  lemma LowBitsClearIff(f: nat, o: nat)
    ensures And(f, Pow2(o) - 1) == 0 <==> Aligned(f, o)
  {
    AndMask(f, 0, o);
    LowIsRemainder(f, o);
    AlignedIsMultiple(f, o);
  }

  lemma RejectedIff(order: uint8, maxOrder: nat)
    requires order < 32 && maxOrder <= ORDER_LIMIT
    ensures Buddy.Rejected(order, maxOrder) <==> order > maxOrder
  {
    if order <= maxOrder {
      Pow2Values();
      Pow2Mono(order, 19);
    }
  }

  lemma UndoContract(p: Pool, pages: nat, p': Pool, addr: nat)
    requires BuddyPool.Valid(p) && Canonical(p) && (p', addr) == AllocPages(p, pages)
    ensures 1 <= |p'.lists| && FreeContract(p', addr, pages) && (addr != 0 ==> FreePages(p', addr, pages) == p)
  {
    ExactUndo(p, pages);
    AllocPagesKeeps(p, pages);
    if addr != INVALID_ADDRESS {
      SameOrder(p, p', pages);
    }
  }

  /** The product at buddy.c:170 wraps to zero from order 20 on: the test alone
      rejects exactly these. */
  lemma WrappedSizeIff(order: uint8)
    requires order < 32
    ensures Pow2(order) * PAGE_SIZE % 0x1_0000_0000 < UNSPLITTABLE_SIZE <==> order >= 20
  {
    hide Pow2;
    if order >= 20 {
      FactorOut(order, order - 20);
      WrapsToZero(Pow2(order - 20));
    } else {
      Pow2Mono(order, 19);
      Pow2Values();
      StaysAbove(Pow2(order));
    }
  }

  lemma FactorOut(order: nat, over: nat)
    requires order == 20 + over
    ensures Pow2(order) == 0x10_0000 * Pow2(over)
  {
    Pow2Sum(20, over);
    Pow2Values();
    assert Pow2(20) == 2 * Pow2(19);
  }

  lemma WrapsToZero(q: nat)
    ensures 0x10_0000 * q * 0x1000 % 0x1_0000_0000 == 0
  {
    RemainderUnique(0x10_0000 * q * 0x1000, 0x1_0000_0000, q, 0);
  }

  lemma StaysAbove(p: nat)
    requires 1 <= p <= 0x8_0000
    ensures p * 0x1000 % 0x1_0000_0000 >= 0x1000
  {
  }

  /** A single page needs no contract: the code's own checks establish it. */
  lemma SinglePageContract(p: Pool, addr: nat)
    requires BuddyPool.Valid(p)
    ensures FreeContract(p, addr, 1)
  {
  }
}
