/** From the memory map of the boot loader to the pool of kernel/src/memory/buddy.c:
    which frames buddy_init takes from an entry, and what becomes of every page. */
module BuddyMap {
  import opened Bits
  import opened BuddyPool
  import opened BuddyCanonical
  import opened BuddyRanges

  const WORD64: nat := 0x1_0000_0000_0000_0000
  const USABLE: nat := 0

  /** One pointer of the boot loader's memory map; it may be null. */
  datatype MapEntry = Missing | Entry(base: nat, length: nat, kind: nat)

  /** buddy_align_up and buddy_align_down on 64-bit words. */
  function AlignUp(value: nat, alignment: nat): nat
    requires 0 < alignment <= WORD64
  {
    And((value + alignment - 1) % WORD64, WORD64 - alignment)
  }

  function AlignDown(value: nat, alignment: nat): nat
    requires 0 < alignment <= WORD64
  {
    And(value, WORD64 - alignment)
  }

  /** The frames of the pages from start to end, cut off at the limit. */
  function FramesBetween(start: nat, end: nat, maxPages: nat): (r: Range)
    ensures r.End() <= maxPages
  {
    var first, last := start / PAGE_SIZE, end / PAGE_SIZE;
    if end <= start || first >= maxPages then Range(0, 0)
    else Range(first, (if last > maxPages then maxPages else last) - first)
  }

  /** The frames that buddy_init takes from a map entry; none if it skips the entry. */
  function EntryRange(e: MapEntry, maxPages: nat): (r: Range)
    ensures r.End() <= maxPages
  {
    if e.Missing? || e.kind != USABLE then Range(0, 0)
    else FramesBetween(AlignUp(e.base, PAGE_SIZE), AlignDown((e.base + e.length) % WORD64, PAGE_SIZE), maxPages)
  }

  function EntryRanges(es: seq<MapEntry>, maxPages: nat): seq<Range> {
    seq(|es|, i requires 0 <= i < |es| => EntryRange(es[i], maxPages))
  }

  lemma AlignDownRoundsDown(v: nat)
    requires v < WORD64
    ensures AlignDown(v, PAGE_SIZE) == v - v % PAGE_SIZE
  {
    Pow2Values();
    AndMaskIsDifference(v, 12, 64, PAGE_SIZE, WORD64, WORD64 - PAGE_SIZE);
  }

  lemma FramesBetweenHolds(start: nat, end: nat, maxPages: nat, i: nat)
    ensures FramesBetween(start - start % PAGE_SIZE, end - end % PAGE_SIZE, maxPages).Holds(i) <==>
            i < maxPages && (start - start % PAGE_SIZE) / PAGE_SIZE <= i < (end - end % PAGE_SIZE) / PAGE_SIZE
  {
  }

  /** The frames taken from a usable entry, whatever wraps. */
  lemma EntryRangeHolds(e: MapEntry, maxPages: nat, i: nat, start: nat, end: nat)
    requires e.Entry? && e.kind == USABLE
    requires start == (e.base + (PAGE_SIZE - 1)) % WORD64 && end == (e.base + e.length) % WORD64
    ensures EntryRange(e, maxPages).Holds(i) <==>
            i < maxPages && (start - start % PAGE_SIZE) / PAGE_SIZE <= i < (end - end % PAGE_SIZE) / PAGE_SIZE
  {
    hide FramesBetween;
    assert AlignUp(e.base, PAGE_SIZE) == AlignDown(start, PAGE_SIZE);
    AlignDownRoundsDown(start);
    AlignDownRoundsDown(end);
    FramesBetweenHolds(start, end, maxPages, i);
  }

  /** The page of frame i lies wholly inside the entry and below the limit. */
  ghost predicate InsideEntry(e: MapEntry, maxPages: nat, i: nat)
    requires e.Entry?
  {
    i < maxPages && e.base <= i * PAGE_SIZE && (i + 1) * PAGE_SIZE <= e.base + e.length
  }

  /** Unless the 64-bit sums wrap, the frames taken from a usable entry are
      exactly those that lie wholly inside it and below the limit. */
  lemma EntryFrames(e: MapEntry, maxPages: nat, i: nat)
    requires e.Entry? && e.kind == USABLE
    requires e.base + e.length < WORD64 && e.base + PAGE_SIZE <= WORD64
    ensures EntryRange(e, maxPages).Holds(i) <==> InsideEntry(e, maxPages, i)
  {
    hide EntryRange;
    EntryRangeHolds(e, maxPages, i, e.base + (PAGE_SIZE - 1), e.base + e.length);
    PageInside(e.base, e.base + e.length, i);
  }

  lemma PageInside(base: nat, end: nat, i: nat)
    ensures var up := base + 0xFFF;
      (up - up % 0x1000) / 0x1000 <= i < (end - end % 0x1000) / 0x1000 <==>
        base <= i * 0x1000 && (i + 1) * 0x1000 <= end
  {
  }

  /** The sums for an entry do not wrap, or their wrapping does no harm: rounding
      up wraps and the end wraps to the first page, or only the end wraps and the
      entry starts behind the last page below the limit. */
  predicate WrapsHarmlessly(e: MapEntry, maxPages: nat)
    requires e.Entry?
  {
    if e.base + PAGE_SIZE > WORD64 then (e.base + e.length) % WORD64 < PAGE_SIZE
    else e.base + e.length < WORD64 || e.base > (maxPages - 1) * PAGE_SIZE
  }

  /** For any 64-bit base and length the frames taken from a usable entry are the
      right ones if and only if the sums wrap harmlessly. */
  lemma EntryFramesIff(e: MapEntry, maxPages: nat)
    requires e.Entry? && e.kind == USABLE && e.base < WORD64 && e.length < WORD64 && 0 < maxPages <= 0x8_0000
    ensures (forall i: nat :: EntryRange(e, maxPages).Holds(i) <==> InsideEntry(e, maxPages, i)) <==>
      WrapsHarmlessly(e, maxPages)
  {
    hide EntryRange;
    if e.base + PAGE_SIZE > WORD64 {
      forall i: nat ensures EntryRange(e, maxPages).Holds(i) <==>
        i < maxPages && (i + 1) * PAGE_SIZE <= (e.base + e.length) % WORD64 {
        WrappedStart(e, maxPages, i);
      }
      assert EntryRange(e, maxPages).Holds(0) <==> PAGE_SIZE <= (e.base + e.length) % WORD64;
    } else if e.base + e.length < WORD64 {
      forall i: nat { EntryFrames(e, maxPages, i); }
    } else {
      forall i: nat ensures !EntryRange(e, maxPages).Holds(i) {
        WrappedEnd(e, maxPages, i);
      }
      assert InsideEntry(e, maxPages, maxPages - 1) <==> e.base <= (maxPages - 1) * PAGE_SIZE;
    }
  }

  lemma WrappedStart(e: MapEntry, maxPages: nat, i: nat)
    requires e.Entry? && e.kind == USABLE && e.base < WORD64 && e.base + PAGE_SIZE > WORD64 && maxPages <= 0x8_0000
    ensures EntryRange(e, maxPages).Holds(i) <==> i < maxPages && (i + 1) * PAGE_SIZE <= (e.base + e.length) % WORD64
    ensures !InsideEntry(e, maxPages, i)
  {
    hide EntryRange;
    var start := e.base + (PAGE_SIZE - 1) - WORD64;
    EntryRangeHolds(e, maxPages, i, start, (e.base + e.length) % WORD64);
    PageInside(0, (e.base + e.length) % WORD64, i);
  }

  lemma WrappedEnd(e: MapEntry, maxPages: nat, i: nat)
    requires e.Entry? && e.kind == USABLE && e.base + PAGE_SIZE <= WORD64 && e.length < WORD64 <= e.base + e.length
    ensures !EntryRange(e, maxPages).Holds(i)
  {
    hide EntryRange;
    var end := e.base + e.length - WORD64;
    EntryRangeHolds(e, maxPages, i, e.base + (PAGE_SIZE - 1), end);
    PageInside(e.base, end, i);
  }

  /* ---- From the memory map to the pool ---- */

  /** An entry that is missing or not usable contributes no frame, whatever its base
      and length. */
  lemma SkippedEntry(e: MapEntry, maxPages: nat)
    requires e.Missing? || e.kind != 0
    ensures EntryRange(e, maxPages).count == 0
  {
  }

  /** A present pointer to an entry of the usable type, LIMINE_MEMMAP_USABLE. */
  predicate IsUsable(e: MapEntry) {
    e.Entry? && e.kind == 0
  }

  /** The 64-bit sums over usable entries do not wrap. */
  ghost predicate SumsFit(es: seq<MapEntry>) {
    forall k :: 0 <= k < |es| && IsUsable(es[k]) ==>
      es[k].base + es[k].length < WORD64 && es[k].base + PAGE_SIZE <= WORD64
  }

  /** No byte belongs to two usable entries. */
  ghost predicate EntriesApart(es: seq<MapEntry>) {
    forall j, k :: 0 <= j < k < |es| && IsUsable(es[j]) && IsUsable(es[k]) ==>
      es[j].base + es[j].length <= es[k].base || es[k].base + es[k].length <= es[j].base
  }

  ghost predicate UsableFrame(es: seq<MapEntry>, maxPages: nat, i: nat) {
    exists k :: 0 <= k < |es| && UsableHolds(es[k], maxPages, i)
  }

  /** A usable entry holds the page of frame i. */
  ghost predicate UsableHolds(e: MapEntry, maxPages: nat, i: nat) {
    IsUsable(e) && InsideEntry(e, maxPages, i)
  }

  lemma FrameOfEntry(es: seq<MapEntry>, maxPages: nat, k: nat, i: nat)
    requires SumsFit(es) && k < |es|
    ensures EntryRange(es[k], maxPages).Holds(i) <==> UsableHolds(es[k], maxPages, i)
  {
    if IsUsable(es[k]) {
      EntryFrames(es[k], maxPages, i);
    } else {
      SkippedEntry(es[k], maxPages);
    }
  }

  lemma EntriesSeparate(es: seq<MapEntry>, n: nat)
    requires SumsFit(es) && EntriesApart(es)
    ensures Separate(EntryRanges(es, Pow2(n)), n)
  {
    hide EntryRange, InsideEntry;
    var rs := EntryRanges(es, Pow2(n));
    forall j, k | 0 <= j < k < |rs| ensures !Overlap(rs[j], rs[k]) {
      if Overlap(rs[j], rs[k]) {
        var i := if rs[j].first < rs[k].first then rs[k].first else rs[j].first;
        FrameOfEntry(es, Pow2(n), j, i);
        FrameOfEntry(es, Pow2(n), k, i);
        NotInBoth(es[j], es[k], Pow2(n), i);
      }
    }
  }

  lemma NotInBoth(e: MapEntry, e': MapEntry, maxPages: nat, i: nat)
    requires e.Entry? && e'.Entry? && (e.base + e.length <= e'.base || e'.base + e'.length <= e.base)
    ensures !(InsideEntry(e, maxPages, i) && InsideEntry(e', maxPages, i))
  {
  }

  /** After initialisation a page is free if it lies wholly inside a usable entry of
      the memory map and below the limit, and reserved otherwise. */
  lemma InitFromMap(es: seq<MapEntry>, n: nat, i: nat)
    requires n <= ORDER_LIMIT && SumsFit(es) && EntriesApart(es) && i < Pow2(n)
    ensures var p := InitPool(EntryRanges(es, Pow2(n)), n);
      if UsableFrame(es, Pow2(n), i) then FreeAt(p, i) else p.page[i] == RESERVED
  {
    hide EntryRange, UsableHolds, EntriesApart, SumsFit, Separate, BuddyPool.Valid, UsableFrame;
    var rs := EntryRanges(es, Pow2(n));
    EntriesSeparate(es, n);
    InitPoolEffect(rs, n);
    SomeEntryHolds(es, Pow2(n), i);
  }

  lemma SomeEntryHolds(es: seq<MapEntry>, maxPages: nat, i: nat)
    requires SumsFit(es)
    ensures InSome(EntryRanges(es, maxPages), i) <==> UsableFrame(es, maxPages, i)
  {
    hide EntryRange, UsableHolds, SumsFit;
    var rs := EntryRanges(es, maxPages);
    forall k: nat | k < |es| ensures rs[k].Holds(i) <==> UsableHolds(es[k], maxPages, i) {
      FrameOfEntry(es, maxPages, k, i);
    }
  }

  /** An entry from the second page to the end of the address space and beyond: its
      end wraps, and no frame is taken, although frame 1 lies inside. */
  lemma WrappingEntry(e: MapEntry, maxPages: nat)
    requires e == Entry(0x1000, WORD64 - 1, USABLE) && 2 <= maxPages <= 0x8_0000
    ensures InsideEntry(e, maxPages, 1) && !EntryRange(e, maxPages).Holds(1)
  {
    WrappedEnd(e, maxPages, 1);
  }

  lemma TwoEntries(maxPages: nat)
    requires 4 <= maxPages
    ensures EntryRange(Entry(0x2000, 0x1000, USABLE), maxPages) == Range(2, 1)
    ensures EntryRange(Entry(0x3000, 0x1000, USABLE), maxPages) == Range(3, 1)
  {
    hide FramesBetween, And;
    AlignDownRoundsDown(0x2FFF);
    AlignDownRoundsDown(0x3FFF);
    AlignDownRoundsDown(0x3000);
    AlignDownRoundsDown(0x4000);
    FrameRange(0x2000, 0x3000, 2, 3, maxPages);
    FrameRange(0x3000, 0x4000, 3, 4, maxPages);
  }

  lemma FrameRange(start: nat, end: nat, first: nat, last: nat, maxPages: nat)
    requires start < end && start / PAGE_SIZE == first < maxPages && end / PAGE_SIZE == last &&
      first <= last <= maxPages
    ensures FramesBetween(start, end, maxPages) == Range(first, last - first)
  {
  }

  lemma SizeBounds(n: nat)
    requires 2 <= n <= ORDER_LIMIT
    ensures 4 <= Pow2(n)
  {
    Pow2Mono(2, n);
  }

  lemma NeighboursMerge()
    ensures Mergeable(Range(2, 1), Range(3, 1)) && !Overlap(Range(2, 1), Range(3, 1))
  {
    TrailingZerosUnique(3, 0);
  }

  /** Two touching entries of one page each, frames 2 and 3: buddies that stay
      apart, so initialisation is not canonical. */
  lemma TouchingEntries(n: nat, es: seq<MapEntry>, rs: seq<Range>)
    requires 2 <= n <= ORDER_LIMIT
    requires es == [Entry(0x2000, 0x1000, USABLE), Entry(0x3000, 0x1000, USABLE)] && rs == EntryRanges(es, Pow2(n))
    ensures Separate(rs, n) && Mergeable(rs[0], rs[1]) && !Canonical(InitPool(rs, n))
  {
    hide EntryRange, Canonical, InitPool, Mergeable, Overlap, Pow2;
    SizeBounds(n);
    TwoEntries(Pow2(n));
    assert rs == [Range(2, 1), Range(3, 1)];
    NeighboursMerge();
    InitCanonicalIff(rs, n);
  }
}
