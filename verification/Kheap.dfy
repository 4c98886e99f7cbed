/** kernel/src/memory/heap.c in place: slab headers, bitmaps, intrusive free
    lists and partial lists changed by pointer writes in physical memory. */
module Kheap {
  import opened Bits
  import opened BuddyPool
  import opened BuddyOps
  import opened BuddyRanges
  import opened BuddyMap
  import opened BuddyRuns
  import opened BuddyCanonical
  import opened BuddyLinks
  import opened SlabHeap
  import opened HeapTheorems
  import opened HeapSizes
  import opened HeapMemory
  import opened HeapObjects
  import Buddy

  class Kheap {
    const buddy: Buddy.Buddy
    /** Which reading of the offset test at heap.c:105 is in force. */
    const test: OffsetTest
    /** Offset of the direct mapping of physical memory. */
    const hhdm: nat
    const mem: array<PageView>
    const caches: array<Cache>
    ghost var slabs: map<nat, Slab>
    ghost var partial: seq<seq<nat>>
    ghost var large: map<nat, nat>

    constructor (buddy: Buddy.Buddy, test: OffsetTest, hhdm: nat, mem: array<PageView>, caches: array<Cache>)
      ensures this.buddy == buddy && this.test == test && this.hhdm == hhdm && this.mem == mem && this.caches == caches
    {
      this.buddy, this.test, this.hhdm, this.mem, this.caches := buddy, test, hhdm, mem, caches;
      slabs, partial, large := map[], [], map[];
    }

    ghost function Model(): Heap
      reads this, buddy, buddy.pageState
    {
      Heap(buddy.Model(), slabs, partial, large)
    }

    ghost predicate Stored()
      reads this, mem, caches
    {
      && hhdm > 0 && hhdm % PAGE_SIZE == 0
      && Stores(mem[..], caches[..], hhdm, slabs, partial, large)
    }

    ghost predicate Valid()
      reads this, mem, caches, buddy, buddy.pageState, buddy.freeList, buddy.freeNext, buddy.freePrev
    {
      buddy.Valid() && buddy.pageState.Length <= mem.Length && Stored() && Sound(Model()) && Linkable(Model())
    }

    method HeapInit()
      requires buddy.Valid() && buddy.pageState.Length <= mem.Length && FrameZeroReserved(buddy.Model())
      requires caches.Length == CLASSES && hhdm > 0 && hhdm % PAGE_SIZE == 0
      modifies this`slabs, this`partial, this`large, caches
      ensures Valid() && Model() == EmptyHeap(buddy.Model()) && Tight(Model())
    {
      slabs, partial, large := map[], EmptyHeap(buddy.Model()).partial, map[];
      for index := 0 to CLASSES
        invariant slabs == map[] && large == map[] && partial == EmptyHeap(buddy.Model()).partial
        invariant buddy.Model() == old(buddy.Model()) && buddy.Valid()
        invariant forall c :: 0 <= c < index ==> caches[c] == Cache(SIZES[c], 0)
      {
        caches[index] := Cache(SIZES[index], 0);
      }
      EmptyHeapSound(buddy.Model());
      EmptyStores(mem[..], caches[..], hhdm, partial);
    }

    static method CacheIndexOf(size: nat) returns (index: int)
      ensures index == CacheIndex(size)
    {
      var rounded := size;
      if rounded < 8 {
        rounded := 8;
      }
      for i := 0 to CLASSES
        invariant ClassFrom(rounded, i) == CacheIndex(size)
      {
        if rounded <= SIZES[i] {
          return i;
        }
      }
      return -1;
    }

    /** Walk the list of the class; unlink the slab if it is there. */
    method RemoveSlabFromCache(c: nat, f: nat)
      requires Stored() && c < CLASSES && f in slabs && slabs[f].cls == c
      modifies this`partial, mem, caches
      ensures Stored() && partial == old(partial)[c := Without(old(partial)[c], f)]
      ensures forall g :: 0 <= g < mem.Length ==>
        mem[g] == old(mem[g]) || (g in slabs && SameButNext(old(mem[g]), mem[g]))
      ensures f < mem.Length && SameButNext(old(mem[f]), mem[f])
    {
      hide SlabView;
      StoredSlab(f);
      ghost var list := partial[c];
      assert CacheStores(mem[..], caches[..][c], slabs, list, c);
      var prev, current := 0, caches[c].partialPages;
      ghost var k: nat := 0;
      while current != 0
        invariant Stored() && partial == old(partial) && mem[..] == old(mem[..]) && caches[..] == old(caches[..])
        invariant k <= |list| && current == PhysAt(list, k) && f !in list[..k]
        invariant prev == if k == 0 then 0 else list[k - 1] * PAGE_SIZE
        decreases |list| - k
      {
        ghost var m := mem[..];
        assert Nth(list, k, list[k]) && m[list[k]].SlabPage?;
        assert k > 0 ==> Nth(list, k - 1, list[k - 1]);
        var page := mem[current / PAGE_SIZE];
        if current == f * PAGE_SIZE {
          UnlinkFound(c, f, prev, k, if k > 0 then list[k - 1] else 0);
          return;
        }
        prev := current;
        current := page.next;
        k := k + 1;
      }
      assert forall j :: 0 <= j < |list| ==> Nth(list, j, list[j]);
      assert list[..k] == list;
      WithoutAbsent(list, f);
    }

    /** The slab is at position k of its list, p the slab before it. */
    method UnlinkFound(c: nat, f: nat, prev: nat, ghost k: nat, ghost p: nat)
      requires Stored() && c < CLASSES && f in slabs && slabs[f].cls == c && Nth(partial[c], k, f)
      requires if k == 0 then prev == 0 else Nth(partial[c], k - 1, p) && prev == p * PAGE_SIZE
      modifies this`partial, mem, caches
      ensures Stored() && partial == old(partial)[c := Without(old(partial)[c], f)]
      ensures forall g :: 0 <= g < mem.Length ==>
        mem[g] == old(mem[g]) || (g in slabs && SameButNext(old(mem[g]), mem[g]))
      ensures f < mem.Length && SameButNext(old(mem[f]), mem[f])
    {
      hide SlabView, NoDup;
      ghost var m, cs, list := mem[..], caches[..], partial[c];
      assert CacheStores(m, cs[c], slabs, list, c);
      assert 0 < f < |m| && m[f].SlabPage?;
      assert k > 0 ==> 0 < p < |m| && m[p].SlabPage? && p in list;
      var page := mem[f];
      if prev == 0 {
        caches[c] := caches[c].(partialPages := page.next);
      } else {
        mem[prev / PAGE_SIZE] := mem[prev / PAGE_SIZE].(next := page.next);
      }
      mem[f] := mem[f].(next := 0);
      RemoveAt(m, cs, hhdm, slabs, partial, large, f, c, k, p, list, mem[..], caches[c]);
      assert caches[..] == cs[c := caches[c]];
      partial := partial[c := Without(list, f)];
    }

    method InsertSlabIntoCache(c: nat, f: nat)
      requires Stored() && c < CLASSES && f in slabs && slabs[f].cls == c && f !in partial[c]
      modifies this`partial, mem, caches
      ensures Stored() && partial == old(partial)[c := [f] + old(partial)[c]]
      ensures f < mem.Length && SameButNext(old(mem[f]), mem[f]) && mem[..] == old(mem[..])[f := mem[f]]
    {
      assert SlabStored(mem[..], hhdm, slabs, partial, f);
      mem[f] := mem[f].(next := caches[c].partialPages);
      caches[c] := caches[c].(partialPages := f * PAGE_SIZE);
      InsertAt(old(mem[..]), old(caches[..]), hhdm, slabs, partial, large, f, c,
               mem[..], caches[..], partial[c := [f] + partial[c]]);
      partial := partial[c := [f] + partial[c]];
    }

    /** Writes to one slab, all but its link. */
    method UpdateSlab(f: nat, v: PageView, ghost s: Slab)
      requires Stored() && f in slabs && f < mem.Length && s.cls == slabs[f].cls
      requires SlabView(v, hhdm, f, s) && mem[f].SlabPage? && v.next == mem[f].next
      modifies this`slabs, mem
      ensures Stored() && slabs == old(slabs)[f := s] && mem[..] == old(mem[..])[f := v]
    {
      StoreSlab(mem[..], caches[..], hhdm, slabs, partial, large, f, s, v, mem[..][f := v], slabs[f := s]);
      mem[f] := v;
      slabs := slabs[f := s];
    }

    method AllocSlabPage(c: nat) returns (phys: nat)
      requires buddy.Valid() && buddy.pageState.Length <= mem.Length && c < CLASSES
      modifies mem, buddy`lists, buddy.pageState, buddy.freeList, buddy.freeNext, buddy.freePrev
      ensures buddy.Valid() && (buddy.Model(), phys) == AllocPages(old(buddy.Model()), 1)
      ensures phys == INVALID_ADDRESS ==> mem[..] == old(mem[..])
      ensures phys != INVALID_ADDRESS ==>
        && phys / PAGE_SIZE < mem.Length && mem[..] == old(mem[..])[phys / PAGE_SIZE := mem[phys / PAGE_SIZE]]
        && SlabView(mem[phys / PAGE_SIZE], hhdm, phys / PAGE_SIZE, Slab(c, AllObjects(Total(c))))
        && mem[phys / PAGE_SIZE].next == 0
    {
      AllocPagesKeeps(buddy.Model(), 1);
      phys := buddy.AllocPage();
      if phys == INVALID_ADDRESS {
        return;
      }
      InitSlab(phys / PAGE_SIZE, c);
    }

    /** Header, empty bitmap, and the free list threaded through the objects. */
    method InitSlab(f: nat, c: nat)
      requires f < mem.Length && c < CLASSES
      modifies mem
      ensures mem[..] == old(mem[..])[f := mem[f]]
      ensures SlabView(mem[f], hhdm, f, Slab(c, AllObjects(Total(c)))) && mem[f].next == 0
    {
      var objectSize := SIZES[c];
      var total := (PAGE_SIZE - SLAB_HEADER) / objectSize;
      var objectBuffer := hhdm + f * PAGE_SIZE + SLAB_HEADER;
      mem[f] := SlabPage(objectSize, total, total, objectBuffer, 0, seq(BITMAP_BITS, i => false), seq(total, i => 0));
      ghost var header := mem[f];
      for index := 0 to total
        invariant mem[f].SlabPage? && mem[f] == header.(words := mem[f].words) && |mem[f].words| == total
        invariant forall g :: 0 <= g < mem.Length && g != f ==> mem[g] == old(mem[g])
        invariant index < total ==> objectBuffer == ObjectAddress(hhdm, f, c, index)
        invariant forall i :: 0 <= i < index ==>
          mem[f].words[i] == if i + 1 < total then ObjectAddress(hhdm, f, c, i + 1) else 0
      {
        if index + 1 < total {
          StepBySize(index, objectSize);
          objectBuffer := objectBuffer + objectSize;
          mem[f] := mem[f].(words := mem[f].words[index := objectBuffer]);
        } else {
          mem[f] := mem[f].(words := mem[f].words[index := 0]);
        }
      }
      FreshView(mem[f], hhdm, f, c, Slab(c, AllObjects(Total(c))));
    }

    /** The first half of heap_alloc_from_cache: a slab for a class without one. */
    method RefillCache(c: nat) returns (ok: bool)
      requires Valid() && c < CLASSES
      modifies this`slabs, this`partial, mem, caches, buddy`lists, buddy.pageState, buddy.freeList, buddy.freeNext,
        buddy.freePrev
      ensures Valid() && (Model(), ok) == Refill(old(Model()), c)
      ensures MallocFrame(old(mem[..]), mem[..], old(slabs), large, slabs, large)
    {
      hide BuddyPool.Valid, MallocFrame, SlabView;
      ghost var h := Model();
      ghost var (h1, ok1) := Refill(h, c);
      RefillKeeps(h, c, h1, ok1);
      SoundIsLinkable(h1);
      EmptyIffZero(mem[..], caches[..], c);
      ghost var m := mem[..];
      NoWrites(m, slabs, large);
      if caches[c].partialPages == 0 {
        var slab := AllocSlabPage(c);
        if slab == INVALID_ADDRESS {
          return false;
        }
        SetFirstSlab(c, slab, h, buddy.Model(), m);
        NewPageFrame(m, mem[..], h.slabs, large, slabs, slab / PAGE_SIZE);
      }
      return true;
    }

    lemma EmptyIffZero(m: seq<PageView>, cs: seq<Cache>, c: nat)
      requires Stores(m, cs, hhdm, slabs, partial, large) && c < CLASSES
      ensures cs[c].partialPages == 0 <==> partial[c] == []
    {
      assert CacheStores(m, cs[c], slabs, partial[c], c);
      assert partial[c] != [] ==> Nth(partial[c], 0, partial[c][0]);
    }

    method SetFirstSlab(c: nat, slab: nat, ghost h: Heap, ghost pool: Pool, ghost m: seq<PageView>)
      requires SlabHeap.Sound(h) && h.slabs == slabs && h.partial == partial && h.large == large
      requires c < CLASSES && partial[c] == [] && hhdm > 0 && hhdm % PAGE_SIZE == 0
      requires Stores(m, caches[..], hhdm, slabs, partial, large)
      requires (pool, slab) == AllocPages(h.pool, 1) && slab != INVALID_ADDRESS && slab / PAGE_SIZE < mem.Length == |m|
      requires SlabView(mem[slab / PAGE_SIZE], hhdm, slab / PAGE_SIZE, Slab(c, AllObjects(Total(c))))
      requires mem[..] == m[slab / PAGE_SIZE := mem[slab / PAGE_SIZE]] && mem[slab / PAGE_SIZE].next == 0
      modifies this`slabs, this`partial, caches
      ensures Stored()
      ensures slabs == h.slabs[slab / PAGE_SIZE := Slab(c, AllObjects(Total(c)))] &&
        partial == h.partial[c := [slab / PAGE_SIZE]]
      ensures slab / PAGE_SIZE !in h.slabs && slab / PAGE_SIZE !in large
    {
      ghost var f: nat := slab / PAGE_SIZE;
      TakenFrame(h, 1, pool, slab, f, 0);
      NewSlabStored(h, m, caches[..], c, pool, slab, f, mem[f]);
      caches[c] := caches[c].(partialPages := slab);
      slabs := slabs[f := Slab(c, AllObjects(Total(c)))];
      partial := partial[c := [f]];
    }

    lemma NewSlabStored(h: Heap, m: seq<PageView>, cs: seq<Cache>, c: nat, pool: Pool, addr: nat, f: nat, v: PageView)
      requires SlabHeap.Sound(h) && Stores(m, cs, hhdm, h.slabs, h.partial, h.large) && c < CLASSES &&
        h.partial[c] == []
      requires (pool, addr) == AllocPages(h.pool, 1) && addr != INVALID_ADDRESS && f == addr / PAGE_SIZE && f < |m|
      requires SlabView(v, hhdm, f, Slab(c, AllObjects(Total(c)))) && v.next == 0
      ensures Stores(m[f := v], cs[c := cs[c].(partialPages := addr)], hhdm,
                     h.slabs[f := Slab(c, AllObjects(Total(c)))], h.partial[c := [f]], h.large)
    {
      TakenFrame(h, 1, pool, addr, f, 0);
      var slabs' := h.slabs[f := Slab(c, AllObjects(Total(c)))];
      StoreNewSlab(m, cs, hhdm, h.slabs, h.partial, h.large, f, Slab(c, AllObjects(Total(c))), v, m[f := v], slabs');
      assert CacheStores(m, cs[c], h.slabs, h.partial[c], c);
      assert [f] + h.partial[c] == [f] && m[f := v][f := v.(next := 0)] == m[f := v];
      InsertAt(m[f := v], cs, hhdm, slabs', h.partial, h.large, f, c, m[f := v],
        cs[c := cs[c].(partialPages := addr)], h.partial[c := [f]]);
    }

    /** The address that stands for an object, where its region starts; NULL is 0. */
    ghost function PtrOf(x: Object): nat
      reads this, buddy, buddy.pageState
      requires InUse(Model(), x) || x.Null?
    {
      if x.Null? then 0 else hhdm + RegionOf(Model(), x).lo
    }

    /** The second half of heap_alloc_from_cache: the first free object of the first slab. */
    method TakeObject(c: nat) returns (ptr: nat, ghost x: Object)
      requires Valid() && c < CLASSES && partial[c] != []
      modifies this`slabs, this`partial, mem, caches
      ensures Valid() && (Model(), x) == Take(test, old(Model()), c)
      ensures InUse(Model(), x) || x.Null?
      ensures ptr == PtrOf(x)
      ensures slabs.Keys == old(slabs).Keys && large == old(large)
      ensures forall g :: 0 <= g < mem.Length ==>
        mem[g] == old(mem[g]) || (g in slabs && SameWords(old(mem[g]), mem[g]))
    {
      hide Buddy.Buddy.Valid, BuddyPool.Valid, Stores;
      ghost var h := Model();
      ghost var (h', x') := Take(test, h, c);
      FirstOfPartial(h, c);
      TakeKeeps(test, h, c, h', x');
      SoundIsLinkable(h');
      ptr, x := TakeStored(c, partial[c][0]);
      assert Model() == h';
    }

    method TakeStored(c: nat, ghost f0: nat) returns (ptr: nat, ghost x: Object)
      requires Stored() && c < CLASSES && partial[c] != [] && f0 == partial[c][0] && f0 in slabs && slabs[f0].cls == c
      modifies this`slabs, this`partial, mem, caches
      ensures Stored()
      ensures var free := old(slabs)[f0].free;
        if free == [] || test.AsWritten? then x == Null && ptr == 0 && slabs == old(slabs) && partial == old(partial)
        else
          && x == Small(f0, free[0]) && ptr == ObjectAddress(hhdm, f0, c, free[0])
          && slabs == old(slabs)[f0 := Slab(c, free[1..])]
          && partial == old(partial)[c := if free[1..] == [] then Without(old(partial)[c], f0) else old(partial)[c]]
      ensures forall g :: 0 <= g < mem.Length ==>
        mem[g] == old(mem[g]) || (g in slabs && SameWords(old(mem[g]), mem[g]))
    {
      hide Stores;
      HeadStored(mem[..], caches[..], c, f0);
      x := Null;
      var f := caches[c].partialPages / PAGE_SIZE;
      var page := mem[f];
      if page.freeList == 0 {
        return 0, x;
      }
      var index := ObjectIndex(test, page.freeList, hhdm + f * PAGE_SIZE, page.objectSize, page.total);
      if index == -1 {
        return 0, x;
      }
      ptr := page.freeList;
      x := Small(f, index);
      var taken := page.(bitmap := page.bitmap[BitPosition(index) := true], freeList := page.words[index],
        freeCount := page.freeCount - 1);
      ghost var s' := Slab(c, slabs[f].free[1..]);
      TakeView(page, hhdm, f, slabs[f], index, taken, s');
      UpdateSlab(f, taken, s');
      if mem[f].freeCount == 0 {
        RemoveSlabFromCache(c, f);
      }
    }

    /** What the head of a list looks like in memory, and where its first object is. */
    lemma HeadStored(m: seq<PageView>, cs: seq<Cache>, c: nat, f: nat)
      requires Stores(m, cs, hhdm, slabs, partial, large) && c < CLASSES && partial[c] != [] && f == partial[c][0]
      requires f in slabs && slabs[f].cls == c && hhdm > 0
      ensures |cs| == CLASSES == |partial|
      ensures 0 < f < |m| && cs[c].partialPages == f * PAGE_SIZE && SlabView(m[f], hhdm, f, slabs[f]) &&
        m[f].objectSize > 0
      ensures var s := slabs[f]; var i := ObjectIndex(test, m[f].freeList, hhdm + f * PAGE_SIZE, m[f].objectSize,
        m[f].total);
        if s.free != [] && test.Intended? then m[f].freeList == ObjectAddress(hhdm, f, c, s.free[0]) > 0 &&
          i == s.free[0] < |m[f].words|
        else m[f].freeList == 0 || i == -1
    {
      assert CacheStores(m, cs[c], slabs, partial[c], c);
      assert SlabStored(m, hhdm, slabs, partial, f);
      var s := slabs[f];
      if s.free != [] {
        assert s.free[0] in s.free;
        IndexOfAddress(hhdm, f, c, s.free[0], m[f].freeList);
      }
    }

    method AllocFromCache(c: nat) returns (ptr: nat, ghost x: Object)
      requires Valid() && c < CLASSES
      modifies this`slabs, this`partial, mem, caches, buddy`lists, buddy.pageState, buddy.freeList, buddy.freeNext,
        buddy.freePrev
      ensures Valid() && (Model(), x) == FromCache(test, old(Model()), c)
      ensures InUse(Model(), x) || x.Null?
      ensures ptr == PtrOf(x)
      ensures MallocFrame(old(mem[..]), mem[..], old(slabs), old(large), slabs, large)
    {
      hide BuddyPool.Valid, MallocFrame, Buddy.Buddy.Valid, Stores, SlabHeap.Sound;
      ghost var m, s0, l0 := mem[..], slabs, large;
      RefillKeeps(Model(), c, Refill(Model(), c).0, Refill(Model(), c).1);
      var ok := RefillCache(c);
      if !ok {
        return 0, Null;
      }
      ghost var m1, s1 := mem[..], slabs;
      SlabsNotLarge(Model());
      ptr, x := TakeObject(c);
      FrameThenWords(m, m1, mem[..], s0, l0, s1, slabs);
    }

    lemma SlabsNotLarge(h: Heap)
      requires SlabHeap.Sound(h)
      ensures h.slabs.Keys !! h.large.Keys
    {
    }

    lemma NewPageFrame(m: seq<PageView>, m': seq<PageView>, s: map<nat, Slab>, l: map<nat, nat>,
                       s': map<nat, Slab>, f: nat)
      requires |m'| == |m| && f < |m| && m' == m[f := m'[f]] && f !in s && f !in l && f in s'
      ensures MallocFrame(m, m', s, l, s', l)
    {
    }

    lemma FrameThenWords(m: seq<PageView>, m1: seq<PageView>, m': seq<PageView>, s: map<nat, Slab>, l: map<nat, nat>,
                         s1: map<nat, Slab>, s': map<nat, Slab>)
      requires MallocFrame(m, m1, s, l, s1, l) && s'.Keys == s1.Keys && s1.Keys !! l.Keys && |m'| == |m1|
      requires forall g :: 0 <= g < |m1| ==> m'[g] == m1[g] || (g in s' && SameWords(m1[g], m'[g]))
      ensures MallocFrame(m, m', s, l, s', l)
    {
    }

    /** kmalloc. What it returns was not in use; everything that was stays in use at
        its place, with its words; and pages that are not the heap's stay as they are. */
    method Malloc(size: nat) returns (ptr: nat, ghost x: Object)
      requires Valid() && size < WORD
      modifies this`slabs, this`partial, this`large, mem, caches, buddy`lists, buddy.pageState, buddy.freeList,
        buddy.freeNext, buddy.freePrev
      ensures Valid() && (Model(), x) == Kmalloc(test, old(Model()), size)
      ensures InUse(Model(), x) || x.Null?
      ensures ptr == PtrOf(x) && (ptr == 0 <==> x == Null)
      ensures ptr != 0 && size < WORD - 7 ==> size <= RegionOf(Model(), x).hi - RegionOf(Model(), x).lo
      ensures ptr != 0 && SumFits(size) ==> Fitting(size, Length(Model(), x))
      ensures old(!InUse(Model(), x)) && Gains(old(Model()), Model(), x) && SameRegions(old(Model()), Model())
      ensures MallocFrame(old(mem[..]), mem[..], old(slabs), old(large), slabs, large)
      ensures ChangedOnly(old(mem[..]), mem[..], old(Model()), Model())
    {
      hide Buddy.Buddy.Valid, Stores, SlabHeap.Sound, Linkable, BuddyPool.Valid, AllocPages, Gains, SameRegions,
        MallocFrame;
      ghost var h, m := Model(), mem[..];
      MallocPromises(h, size, Kmalloc(test, h, size).0, Kmalloc(test, h, size).1);
      NoWrites(m, slabs, large);
      if size == 0 {
        FrameChangedOnly(m, mem[..], h, Model());
        return 0, Null;
      }
      var cacheIndex := CacheIndexOf(size);
      if cacheIndex >= 0 {
        ptr, x := AllocFromCache(cacheIndex);
        FrameChangedOnly(m, mem[..], h, Model());
        return;
      }
      var totalSize := (size + LARGE_HEADER) % WORD;
      var pages := (totalSize + PAGE_SIZE - 1) % WORD / PAGE_SIZE;
      assert pages == LargePages(size);
      ptr, x := AllocLarge(pages);
      FrameChangedOnly(m, mem[..], h, Model());
    }

    lemma MallocPromises(h: Heap, size: nat, h': Heap, x: Object)
      requires SlabHeap.Sound(h) && Linkable(h) && size < WORD && (h', x) == Kmalloc(test, h, size)
      ensures !InUse(h, x) && Gains(h, h', x) && SameRegions(h, h')
      ensures x != Null ==> InUse(h', x)
      ensures x != Null && size < WORD - 7 ==> size <= RegionOf(h', x).hi - RegionOf(h', x).lo
      ensures x != Null && SumFits(size) ==> Fitting(size, Length(h', x))
    {
      KmallocKeeps(test, h, size, h', x);
      if x != Null {
        LongEnoughIff(test, h, size, h', x);
        if SumFits(size) {
          LengthBounds(test, h, size, h', x);
        }
      }
    }

    lemma NoWrites(m: seq<PageView>, slabs: map<nat, Slab>, large: map<nat, nat>)
      ensures MallocFrame(m, m, slabs, large, slabs, large)
    {
    }

    lemma FrameChangedOnly(m: seq<PageView>, m': seq<PageView>, h: Heap, h': Heap)
      requires MallocFrame(m, m', h.slabs, h.large, h'.slabs, h'.large)
      ensures ChangedOnly(m, m', h, h')
    {
    }

    method AllocLarge(pages: nat) returns (ptr: nat, ghost x: Object)
      requires Valid()
      modifies this`large, mem, buddy`lists, buddy.pageState, buddy.freeList, buddy.freeNext, buddy.freePrev
      ensures Valid() && (Model(), x) == LargeBlock(old(Model()), pages)
      ensures InUse(Model(), x) || x.Null?
      ensures ptr == PtrOf(x)
      ensures MallocFrame(old(mem[..]), mem[..], slabs, old(large), slabs, large)
    {
      hide Buddy.Buddy.Valid, Stores, SlabHeap.Sound, BuddyPool.Valid;
      ghost var h := Model();
      ghost var (h', x') := LargeBlock(h, pages);
      LargeKmalloc(h, pages, h', x');
      SoundIsLinkable(h');
      var phys := buddy.AllocPagesOf(pages);
      if phys == INVALID_ADDRESS {
        return 0, Null;
      }
      LargeFacts(h, pages, buddy.Model(), phys, phys / PAGE_SIZE);
      WriteLargeHeader(phys / PAGE_SIZE, pages);
      return hhdm + phys + LARGE_HEADER, Large(phys / PAGE_SIZE);
    }

    lemma LargeFacts(h: Heap, pages: nat, pool: Pool, addr: nat, f: nat)
      requires SlabHeap.Sound(h) && (pool, addr) == AllocPages(h.pool, pages) && addr != INVALID_ADDRESS &&
        f == addr / PAGE_SIZE
      ensures f !in h.slabs && f < |h.pool.page| && addr == f * PAGE_SIZE && pages % 0x1_0000_0000 == pages
    {
      TakenFrame(h, pages, pool, addr, f, OrderOf(h.pool, pages));
      AllocPagesKeeps(h.pool, pages);
      FrameIsNotNil(h.pool, 0);
    }

    method WriteLargeHeader(f: nat, pages: nat)
      requires Stored() && f !in slabs && f < mem.Length && pages % 0x1_0000_0000 == pages
      modifies this`large, mem
      ensures Stored() && large == old(large)[f := pages] && mem[..] == old(mem[..])[f := mem[f]]
    {
      StoreLarge(mem[..], caches[..], hhdm, slabs, partial, large, f, pages, mem[..][f := LargePage(pages)]);
      mem[f] := LargePage(pages % 0x1_0000_0000);
      large := large[f := pages];
    }

    /* ---- kfree ---- */

    /** A pointer into the memory that the heap can see. */
    predicate InMemory(ptr: nat)
    {
      hhdm <= ptr < WORD && ptr < hhdm + mem.Length * PAGE_SIZE
    }

    /** The frame of the page that a pointer points into. */
    function FrameAt(ptr: nat): nat
    {
      if ptr < hhdm then 0 else (ptr - hhdm) / PAGE_SIZE
    }

    /** What kfree takes a pointer for, going by the header of its page. */
    function Target(ptr: nat): Object
      reads mem
    {
      if FrameAt(ptr) >= mem.Length then Null
      else
        match mem[FrameAt(ptr)]
        case SlabPage(size, total, _, _, _, _, _) =>
          if size == 0 then Null
          else
            var index := ObjectIndex(test, ptr, hhdm + FrameAt(ptr) * PAGE_SIZE, size, total);
            if index < 0 then Null else Small(FrameAt(ptr), index)
        case LargePage(_) => Large(FrameAt(ptr))
        case Other => Null
    }

    /** What kfree leaves to its caller. A page with the header of a slab either
        is a slab of this heap, or shows the object as free; one with the header
        of a large block is one, or is not allocated. With the test as written no
        object of a slab is ever in use. */
    ghost predicate Freeable(ptr: nat)
      reads this, mem, buddy, buddy.pageState
    {
      && InMemory(ptr) && FrameAt(ptr) < mem.Length
      && match mem[FrameAt(ptr)]
         case SlabPage(size, total, _, _, _, bitmap, words) =>
           && size > 0 && total == |words| <= |bitmap| == BITMAP_BITS
           && (Target(ptr).Small? && bitmap[Target(ptr).index] ==> FrameAt(ptr) in slabs && test.Intended?)
         case LargePage(pages) =>
           FrameAt(ptr) in large || !FreeActs(buddy.Model(), FrameAt(ptr) * PAGE_SIZE, pages)
         case Other => true
    }

    /** v' is the page of the same slab, and shows the object as free. */
    static ghost predicate Cleared(v: PageView, v': PageView, index: nat) {
      && v.SlabPage? && v'.SlabPage? && v'.objectSize == v.objectSize && v'.total == v.total == |v'.words|
      && index < |v'.bitmap| == BITMAP_BITS && !v'.bitmap[index]
    }

    /** heap_free_small on an object in use: what it writes to the slab. */
    method PutBack(ptr: nat, f: nat, index: nat, ghost c: nat)
      requires Stored() && f in slabs && slabs[f].cls == c < CLASSES && index < Total(c) && index !in slabs[f].free
      requires ptr == ObjectAddress(hhdm, f, c, index) && f < mem.Length && SlabView(mem[f], hhdm, f, slabs[f])
      modifies this`slabs, mem
      ensures Stored() && slabs == old(slabs)[f := Slab(c, [index] + old(slabs)[f].free)]
      ensures mem[..] == old(mem[..])[f := mem[f]] && Cleared(old(mem[f]), mem[f], index)
      ensures OtherWordsKept(old(mem[f]), mem[f], f, Small(f, index))
    {
      hide Stores;
      var page := mem[f];
      var freed := page.(bitmap := page.bitmap[BitPosition(index) := false],
        words := page.words[index := page.freeList],
                         freeList := ptr, freeCount := page.freeCount + 1);
      ghost var s' := Slab(c, [index] + slabs[f].free);
      FreeView(page, hhdm, f, slabs[f], index, freed, s');
      UpdateSlab(f, freed, s');
    }

    lemma StoredSlab(f: nat)
      requires Stored() && f in slabs
      ensures 0 < f < mem.Length && SlabView(mem[f], hhdm, f, slabs[f]) && mem[f].SlabPage?
    {
      assert SlabStored(mem[..], hhdm, slabs, partial, f);
    }

    lemma PartialFacts(h: Heap, f: nat, c: nat)
      requires SlabHeap.Sound(h) && f in h.slabs && h.slabs[f].cls == c < CLASSES && 0 < Total(c)
      ensures c < CLASSES == |h.partial| && (h.slabs[f].free == [] ==> f !in h.partial[c])
      ensures f !in Without(h.partial[c], f)
    {
      assert SlabOk(h.slabs[f]);
      assert PartialOk(h.slabs, h.partial[c], c);
      Totals(c);
      WithoutMembers(h.partial[c], f);
    }

    lemma CacheIndexOfSize(c: nat)
      requires c < CLASSES
      ensures CacheIndex(SIZES[c]) == c
    {
      CacheIndexIsLeast(SIZES[c], c);
    }

    /** After the object is back: give an emptied slab to the buddy allocator, or
        list a slab that was full. */
    method Settle(f: nat, ghost c: nat, ghost h: Heap, ghost index: nat)
      requires buddy.Valid() && Stored() && SlabHeap.Sound(h) && InUse(h, Small(f, index)) && h.slabs[f].cls == c
      requires buddy.Model() == h.pool && partial == h.partial && large == h.large
      requires slabs == h.slabs[f := Slab(c, [index] + h.slabs[f].free)] && f < mem.Length
      modifies this`slabs, this`partial, mem, caches, buddy`lists, buddy.pageState, buddy.freeList, buddy.freeNext,
        buddy.freePrev
      ensures buddy.Valid() && Stored() && Model() == FreeSmall(h, f, index)
      ensures SameButNext(old(mem[f]), mem[f])
      ensures forall g :: 0 <= g < mem.Length ==>
        mem[g] == old(mem[g]) || (g in h.slabs && SameButNext(old(mem[g]), mem[g]))
    {
      hide Buddy.Buddy.Valid, Stores, SlabHeap.Sound;
      StoredSlab(f);
      PartialFacts(h, f, c);
      var page := mem[f];
      CacheIndexOfSize(c);
      var cacheIndex := CacheIndexOf(page.objectSize);
      if page.freeCount == page.total {
        RemoveSlabFromCache(cacheIndex, f);
        buddy.FreePage(f * PAGE_SIZE);
        Forget(f, c);
        assert slabs == h.slabs - {f};
      } else if page.freeCount == 1 {
        InsertSlabIntoCache(cacheIndex, f);
      }
    }

    /** The slab is on no list: the heap lets go of it. */
    ghost method Forget(f: nat, c: nat)
      requires Stored() && f in slabs && slabs[f].cls == c < |partial| && f !in partial[c]
      modifies this`slabs
      ensures Stored() && slabs == old(slabs) - {f}
    {
      DropSlab(mem[..], caches[..], hhdm, slabs, partial, large, f, slabs - {f});
      slabs := slabs - {f};
    }

    /** The header of a slab tells which of its objects are in use. */
    lemma HeaderTells(f: nat, index: nat)
      requires Stored() && f in slabs && index < BITMAP_BITS
      ensures f < mem.Length && mem[f].SlabPage? && |mem[f].bitmap| == BITMAP_BITS && slabs[f].cls < CLASSES
      ensures mem[f].objectSize == SIZES[slabs[f].cls] && mem[f].total == Total(slabs[f].cls) && f !in large
      ensures InUse(Model(), Small(f, index)) <==> mem[f].bitmap[index]
    {
      StoredSlab(f);
      LargeIsNoSlab(mem[..], caches[..], hhdm, slabs, partial, large);
    }

    method FreeInUse(ptr: nat, f: nat, index: nat)
      requires Valid() && InUse(Model(), Small(f, index)) && ptr == ObjectAddress(hhdm, f, slabs[f].cls, index)
      modifies this`slabs, this`partial, mem, caches, buddy`lists, buddy.pageState, buddy.freeList, buddy.freeNext,
        buddy.freePrev
      ensures Valid() && Model() == FreeSmall(old(Model()), f, index)
      ensures f < mem.Length && Cleared(old(mem[f]), mem[f], index)
      ensures FreeFrame(old(mem[..]), mem[..], old(slabs), Small(f, index))
    {
      hide Buddy.Buddy.Valid, Stores, SlabHeap.Sound, SlabView;
      ghost var h := Model();
      ghost var c := slabs[f].cls;
      FreeSmallKeeps(h, f, index, FreeSmall(h, f, index));
      SoundIsLinkable(FreeSmall(h, f, index));
      StoredSlab(f);
      PutBack(ptr, f, index, c);
      Settle(f, c, h, index);
    }

    /** heap_free_small, with the checks that turn a call into nothing. */
    method FreeFromSlab(ptr: nat, f: nat)
      requires Valid() && Freeable(ptr) && f == FrameAt(ptr) && mem[f].SlabPage?
      modifies this`slabs, this`partial, mem, caches, buddy`lists, buddy.pageState, buddy.freeList, buddy.freeNext,
        buddy.freePrev
      ensures Valid() && Model() == Kfree(old(Model()), old(Target(ptr)))
      ensures Freeable(ptr) && Target(ptr) == old(Target(ptr))
      ensures old(!InUse(Model(), Target(ptr))) ==> mem[..] == old(mem[..])
      ensures FreeFrame(old(mem[..]), mem[..], old(slabs), old(Target(ptr)))
    {
      hide Buddy.Buddy.Valid, Stores, SlabHeap.Sound;
      var page := mem[f];
      var index := ObjectIndex(test, ptr, hhdm + f * PAGE_SIZE, page.objectSize, page.total);
      if index == -1 {
        return;
      }
      if f in slabs {
        HeaderTells(f, index);
      }
      if !page.bitmap[BitPosition(index)] {
        return;
      }
      AddressOfIndex(hhdm, f, slabs[f].cls, index, ptr);
      FreeInUse(ptr, f, index);
    }

    /** heap_free_large. */
    method FreeLargeAt(f: nat)
      requires Valid() && f < mem.Length && mem[f].LargePage?
      requires f in large || !FreeActs(buddy.Model(), f * PAGE_SIZE, mem[f].pageCount)
      modifies this`large, buddy`lists, buddy.pageState, buddy.freeList, buddy.freeNext, buddy.freePrev
      ensures Valid() && Model() == Kfree(old(Model()), Large(f))
      ensures f !in large && !FreeActs(buddy.Model(), f * PAGE_SIZE, mem[f].pageCount)
    {
      hide Buddy.Buddy.Valid, Stores, SlabHeap.Sound;
      ghost var h := Model();
      if f in large {
        StoredLarge(f);
      }
      FreeLargeFacts(h, f, mem[f].pageCount);
      buddy.FreePagesOf(f * PAGE_SIZE, mem[f].pageCount);
      ForgetLarge(f);
    }

    ghost method ForgetLarge(f: nat)
      requires Stored()
      modifies this`large
      ensures Stored() && large == old(large) - {f}
    {
      DropLarge(mem[..], caches[..], hhdm, slabs, partial, large, f);
      large := large - {f};
    }

    lemma StoredLarge(f: nat)
      requires Stored() && f in large
      ensures f < mem.Length && mem[f] == LargePage(large[f])
    {
      assert mem[..][f] == LargePage(large[f]);
    }

    lemma FreeLargeFacts(h: Heap, f: nat, pages: nat)
      requires SlabHeap.Sound(h) && (if f in h.large then pages == h.large[f]
        else !FreeActs(h.pool, f * PAGE_SIZE, pages))
      ensures 1 <= |h.pool.lists| && FreeContract(h.pool, f * PAGE_SIZE, pages) && |h.partial| == CLASSES
      ensures Kfree(h, Large(f)) == h.(pool := FreePages(h.pool, f * PAGE_SIZE, pages), large := h.large - {f})
      ensures SlabHeap.Sound(Kfree(h, Large(f))) && Linkable(Kfree(h, Large(f)))
      ensures !FreeActs(Kfree(h, Large(f)).pool, f * PAGE_SIZE, pages)
    {
      KfreeSound(h, Large(f), Kfree(h, Large(f)));
      SoundIsLinkable(Kfree(h, Large(f)));
      if f in h.large {
        BlockOf(h, f);
        FreedIsFree(h, f, pages, FreePages(h.pool, f * PAGE_SIZE, pages));
      } else {
        assert h.large - {f} == h.large;
      }
    }

    lemma FreedIsFree(h: Heap, f: nat, pages: nat, pool: Pool)
      requires SlabHeap.Sound(h) && f in SlabHeap.Blocks(h) && pages != 0 &&
        OrderOf(h.pool, pages) == SlabHeap.Blocks(h)[f]
      requires pool == FreePages(h.pool, f * PAGE_SIZE, pages)
      ensures FreeContract(h.pool, f * PAGE_SIZE, pages) && !FreeActs(pool, f * PAGE_SIZE, pages)
    {
      hide SlabHeap.Sound, SlabHeap.Blocks, FreeContract, FreeActs, BuddyPool.Valid;
      ReleasedFrame(h, f, pages, pool);
      assert f < f + Pow2(OrderOf(h.pool, pages));
      FreePageStays(pool, f, f * PAGE_SIZE, pages);
    }

    /** The first page of what is to be freed is already free: nothing is done. */
    lemma FreePageStays(p: Pool, f: nat, addr: nat, pages: nat)
      requires BuddyPool.Valid(p) && FreeAt(p, f) && addr == f * PAGE_SIZE
      ensures !FreeActs(p, addr, pages)
    {
      FrameIsNotNil(p, f);
      assert addr / PAGE_SIZE == f;
    }

    /** kfree. A pointer to something in use releases it; any other pointer that
        may be passed changes nothing. Afterwards the pointer may be passed again,
        and is no longer in use; everything else that was in use still is, at its
        place and with its words. */
    method Free(ptr: nat)
      requires Valid() && (ptr == 0 || Freeable(ptr))
      modifies this`slabs, this`partial, this`large, mem, caches, buddy`lists, buddy.pageState, buddy.freeList,
        buddy.freeNext, buddy.freePrev
      ensures Valid()
      ensures Model() == Kfree(old(Model()), if ptr == 0 then Null else old(Target(ptr)))
      ensures ptr != 0 ==> Freeable(ptr) && Target(ptr) == old(Target(ptr)) && !InUse(Model(), Target(ptr))
      ensures ptr == 0 || old(!InUse(Model(), Target(ptr))) ==> mem[..] == old(mem[..])
      ensures Loses(old(Model()), Model(), if ptr == 0 then Null else old(Target(ptr))) &&
        SameRegions(old(Model()), Model())
      ensures FreeFrame(old(mem[..]), mem[..], old(slabs), if ptr == 0 then Null else old(Target(ptr)))
      ensures ChangedOnly(old(mem[..]), mem[..], old(Model()), Model())
    {
      hide Buddy.Buddy.Valid, Stores, SlabHeap.Sound, Loses, SameRegions;
      ghost var h, x := Model(), if ptr == 0 then Null else Target(ptr);
      KfreeKeeps(h, x, Kfree(h, x));
      if ptr == 0 {
        return;
      }
      KfreeSound(h, x, Kfree(h, x));
      AlignDownRoundsDown(ptr);
      var f := (AlignDown(ptr, PAGE_SIZE) - hhdm) / PAGE_SIZE;
      SameFrame(ptr, f);
      if mem[f].SlabPage? {
        FreeFromSlab(ptr, f);
      } else if mem[f].LargePage? {
        FreeLargeAt(f);
      }
    }

    lemma SameFrame(ptr: nat, f: nat)
      requires hhdm % PAGE_SIZE == 0 && hhdm <= ptr && ptr - ptr % PAGE_SIZE >= hhdm &&
        f == (ptr - ptr % PAGE_SIZE - hhdm) / PAGE_SIZE
      ensures f == FrameAt(ptr)
    {
    }

    /** kfree is idempotent: a second call with the same pointer changes nothing,
        whatever the first one gave back to the buddy allocator. */
    method FreeTwice(ptr: nat)
      requires Valid() && Freeable(ptr) && ptr != 0
      modifies this`slabs, this`partial, this`large, mem, caches, buddy`lists, buddy.pageState, buddy.freeList,
        buddy.freeNext, buddy.freePrev
      ensures Valid() && Model() == Kfree(old(Model()), old(Target(ptr)))
    {
      Free(ptr);
      Free(ptr);
    }

    /** A pointer to something in use may be passed to kfree, and kfree finds
        exactly what it stands for. */
    lemma LivePointer(x: Object)
      requires Valid() && InUse(Model(), x) && (x.Large? || test.Intended?)
      requires hhdm + mem.Length * PAGE_SIZE <= WORD
      ensures PtrOf(x) != 0 && Freeable(PtrOf(x)) && Target(PtrOf(x)) == x
    {
      hide Stores, SlabHeap.Sound, Buddy.Buddy.Valid, BuddyPool.Valid, Linkable, SlabView;
      var f, ptr := x.frame, PtrOf(x);
      if x.Small? {
        StoredSlab(f);
        HeaderTells(f, x.index);
        IndexOfAddress(hhdm, f, slabs[f].cls, x.index, ptr);
        SmallInPage(hhdm + f * PAGE_SIZE, slabs[f].cls, x.index);
      } else {
        StoredLarge(f);
      }
      InPage(ptr, f);
    }

    static lemma SmallInPage(base: nat, c: nat, i: nat)
      requires c < CLASSES && i < Total(c)
      ensures base <= base + SLAB_HEADER + i * SIZES[c] < base + PAGE_SIZE
    {
      Totals(c);
      MulMono(SIZES[c], i + 1, Total(c));
      StepBySize(i, SIZES[c]);
    }

    lemma InPage(ptr: nat, f: nat)
      requires f < mem.Length && hhdm + f * PAGE_SIZE <= ptr < hhdm + f * PAGE_SIZE + PAGE_SIZE
      requires hhdm + mem.Length * PAGE_SIZE <= WORD
      ensures InMemory(ptr) && FrameAt(ptr) == f
    {
    }

    /** A caller that frees what kmalloc has just returned leaves the caches, all
        slab headers, bitmaps and free lists, and every entry of the page
        allocator's arrays as they were. */
    method MallocThenFree(size: nat) returns (ptr: nat)
      requires Valid() && size < WORD && hhdm + mem.Length * PAGE_SIZE <= WORD
      requires Canonical(buddy.Model()) && (test.Intended? ==> Tight(Model()))
      modifies this`slabs, this`partial, this`large, mem, caches, buddy`lists, buddy.pageState, buddy.freeList,
        buddy.freeNext, buddy.freePrev
      ensures Valid() && (ptr != 0 ==> Restored(old(mem[..]), old(slabs)))
      ensures ptr != 0 ==> Model() == old(Model()) && caches[..] == old(caches[..])
      ensures ptr != 0 ==>
        && buddy.pageState[..] == old(buddy.pageState[..]) && buddy.freeList[..] == old(buddy.freeList[..])
        && buddy.freeNext[..] == old(buddy.freeNext[..]) && buddy.freePrev[..] == old(buddy.freePrev[..])
    {
      hide Stores, SlabHeap.Sound, BuddyPool.Valid, Linkable, Kmalloc, Kfree;
      ghost var h, m, cs := Model(), mem[..], caches[..];
      ghost var heads, next, prev := buddy.freeList[..], buddy.freeNext[..], buddy.freePrev[..];
      ghost var x;
      ptr, x := Malloc(size);
      if ptr != 0 {
        MallocFreeUndo(test, h, size, Model(), x);
        AsWrittenSucceedsIff(h, size);
        LivePointer(x);
        Free(ptr);
        StoresDetermined(m, cs, mem[..], caches[..], hhdm, slabs, partial, large);
        LinksDetermined(heads, next, prev, buddy.freeList[..], buddy.freeNext[..], buddy.freePrev[..], buddy.lists);
      }
    }

    /** The pages of all slabs are as in m, but for the contents of objects in use. */
    ghost predicate Restored(m: seq<PageView>, was: map<nat, Slab>)
      reads mem
    {
      forall f :: f in was ==> f < mem.Length && f < |m| && SameSlab(m[f], mem[f], was[f])
    }
  }
}
