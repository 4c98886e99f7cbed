/** The heap of kernel/src/memory/heap.c as it lies in memory: slab headers with
    bitmap and intrusive free list, slabs linked through their headers, headers
    of large blocks, and the table of caches. */
module HeapMemory {
  import opened Bits
  import opened BuddyPool
  import opened SlabHeap

  /** The bitmap of a slab header: 256 words of 64 bits, bit k of word w at 64 w + k. */
  const BITMAP_BITS: nat := 16384

  /** What a page holds, told apart by the magic number in its first word. words
      are the first eight bytes of the objects of a slab. */
  datatype PageView =
    | SlabPage(objectSize: nat, total: nat, freeCount: nat, freeList: nat, next: nat, bitmap: seq<bool>,
      words: seq<nat>)
    | LargePage(pageCount: nat)
    | Other

  datatype Cache = Cache(objectSize: nat, partialPages: nat)

  function BitPosition(index: nat): (b: nat)
    ensures b == index
  {
    64 * (index / 64) + index % 64
  }

  /** object_index, with either reading of its test of the offset. */
  function ObjectIndex(t: OffsetTest, ptr: nat, pageVirt: nat, objectSize: nat, total: nat): int
    requires objectSize > 0
  {
    if ptr < pageVirt + SLAB_HEADER then -1
    else
      var offset := ptr - (pageVirt + SLAB_HEADER);
      if (if t.AsWritten? then offset % objectSize == 0 else offset % objectSize != 0) then -1
      else if offset / objectSize >= total then -1
      else offset / objectSize
  }

  /** Position k of a list holds x. */
  ghost predicate Nth(s: seq<nat>, k: int, x: int) {
    0 <= k < |s| && s[k] == x
  }

  /** The virtual address of object i of a slab of class c in frame f. */
  function ObjectAddress(hhdm: nat, f: nat, c: nat, i: nat): nat
    requires c < CLASSES
  {
    hhdm + f * PAGE_SIZE + SLAB_HEADER + i * SIZES[c]
  }

  function AddressAt(hhdm: nat, f: nat, s: Slab, k: int): nat
    requires s.cls < CLASSES
  {
    if 0 <= k < |s.free| then ObjectAddress(hhdm, f, s.cls, s.free[k]) else 0
  }

  function PhysAt(list: seq<nat>, k: int): nat {
    if 0 <= k < |list| then list[k] * PAGE_SIZE else 0
  }

  /** The index of an object is found from its address by the intended test,
      and never by the test as written. */
  lemma IndexOfAddress(hhdm: nat, f: nat, c: nat, i: nat, ptr: nat)
    requires c < CLASSES && i < Total(c) && ptr == ObjectAddress(hhdm, f, c, i)
    ensures ObjectIndex(Intended, ptr, hhdm + f * PAGE_SIZE, SIZES[c], Total(c)) == i
    ensures ObjectIndex(AsWritten, ptr, hhdm + f * PAGE_SIZE, SIZES[c], Total(c)) == -1
  {
    RemainderUnique(i * SIZES[c], SIZES[c], i, 0);
  }

  lemma AddressOfIndex(hhdm: nat, f: nat, c: nat, i: int, ptr: nat)
    requires c < CLASSES && i == ObjectIndex(Intended, ptr, hhdm + f * PAGE_SIZE, SIZES[c], Total(c)) && i >= 0
    ensures i < Total(c) && ptr == ObjectAddress(hhdm, f, c, i)
  {
  }

  /** Which addresses have an index. By the intended test these are the objects; by
      the test as written, the bytes inside an object but for its first. */
  lemma IndexIff(t: OffsetTest, hhdm: nat, f: nat, c: nat, i: nat, ptr: nat)
    requires c < CLASSES
    ensures ObjectIndex(t, ptr, hhdm + f * PAGE_SIZE, SIZES[c], Total(c)) == i <==>
      && i < Total(c)
      && if t.Intended? then ptr == ObjectAddress(hhdm, f, c, i)
         else ObjectAddress(hhdm, f, c, i) < ptr < ObjectAddress(hhdm, f, c, i) + SIZES[c]
  {
    var base, size := hhdm + f * PAGE_SIZE + SLAB_HEADER, SIZES[c];
    if base <= ptr {
      DivisionIff(ptr - base, size, i);
    }
  }

  lemma DivisionIff(offset: nat, size: nat, i: nat)
    requires size > 0
    ensures offset / size == i <==> i * size <= offset < i * size + size
    ensures offset / size == i ==> (offset % size == 0 <==> offset == i * size)
  {
    var q := offset / size;
    assert offset == size * q + offset % size;
    if i < q {
      MulMono(size, i + 1, q);
      assert size * (i + 1) == i * size + size;
    } else if q < i {
      MulMono(size, q + 1, i);
      assert size * (q + 1) == size * q + size;
    }
  }

  /** The header and free list of a slab, but for its next link. */
  ghost predicate SlabView(v: PageView, hhdm: nat, f: nat, s: Slab) {
    && s.cls < CLASSES && v.SlabPage?
    && v.objectSize == SIZES[s.cls] && v.total == Total(s.cls) && v.freeCount == |s.free|
    && |v.words| == Total(s.cls) && |v.bitmap| == BITMAP_BITS
    && NoDup(s.free) && (forall i :: i in s.free ==> i < Total(s.cls))
    && v.freeList == (if s.free == [] && Total(s.cls) == 0 then ObjectAddress(hhdm, f, s.cls, 0)
      else AddressAt(hhdm, f, s, 0))
    && (forall i :: 0 <= i < BITMAP_BITS ==> (v.bitmap[i] <==> i < Total(s.cls) && i !in s.free))
    && (forall k: int, i :: Nth(s.free, k, i) ==> 0 <= i < |v.words| && v.words[i] == AddressAt(hhdm, f, s, k + 1))
  }

  /** The page that heap_alloc_slab_page leaves: object i links to object i + 1. */
  lemma FreshView(v: PageView, hhdm: nat, f: nat, c: nat, s: Slab)
    requires c < CLASSES && s == Slab(c, AllObjects(Total(c))) && v.SlabPage? && v.objectSize == SIZES[c]
    requires v.total == v.freeCount == |v.words| == Total(c) && v.freeList == ObjectAddress(hhdm, f, c, 0)
    requires |v.bitmap| == BITMAP_BITS && forall i :: 0 <= i < BITMAP_BITS ==> !v.bitmap[i]
    requires forall i :: 0 <= i < Total(c) ==> v.words[i] == if i + 1 < Total(c)
      then ObjectAddress(hhdm, f, c, i + 1) else 0
    ensures SlabView(v, hhdm, f, s)
  {
    forall i: nat ensures i < Total(c) <==> i in s.free {
      if i < Total(c) {
        assert s.free[i] == i;
      }
    }
  }

  lemma TakeView(v: PageView, hhdm: nat, f: nat, s: Slab, i: nat, v': PageView, s': Slab)
    requires SlabView(v, hhdm, f, s) && s.free != [] && i == s.free[0] && i < |v.words| &&
      s' == Slab(s.cls, s.free[1..])
    requires v' == v.(bitmap := v.bitmap[BitPosition(i) := true], freeList := v.words[i], freeCount := v.freeCount - 1)
    ensures SlabView(v', hhdm, f, s')
  {
    hide ObjectAddress, BitPosition;
    assert Nth(s.free, 0, i) && i in s.free;
    assert forall j :: j in s.free <==> j == i || j in s'.free;
    forall k: int, j | Nth(s'.free, k, j)
      ensures 0 <= j < |v'.words| && v'.words[j] == AddressAt(hhdm, f, s', k + 1)
    {
      assert Nth(s.free, k + 1, j);
    }
  }

  lemma FreeView(v: PageView, hhdm: nat, f: nat, s: Slab, i: nat, v': PageView, s': Slab)
    requires SlabView(v, hhdm, f, s) && i < Total(s.cls) && i !in s.free && s' == Slab(s.cls, [i] + s.free)
    requires v' == v.(bitmap := v.bitmap[BitPosition(i) := false], words := v.words[i := v.freeList],
                      freeList := ObjectAddress(hhdm, f, s.cls, i), freeCount := v.freeCount + 1)
    ensures SlabView(v', hhdm, f, s')
  {
    assert forall j :: j in s'.free <==> j == i || j in s.free;
    forall k: int, j | Nth(s'.free, k, j)
      ensures 0 <= j < |v'.words| && v'.words[j] == AddressAt(hhdm, f, s', k + 1)
    {
      if k > 0 {
        assert Nth(s.free, k - 1, j) && j in s.free;
      }
    }
  }

  /* ---- Lists of slabs ---- */

  /** The slabs of a list are linked in order through their headers. */
  ghost predicate Chain(mem: seq<PageView>, list: seq<nat>) {
    && NoDup(list)
    && forall k, f :: Nth(list, k, f) ==> 0 < f < |mem| && mem[f].SlabPage? && mem[f].next == PhysAt(list, k + 1)
  }

  ghost predicate OnList(slabs: map<nat, Slab>, partial: seq<seq<nat>>, f: nat) {
    f in slabs && slabs[f].cls < |partial| && f in partial[slabs[f].cls]
  }

  /** The cache of class c heads the list of slabs, all of class c. */
  ghost predicate CacheStores(mem: seq<PageView>, cache: Cache, slabs: map<nat, Slab>, list: seq<nat>, c: nat)
    requires c < CLASSES
  {
    && cache == Cache(SIZES[c], PhysAt(list, 0)) && Chain(mem, list)
    && forall f :: f in list ==> f in slabs && slabs[f].cls == c
  }

  ghost predicate SlabStored(mem: seq<PageView>, hhdm: nat, slabs: map<nat, Slab>, partial: seq<seq<nat>>, f: nat)
    requires f in slabs
  {
    0 < f < |mem| && SlabView(mem[f], hhdm, f, slabs[f]) && (!OnList(slabs, partial, f) ==> mem[f].next == 0)
  }

  /** Memory and caches store these slabs, lists and large blocks. */
  ghost predicate Stores(mem: seq<PageView>, caches: seq<Cache>, hhdm: nat, slabs: map<nat, Slab>,
                         partial: seq<seq<nat>>, large: map<nat, nat>) {
    && |caches| == CLASSES == |partial|
    && (forall c :: 0 <= c < CLASSES ==> CacheStores(mem, caches[c], slabs, partial[c], c))
    && (forall f :: f in slabs ==> SlabStored(mem, hhdm, slabs, partial, f))
    && (forall f :: f in large ==> f < |mem| && mem[f] == LargePage(large[f]))
  }

  /** A list whose slabs keep their headers' links stays linked. */
  lemma ChainFrame(mem: seq<PageView>, mem': seq<PageView>, list: seq<nat>)
    requires Chain(mem, list) && |mem'| == |mem|
    requires forall f :: f in list && f < |mem| && mem[f].SlabPage? ==> mem'[f].SlabPage? && mem'[f].next == mem[f].next
    ensures Chain(mem', list)
  {
    forall k, f | Nth(list, k, f)
      ensures 0 < f < |mem'| && mem'[f].SlabPage? && mem'[f].next == PhysAt(list, k + 1)
    {
      assert f in list;
    }
  }

  /** A slab may change its objects in place. */
  lemma StoreSlab(mem: seq<PageView>, caches: seq<Cache>, hhdm: nat, slabs: map<nat, Slab>, partial: seq<seq<nat>>,
                  large: map<nat, nat>, f: nat, s: Slab, v: PageView, mem': seq<PageView>, slabs': map<nat, Slab>)
    requires Stores(mem, caches, hhdm, slabs, partial, large) && f in slabs && f < |mem| && s.cls == slabs[f].cls
    requires SlabView(v, hhdm, f, s) && mem[f].SlabPage? && v.next == mem[f].next
    requires mem' == mem[f := v] && slabs' == slabs[f := s]
    ensures Stores(mem', caches, hhdm, slabs', partial, large)
  {
    forall c | 0 <= c < CLASSES ensures CacheStores(mem', caches[c], slabs', partial[c], c) {
      assert CacheStores(mem, caches[c], slabs, partial[c], c);
      ChainFrame(mem, mem', partial[c]);
    }
    forall g | g in slabs' ensures SlabStored(mem', hhdm, slabs', partial, g) {
      assert SlabStored(mem, hhdm, slabs, partial, g);
      assert OnList(slabs', partial, g) <==> OnList(slabs, partial, g);
    }
  }

  /** A fresh slab, on no list yet. */
  lemma StoreNewSlab(mem: seq<PageView>, caches: seq<Cache>, hhdm: nat, slabs: map<nat, Slab>,
                     partial: seq<seq<nat>>, large: map<nat, nat>,
                     f: nat, s: Slab, v: PageView, mem': seq<PageView>, slabs': map<nat, Slab>)
    requires Stores(mem, caches, hhdm, slabs, partial, large) && f !in slabs && f !in large && 0 < f < |mem|
    requires SlabView(v, hhdm, f, s) && v.next == 0 && mem' == mem[f := v] && slabs' == slabs[f := s]
    ensures Stores(mem', caches, hhdm, slabs', partial, large)
  {
    forall c | 0 <= c < CLASSES ensures CacheStores(mem', caches[c], slabs', partial[c], c) {
      assert CacheStores(mem, caches[c], slabs, partial[c], c);
      ChainFrame(mem, mem', partial[c]);
    }
    forall g | g in slabs' ensures SlabStored(mem', hhdm, slabs', partial, g) {
      if g != f {
        assert SlabStored(mem, hhdm, slabs, partial, g);
        assert OnList(slabs', partial, g) <==> OnList(slabs, partial, g);
      }
    }
  }

  /** A slab that is on no list may be dropped. */
  lemma DropSlab(mem: seq<PageView>, caches: seq<Cache>, hhdm: nat, slabs: map<nat, Slab>, partial: seq<seq<nat>>,
                 large: map<nat, nat>, f: nat, slabs': map<nat, Slab>)
    requires Stores(mem, caches, hhdm, slabs, partial, large) && !OnList(slabs, partial, f) && slabs' == slabs - {f}
    ensures Stores(mem, caches, hhdm, slabs', partial, large)
  {
    forall c | 0 <= c < CLASSES ensures CacheStores(mem, caches[c], slabs', partial[c], c) {
      assert CacheStores(mem, caches[c], slabs, partial[c], c);
    }
    forall g | g in slabs' ensures SlabStored(mem, hhdm, slabs', partial, g) {
      assert SlabStored(mem, hhdm, slabs, partial, g);
      assert OnList(slabs', partial, g) <==> OnList(slabs, partial, g);
    }
  }

  lemma StoreLarge(mem: seq<PageView>, caches: seq<Cache>, hhdm: nat, slabs: map<nat, Slab>,
                   partial: seq<seq<nat>>, large: map<nat, nat>, f: nat, n: nat, mem': seq<PageView>)
    requires Stores(mem, caches, hhdm, slabs, partial, large) && f !in slabs && f < |mem| &&
      mem' == mem[f := LargePage(n)]
    ensures Stores(mem', caches, hhdm, slabs, partial, large[f := n])
  {
    forall c | 0 <= c < CLASSES ensures CacheStores(mem', caches[c], slabs, partial[c], c) {
      assert CacheStores(mem, caches[c], slabs, partial[c], c);
      ChainFrame(mem, mem', partial[c]);
    }
    forall g | g in slabs ensures SlabStored(mem', hhdm, slabs, partial, g) {
      assert SlabStored(mem, hhdm, slabs, partial, g);
    }
  }

  lemma DropLarge(mem: seq<PageView>, caches: seq<Cache>, hhdm: nat, slabs: map<nat, Slab>, partial: seq<seq<nat>>,
                  large: map<nat, nat>, f: nat)
    requires Stores(mem, caches, hhdm, slabs, partial, large)
    ensures Stores(mem, caches, hhdm, slabs, partial, large - {f})
  {
  }

  lemma NextIsSeparate(v: PageView, hhdm: nat, f: nat, s: Slab, next: nat)
    requires SlabView(v, hhdm, f, s)
    ensures SlabView(v.(next := next), hhdm, f, s)
  {
  }

  ghost predicate SameButNext(v: PageView, v': PageView) {
    v.SlabPage? && v'.SlabPage? && v' == v.(next := v'.next)
  }

  /** The same page, or a slab whose objects hold the same words. */
  ghost predicate SameWords(v: PageView, v': PageView) {
    v' == v || (v.SlabPage? && v'.SlabPage? && v'.words == v.words)
  }

  /** What kmalloc may write: no word of an object of a slab, no large block, and
      no page but those that belong to the heap now. */
  ghost predicate MallocFrame(mem: seq<PageView>, mem': seq<PageView>, slabs: map<nat, Slab>, large: map<nat, nat>,
                              slabs': map<nat, Slab>, large': map<nat, nat>) {
    |mem'| == |mem| && forall g :: 0 <= g < |mem| ==>
      || mem'[g] == mem[g] || (g in slabs && SameWords(mem[g], mem'[g]))
      || (g !in slabs && g !in large && (g in slabs' || g in large'))
  }

  /** What kfree of x may write: pages of slabs, and in them the word of no object
      but x. */
  ghost predicate FreeFrame(mem: seq<PageView>, mem': seq<PageView>, slabs: map<nat, Slab>, x: Object) {
    |mem'| == |mem| && forall g :: 0 <= g < |mem| ==>
      mem'[g] == mem[g] || (g in slabs && OtherWordsKept(mem[g], mem'[g], g, x))
  }

  ghost predicate OtherWordsKept(v: PageView, v': PageView, g: nat, x: Object) {
    && v.SlabPage? && v'.SlabPage? && |v'.words| == |v.words|
    && forall j :: 0 <= j < |v.words| && Small(g, j) != x ==> v'.words[j] == v.words[j]
  }

  /** Only the links of the touched slabs change. */
  ghost predicate Relinked(mem: seq<PageView>, mem': seq<PageView>, touched: seq<nat>) {
    && |mem'| == |mem|
    && (forall g :: g in touched ==> g < |mem| && SameButNext(mem[g], mem'[g]))
    && (forall g :: 0 <= g < |mem| && g !in touched ==> mem'[g] == mem[g])
  }

  /** Changing the list of class c and the links of slabs of that class. */
  lemma Relink(mem: seq<PageView>, caches: seq<Cache>, hhdm: nat, slabs: map<nat, Slab>, partial: seq<seq<nat>>,
               large: map<nat, nat>, c: nat, touched: seq<nat>, mem': seq<PageView>, cache: Cache, list: seq<nat>)
    requires Stores(mem, caches, hhdm, slabs, partial, large) && c < CLASSES
    requires CacheStores(mem', cache, slabs, list, c) && Relinked(mem, mem', touched)
    requires forall g :: g in touched ==> g in slabs && slabs[g].cls == c
    requires forall g :: g in touched && g !in list && g < |mem'| && mem'[g].SlabPage? ==> mem'[g].next == 0
    requires forall g :: g in partial[c] && g !in touched ==> g in list
    ensures Stores(mem', caches[c := cache], hhdm, slabs, partial[c := list], large)
  {
    var caches', partial' := caches[c := cache], partial[c := list];
    LargeIsNoSlab(mem, caches, hhdm, slabs, partial, large);
    forall d | 0 <= d < CLASSES ensures CacheStores(mem', caches'[d], slabs, partial'[d], d) {
      if d != c {
        assert CacheStores(mem, caches[d], slabs, partial[d], d);
        ChainFrame(mem, mem', partial[d]);
      }
    }
    forall f | f in slabs ensures SlabStored(mem', hhdm, slabs, partial', f) {
      assert SlabStored(mem, hhdm, slabs, partial, f);
      if f in touched {
        NextIsSeparate(mem[f], hhdm, f, slabs[f], mem'[f].next);
      }
    }
  }

  /** heap_insert_slab_into_cache. */
  lemma InsertFront(mem: seq<PageView>, cache: Cache, slabs: map<nat, Slab>, list: seq<nat>, f: nat, c: nat,
                    mem': seq<PageView>)
    requires c < CLASSES && CacheStores(mem, cache, slabs, list, c) && f in slabs && slabs[f].cls == c && f !in list
    requires 0 < f < |mem| && mem[f].SlabPage? && mem' == mem[f := mem[f].(next := cache.partialPages)]
    ensures CacheStores(mem', cache.(partialPages := f * PAGE_SIZE), slabs, [f] + list, c)
    ensures Relinked(mem, mem', [f])
  {
    var list' := [f] + list;
    forall k, g | Nth(list', k, g)
      ensures 0 < g < |mem'| && mem'[g].SlabPage? && mem'[g].next == PhysAt(list', k + 1)
    {
      if k > 0 {
        assert Nth(list, k - 1, g) && g in list;
      }
    }
  }

  /** heap_remove_slab_from_cache on the slab at position i of its list: the slab
      before it, or the cache, takes over its link. */
  lemma UnlinkSlab(mem: seq<PageView>, cache: Cache, slabs: map<nat, Slab>, list: seq<nat>, f: nat, c: nat, i: nat,
                   p: nat, mem': seq<PageView>, cache': Cache)
    requires c < CLASSES && CacheStores(mem, cache, slabs, list, c) && Nth(list, i, f) &&
      Unlinked(mem, list, f, i, p, mem')
    requires cache' == if i == 0 then cache.(partialPages := mem[f].next) else cache
    ensures CacheStores(mem', cache', slabs, Without(list, f), c)
  {
    WithoutMembers(list, f);
    var list' := Without(list, f);
    UnlinkedPhys(list, f, i, 0);
    forall k, g | Nth(list', k, g)
      ensures 0 < g < |mem'| && mem'[g].SlabPage? && mem'[g].next == PhysAt(list', k + 1)
    {
      UnlinkedPhys(list, f, i, k + 1);
      UnlinkedNth(list, f, i, p, k, g);
    }
  }

  lemma UnlinkedPhys(list: seq<nat>, f: nat, i: nat, k: nat)
    requires NoDup(list) && Nth(list, i, f)
    ensures PhysAt(Without(list, f), k) == PhysAt(list, if k < i then k else k + 1)
  {
    WithoutAt(list, i);
  }

  lemma UnlinkedNth(list: seq<nat>, f: nat, i: nat, p: nat, k: int, g: int)
    requires NoDup(list) && Nth(list, i, f) && (i > 0 ==> Nth(list, i - 1, p)) && Nth(Without(list, f), k, g)
    ensures Nth(list, if k < i then k else k + 1, g) && g != f && (i > 0 ==> (g == p <==> k == i - 1))
  {
    WithoutAt(list, i);
  }

  /** p, the slab before f at position i, takes over the link of f. */
  ghost predicate Unlinked(mem: seq<PageView>, list: seq<nat>, f: nat, i: nat, p: nat, mem': seq<PageView>) {
    && f < |mem| && mem[f].SlabPage?
    && (i > 0 ==> Nth(list, i - 1, p) && p < |mem| && mem[p].SlabPage?)
    && mem' == (if i == 0 then mem else mem[p := mem[p].(next := mem[f].next)])[f := mem[f].(next := 0)]
  }

  lemma UnlinkTouches(mem: seq<PageView>, list: seq<nat>, f: nat, i: nat, p: nat, mem': seq<PageView>)
    requires NoDup(list) && Nth(list, i, f) && Unlinked(mem, list, f, i, p, mem')
    ensures Relinked(mem, mem', if i == 0 then [f] else [p, f]) && mem'[f].next == 0
    ensures f in list && (i > 0 ==> p in list && p != f)
  {
  }

  lemma LargeIsNoSlab(mem: seq<PageView>, caches: seq<Cache>, hhdm: nat, slabs: map<nat, Slab>,
                      partial: seq<seq<nat>>, large: map<nat, nat>)
    requires Stores(mem, caches, hhdm, slabs, partial, large)
    ensures forall f :: f in large ==> f !in slabs
  {
    forall f | f in large ensures f !in slabs {
      assert f in slabs ==> SlabStored(mem, hhdm, slabs, partial, f);
    }
  }

  lemma RemoveAt(mem: seq<PageView>, caches: seq<Cache>, hhdm: nat, slabs: map<nat, Slab>, partial: seq<seq<nat>>,
                 large: map<nat, nat>,
                 f: nat, c: nat, i: nat, p: nat, list: seq<nat>, mem': seq<PageView>, cache: Cache)
    requires Stores(mem, caches, hhdm, slabs, partial, large) && c < CLASSES && f in slabs && slabs[f].cls == c &&
      list == partial[c]
    requires Nth(list, i, f) && Unlinked(mem, list, f, i, p, mem')
    requires cache == if i == 0 then caches[c].(partialPages := mem[f].next) else caches[c]
    ensures Stores(mem', caches[c := cache], hhdm, slabs, partial[c := Without(list, f)], large)
  {
    assert CacheStores(mem, caches[c], slabs, list, c);
    UnlinkSlab(mem, caches[c], slabs, list, f, c, i, p, mem', cache);
    UnlinkTouches(mem, list, f, i, p, mem');
    WithoutMembers(list, f);
    Relink(mem, caches, hhdm, slabs, partial, large, c, if i == 0 then [f] else [p, f], mem', cache, Without(list, f));
  }

  lemma InsertAt(mem: seq<PageView>, caches: seq<Cache>, hhdm: nat, slabs: map<nat, Slab>, partial: seq<seq<nat>>,
                 large: map<nat, nat>,
                 f: nat, c: nat, mem': seq<PageView>, caches': seq<Cache>, partial': seq<seq<nat>>)
    requires Stores(mem, caches, hhdm, slabs, partial, large) && c < CLASSES && f in slabs && slabs[f].cls == c &&
      f !in partial[c]
    requires 0 < f < |mem| && mem[f].SlabPage?
    requires caches' == caches[c := caches[c].(partialPages := f * PAGE_SIZE)]
    requires mem' == mem[f := mem[f].(next := caches[c].partialPages)]
    requires partial' == partial[c := [f] + partial[c]]
    ensures Stores(mem', caches', hhdm, slabs, partial', large)
  {
    assert CacheStores(mem, caches[c], slabs, partial[c], c);
    InsertFront(mem, caches[c], slabs, partial[c], f, c, mem');
    Relink(mem, caches, hhdm, slabs, partial, large, c, [f], mem', caches[c].(partialPages := f * PAGE_SIZE),
      [f] + partial[c]);
  }

  /** The pages of the same slab, but for the contents of its objects in use. */
  ghost predicate SameSlab(v: PageView, v': PageView, s: Slab) {
    && v.SlabPage? && v'.SlabPage? && |v'.words| == |v.words| && v' == v.(words := v'.words)
    && forall k, i :: Nth(s.free, k, i) && 0 <= i < |v.words| ==> v'.words[i] == v.words[i]
  }

  /** The stored form is a function of the slabs, lists and large blocks: headers,
      bitmaps, links and free lists agree wherever these do. */
  lemma StoresDetermined(mem: seq<PageView>, caches: seq<Cache>, mem': seq<PageView>, caches': seq<Cache>, hhdm: nat,
                         slabs: map<nat, Slab>, partial: seq<seq<nat>>, large: map<nat, nat>)
    requires Stores(mem, caches, hhdm, slabs, partial, large) && Stores(mem', caches', hhdm, slabs, partial, large)
    ensures caches == caches'
    ensures forall f :: f in slabs ==> f < |mem| && f < |mem'| && SameSlab(mem[f], mem'[f], slabs[f])
    ensures forall f :: f in large ==> f < |mem| && f < |mem'| && mem[f] == mem'[f]
  {
    forall c | 0 <= c < CLASSES ensures caches[c] == caches'[c] {
      assert CacheStores(mem, caches[c], slabs, partial[c], c) && CacheStores(mem', caches'[c], slabs, partial[c], c);
    }
    forall f | f in slabs ensures f < |mem| && f < |mem'| && SameSlab(mem[f], mem'[f], slabs[f]) {
      assert SlabStored(mem, hhdm, slabs, partial, f) && SlabStored(mem', hhdm, slabs, partial, f);
      SameLink(mem, caches, mem', caches', hhdm, slabs, partial, large, f);
      assert mem[f].bitmap == mem'[f].bitmap;
    }
  }

  lemma SameLink(mem: seq<PageView>, caches: seq<Cache>, mem': seq<PageView>, caches': seq<Cache>, hhdm: nat,
                 slabs: map<nat, Slab>, partial: seq<seq<nat>>, large: map<nat, nat>, f: nat)
    requires Stores(mem, caches, hhdm, slabs, partial, large) && Stores(mem', caches', hhdm, slabs, partial, large)
    requires f in slabs && f < |mem| && f < |mem'| && mem[f].SlabPage? && mem'[f].SlabPage?
    ensures mem[f].next == mem'[f].next
  {
    assert SlabStored(mem, hhdm, slabs, partial, f) && SlabStored(mem', hhdm, slabs, partial, f);
    if OnList(slabs, partial, f) {
      var c := slabs[f].cls;
      assert CacheStores(mem, caches[c], slabs, partial[c], c) && CacheStores(mem', caches'[c], slabs, partial[c], c);
      var k :| 0 <= k < |partial[c]| && partial[c][k] == f;
      assert Nth(partial[c], k, f);
    }
  }

  lemma EmptyStores(mem: seq<PageView>, caches: seq<Cache>, hhdm: nat, partial: seq<seq<nat>>)
    requires |caches| == CLASSES == |partial|
    requires forall c :: 0 <= c < CLASSES ==> caches[c] == Cache(SIZES[c], 0) && partial[c] == []
    ensures Stores(mem, caches, hhdm, map[], partial, map[])
  {
  }
}
