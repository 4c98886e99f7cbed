/** Mapping and unmapping of kernel/src/memory/vmm.c on values, as operations on
    the map from virtual pages to last-level entries. */
module VmmOps {
  import opened Bits
  import opened BuddyPool
  import opened BuddyOps
  import opened BuddyCanonical
  import opened PageTables

  ghost predicate Usable(s: Space) {
    Valid(s.pool) && |s.pool.page| <= |s.mem|
  }

  function NewEntry(addr: nat): nat {
    Or(Or(addr, PRESENT), WRITABLE)
  }

  /** vmm_get_next_level: the table below entry i of table t, made if missing. */
  function NextLevel(s: Space, t: nat, i: nat): (r: (Space, Walk))
    requires Usable(s) && t < |s.mem| && i < ENTRIES
    ensures Usable(r.0) && |r.0.mem| == |s.mem|
  {
    AllocPagesKeeps(s.pool, 1);
    if !Present(s.mem[t][i]) then
      var (pool, addr) := AllocPages(s.pool, 1);
      if addr == INVALID_ADDRESS then (Space(pool, s.mem), Absent)
      else (Space(pool, Install(s.mem, t, i, addr / PAGE_SIZE, NewEntry(addr))), At(addr / PAGE_SIZE))
    else (s, Child(s.mem, t, i))
  }

  /** The walk of vmm_map along a path, making tables on the way. */
  function WalkCreate(s: Space, root: nat, path: seq<nat>): (r: (Space, Walk))
    requires Usable(s)
    ensures Usable(r.0) && |r.0.mem| == |s.mem|
    decreases |path|
  {
    if path == [] then (s, At(root))
    else
      var (s1, w) := WalkCreate(s, root, path[..|path| - 1]);
      if !w.At? then (s1, w)
      else if w.frame >= |s1.mem| || path[|path| - 1] >= ENTRIES then (s1, Untracked)
      else NextLevel(s1, w.frame, path[|path| - 1])
  }

  /** The entry that vmm_map stores. */
  function LeafEntry(phys: nat, flags: nat): nat {
    Or(And(phys, ADDR_MASK), flags)
  }

  function MapPage(s: Space, root: nat, virt: nat, phys: nat, flags: nat): (r: (Space, bool))
    requires Usable(s)
  {
    var (s', w) := WalkCreate(s, root, Path(virt));
    if w.At? && w.frame < |s'.mem|
    then (s'.(mem := SetEntry(s'.mem, w.frame, Index(virt, 1), LeafEntry(phys, flags))), true)
    else (s', false)
  }

  function UnmapPage(s: Space, root: nat, virt: nat): (r: (Space, bool))
    requires Usable(s)
  {
    match Descend(s.mem, root, Path(virt))
    case At(t) =>
      if t >= |s.mem| || !Present(s.mem[t][Index(virt, 1)]) then (s, false)
      else
        (Space(FreePages(s.pool, And(s.mem[t][Index(virt, 1)], ADDR_MASK), 1),
               SetEntry(s.mem, t, Index(virt, 1), 0)), true)
    case _ => (s, false)
  }

  /* ---- Words ---- */

  lemma AddressBits(x: nat)
    ensures And(x, ADDR_MASK) == x % 0x10_0000_0000_0000 - x % PAGE_SIZE
    ensures And(x, PRESENT) == x % 2
    ensures And(x, HUGE) == x % 0x100 - x % 0x80
    ensures And(x, OFFSET_MASK) == x % 0x1000
  {
    Pow2Values();
    AndMaskIsDifference(x, 12, 52, PAGE_SIZE, 0x10_0000_0000_0000, ADDR_MASK);
    AndMaskIsDifference(x, 0, 1, 1, 2, PRESENT);
    Pow2Small();
    AndMaskIsDifference(x, 7, 8, 0x80, 0x100, HUGE);
    AndMaskIsDifference(x, 0, 12, 1, 0x1000, OFFSET_MASK);
  }

  lemma AddressStays(addr: nat)
    requires addr < 0x10_0000_0000_0000 && addr % PAGE_SIZE == 0
    ensures And(addr, ADDR_MASK) == addr && And(addr, PRESENT) == 0 && And(addr, HUGE) == 0
  {
    AddressBits(addr);
    PageMultiple(addr);
    RemainderUnique(addr, 0x10_0000_0000_0000, 0, addr);
  }

  lemma PageMultiple(addr: nat)
    requires addr % PAGE_SIZE == 0
    ensures addr % 0x100 == 0 && addr % 0x80 == 0 && addr % 2 == 0
  {
    var k := addr / PAGE_SIZE;
    assert addr == 0x1000 * k;
    RemainderUnique(addr, 0x100, 0x10 * k, 0);
    RemainderUnique(addr, 0x80, 0x20 * k, 0);
    RemainderUnique(addr, 2, 0x800 * k, 0);
  }

  lemma AddressIsPage(x: nat)
    ensures And(x, ADDR_MASK) % PAGE_SIZE == 0 && And(And(x, ADDR_MASK), PRESENT) == 0
  {
    AddressBits(x);
    var hi, k := x / 0x10_0000_0000_0000, x / PAGE_SIZE;
    assert x == 0x1000 * k + x % 0x1000 && x == 0x10_0000_0000_0000 * hi + x % 0x10_0000_0000_0000;
    RemainderUnique(And(x, ADDR_MASK), PAGE_SIZE, k - 0x100_0000_0000 * hi, 0);
    AddressBits(And(x, ADDR_MASK));
    PageMultiple(And(x, ADDR_MASK));
  }

  /** An entry made for a new table leads to it. */
  lemma NewEntryLeads(addr: nat)
    requires addr < 0x10_0000_0000_0000 && addr % PAGE_SIZE == 0
    ensures LeadsTo(NewEntry(addr), addr / PAGE_SIZE)
  {
    AddressStays(addr);
    forall m | m in {PRESENT, HUGE, ADDR_MASK}
      ensures And(NewEntry(addr), m) == Or(Or(And(addr, m), And(PRESENT, m)), And(WRITABLE, m))
    {
      AndDistributes(Or(addr, PRESENT), WRITABLE, m);
      AndDistributes(addr, PRESENT, m);
    }
    AddressBits(PRESENT);
    AddressBits(WRITABLE);
    OrZero(addr);
    OrZero(0);
    OrZero(1);
  }

  /* ---- The walk that makes tables ---- */

  predicate ValidPath(path: seq<nat>) {
    |path| <= 3 && forall k :: 0 <= k < |path| ==> path[k] < ENTRIES
  }

  ghost predicate SameTranslations(mem: Memory, mem': Memory, root: nat) {
    forall path, j: nat :: ValidPath(path) && |path| == 3 && j < ENTRIES ==>
      LookupAt(mem', root, path, j) == LookupAt(mem, root, path, j)
  }

  ghost predicate WalksExtend(mem: Memory, mem': Memory, root: nat) {
    forall path :: ValidPath(path) ==>
      Descend(mem', root, path) == Descend(mem, root, path)
      || (Descend(mem, root, path) == Absent && Descend(mem', root, path).At?)
  }

  lemma NextLevelKeeps(s: Space, root: nat, level: map<nat, nat>, path: seq<nat>, t: nat,
                       i: nat) returns (level': map<nat, nat>)
    requires Sound(s, root, level) && ValidPath(path) && |path| <= 2 && i < ENTRIES
    requires Descend(s.mem, root, path) == At(t) && Child(s.mem, t, i) != Untracked
    ensures t in level && level[t] == 4 - |path| && t < |s.mem|
    ensures var (s', w) := NextLevel(s, t, i);
      && Sound(s', root, level') && SameTranslations(s.mem, s'.mem, root) && WalksExtend(s.mem, s'.mem, root)
      && (if Child(s.mem, t, i).At? then s' == s && w == Child(s.mem, t, i)
          else w.At? || (w == Absent && s' == s && NoFreePage(s.pool)))
      && (w.At? ==> Child(s'.mem, t, i) == w && Descend(s'.mem, root, path) == At(t))
    ensures var addr := AllocPages(s.pool, 1).1;
      level'.Keys == level.Keys + if Child(s.mem, t, i) == Absent && addr != INVALID_ADDRESS
        then {addr / PAGE_SIZE} else {}
  {
    DescendLevel(s.mem, root, level, path);
    level' := level;
    if Child(s.mem, t, i) == Absent {
      AllocPagesKeeps(s.pool, 1);
      var (pool, addr) := AllocPages(s.pool, 1);
      if addr == INVALID_ADDRESS {
        AllocPageFails(s.pool);
        assert NextLevel(s, t, i) == (s, Absent);
      } else {
        level' := NewTable(s, root, level, path, t, i, pool, addr, addr / PAGE_SIZE);
      }
    }
  }

  lemma NewTable(s: Space, root: nat, level: map<nat, nat>, path: seq<nat>, t: nat, i: nat, pool: Pool, addr: nat,
                 f: nat)
    returns (level': map<nat, nat>)
    requires Sound(s, root, level) && ValidPath(path) && |path| <= 2 && i < ENTRIES
    requires Descend(s.mem, root, path) == At(t) && Child(s.mem, t, i) == Absent && t in level && level[t] == 4 - |path|
    requires (pool, addr) == AllocPages(s.pool, 1) && addr != INVALID_ADDRESS && f == addr / PAGE_SIZE
    ensures f < |s.mem|
    ensures var mem' := Install(s.mem, t, i, f, NewEntry(addr));
      && Sound(Space(pool, mem'), root, level') && SameTranslations(s.mem, mem', root) && WalksExtend(s.mem, mem', root)
      && Child(mem', t, i) == At(f) && Descend(mem', root, path) == At(t)
    ensures level'.Keys == level.Keys + {f}
  {
    FreshTable(s.pool, level, pool, addr, f, level[t] - 1);
    NewEntryLeads(addr);
    var mem' := Install(s.mem, t, i, f, NewEntry(addr));
    level' := level[f := level[t] - 1];
    InstallGrafts(s.mem, level, t, i, f, NewEntry(addr), mem');
    GraftKeepsTree(s.mem, mem', root, level, level', t, i, f);
    forall q | ValidPath(q)
      ensures Descend(mem', root, q) == Descend(s.mem, root, q)
           || (Descend(s.mem, root, q) == Absent && Descend(mem', root, q).At?)
    {
      GraftWalks(s.mem, mem', root, level, t, i, f, q);
    }
    forall q, j: nat | ValidPath(q) && |q| == 3 && j < ENTRIES
      ensures LookupAt(mem', root, q, j) == LookupAt(s.mem, root, q, j)
    {
      GraftKeepsLookup(s.mem, mem', root, level, t, i, f, q, j);
    }
  }

  /** A page from the pool is in no table yet, and leaves the free lists. */
  lemma FreshTable(p: Pool, level: map<nat, nat>, p': Pool, addr: nat, f: nat, n: nat)
    requires Valid(p) && Owned(p, level) && (p', addr) == AllocPages(p, 1) && addr != INVALID_ADDRESS &&
      f == addr / PAGE_SIZE
    ensures f !in level && f < |p.page| && addr % PAGE_SIZE == 0 && addr < 0x10_0000_0000_0000
    ensures Valid(p') && |p'.page| == |p.page| && Owned(p', level[f := n])
  {
    AllocPagesKeeps(p, 1);
    FrameIsNotNil(p', f);
    assert FreeAt(p, f);
    assert p'.page[f] == ALLOCATED;
    forall t | t in level ensures !FreeAt(p', t) {
      assert !FreeAt(p, t);
    }
  }

  lemma {:induction false} WalkCreateKeeps(s: Space, root: nat, level: map<nat, nat>,
                                           path: seq<nat>) returns (level': map<nat, nat>)
    requires Sound(s, root, level) && ValidPath(path)
    requires forall k :: 0 <= k <= |path| ==> Descend(s.mem, root, path[..k]) != Untracked
    ensures var (s', w) := WalkCreate(s, root, path);
      && Sound(s', root, level') && SameTranslations(s.mem, s'.mem, root) && WalksExtend(s.mem, s'.mem, root)
      && (if Descend(s.mem, root, path).At? then s' == s && w == Descend(s.mem, root, path)
          else w.At? || (w == Absent && NoFreePage(s'.pool)))
      && (w.At? ==> Descend(s'.mem, root, path) == w)
    decreases |path|
  {
    level' := level;
    if path != [] {
      var q, i := path[..|path| - 1], path[|path| - 1];
      assert path[..|path|] == path;
      forall k | 0 <= k <= |q| ensures Descend(s.mem, root, q[..k]) != Untracked {
        assert q[..k] == path[..k];
      }
      var level1 := WalkCreateKeeps(s, root, level, q);
      var (s1, w) := WalkCreate(s, root, q);
      level' := level1;
      if w.At? {
        level' := OneMoreLevel(s, s1, root, level1, path, q, w.frame, i);
      }
    }
  }

  lemma OneMoreLevel(s: Space, s1: Space, root: nat, level1: map<nat, nat>, path: seq<nat>, q: seq<nat>, t: nat, i: nat)
    returns (level': map<nat, nat>)
    requires Sound(s1, root, level1) && Usable(s) && ValidPath(path) && path != [] && q == path[..|path| - 1] &&
      i == path[|path| - 1]
    requires WalkCreate(s, root, q) == (s1, At(t)) && Descend(s1.mem, root, q) == At(t)
    requires SameTranslations(s.mem, s1.mem, root) && WalksExtend(s.mem, s1.mem, root)
    requires Descend(s.mem, root, path) != Untracked
    requires Descend(s.mem, root, q).At? ==> s1 == s
    ensures var (s', w) := WalkCreate(s, root, path);
      && Sound(s', root, level') && SameTranslations(s.mem, s'.mem, root) && WalksExtend(s.mem, s'.mem, root)
      && (if Descend(s.mem, root, path).At? then s' == s && w == Descend(s.mem, root, path)
          else w.At? || (w == Absent && NoFreePage(s'.pool)))
      && (w.At? ==> Descend(s'.mem, root, path) == w)
  {
    assert Descend(s1.mem, root, path) == Child(s1.mem, t, i) != Untracked;
    level' := NextLevelKeeps(s1, root, level1, q, t, i);
    assert WalkCreate(s, root, path) == NextLevel(s1, t, i);
    var (s', w) := NextLevel(s1, t, i);
    SameCompose(s.mem, s1.mem, s'.mem, root);
    if Descend(s.mem, root, path).At? {
      assert Descend(s.mem, root, q).At?;
    }
  }

  lemma SameCompose(a: Memory, b: Memory, c: Memory, root: nat)
    requires SameTranslations(a, b, root) && WalksExtend(a, b, root)
    requires SameTranslations(b, c, root) && WalksExtend(b, c, root)
    ensures SameTranslations(a, c, root) && WalksExtend(a, c, root)
  {
    forall path | ValidPath(path)
      ensures Descend(c, root, path) == Descend(a, root, path) ||
        (Descend(a, root, path) == Absent && Descend(c, root, path).At?)
    {
      assert Descend(b, root, path) == Descend(a, root, path) ||
        (Descend(a, root, path) == Absent && Descend(b, root, path).At?);
    }
    forall path, j: nat | ValidPath(path) && |path| == 3 && j < ENTRIES
      ensures LookupAt(c, root, path, j) == LookupAt(a, root, path, j)
    {
      assert LookupAt(b, root, path, j) == LookupAt(a, root, path, j);
    }
  }

  /* ---- Main results ---- */

  lemma PathIsValid(virt: nat)
    ensures ValidPath(Path(virt)) && Index(virt, 1) < ENTRIES
  {
  }

  /** The indices as digits, base 512, of the page number. */
  lemma IndexDigits(virt: nat, p: nat)
    requires p == virt / PAGE_SIZE
    ensures Index(virt, 1) == p % 512 && Index(virt, 2) == p / 512 % 512
    ensures Index(virt, 3) == p / 512 / 512 % 512 && Index(virt, 4) == p / 512 / 512 / 512 % 512
  {
    var a, b, c := p / 512, p / 512 / 512, p / 512 / 512 / 512;
    RemainderUnique(virt, 0x20_0000, a, p % 512 * 0x1000 + virt % 0x1000);
    RemainderUnique(virt, 0x4000_0000, b, a % 512 * 0x20_0000 + virt % 0x20_0000);
    RemainderUnique(virt, 0x80_0000_0000, c, b % 512 * 0x4000_0000 + virt % 0x4000_0000);
  }

  lemma NumberOfDigits(p: nat, a: nat, b: nat, c: nat)
    requires a == p / 512 && b == a / 512 && c == b / 512
    ensures p % 0x10_0000_0000 == ((c % 512 * 512 + b % 512) * 512 + a % 512) * 512 + p % 512
  {
    RemainderUnique(p, 0x10_0000_0000, c / 512, ((c % 512 * 512 + b % 512) * 512 + a % 512) * 512 + p % 512);
  }

  lemma DigitsUnique(h: nat, d: nat, h': nat, d': nat)
    requires d < 512 && d' < 512
    ensures h * 512 + d == h' * 512 + d' <==> h == h' && d == d'
  {
  }

  /** The four indices identify the 36-bit page number. */
  lemma SamePageIff(virt: nat, virt': nat, p: nat, p': nat)
    requires p == virt / PAGE_SIZE && p' == virt' / PAGE_SIZE
    ensures SamePage(virt, virt') <==> p % 0x10_0000_0000 == p' % 0x10_0000_0000
  {
    IndexDigits(virt, p);
    IndexDigits(virt', p');
    var a, b, c := p / 512, p / 512 / 512, p / 512 / 512 / 512;
    var a', b', c' := p' / 512, p' / 512 / 512, p' / 512 / 512 / 512;
    NumberOfDigits(p, a, b, c);
    NumberOfDigits(p', a', b', c');
    DigitsUnique(c % 512, b % 512, c' % 512, b' % 512);
    DigitsUnique(c % 512 * 512 + b % 512, a % 512, c' % 512 * 512 + b' % 512, a' % 512);
    DigitsUnique((c % 512 * 512 + b % 512) * 512 + a % 512, p % 512, (c' % 512 * 512 + b' % 512) * 512 + a' % 512,
      p' % 512);
    PathsEqual(virt, virt');
  }

  lemma PathsEqual(virt: nat, virt': nat)
    ensures Path(virt) == Path(virt') <==>
      Index(virt, 4) == Index(virt', 4) && Index(virt, 3) == Index(virt', 3) && Index(virt, 2) == Index(virt', 2)
  {
    assert Path(virt)[0] == Index(virt, 4) && Path(virt)[1] == Index(virt, 3) && Path(virt)[2] == Index(virt, 2);
    assert Path(virt')[0] == Index(virt', 4) && Path(virt')[1] == Index(virt', 3) && Path(virt')[2] == Index(virt', 2);
  }

  /** Addresses whose bits 63 to 47 agree. */
  predicate CanonicalAddress(virt: nat) {
    virt < 0x8000_0000_0000 || 0xFFFF_8000_0000_0000 <= virt < 0x1_0000_0000_0000_0000
  }

  /** Canonical addresses share an entry only if they lie in the same page. */
  lemma CanonicalSamePage(virt: nat, virt': nat)
    requires CanonicalAddress(virt) && CanonicalAddress(virt')
    ensures SamePage(virt, virt') <==> virt / PAGE_SIZE == virt' / PAGE_SIZE
  {
    SamePageIff(virt, virt', virt / PAGE_SIZE, virt' / PAGE_SIZE);
    CanonicalPage(virt, virt / PAGE_SIZE);
    CanonicalPage(virt', virt' / PAGE_SIZE);
  }

  lemma CanonicalPage(virt: nat, p: nat)
    requires CanonicalAddress(virt) && p == virt / PAGE_SIZE
    ensures if virt < 0x8000_0000_0000 then p % 0x10_0000_0000 == p < 0x8_0000_0000
            else p % 0x10_0000_0000 == p - 0xF_FFF0_0000_0000 >= 0x8_0000_0000
  {
    if virt < 0x8000_0000_0000 {
      RemainderUnique(p, 0x10_0000_0000, 0, p);
    } else {
      RemainderUnique(p, 0x10_0000_0000, 0xFFFF, p - 0xF_FFF0_0000_0000);
    }
  }

  lemma WalkableWalks(mem: Memory, root: nat, virt: nat)
    requires Walkable(mem, root, virt)
    ensures Path(virt)[..3] == Path(virt) && Descend(mem, root, Path(virt)) != Untracked
    ensures forall k :: 0 <= k <= |Path(virt)| ==> Descend(mem, root, Path(virt)[..k]) != Untracked
  {
  }

  /** The page of virt, and no other, now has the given translation. */
  ghost predicate Updates(mem: Memory, mem': Memory, root: nat, virt: nat, tr: Translation) {
    forall virt': nat :: Lookup(mem', root, virt') == (if SamePage(virt, virt') then tr else Lookup(mem, root, virt'))
  }

  ghost predicate SameLookups(mem: Memory, mem': Memory, root: nat) {
    forall virt: nat :: Lookup(mem', root, virt) == Lookup(mem, root, virt)
  }

  lemma SameTranslationsLookups(mem: Memory, mem': Memory, root: nat)
    requires SameTranslations(mem, mem', root)
    ensures SameLookups(mem, mem', root)
  {
    forall virt: nat ensures Lookup(mem', root, virt) == Lookup(mem, root, virt) {
      PathIsValid(virt);
    }
  }

  /** vmm_map refines a map update. On success the page of virt, and no other,
      gets the new entry; on failure, which happens only when no page is free,
      every translation is as before. The table tree stays sound either way. */
  lemma MapRefinesUpdate(s: Space, root: nat, level: map<nat, nat>, virt: nat, phys: nat, flags: nat, s': Space,
                         ok: bool)
    returns (level': map<nat, nat>)
    requires Sound(s, root, level) && Walkable(s.mem, root, virt) && (s', ok) == MapPage(s, root, virt, phys, flags)
    ensures Sound(s', root, level')
    ensures !ok ==> NoFreePage(s'.pool)
    ensures Descend(s.mem, root, Path(virt)).At? ==> ok && s'.pool == s.pool
    ensures if ok then Updates(s.mem, s'.mem, root, virt, EntryMeaning(LeafEntry(phys, flags)))
            else SameLookups(s.mem, s'.mem, root)
  {
    PathIsValid(virt);
    WalkableWalks(s.mem, root, virt);
    level' := WalkCreateKeeps(s, root, level, Path(virt));
    var (s1, w) := WalkCreate(s, root, Path(virt));
    SameTranslationsLookups(s.mem, s1.mem, root);
    if w.At? {
      StoreLeaf(s1, root, level', virt, w.frame, LeafEntry(phys, flags), s');
    }
  }

  lemma StoreLeaf(s: Space, root: nat, level: map<nat, nat>, virt: nat, t: nat, entry: nat, s': Space)
    requires Sound(s, root, level) && Descend(s.mem, root, Path(virt)) == At(t)
    requires t < |s.mem| ==> s' == s.(mem := SetEntry(s.mem, t, Index(virt, 1), entry))
    ensures t < |s.mem| && Sound(s', root, level)
    ensures Updates(s.mem, s'.mem, root, virt, EntryMeaning(entry))
  {
    PathIsValid(virt);
    DescendLevel(s.mem, root, level, Path(virt));
    LeafKeepsTree(s.mem, root, level, t, Index(virt, 1), entry, s'.mem);
    forall virt': nat
      ensures Lookup(s'.mem, root, virt') == if SamePage(virt, virt') then EntryMeaning(entry)
        else Lookup(s.mem, root, virt')
    {
      PathIsValid(virt');
      LeafChangesOnePage(s.mem, root, level, Path(virt), Index(virt, 1), t, entry, Path(virt'), Index(virt', 1));
    }
  }

  /** After a successful map with the present flag, the page translates to the
      given frame with the offset carried through exactly when the flags add no
      bit to the frame address; without that flag it translates to nothing. */
  lemma MapTranslatesIff(phys: nat, flags: nat, virt: nat, mem: Memory, root: nat)
    requires Lookup(mem, root, virt) == EntryMeaning(LeafEntry(phys, flags))
    ensures And(flags, PRESENT) != 0 ==>
      (GetPhys(mem, root, virt) == And(phys, ADDR_MASK) + virt % PAGE_SIZE
       <==> Or(And(phys, ADDR_MASK), And(flags, ADDR_MASK)) == And(phys, ADDR_MASK))
    ensures And(flags, PRESENT) == 0 ==> GetPhys(mem, root, virt) == INVALID_ADDRESS
  {
    var e := LeafEntry(phys, flags);
    LeafParts(phys, flags, e);
    AddressIsPage(e);
    AddressBits(virt);
    WithOffset(And(e, ADDR_MASK), virt % PAGE_SIZE);
  }

  /** Flags 0x1001 on frame 0: the page translates to frame 1. */
  lemma FlagsWithAddress(virt: nat, mem: Memory, root: nat)
    requires Lookup(mem, root, virt) == EntryMeaning(LeafEntry(0, 0x1001))
    ensures GetPhys(mem, root, virt) == 0x1000 + virt % PAGE_SIZE
  {
    AddressBits(0);
    AddressBits(0x1001);
    AddressBits(virt);
    OrZero(0x1001);
    WithOffset(0x1000, virt % PAGE_SIZE);
  }

  lemma LeafParts(phys: nat, flags: nat, e: nat)
    requires e == LeafEntry(phys, flags)
    ensures And(e, ADDR_MASK) == Or(And(phys, ADDR_MASK), And(flags, ADDR_MASK))
    ensures Present(e) <==> And(flags, PRESENT) != 0
  {
    AndDistributes(And(phys, ADDR_MASK), flags, ADDR_MASK);
    AndIdempotent(phys, ADDR_MASK);
    AndDistributes(And(phys, ADDR_MASK), flags, PRESENT);
    AddressIsPage(phys);
    OrZero(And(flags, PRESENT));
  }

  /** A page address and an offset have no bit in common. */
  lemma WithOffset(base: nat, offset: nat)
    requires base % PAGE_SIZE == 0 && offset < PAGE_SIZE
    ensures Or(base, offset) == base + offset
  {
    Pow2Values();
    AlignedIsMultiple(base, 12);
    LowDisjoint(base, offset, 12);
    OrDisjoint(base, offset);
  }

  /** The page that vmm_unmap gives back is a table of this tree. */
  ghost predicate FreesTable(s: Space, level: map<nat, nat>, entry: nat) {
    FreeActs(s.pool, And(entry, ADDR_MASK), 1) && FrameOf(And(entry, ADDR_MASK)) in level
  }

  /** vmm_unmap succeeds exactly on translated pages; it removes that translation
      and no other, and the tree stays sound exactly when the page it frees is
      not one of the tables. */
  lemma UnmapRemovesOne(s: Space, root: nat, level: map<nat, nat>, virt: nat, s': Space, ok: bool)
    requires Sound(s, root, level) && Walkable(s.mem, root, virt) && (s', ok) == UnmapPage(s, root, virt)
    ensures ok <==> Lookup(s.mem, root, virt).Maps?
    ensures !ok ==> s' == s
    ensures ok ==> Updates(s.mem, s'.mem, root, virt, Unmapped)
    ensures ok ==> (Sound(s', root, level) <==> !FreesTable(s, level, Lookup(s.mem, root, virt).entry))
  {
    WalkableWalks(s.mem, root, virt);
    PathIsValid(virt);
    if ok {
      var t := Descend(s.mem, root, Path(virt)).frame;
      var entry := Lookup(s.mem, root, virt).entry;
      assert !Present(0);
      StoreLeaf(s, root, level, virt, t, 0, Space(s.pool, s'.mem));
      FreeOwned(s.pool, level, entry);
    }
  }

  lemma FreeOwned(p: Pool, level: map<nat, nat>, entry: nat)
    requires Valid(p) && Owned(p, level)
    ensures var addr := And(entry, ADDR_MASK); var p' := FreePages(p, addr, 1);
      Valid(p') && |p'.page| == |p.page| && (Owned(p', level) <==> !(FreeActs(p, addr, 1) && FrameOf(addr) in level))
  {
    var addr := And(entry, ADDR_MASK);
    FreePagesKeeps(p, addr, 1);
    var p', f := FreePages(p, addr, 1), FrameOf(addr);
    if FreeActs(p, addr, 1) {
      assert OrderOf(p, 1) == 0 && Pow2(0) == 1;
      assert FreeAt(p', f);
      forall t | t in level && t != f ensures !FreeAt(p', t) {
        assert !FreeAt(p, t);
      }
    }
  }

  /** With the tables in place, allocating a page, mapping it and unmapping it
      leaves the buddy pool exactly as it was. */
  lemma MapUnmapRestoresPool(p: Pool, mem: Memory, root: nat, level: map<nat, nat>, virt: nat, flags: nat,
                             p1: Pool, addr: nat, s2: Space, ok2: bool, s3: Space, ok3: bool)
    requires Canonical(p) && Sound(Space(p, mem), root, level) && Walkable(mem, root, virt) &&
      Descend(mem, root, Path(virt)).At?
    requires (p1, addr) == AllocPages(p, 1) && addr != INVALID_ADDRESS && addr != 0
    requires And(flags, PRESENT) != 0 && And(flags, ADDR_MASK) == 0
    requires Usable(Space(p1, mem)) && (s2, ok2) == MapPage(Space(p1, mem), root, virt, addr, flags)
    requires (s3, ok3) == UnmapPage(s2, root, virt)
    ensures ok2 && ok3 && s3.pool == p && Lookup(s3.mem, root, virt) == Unmapped
  {
    AllocatedSound(p, mem, root, level, p1, addr);
    var level2 := MapRefinesUpdate(Space(p1, mem), root, level, virt, addr, flags, s2, ok2);
    var e := LeafEntry(addr, flags);
    AddressStays(addr);
    LeafParts(addr, flags, e);
    OrZero(addr);
    assert SamePage(virt, virt);
    assert Lookup(s2.mem, root, virt) == Maps(e);
    MappedWalkable(s2.mem, root, virt);
    UnmapRemovesOne(s2, root, level2, virt, s3, ok3);
    ExactUndo(p, 1);
  }

  lemma AllocatedSound(p: Pool, mem: Memory, root: nat, level: map<nat, nat>, p1: Pool, addr: nat)
    requires Sound(Space(p, mem), root, level) && (p1, addr) == AllocPages(p, 1) && addr != INVALID_ADDRESS
    ensures Sound(Space(p1, mem), root, level) && addr % PAGE_SIZE == 0 && addr < 0x10_0000_0000_0000
  {
    var f := addr / PAGE_SIZE;
    FreshTable(p, level, p1, addr, f, 0);
    forall t | t in level ensures !FreeAt(p1, t) {
      assert t in level[f := 0];
    }
  }

  lemma MappedWalkable(mem: Memory, root: nat, virt: nat)
    requires Lookup(mem, root, virt).Maps?
    ensures Walkable(mem, root, virt)
  {
    var path := Path(virt);
    assert path[..3] == path && path[..3][..2] == path[..2] && path[..2][..1] == path[..1] &&
      path[..1][..0] == path[..0];
    assert Descend(mem, root, path[..2]).At?;
    assert Descend(mem, root, path[..1]).At?;
    assert Descend(mem, root, path[..0]).At?;
  }
}
