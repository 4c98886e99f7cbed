/** What vmm_map and vmm_unmap of kernel/src/memory/vmm.c write, word by word: the
    last-level entry, the entries of new tables, and nothing else. */
module VmmWords {
  import opened Bits
  import opened BuddyPool
  import opened BuddyOps
  import opened PageTables
  import opened VmmOps

  /* ---- The two kinds of entries ---- */

  /** An entry made for a new table holds its address, present and writable, and no
      other flag. */
  lemma NewEntryWord(addr: nat)
    requires addr % PAGE_SIZE == 0
    ensures NewEntry(addr) == addr + 3
  {
    WithOffset(addr, 1);
    OnesAdd(addr);
  }

  lemma OnesAdd(addr: nat)
    requires addr % PAGE_SIZE == 0
    ensures Or(addr + 1, 2) == addr + 3
  {
    AddressBitsAt(addr);
    OrDisjoint(addr + 1, 2);
  }

  lemma AddressBitsAt(addr: nat)
    requires addr % PAGE_SIZE == 0
    ensures And(addr + 1, 2) == 0
  {
    PageMultiple(addr);
    var k := addr / PAGE_SIZE;
    assert addr == 0x1000 * k;
    RemainderUnique(addr + 1, 2, 0x800 * k, 1);
    assert (addr + 1) / 2 == 0x800 * k && (0x800 * k) % 2 == 0;
    assert And(0x800 * k, 1) == 0;
  }

  /** A word that vmm_map may store for a physical address and flags: the flags on
      every bit outside the address mask, the address, and any address bits among the
      flags. */
  ghost predicate LeafBits(e: nat, phys: nat, flags: nat) {
    && And(e, ADDR_MASK) == Or(And(phys, ADDR_MASK), And(flags, ADDR_MASK))
    && (forall m: nat :: And(m, ADDR_MASK) == 0 ==> And(e, m) == And(flags, m))
    && (phys % PAGE_SIZE == 0 && phys < 0x10_0000_0000_0000 && And(flags, ADDR_MASK) == 0 ==> e == phys + flags)
  }

  lemma LeafWord(phys: nat, flags: nat, e: nat)
    requires e == LeafEntry(phys, flags)
    ensures LeafBits(e, phys, flags)
  {
    LeafParts(phys, flags, e);
    forall m: nat | And(m, ADDR_MASK) == 0 ensures And(e, m) == And(flags, m) {
      OutsideMask(phys, flags, m, e);
    }
    if phys % PAGE_SIZE == 0 && phys < 0x10_0000_0000_0000 && And(flags, ADDR_MASK) == 0 {
      AddressStays(phys);
      AndAssociates(phys, ADDR_MASK, flags);
      AndCommutes(ADDR_MASK, flags);
      OrDisjoint(phys, flags);
    }
  }

  lemma OutsideMask(phys: nat, flags: nat, m: nat, e: nat)
    requires e == LeafEntry(phys, flags) && And(m, ADDR_MASK) == 0
    ensures And(e, m) == And(flags, m)
  {
    AndDistributes(And(phys, ADDR_MASK), flags, m);
    AndAssociates(phys, ADDR_MASK, m);
    AndCommutes(ADDR_MASK, m);
    OrZero(And(flags, m));
  }

  /** The frame that an entry, or the root register, names: bits 12 to 51. */
  lemma FrameBits(entry: nat)
    ensures TableFrame(entry) == entry % 0x10_0000_0000_0000 / 0x1000
  {
    AddressBits(entry);
    var x := entry % 0x10_0000_0000_0000;
    SamePageOffset(entry);
    assert entry % 0x1000 == x % 0x1000;
    RemainderUnique(x - x % 0x1000, 0x1000, x / 0x1000, 0);
  }

  lemma SamePageOffset(x: nat)
    ensures x % 0x10_0000_0000_0000 % 0x1000 == x % 0x1000
  {
    var hi, lo := x / 0x10_0000_0000_0000, x % 0x10_0000_0000_0000;
    assert x == 0x1000 * (0x100_0000_0000 * hi + lo / 0x1000) + lo % 0x1000;
    RemainderUnique(x, 0x1000, 0x100_0000_0000 * hi + lo / 0x1000, lo % 0x1000);
  }

  /** Where the walk goes from an entry: nowhere if bit 0 is clear, and to the frame in
      bits 12 to 51 if bit 0 is set and bit 7 clear. */
  lemma ChildIs(mem: Memory, t: nat, i: nat)
    requires t < |mem| && i < ENTRIES
    ensures var e := mem[t][i]; var f := e % 0x10_0000_0000_0000 / 0x1000;
      Child(mem, t, i) ==
        if e % 2 == 0 then Absent
        else if e % 0x100 >= 0x80 || f >= |mem| then Untracked
        else At(f)
  {
    var e := mem[t][i];
    FrameBits(e);
    AddressBits(e);
    HugeBit(e);
  }

  lemma HugeBit(e: nat)
    ensures e % 0x100 - e % 0x80 != 0 <==> e % 0x100 >= 0x80
  {
    var q := e / 0x100;
    assert e == 0x100 * q + e % 0x100;
    if e % 0x100 < 0x80 {
      RemainderUnique(e, 0x80, 2 * q, e % 0x100);
    }
  }

  /* ---- The entries along a path ---- */

  /** Entry k of the path, in memory and memory': as it was if the walk went through
      it before, and otherwise that of a new table, present and writable. */
  ghost predicate StepWord(mem: Memory, mem': Memory, root: nat, path: seq<nat>, k: nat)
    requires k < |path|
  {
    var t, c := Descend(mem', root, path[..k]), Descend(mem', root, path[..k + 1]);
    && t.At? && c.At? && t.frame < |mem'| && t.frame < |mem| && path[k] < ENTRIES
    && mem'[t.frame][path[k]] ==
         if Descend(mem, root, path[..k + 1]).At? then mem[t.frame][path[k]] else c.frame * PAGE_SIZE + 3
  }

  ghost predicate PathWords(mem: Memory, mem': Memory, root: nat, path: seq<nat>) {
    forall k: nat :: k < |path| ==> StepWord(mem, mem', root, path, k)
  }

  /** Word j of page u is the entry at which the walk along the path had to stop. */
  ghost predicate Missing(mem: Memory, root: nat, path: seq<nat>, u: nat, j: nat) {
    exists k: nat :: k < |path| && StopsAt(mem, root, path, k, u, j)
  }

  ghost predicate StopsAt(mem: Memory, root: nat, path: seq<nat>, k: nat, u: nat, j: nat)
    requires k < |path|
  {
    Descend(mem, root, path[..k]) == At(u) && path[k] == j && Descend(mem, root, path[..k + 1]) == Absent
  }

  /** Word j of page u is an entry of the path. */
  ghost predicate OnPath(mem: Memory, root: nat, path: seq<nat>, u: nat, j: nat) {
    exists k: nat :: k < |path| && Descend(mem, root, path[..k]) == At(u) && path[k] == j
  }

  /** What the creating walk writes: pages that were free, and the entry at which the
      old walk stopped. Pages that were free are empty but for the path. */
  ghost predicate Made(s: Space, s': Space, root: nat, path: seq<nat>) {
    && |s'.mem| == |s.mem|
    && (forall i: nat :: FreeAt(s'.pool, i) ==> FreeAt(s.pool, i))
    && (forall u: nat, j: nat :: u < |s.mem| && j < ENTRIES ==> WordMade(s, s', root, path, u, j))
  }

  ghost predicate WordMade(s: Space, s': Space, root: nat, path: seq<nat>, u: nat, j: nat)
    requires u < |s.mem| == |s'.mem| && j < ENTRIES
  {
    if FreeAt(s.pool, u) then s'.mem[u] == s.mem[u] || s'.mem[u][j] == 0 || OnPath(s'.mem, root, path, u, j)
    else s'.mem[u][j] == s.mem[u][j] || Missing(s.mem, root, path, u, j)
  }

  lemma {:induction false} PrefixesAt(mem: Memory, root: nat, path: seq<nat>, k: nat)
    requires k <= |path| && Descend(mem, root, path).At?
    ensures Descend(mem, root, path[..k]).At?
    decreases |path|
  {
    if k == |path| {
      assert path[..k] == path;
    } else {
      var q := path[..|path| - 1];
      PrefixesAt(mem, root, q, k);
      assert q[..k] == path[..k];
    }
  }

  /** A walk that finds all its tables writes nothing. */
  lemma NothingMade(s: Space, root: nat, level: map<nat, nat>, path: seq<nat>)
    requires Sound(s, root, level) && ValidPath(path)
    ensures Made(s, s, root, path)
    ensures Descend(s.mem, root, path).At? ==> PathWords(s.mem, s.mem, root, path)
  {
    if Descend(s.mem, root, path).At? {
      forall k: nat | k < |path| ensures StepWord(s.mem, s.mem, root, path, k) {
        PrefixesAt(s.mem, root, path, k);
        PrefixesAt(s.mem, root, path, k + 1);
        DescendLevel(s.mem, root, level, path[..k]);
      }
    }
  }

  /** The new table at the end of a walk is empty, and its page was free. */
  ghost predicate FreshEnd(s: Space, s': Space, root: nat, path: seq<nat>, w: Walk) {
    w.At? && !Descend(s.mem, root, path).At? ==>
      w.frame < |s'.mem| && s'.mem[w.frame] == Zeros(ENTRIES) && FreeAt(s.pool, w.frame)
  }

  /* ---- One more table ---- */

  /** mem' is mem with the empty table f entered at word i of page t. */
  ghost predicate Entered(mem: Memory, mem': Memory, t: nat, i: nat, f: nat) {
    && |mem'| == |mem| && t < |mem| && f < |mem| && i < ENTRIES && t != f
    && mem'[f] == Zeros(ENTRIES) && mem'[t] == mem[t][i := f * PAGE_SIZE + 3]
    && forall u :: 0 <= u < |mem| && u != t && u != f ==> mem'[u] == mem[u]
  }

  lemma InstallEnters(mem: Memory, t: nat, i: nat, f: nat, addr: nat)
    requires t < |mem| && f < |mem| && i < ENTRIES && t != f && addr == f * PAGE_SIZE
    ensures Entered(mem, Install(mem, t, i, f, NewEntry(addr)), t, i, f)
  {
    NewEntryWord(addr);
  }

  /** The walk to q is done, and its last table t lacks the entry i for the path. */
  ghost predicate AtGap(s: Space, s1: Space, root: nat, level1: map<nat, nat>, path: seq<nat>, q: seq<nat>,
                        t: nat, i: nat) {
    && Sound(s1, root, level1) && ValidPath(path) && path != [] && q == path[..|path| - 1] && i == path[|path| - 1]
    && Descend(s1.mem, root, q) == At(t) && Descend(s.mem, root, path) == Absent
    && (Descend(s.mem, root, q).At? ==> s1 == s)
    && Made(s, s1, root, q) && FreshEnd(s, s1, root, q, At(t)) && PathWords(s.mem, s1.mem, root, q)
  }

  lemma GapIsAbsent(s: Space, s1: Space, root: nat, level1: map<nat, nat>, path: seq<nat>, q: seq<nat>, t: nat, i: nat)
    requires AtGap(s, s1, root, level1, path, q, t, i)
    ensures t in level1 && level1[t] == 4 - |q| && t < |s1.mem| && i < ENTRIES && Child(s1.mem, t, i) == Absent
  {
    hide Made, PathWords;
    DescendLevel(s1.mem, root, level1, q);
    if !Descend(s.mem, root, q).At? {
      EmptyTableIsBarren(s1.mem, t, i);
    }
  }

  lemma WordsOfLevel(s: Space, s1: Space, root: nat, level: map<nat, nat>, level1: map<nat, nat>,
                     path: seq<nat>, q: seq<nat>, t: nat, i: nat)
    requires Usable(s) && Usable(s1) && AtGap(s, s1, root, level1, path, q, t, i)
    requires WalkCreate(s, root, q) == (s1, At(t))
    ensures var (s', w) := WalkCreate(s, root, path);
      && Made(s, s', root, path) && FreshEnd(s, s', root, path, w)
      && (w.At? ==> PathWords(s.mem, s'.mem, root, path))
  {
    hide Made, PathWords, FreshEnd, Sound;
    GapIsAbsent(s, s1, root, level1, path, q, t, i);
    assert WalkCreate(s, root, path) == NextLevel(s1, t, i);
    var (pool, addr) := AllocPages(s1.pool, 1);
    AllocPagesKeeps(s1.pool, 1);
    if addr == INVALID_ADDRESS {
      assert NextLevel(s1, t, i) == (s1, Absent);
      LongerPath(s, s1, root, path, q);
      NoEnd(s, s1, root, path, Absent);
    } else {
      TableAtGap(s, s1, root, level1, path, q, t, i, pool, addr, addr / PAGE_SIZE);
    }
  }

  lemma TableAtGap(s: Space, s1: Space, root: nat, level1: map<nat, nat>, path: seq<nat>, q: seq<nat>, t: nat, i: nat,
                   pool: Pool, addr: nat, f: nat)
    requires AtGap(s, s1, root, level1, path, q, t, i)
    requires t in level1 && level1[t] == 4 - |q| && t < |s1.mem| && i < ENTRIES
    requires Child(s1.mem, t, i) == Absent
    requires (pool, addr) == AllocPages(s1.pool, 1) && addr != INVALID_ADDRESS && f == addr / PAGE_SIZE
    ensures f < |s1.mem|
    ensures var s2 := Space(pool, Install(s1.mem, t, i, f, NewEntry(addr)));
      Made(s, s2, root, path) && FreshEnd(s, s2, root, path, At(f)) && PathWords(s.mem, s2.mem, root, path)
  {
    hide AtGap, Sound, Made, PathWords, FreshEnd, AllocPages, WalksExtend, SameTranslations, Owned, Valid;
    hide Install, NewEntry;
    GapParts(s, s1, root, level1, path, q, t, i);
    FreshTable(s1.pool, level1, pool, addr, f, 0);
    FreshPool(s1.pool, pool, addr, f);
    var level2 := NewTable(s1, root, level1, q, t, i, pool, addr, f);
    InstallEnters(s1.mem, t, i, f, addr);
    var s2 := Space(pool, Install(s1.mem, t, i, f, NewEntry(addr)));
    MadeNext(s, s1, s2, root, level1, path, q, t, i, f);
    WordsNext(s, s1, s2, root, level1, path, q, t, i, f);
    EndNext(s, s1, s2, root, path, q, f);
  }

  lemma GapParts(s: Space, s1: Space, root: nat, level1: map<nat, nat>, path: seq<nat>, q: seq<nat>, t: nat, i: nat)
    requires AtGap(s, s1, root, level1, path, q, t, i)
    ensures Sound(s1, root, level1) && Valid(s1.pool) && Owned(s1.pool, level1) && |s1.pool.page| <= |s1.mem|
    ensures ValidPath(q) && |q| <= 2 && Descend(s1.mem, root, q) == At(t)
    ensures |s.mem| == |s1.mem| && Made(s, s1, root, q)
  {
  }

  lemma FreshPool(p: Pool, p': Pool, addr: nat, f: nat)
    requires Valid(p) && (p', addr) == AllocPages(p, 1) && addr != INVALID_ADDRESS && f == addr / PAGE_SIZE
    ensures FreeAt(p, f) && addr == f * PAGE_SIZE
    ensures forall i: nat :: FreeAt(p', i) ==> FreeAt(p, i)
  {
    AllocPagesKeeps(p, 1);
    assert OrderOf(p, 1) == 0 && Pow2(0) == 1;
    assert FreeAt(p, f);
  }

  lemma EndNext(s: Space, s1: Space, s2: Space, root: nat, path: seq<nat>, q: seq<nat>, f: nat)
    requires Made(s, s1, root, q) && FreeAt(s1.pool, f) && f < |s2.mem| && s2.mem[f] == Zeros(ENTRIES)
    ensures FreshEnd(s, s2, root, path, At(f))
  {
  }

  /** An entry of a path stays one while walks are only extended. */
  lemma StaysOnPath(mem: Memory, mem': Memory, root: nat, path: seq<nat>, u: nat, j: nat)
    requires ValidPath(path) && WalksExtend(mem, mem', root) && OnPath(mem, root, path, u, j)
    ensures OnPath(mem', root, path, u, j)
  {
    var k: nat :| k < |path| && Descend(mem, root, path[..k]) == At(u) && path[k] == j;
    assert ValidPath(path[..k]);
    assert Descend(mem', root, path[..k]) == At(u);
  }

  /** The entry at the gap itself. */
  lemma GapWord(s: Space, s1: Space, s2: Space, root: nat, level1: map<nat, nat>, path: seq<nat>, q: seq<nat>,
                t: nat, i: nat)
    requires AtGap(s, s1, root, level1, path, q, t, i) && Descend(s2.mem, root, q) == At(t)
    requires t < |s.mem| == |s2.mem| && i < ENTRIES
    ensures WordMade(s, s2, root, path, t, i)
  {
    hide Sound, PathWords, Made;
    var k := |q|;
    assert path[..k] == q && path[..k + 1] == path && path[k] == i;
    if !FreeAt(s.pool, t) {
      assert StopsAt(s.mem, root, path, k, t, i);
    }
  }

  /** Another entry of the table with the gap. */
  lemma BesideGap(s: Space, s1: Space, s2: Space, root: nat, level1: map<nat, nat>, path: seq<nat>, q: seq<nat>,
                  t: nat, i: nat, f: nat, j: nat)
    requires AtGap(s, s1, root, level1, path, q, t, i) && Entered(s1.mem, s2.mem, t, i, f) && j != i
    requires t < |s.mem| == |s2.mem| && j < ENTRIES
    ensures WordMade(s, s2, root, path, t, j)
  {
    hide PathWords;
    assert WordMade(s, s1, root, q, t, j);
    PrefixWords(s.mem, s1.mem, root, path, q, t, j);
    DescendLevel(s1.mem, root, level1, q);
    assert !FreeAt(s1.pool, t);
  }

  lemma ElsewhereWord(s: Space, s1: Space, s2: Space, root: nat, path: seq<nat>, q: seq<nat>, u: nat, j: nat)
    requires ValidPath(path) && path != [] && q == path[..|path| - 1] && WalksExtend(s1.mem, s2.mem, root)
    requires u < |s.mem| == |s1.mem| == |s2.mem| && j < ENTRIES && s2.mem[u] == s1.mem[u]
    requires WordMade(s, s1, root, q, u, j)
    ensures WordMade(s, s2, root, path, u, j)
  {
    hide WalksExtend, Missing, OnPath;
    PrefixWords(s.mem, s2.mem, root, path, q, u, j);
    if OnPath(s1.mem, root, q, u, j) {
      StaysOnPath(s1.mem, s2.mem, root, q, u, j);
    }
  }

  lemma MadeNext(s: Space, s1: Space, s2: Space, root: nat, level1: map<nat, nat>, path: seq<nat>, q: seq<nat>,
                 t: nat, i: nat, f: nat)
    requires AtGap(s, s1, root, level1, path, q, t, i) && Entered(s1.mem, s2.mem, t, i, f)
    requires FreeAt(s1.pool, f) && (forall u: nat :: FreeAt(s2.pool, u) ==> FreeAt(s1.pool, u))
    requires WalksExtend(s1.mem, s2.mem, root) && Descend(s2.mem, root, q) == At(t)
    ensures Made(s, s2, root, path)
  {
    hide Sound, PathWords, WalksExtend, FreshEnd, Missing, OnPath;
    forall u: nat, j: nat | u < |s.mem| && j < ENTRIES ensures WordMade(s, s2, root, path, u, j) {
      assert WordMade(s, s1, root, q, u, j);
      if u == f {
        assert FreeAt(s.pool, f);
      } else if u != t {
        ElsewhereWord(s, s1, s2, root, path, q, u, j);
      } else if j == i {
        GapWord(s, s1, s2, root, level1, path, q, t, i);
      } else {
        BesideGap(s, s1, s2, root, level1, path, q, t, i, f, j);
      }
    }
  }

  lemma WordsNext(s: Space, s1: Space, s2: Space, root: nat, level1: map<nat, nat>, path: seq<nat>, q: seq<nat>,
                  t: nat, i: nat, f: nat)
    requires AtGap(s, s1, root, level1, path, q, t, i) && Entered(s1.mem, s2.mem, t, i, f) && f !in level1
    requires WalksExtend(s1.mem, s2.mem, root) && Descend(s2.mem, root, q) == At(t) && Child(s2.mem, t, i) == At(f)
    requires |s.mem| == |s1.mem|
    ensures PathWords(s.mem, s2.mem, root, path)
  {
    hide Made, FreshEnd, StepWord, Entered;
    forall k: nat | k < |path| ensures StepWord(s.mem, s2.mem, root, path, k) {
      if k == |q| {
        GapStep(s.mem, s1.mem, s2.mem, root, path, q, t, i, f);
      } else {
        assert StepWord(s.mem, s1.mem, root, q, k);
        assert q[..k] == path[..k] && q[..k + 1] == path[..k + 1] && path[..|q|] == q;
        UpperStep(s.mem, s1.mem, s2.mem, root, level1, path, q, k, t, i, f);
      }
    }
  }

  lemma GapStep(mem: Memory, mem1: Memory, mem2: Memory, root: nat, path: seq<nat>, q: seq<nat>, t: nat, i: nat, f: nat)
    requires path != [] && q == path[..|path| - 1] && i == path[|path| - 1] && Entered(mem1, mem2, t, i, f)
    requires Descend(mem2, root, q) == At(t) && Child(mem2, t, i) == At(f) && Descend(mem, root, path) == Absent
    requires |mem| == |mem1|
    ensures StepWord(mem, mem2, root, path, |q|)
  {
    DescendOne(mem2, root, path, q, t, i);
    hide Descend, Child;
    assert path[..|q|] == q && path[..|q| + 1] == path;
  }

  lemma DescendOne(mem: Memory, root: nat, path: seq<nat>, q: seq<nat>, t: nat, i: nat)
    requires path != [] && q == path[..|path| - 1] && i == path[|path| - 1] && Descend(mem, root, q) == At(t)
    ensures Descend(mem, root, path) == Child(mem, t, i)
  {
  }

  lemma UpperStep(mem: Memory, mem1: Memory, mem2: Memory, root: nat, level1: map<nat, nat>,
                  path: seq<nat>, q: seq<nat>, k: nat, t: nat, i: nat, f: nat)
    requires Tree(mem1, root, level1) && ValidPath(path) && k < |q| && |q| < |path| && q == path[..|q|]
    requires StepWord(mem, mem1, root, q, k) && q[..k] == path[..k] && q[..k + 1] == path[..k + 1]
    requires Entered(mem1, mem2, t, i, f) && f !in level1 && WalksExtend(mem1, mem2, root)
    requires Descend(mem1, root, q) == At(t)
    ensures StepWord(mem, mem2, root, path, k)
  {
    hide Descend, Child, Tree;
    DescendLevel(mem1, root, level1, q[..k]);
    DescendLevel(mem1, root, level1, q);
    assert ValidPath(q[..k]) && ValidPath(q[..k + 1]);
  }

  /** The creating walk, word by word. */
  lemma {:induction false} WalkWords(s: Space, root: nat, level: map<nat, nat>, path: seq<nat>)
    requires Sound(s, root, level) && Usable(s) && ValidPath(path)
    requires forall k :: 0 <= k <= |path| ==> Descend(s.mem, root, path[..k]) != Untracked
    ensures var (s', w) := WalkCreate(s, root, path);
      && Made(s, s', root, path) && FreshEnd(s, s', root, path, w)
      && (w.At? ==> PathWords(s.mem, s'.mem, root, path))
    decreases |path|
  {
    hide Sound, Made, PathWords, FreshEnd, Usable, SameTranslations;
    assert path[..|path|] == path;
    NothingMade(s, root, level, path);
    if Descend(s.mem, root, path).At? {
      var level' := WalkCreateKeeps(s, root, level, path);
      Settled(s, root, path);
    } else {
      var q, i := path[..|path| - 1], path[|path| - 1];
      forall k | 0 <= k <= |q| ensures Descend(s.mem, root, q[..k]) != Untracked {
        assert q[..k] == path[..k];
      }
      WalkWords(s, root, level, q);
      var level1 := WalkCreateKeeps(s, root, level, q);
      var (s1, w) := WalkCreate(s, root, q);
      if w.At? {
        WordsOfLevel(s, s1, root, level, level1, path, q, w.frame, i);
      } else {
        LongerPath(s, s1, root, path, q);
        NoEnd(s, s1, root, path, w);
      }
    }
  }

  lemma Settled(s: Space, root: nat, path: seq<nat>)
    requires Descend(s.mem, root, path).At?
    ensures forall s', w :: FreshEnd(s, s', root, path, w)
  {
  }

  lemma NoEnd(s: Space, s': Space, root: nat, path: seq<nat>, w: Walk)
    requires !w.At?
    ensures FreshEnd(s, s', root, path, w)
  {
  }

  /** What holds for a prefix of the path holds for the path. */
  lemma LongerPath(s: Space, s': Space, root: nat, path: seq<nat>, q: seq<nat>)
    requires path != [] && q == path[..|path| - 1] && Made(s, s', root, q)
    ensures Made(s, s', root, path)
  {
    forall u: nat, j: nat | u < |s.mem| && j < ENTRIES ensures WordMade(s, s', root, path, u, j) {
      assert WordMade(s, s', root, q, u, j);
      PrefixWords(s.mem, s'.mem, root, path, q, u, j);
    }
  }

  lemma PrefixWords(mem: Memory, mem': Memory, root: nat, path: seq<nat>, q: seq<nat>, u: nat, j: nat)
    requires path != [] && q == path[..|path| - 1]
    ensures Missing(mem, root, q, u, j) ==> Missing(mem, root, path, u, j)
    ensures OnPath(mem', root, q, u, j) ==> OnPath(mem', root, path, u, j)
  {
    if Missing(mem, root, q, u, j) {
      var k: nat :| k < |q| && StopsAt(mem, root, q, k, u, j);
      assert q[..k] == path[..k] && q[..k + 1] == path[..k + 1];
      assert StopsAt(mem, root, path, k, u, j);
    }
    if OnPath(mem', root, q, u, j) {
      var k: nat :| k < |q| && Descend(mem', root, q[..k]) == At(u) && q[k] == j;
      assert q[..k] == path[..k];
      assert Descend(mem', root, path[..k]) == At(u);
    }
  }

  /* ---- vmm_map and vmm_unmap ---- */

  ghost predicate LeafWritten(mem': Memory, root: nat, virt: nat, phys: nat, flags: nat) {
    var w := Descend(mem', root, Path(virt));
    w.At? && w.frame < |mem'| && LeafBits(mem'[w.frame][Index(virt, 1)], phys, flags)
  }

  /** All that changes: pages that were free, the entry at which the old walk stopped,
      and the last-level entry. Pages that were free hold nothing but these. */
  ghost predicate OnlyWrites(s: Space, s': Space, root: nat, virt: nat) {
    |s'.mem| == |s.mem| && forall u: nat, j: nat :: u < |s.mem| && j < ENTRIES ==>
      WordMade(s, s', root, Path(virt), u, j) || (Descend(s'.mem, root, Path(virt)) == At(u) && j == Index(virt, 1))
  }

  /** What a successful vmm_map leaves in memory. */
  ghost predicate MapWritten(s: Space, s': Space, root: nat, virt: nat, phys: nat, flags: nat) {
    && LeafWritten(s'.mem, root, virt, phys, flags)
    && PathWords(s.mem, s'.mem, root, Path(virt))
    && OnlyWrites(s, s', root, virt)
  }

  /** A successful vmm_map stores the given frame and flags; the entries above it that
      were missing are those of new tables, present and writable; and no other word of
      memory in use changes. A failed one stores no last-level entry. */
  lemma MapWords(s: Space, root: nat, level: map<nat, nat>, virt: nat, phys: nat, flags: nat, s': Space, ok: bool)
    requires Sound(s, root, level) && Usable(s) && Walkable(s.mem, root, virt)
    requires (s', ok) == MapPage(s, root, virt, phys, flags)
    ensures if ok then MapWritten(s, s', root, virt, phys, flags) else Made(s, s', root, Path(virt))
  {
    hide Sound, Usable, Walkable, PathWords, Made, LeafBits, FreshEnd, SameTranslations, WalksExtend, OnlyWrites;
    PathIsValid(virt);
    WalkableWalks(s.mem, root, virt);
    WalkWords(s, root, level, Path(virt));
    var level1 := WalkCreateKeeps(s, root, level, Path(virt));
    var (s1, w) := WalkCreate(s, root, Path(virt));
    if w.At? {
      LeafWord(phys, flags, LeafEntry(phys, flags));
      LeafLevel(s1, root, level1, virt, w.frame);
      EndOfWalk(s, s1, root, level, virt, w.frame);
      LeafIsLast(s, s1, s', root, level1, virt, w.frame, LeafEntry(phys, flags));
    }
  }

  /** The last-level table is an old one, or empty. */
  lemma EndOfWalk(s: Space, s1: Space, root: nat, level: map<nat, nat>, virt: nat, t: nat)
    requires Sound(s, root, level) && FreshEnd(s, s1, root, Path(virt), At(t)) && t < |s1.mem|
    requires Descend(s.mem, root, Path(virt)).At? ==> s1 == s && Descend(s.mem, root, Path(virt)) == At(t)
    ensures FreeAt(s.pool, t) ==> s1.mem[t] == Zeros(ENTRIES)
  {
    DescendLevel(s.mem, root, level, Path(virt));
  }

  /** What vmm_map leaves behind. If it succeeds, one page has the new entry, every
      other translation is as before, and memory holds what MapWritten says. If it
      fails, no page is free, all translations are as before, and only new tables have
      been entered. */
  ghost predicate MapDone(s: Space, s': Space, root: nat, virt: nat, phys: nat, flags: nat, ok: bool) {
    if ok
    then
      && Updates(s.mem, s'.mem, root, virt, EntryMeaning(LeafEntry(phys, flags)))
      && MapWritten(s, s', root, virt, phys, flags)
    else SameLookups(s.mem, s'.mem, root) && NoFreePage(s'.pool) && Made(s, s', root, Path(virt))
  }

  lemma MapOutcome(s: Space, root: nat, level: map<nat, nat>, virt: nat, phys: nat, flags: nat)
    returns (level': map<nat, nat>)
    requires Sound(s, root, level) && Usable(s) && Walkable(s.mem, root, virt)
    ensures var (s', ok) := MapPage(s, root, virt, phys, flags);
      Sound(s', root, level') && MapDone(s, s', root, virt, phys, flags, ok)
  {
    hide Sound, MapPage, MapWritten, Made, Updates, SameLookups, NoFreePage, Walkable;
    var (s', ok) := MapPage(s, root, virt, phys, flags);
    level' := MapRefinesUpdate(s, root, level, virt, phys, flags, s', ok);
    MapWords(s, root, level, virt, phys, flags, s', ok);
  }

  lemma LeafLevel(s: Space, root: nat, level: map<nat, nat>, virt: nat, t: nat)
    requires Sound(s, root, level) && Descend(s.mem, root, Path(virt)) == At(t)
    ensures Tree(s.mem, root, level) && t in level && level[t] == 1 && t < |s.mem|
  {
    DescendLevel(s.mem, root, level, Path(virt));
  }

  /** Writing the last-level entry leaves the path to it as it is. */
  lemma LeafIsLast(s: Space, s1: Space, s': Space, root: nat, level: map<nat, nat>, virt: nat, t: nat, e: nat)
    requires Tree(s1.mem, root, level) && t in level && level[t] == 1 && t < |s1.mem|
    requires Descend(s1.mem, root, Path(virt)) == At(t) && s' == s1.(mem := SetEntry(s1.mem, t, Index(virt, 1), e))
    requires Made(s, s1, root, Path(virt)) && PathWords(s.mem, s1.mem, root, Path(virt))
    requires FreeAt(s.pool, t) ==> s1.mem[t] == Zeros(ENTRIES)
    ensures Descend(s'.mem, root, Path(virt)) == At(t) && s'.mem[t][Index(virt, 1)] == e
    ensures PathWords(s.mem, s'.mem, root, Path(virt)) && OnlyWrites(s, s', root, virt)
  {
    hide Tree, Made, Index, Path;
    var path, i := Path(virt), Index(virt, 1);
    forall p: seq<nat> | |p| <= 3 ensures Descend(s'.mem, root, p) == Descend(s1.mem, root, p) {
      LeafKeepsWalks(s1.mem, root, level, t, i, e, p);
    }
    forall k: nat | k < |path| ensures StepWord(s.mem, s'.mem, root, path, k) {
      assert StepWord(s.mem, s1.mem, root, path, k);
      DescendLevel(s1.mem, root, level, path[..k]);
    }
    OthersStay(s, s1, s', root, path, t, i, e);
  }

  lemma OthersStay(s: Space, s1: Space, s': Space, root: nat, path: seq<nat>, t: nat, i: nat, e: nat)
    requires Made(s, s1, root, path) && i < ENTRIES && t < |s1.mem| && s' == s1.(mem := SetEntry(s1.mem, t, i, e))
    requires forall p: seq<nat> :: |p| <= 3 ==> Descend(s'.mem, root, p) == Descend(s1.mem, root, p)
    requires |path| == 3 && (FreeAt(s.pool, t) ==> s1.mem[t] == Zeros(ENTRIES))
    ensures |s'.mem| == |s.mem|
    ensures forall u: nat, j: nat :: u < |s.mem| && j < ENTRIES ==>
      WordMade(s, s', root, path, u, j) || (u == t && j == i)
  {
    forall u: nat, j: nat | u < |s.mem| && j < ENTRIES && !(u == t && j == i)
      ensures WordMade(s, s', root, path, u, j)
    {
      assert WordMade(s, s1, root, path, u, j);
      WordStays(s, s1, s', root, path, u, j, t, i, e);
    }
  }

  lemma WordStays(s: Space, s1: Space, s': Space, root: nat, path: seq<nat>, u: nat, j: nat, t: nat, i: nat, e: nat)
    requires u < |s.mem| == |s1.mem| && j < ENTRIES && i < ENTRIES && t < |s1.mem| && !(u == t && j == i)
    requires s' == s1.(mem := SetEntry(s1.mem, t, i, e)) && WordMade(s, s1, root, path, u, j)
    requires forall p: seq<nat> :: |p| <= 3 ==> Descend(s'.mem, root, p) == Descend(s1.mem, root, p)
    requires |path| == 3 && (FreeAt(s.pool, t) ==> s1.mem[t] == Zeros(ENTRIES))
    ensures WordMade(s, s', root, path, u, j)
  {
    if OnPath(s1.mem, root, path, u, j) {
      var k: nat :| k < |path| && Descend(s1.mem, root, path[..k]) == At(u) && path[k] == j;
      assert Descend(s'.mem, root, path[..k]) == At(u);
    }
  }

  /** With the present flag the page then translates to that very word. */
  lemma MappedWord(mem: Memory, root: nat, virt: nat, phys: nat, flags: nat)
    requires LeafWritten(mem, root, virt, phys, flags) && And(flags, PRESENT) != 0
    requires phys % PAGE_SIZE == 0 && phys < 0x10_0000_0000_0000 && And(flags, ADDR_MASK) == 0
    ensures Lookup(mem, root, virt) == Maps(phys + flags)
    ensures GetPhys(mem, root, virt) == phys + virt % PAGE_SIZE
  {
    hide LeafBits, And, Or, Present, Descend, Index, Path;
    var e := mem[Descend(mem, root, Path(virt)).frame][Index(virt, 1)];
    LeafSum(e, phys, flags);
    PresentBit(e, phys, flags);
    AddressOfLeaf(e, phys, flags);
    PhysOfEntry(e, phys, virt);
  }

  lemma LeafSum(e: nat, phys: nat, flags: nat)
    requires LeafBits(e, phys, flags)
    requires phys % PAGE_SIZE == 0 && phys < 0x10_0000_0000_0000 && And(flags, ADDR_MASK) == 0
    ensures e == phys + flags
  {
  }

  lemma PresentBit(e: nat, phys: nat, flags: nat)
    requires LeafBits(e, phys, flags) && And(flags, PRESENT) != 0
    ensures Present(e)
  {
    AddressBits(PRESENT);
    assert And(PRESENT, ADDR_MASK) == 0;
    assert And(e, PRESENT) == And(flags, PRESENT);
  }

  lemma AddressOfLeaf(e: nat, phys: nat, flags: nat)
    requires LeafBits(e, phys, flags)
    requires phys % PAGE_SIZE == 0 && phys < 0x10_0000_0000_0000 && And(flags, ADDR_MASK) == 0
    ensures And(e, ADDR_MASK) == phys
  {
    AddressStays(phys);
    OrZero(phys);
  }

  lemma PhysOfEntry(e: nat, phys: nat, virt: nat)
    requires And(e, ADDR_MASK) == phys && phys % PAGE_SIZE == 0
    ensures Or(And(e, ADDR_MASK), And(virt, OFFSET_MASK)) == phys + virt % PAGE_SIZE
  {
    AddressBits(virt);
    WithOffset(phys, virt % PAGE_SIZE);
  }

  /** vmm_get_phys on any word: its address bits with the offset, or the invalid
      address for a page without translation. */
  lemma PhysOf(mem: Memory, root: nat, virt: nat)
    ensures match Lookup(mem, root, virt)
      case Maps(e) => GetPhys(mem, root, virt) == e % 0x10_0000_0000_0000 - e % PAGE_SIZE + virt % PAGE_SIZE
      case _ => GetPhys(mem, root, virt) == 0xFFFF_FFFF_FFFF_FFFF
  {
    if Lookup(mem, root, virt).Maps? {
      var e := Lookup(mem, root, virt).entry;
      AddressBits(e);
      AddressIsPage(e);
      AddressBits(virt);
      WithOffset(And(e, ADDR_MASK), virt % PAGE_SIZE);
    }
  }

  /** One word differs, and it is 0. */
  ghost predicate UnmapWritten(mem: Memory, mem': Memory, root: nat, virt: nat) {
    var w := Descend(mem, root, Path(virt));
    && w.At? && w.frame < |mem| == |mem'|
    && forall u: nat, j: nat :: u < |mem| && j < ENTRIES ==>
         mem'[u][j] == if u == w.frame && j == Index(virt, 1) then 0 else mem[u][j]
  }

  /** A successful vmm_unmap clears the last-level entry and writes nothing else; a
      failed one writes nothing. */
  lemma UnmapWords(s: Space, root: nat, virt: nat, s': Space, ok: bool)
    requires Usable(s) && (s', ok) == UnmapPage(s, root, virt)
    ensures if ok then UnmapWritten(s.mem, s'.mem, root, virt) else s' == s
  {
  }

  /** With the tables in place and no entry before, mapping and unmapping a page
      leaves every word of memory as it was. */
  lemma MapUnmapRestoresMemory(s: Space, root: nat, level: map<nat, nat>, virt: nat, phys: nat, flags: nat,
                               s2: Space, ok2: bool, s3: Space, ok3: bool)
    requires Sound(s, root, level) && Usable(s) && Walkable(s.mem, root, virt) && Descend(s.mem, root, Path(virt)).At?
    requires (s2, ok2) == MapPage(s, root, virt, phys, flags) && Usable(s2) && (s3, ok3) == UnmapPage(s2, root, virt)
    requires And(flags, PRESENT) != 0
    requires var t := Descend(s.mem, root, Path(virt)).frame; t < |s.mem| ==> s.mem[t][Index(virt, 1)] == 0
    ensures ok2 && ok3 && s3.mem == s.mem
  {
    PathIsValid(virt);
    WalkableWalks(s.mem, root, virt);
    var level1 := WalkCreateKeeps(s, root, level, Path(virt));
    var t := Descend(s.mem, root, Path(virt)).frame;
    LeafLevel(s, root, level, virt, t);
    LeafKeepsWalks(s.mem, root, level, t, Index(virt, 1), LeafEntry(phys, flags), Path(virt));
    LeafParts(phys, flags, LeafEntry(phys, flags));
    assert s3.mem[t] == s.mem[t];
  }
}
