/** Whole runs of the page-table manager: any sequence of vmm_map and vmm_unmap
    replays a sequence of updates to a map from addresses to translations. */
module VmmRuns {
  import opened Bits
  import opened BuddyPool
  import opened BuddyOps
  import opened PageTables
  import opened VmmOps

  /* ---- The tables of a tree, without levels ---- */

  ghost predicate Reaches(mem: Memory, root: nat, t: nat) {
    exists path :: ValidPath(path) && Descend(mem, root, path) == At(t)
  }

  /** The levels name exactly the tables that a walk from the root can reach. */
  lemma ReachesIff(mem: Memory, root: nat, level: map<nat, nat>, t: nat)
    requires Tree(mem, root, level)
    ensures t in level <==> Reaches(mem, root, t)
  {
    if t in level {
      var path := PathTo(mem, root, level, t);
    }
    forall path | ValidPath(path) && Descend(mem, root, path) == At(t) ensures t in level {
      DescendLevel(mem, root, level, path);
    }
  }

  lemma {:induction false} PathTo(mem: Memory, root: nat, level: map<nat, nat>, t: nat) returns (path: seq<nat>)
    requires Tree(mem, root, level) && t in level
    ensures ValidPath(path) && |path| == 4 - level[t] && Descend(mem, root, path) == At(t)
    decreases 4 - level[t]
  {
    path := [];
    if t != root {
      assert HasParent(mem, level, t);
      var parent, i :| parent in level && level[parent] > 1 && Child(mem, parent, i) == At(t);
      var above := PathTo(mem, root, level, parent);
      path := above + [i];
      assert path[..|path| - 1] == above;
    }
  }

  /** Two ways to give the tables of one memory their levels are the same. */
  lemma LevelsUnique(mem: Memory, root: nat, level: map<nat, nat>, level': map<nat, nat>)
    requires Tree(mem, root, level) && Tree(mem, root, level')
    ensures level == level'
  {
    forall t ensures t in level <==> t in level' {
      if t >= 0 {
        ReachesIff(mem, root, level, t);
        ReachesIff(mem, root, level', t);
      }
    }
    forall t | t in level ensures level[t] == level'[t] {
      var path := PathTo(mem, root, level, t);
      DescendLevel(mem, root, level', path);
    }
  }

  ghost predicate WellFormed(s: Space, root: nat) {
    exists level :: Sound(s, root, level)
  }

  /* ---- Runs ---- */

  /** What happens between boot and now: mappings and unmappings, pages taken from
      and given back to the buddy allocator, and writes to memory. */
  datatype Op =
    | Map(virt: nat, phys: nat, flags: nat)
    | Unmap(virt: nat)
    | Take(pages: nat)
    | Give(addr: nat, pages: nat)
    | Write(frame: nat, content: Table)

  /** Walks meet no huge page, what is freed holds no table, and nobody but the
      page-table manager writes to tables. */
  ghost predicate Admitted(s: Space, root: nat, op: Op)
    requires Usable(s)
  {
    match op
    case Map(virt, _, _) => Walkable(s.mem, root, virt)
    case Unmap(virt) =>
      && Walkable(s.mem, root, virt)
      && (Lookup(s.mem, root, virt).Maps? ==> FreesNoTable(s, root, Lookup(s.mem, root, virt).entry))
    case Take(_) => true
    case Give(addr, pages) => FreeContract(s.pool, addr, pages) && GivesNoTable(s, root, addr, pages)
    case Write(f, _) => f < |s.mem| && !Reaches(s.mem, root, f)
  }

  ghost predicate FreesNoTable(s: Space, root: nat, entry: nat) {
    FreeActs(s.pool, And(entry, ADDR_MASK), 1) ==> !Reaches(s.mem, root, FrameOf(And(entry, ADDR_MASK)))
  }

  ghost predicate GivesNoTable(s: Space, root: nat, addr: nat, pages: nat)
    requires Usable(s)
  {
    FreeActs(s.pool, addr, pages) ==>
      var f, o := FrameOf(addr), OrderOf(s.pool, pages);
      forall i :: f <= i < f + Pow2(o) ==> !Reaches(s.mem, root, i)
  }

  ghost function Perform(s: Space, root: nat, op: Op): (r: (Space, bool))
    requires Usable(s) && Admitted(s, root, op)
    ensures Usable(r.0)
  {
    match op
    case Map(virt, phys, flags) => MapPage(s, root, virt, phys, flags)
    case Unmap(virt) =>
      UnmapUsable(s, root, virt);
      UnmapPage(s, root, virt)
    case Take(pages) =>
      AllocPagesKeeps(s.pool, pages);
      (s.(pool := AllocPages(s.pool, pages).0), AllocPages(s.pool, pages).1 != INVALID_ADDRESS)
    case Give(addr, pages) =>
      FreePagesKeeps(s.pool, addr, pages);
      (s.(pool := FreePages(s.pool, addr, pages)), true)
    case Write(f, content) => (s.(mem := s.mem[f := content]), true)
  }

  lemma UnmapUsable(s: Space, root: nat, virt: nat)
    requires Usable(s)
    ensures Usable(UnmapPage(s, root, virt).0)
  {
    var w := Descend(s.mem, root, Path(virt));
    if w.At? && w.frame < |s.mem| {
      FreeOwned(s.pool, map[], s.mem[w.frame][Index(virt, 1)]);
    }
  }

  ghost predicate AdmittedRun(s: Space, root: nat, ops: seq<Op>)
    requires Usable(s)
    decreases ops
  {
    ops == [] || (Admitted(s, root, ops[0]) && AdmittedRun(Perform(s, root, ops[0]).0, root, ops[1..]))
  }

  ghost function RunAll(s: Space, root: nat, ops: seq<Op>): Space
    requires Usable(s) && AdmittedRun(s, root, ops)
    decreases ops
  {
    if ops == [] then s else RunAll(Perform(s, root, ops[0]).0, root, ops[1..])
  }

  /** The map of all translations after an operation on it: a mapping or unmapping
      that succeeds updates one page, and nothing else does anything. */
  function Updated(m: nat -> Translation, op: Op, ok: bool): nat -> Translation {
    match op
    case Map(virt, phys, flags) => if ok then Update(m, virt, EntryMeaning(LeafEntry(phys, flags))) else m
    case Unmap(virt) => if ok then Update(m, virt, Unmapped) else m
    case _ => m
  }

  function Update(m: nat -> Translation, virt: nat, tr: Translation): nat -> Translation {
    (virt': nat) => if SamePage(virt, virt') then tr else m(virt')
  }

  /** The same operations on a plain map. */
  ghost function Replay(s: Space, root: nat, ops: seq<Op>, m: nat -> Translation): nat -> Translation
    requires Usable(s) && AdmittedRun(s, root, ops)
    decreases ops
  {
    if ops == [] then m
    else
      var (s', ok) := Perform(s, root, ops[0]);
      Replay(s', root, ops[1..], Updated(m, ops[0], ok))
  }

  /** m says what the tables say. */
  ghost predicate Represents(mem: Memory, root: nat, m: nat -> Translation) {
    forall virt: nat :: Lookup(mem, root, virt) == m(virt)
  }

  /** One operation keeps the tree well formed and has the same effect on the
      translations as on a plain map. A mapping fails only when no page is free,
      an unmapping exactly on a page without translation. */
  lemma PerformRefines(s: Space, root: nat, op: Op, s': Space, ok: bool, m: nat -> Translation)
    requires Usable(s) && WellFormed(s, root) && Admitted(s, root, op) && (s', ok) == Perform(s, root, op)
    requires Represents(s.mem, root, m)
    ensures WellFormed(s', root) && Represents(s'.mem, root, Updated(m, op, ok))
    ensures !ok && op.Map? ==> NoFreePage(s'.pool)
    ensures op.Unmap? ==> (ok <==> Lookup(s.mem, root, op.virt).Maps?)
  {
    hide Sound, Usable, Walkable, Lookup, NoFreePage, FreesNoTable, GivesNoTable, Reaches, MapPage, UnmapPage;
    var level :| Sound(s, root, level);
    match op
    case Map(virt, phys, flags) => MapStep(s, root, level, virt, phys, flags, s', ok, m);
    case Unmap(virt) => UnmapStep(s, root, level, virt, s', ok, m);
    case Take(pages) => TakeKeepsTables(s, root, level, pages, s');
    case Give(addr, pages) => GiveKeepsTables(s, root, level, addr, pages, s');
    case Write(f, content) => WriteStep(s, root, level, f, content, s', m);
  }

  lemma MapStep(s: Space, root: nat, level: map<nat, nat>, virt: nat, phys: nat, flags: nat, s': Space, ok: bool,
                m: nat -> Translation)
    requires Usable(s) && Sound(s, root, level) && Walkable(s.mem, root, virt) && Represents(s.mem, root, m)
    requires (s', ok) == MapPage(s, root, virt, phys, flags)
    ensures WellFormed(s', root) && (!ok ==> NoFreePage(s'.pool))
    ensures Represents(s'.mem, root, if ok then Update(m, virt, EntryMeaning(LeafEntry(phys, flags))) else m)
  {
    hide Sound, Walkable, Lookup, MapPage;
    var level' := MapRefinesUpdate(s, root, level, virt, phys, flags, s', ok);
  }

  lemma UnmapStep(s: Space, root: nat, level: map<nat, nat>, virt: nat, s': Space, ok: bool, m: nat -> Translation)
    requires Usable(s) && Sound(s, root, level) && Walkable(s.mem, root, virt) && Represents(s.mem, root, m)
    requires Lookup(s.mem, root, virt).Maps? ==> FreesNoTable(s, root, Lookup(s.mem, root, virt).entry)
    requires (s', ok) == UnmapPage(s, root, virt)
    ensures WellFormed(s', root) && (ok <==> Lookup(s.mem, root, virt).Maps?)
    ensures Represents(s'.mem, root, if ok then Update(m, virt, Unmapped) else m)
  {
    hide Walkable, Lookup, UnmapPage, Reaches;
    UnmapRemovesOne(s, root, level, virt, s', ok);
    if ok {
      ReachesIff(s.mem, root, level, FrameOf(And(Lookup(s.mem, root, virt).entry, ADDR_MASK)));
    }
  }

  lemma WriteStep(s: Space, root: nat, level: map<nat, nat>, f: nat, content: Table, s': Space, m: nat -> Translation)
    requires Sound(s, root, level) && f < |s.mem| && !Reaches(s.mem, root, f) && Represents(s.mem, root, m)
    requires s' == s.(mem := s.mem[f := content])
    ensures WellFormed(s', root) && Represents(s'.mem, root, m)
  {
    hide Reaches;
    ReachesIff(s.mem, root, level, f);
    ForeignKeepsTree(s.mem, root, level, s'.mem);
    assert Sound(s', root, level);
    forall virt: nat ensures Lookup(s'.mem, root, virt) == m(virt) {
      assert Lookup(s'.mem, root, virt) == LookupAt(s.mem, root, Path(virt), Index(virt, 1));
    }
  }

  lemma TakeKeepsTables(s: Space, root: nat, level: map<nat, nat>, pages: nat, s': Space)
    requires Sound(s, root, level) && s' == s.(pool := AllocPages(s.pool, pages).0)
    ensures Sound(s', root, level)
  {
    AllocPagesKeeps(s.pool, pages);
    var (p', addr) := AllocPages(s.pool, pages);
    if addr != INVALID_ADDRESS {
      forall t | t in level ensures !FreeAt(p', t) {
        var f, o := addr / PAGE_SIZE, OrderOf(s.pool, pages);
        assert !FreeAt(s.pool, t) && !(f <= t < f + Pow2(o));
      }
    }
  }

  lemma GiveKeepsTables(s: Space, root: nat, level: map<nat, nat>, addr: nat, pages: nat, s': Space)
    requires Sound(s, root, level) && s' == s.(pool := FreePages(s.pool, addr, pages))
    requires FreeContract(s.pool, addr, pages) && GivesNoTable(s, root, addr, pages)
    ensures Sound(s', root, level)
  {
    FreePagesKeeps(s.pool, addr, pages);
    forall t | t in level ensures !FreeAt(s'.pool, t) {
      ReachesIff(s.mem, root, level, t);
      assert !FreeAt(s.pool, t);
    }
  }

  /** An admitted run keeps the tree well formed, and afterwards every address
      translates as in the plain map with the same updates. */
  lemma {:induction false} RunRefines(s: Space, root: nat, ops: seq<Op>, m: nat -> Translation)
    requires Usable(s) && WellFormed(s, root) && AdmittedRun(s, root, ops) && Represents(s.mem, root, m)
    ensures WellFormed(RunAll(s, root, ops), root)
    ensures Represents(RunAll(s, root, ops).mem, root, Replay(s, root, ops, m))
    decreases ops
  {
    if ops != [] {
      var (s', ok) := Perform(s, root, ops[0]);
      PerformRefines(s, root, ops[0], s', ok, m);
      RunRefines(s', root, ops[1..], Updated(m, ops[0], ok));
    }
  }

  /** An unmapping that is not admitted breaks the tree: one of its tables is free. */
  lemma UnmapWellFormedIff(s: Space, root: nat, virt: nat, s': Space, ok: bool)
    requires Usable(s) && WellFormed(s, root) && Walkable(s.mem, root, virt) && (s', ok) == UnmapPage(s, root, virt)
    ensures WellFormed(s', root) <==> Admitted(s, root, Unmap(virt))
  {
    var level :| Sound(s, root, level);
    UnmapRemovesOne(s, root, level, virt, s', ok);
    if ok {
      var entry := Lookup(s.mem, root, virt).entry;
      ReachesIff(s.mem, root, level, FrameOf(And(entry, ADDR_MASK)));
      UnmapKeepsTree(s, root, level, virt, s');
      if WellFormed(s', root) {
        var level' :| Sound(s', root, level');
        LevelsUnique(s'.mem, root, level, level');
      }
    }
  }

  /** It happens: map a table of the tree like any other page, and unmap it again. */
  lemma UnmappingATable(s: Space, root: nat, virt: nat, t: nat, addr: nat, flags: nat, s2: Space, ok2: bool,
                        s3: Space, ok3: bool)
    requires Usable(s) && WellFormed(s, root) && Walkable(s.mem, root, virt) && Descend(s.mem, root, Path(virt)).At?
    requires Reaches(s.mem, root, t) && t != 0 && t < |s.pool.page| && s.pool.page[t] == ALLOCATED &&
      addr == t * PAGE_SIZE
    requires And(flags, PRESENT) != 0 && And(flags, ADDR_MASK) == 0
    requires (s2, ok2) == MapPage(s, root, virt, addr, flags)
    requires Usable(s2) && (s3, ok3) == UnmapPage(s2, root, virt)
    ensures ok2 && ok3 && !WellFormed(s3, root)
  {
    hide Walkable, MapPage, UnmapPage, Reaches, Sound, Descend;
    var level :| Sound(s, root, level);
    var e := LeafEntry(addr, flags);
    FreeingActs(s.pool, t, addr);
    PlainEntry(addr, flags, e);
    MapsThePage(s, root, level, virt, addr, flags, s2, ok2, e);
    TableStays(s, root, level, virt, addr, flags, s2, t);
    UnmapWellFormedIff(s2, root, virt, s3, ok3);
    UnmapOfTable(s2, root, virt, t, addr, e, s3, ok3);
  }

  lemma UnmapOfTable(s: Space, root: nat, virt: nat, t: nat, addr: nat, e: nat, s': Space, ok: bool)
    requires Usable(s) && WellFormed(s, root) && Walkable(s.mem, root, virt) && (s', ok) == UnmapPage(s, root, virt)
    requires Reaches(s.mem, root, t) && t != 0 && t < |s.pool.page| && s.pool.page[t] == ALLOCATED
    requires Lookup(s.mem, root, virt) == Maps(e) && And(e, ADDR_MASK) == addr == t * PAGE_SIZE
    ensures ok && !Admitted(s, root, Unmap(virt))
  {
    hide Walkable, UnmapPage, Reaches, Lookup, Sound, FreeActs, FrameOf;
    var level :| Sound(s, root, level);
    UnmapRemovesOne(s, root, level, virt, s', ok);
    FreeingActs(s.pool, t, addr);
  }

  lemma FreeingActs(p: Pool, t: nat, addr: nat)
    requires Valid(p) && t != 0 && t < |p.page| && p.page[t] == ALLOCATED && addr == t * PAGE_SIZE
    ensures FreeActs(p, addr, 1) && FrameOf(addr) == t && addr < 0x10_0000_0000_0000 && addr % PAGE_SIZE == 0
  {
    FrameIsNotNil(p, t);
    assert addr / PAGE_SIZE == t && addr % PAGE_SIZE == 0;
  }

  lemma PlainEntry(addr: nat, flags: nat, e: nat)
    requires addr < 0x10_0000_0000_0000 && addr % PAGE_SIZE == 0 && e == LeafEntry(addr, flags)
    requires And(flags, PRESENT) != 0 && And(flags, ADDR_MASK) == 0
    ensures EntryMeaning(e) == Maps(e) && And(e, ADDR_MASK) == addr
  {
    AddressStays(addr);
    LeafParts(addr, flags, e);
    OrZero(addr);
  }

  lemma MapsThePage(s: Space, root: nat, level: map<nat, nat>, virt: nat, addr: nat, flags: nat, s2: Space,
                    ok2: bool, e: nat)
    requires Usable(s) && Sound(s, root, level) && Walkable(s.mem, root, virt) && Descend(s.mem, root, Path(virt)).At?
    requires (s2, ok2) == MapPage(s, root, virt, addr, flags) && e == LeafEntry(addr, flags) &&
      EntryMeaning(e) == Maps(e)
    ensures ok2 && s2.pool == s.pool && WellFormed(s2, root) && Walkable(s2.mem, root, virt)
    ensures Lookup(s2.mem, root, virt) == Maps(e)
  {
    hide Walkable, MapPage, Sound, Descend, LeafEntry, EntryMeaning, Lookup;
    var level2 := MapRefinesUpdate(s, root, level, virt, addr, flags, s2, ok2);
    assert SamePage(virt, virt);
    MappedWalkable(s2.mem, root, virt);
  }

  lemma TableStays(s: Space, root: nat, level: map<nat, nat>, virt: nat, phys: nat, flags: nat, s2: Space, t: nat)
    requires Usable(s) && Sound(s, root, level) && Walkable(s.mem, root, virt) && Descend(s.mem, root, Path(virt)).At?
    requires s2 == MapPage(s, root, virt, phys, flags).0 && Reaches(s.mem, root, t)
    ensures Reaches(s2.mem, root, t)
  {
    PathIsValid(virt);
    WalkableWalks(s.mem, root, virt);
    var same := WalkCreateKeeps(s, root, level, Path(virt));
    var leaf := Descend(s.mem, root, Path(virt)).frame;
    DescendLevel(s.mem, root, level, Path(virt));
    LeafKeepsTree(s.mem, root, level, leaf, Index(virt, 1), LeafEntry(phys, flags), s2.mem);
    ReachesIff(s.mem, root, level, t);
    ReachesIff(s2.mem, root, level, t);
  }

  lemma UnmapKeepsTree(s: Space, root: nat, level: map<nat, nat>, virt: nat, s': Space)
    requires Usable(s) && Sound(s, root, level) && (s', true) == UnmapPage(s, root, virt)
    ensures Tree(s'.mem, root, level)
  {
    PathIsValid(virt);
    var t := Descend(s.mem, root, Path(virt)).frame;
    DescendLevel(s.mem, root, level, Path(virt));
    LeafKeepsTree(s.mem, root, level, t, Index(virt, 1), 0, s'.mem);
  }
}
