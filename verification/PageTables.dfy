/** The page-table tree of kernel/src/memory/vmm.c on values: physical memory is
    a sequence of page-sized tables indexed by frame, and table pages come from
    the buddy pool. */
module PageTables {
  import opened Bits
  import opened BuddyPool
  import opened BuddyOps
  import opened BuddyCanonical

  const PRESENT: nat := 0x1
  const WRITABLE: nat := 0x2
  const HUGE: nat := 0x80
  const ADDR_MASK: nat := 0x000F_FFFF_FFFF_F000
  const OFFSET_MASK: nat := 0xFFF
  const INDEX_MASK: nat := 0x1FF
  const ENTRIES: nat := 512

  /** A page read as a table of 64-bit entries. */
  type Table = t: seq<nat> | |t| == ENTRIES witness Zeros(ENTRIES)
  type Memory = seq<Table>

  function Zeros(n: nat): (t: seq<nat>)
    ensures |t| == n && forall i :: 0 <= i < n ==> t[i] == 0
  {
    if n == 0 then [] else Zeros(n - 1) + [0]
  }

  predicate Present(entry: nat) { And(entry, PRESENT) != 0 }

  predicate MapsHuge(entry: nat) { And(entry, HUGE) != 0 }

  function TableFrame(entry: nat): nat { And(entry, ADDR_MASK) / PAGE_SIZE }

  /** The index macros: nine bits of the address for each level, 4 down to 1. */
  function Shift(level: nat): nat
    requires 1 <= level <= 4
  {
    if level == 4 then 0x80_0000_0000 else if level == 3 then 0x4000_0000 else if level == 2 then 0x20_0000 else 0x1000
  }

  function Index(virt: nat, level: nat): (i: nat)
    requires 1 <= level <= 4
    ensures i == virt / Shift(level) % ENTRIES
  {
    Pow2Values();
    AndMaskIsDifference(virt / Shift(level), 0, 9, 1, 512, INDEX_MASK);
    And(virt / Shift(level), INDEX_MASK)
  }

  /** The indices into the upper three levels of tables. */
  function Path(virt: nat): (path: seq<nat>)
    ensures |path| == 3
  {
    [Index(virt, 4), Index(virt, 3), Index(virt, 2)]
  }

  /** Both addresses use the same entry of the same last-level table. */
  predicate SamePage(virt: nat, virt': nat) {
    Path(virt) == Path(virt') && Index(virt, 1) == Index(virt', 1)
  }

  /* ---- Walking ---- */

  /** Following an entry leads to a table, or nowhere, or -- for a huge page or a
      table outside the modelled memory -- to something the code does not track. */
  datatype Walk = At(frame: nat) | Absent | Untracked

  function Child(mem: Memory, t: nat, i: nat): Walk {
    if t >= |mem| || i >= ENTRIES then Untracked
    else if !Present(mem[t][i]) then Absent
    else if MapsHuge(mem[t][i]) || TableFrame(mem[t][i]) >= |mem| then Untracked
    else At(TableFrame(mem[t][i]))
  }

  function Descend(mem: Memory, root: nat, path: seq<nat>): Walk
    decreases |path|
  {
    if path == [] then At(root)
    else
      match Descend(mem, root, path[..|path| - 1])
      case At(t) => Child(mem, t, path[|path| - 1])
      case w => w
  }

  datatype Translation = Maps(entry: nat) | Unmapped | Unknown

  function EntryMeaning(entry: nat): Translation {
    if Present(entry) then Maps(entry) else Unmapped
  }

  /** What entry i of the last-level table at the end of a path says. */
  function LookupAt(mem: Memory, root: nat, path: seq<nat>, i: nat): Translation {
    match Descend(mem, root, path)
    case At(t) => if t < |mem| && i < ENTRIES then EntryMeaning(mem[t][i]) else Unknown
    case Absent => Unmapped
    case Untracked => Unknown
  }

  /** What the tables say about a virtual address. */
  function Lookup(mem: Memory, root: nat, virt: nat): Translation {
    LookupAt(mem, root, Path(virt), Index(virt, 1))
  }

  /** vmm_get_phys: the frame of the entry with the offset of the address. */
  function GetPhys(mem: Memory, root: nat, virt: nat): nat {
    match Lookup(mem, root, virt)
    case Maps(entry) => Or(And(entry, ADDR_MASK), And(virt, OFFSET_MASK))
    case _ => INVALID_ADDRESS
  }

  /** The walk for an address meets only tables that the code can follow. */
  ghost predicate Walkable(mem: Memory, root: nat, virt: nat) {
    forall k :: 0 <= k <= 3 ==> Descend(mem, root, Path(virt)[..k]) != Untracked
  }

  /* ---- The tree ---- */

  /** level gives every table its place: 4 for the root, 1 for the last level. */
  ghost predicate Tree(mem: Memory, root: nat, level: map<nat, nat>) {
    && root in level && level[root] == 4
    && (forall t :: t in level ==> t < |mem| && 1 <= level[t] <= 4 && (level[t] == 4 ==> t == root))
    && ChildrenBelow(mem, level)
    && OneParent(mem, level)
    && (forall c :: c in level && c != root ==> HasParent(mem, level, c))
  }

  ghost predicate ChildrenBelow(mem: Memory, level: map<nat, nat>) {
    forall t, i :: t in level && level[t] > 1 && Child(mem, t, i).At? ==>
      Child(mem, t, i).frame in level && level[Child(mem, t, i).frame] == level[t] - 1
  }

  ghost predicate OneParent(mem: Memory, level: map<nat, nat>) {
    forall t, i, t', i' | t in level && t' in level && level[t] > 1 && level[t'] > 1 ::
      Child(mem, t, i).At? && Child(mem, t, i) == Child(mem, t', i') ==> t == t' && i == i'
  }

  ghost predicate HasParent(mem: Memory, level: map<nat, nat>, c: nat) {
    exists t, i :: t in level && level[t] > 1 && Child(mem, t, i) == At(c)
  }

  /** Two tables in one tree never share a page, and none is on a free list. */
  ghost predicate Owned(pool: Pool, level: map<nat, nat>) {
    forall t :: t in level ==> !FreeAt(pool, t)
  }

  datatype Space = Space(pool: Pool, mem: Memory)

  ghost predicate Sound(s: Space, root: nat, level: map<nat, nat>) {
    Valid(s.pool) && |s.pool.page| <= |s.mem| && Tree(s.mem, root, level) && Owned(s.pool, level)
  }

  lemma {:induction false} DescendLevel(mem: Memory, root: nat, level: map<nat, nat>, path: seq<nat>)
    requires Tree(mem, root, level) && |path| <= 3
    ensures Descend(mem, root, path).At? ==>
      Descend(mem, root, path).frame in level && level[Descend(mem, root, path).frame] == 4 - |path|
    decreases |path|
  {
    if path != [] {
      DescendLevel(mem, root, level, path[..|path| - 1]);
    }
  }

  /** A table is reached along one path only. */
  lemma {:induction false} PathUnique(mem: Memory, root: nat, level: map<nat, nat>, path: seq<nat>, path': seq<nat>)
    requires Tree(mem, root, level) && |path| <= 3 && |path'| <= 3
    requires Descend(mem, root, path).At? && Descend(mem, root, path) == Descend(mem, root, path')
    ensures path == path'
    decreases |path|
  {
    hide ChildrenBelow, HasParent, Child;
    DescendLevel(mem, root, level, path);
    DescendLevel(mem, root, level, path');
    if path != [] {
      var a, b := path[..|path| - 1], path'[..|path'| - 1];
      DescendLevel(mem, root, level, a);
      DescendLevel(mem, root, level, b);
      PathUnique(mem, root, level, a, b);
      assert path == a + [path[|path| - 1]] && path' == b + [path'[|path'| - 1]];
    }
  }

  /* ---- Writing a last-level entry ---- */

  function SetEntry(mem: Memory, t: nat, i: nat, entry: nat): Memory
    requires t < |mem| && i < ENTRIES
  {
    mem[t := mem[t][i := entry]]
  }

  /** Walks read upper tables only, so they do not see last-level entries. */
  lemma {:induction false} LeafKeepsWalks(mem: Memory, root: nat, level: map<nat, nat>, t: nat, i: nat, entry: nat,
                                          path: seq<nat>)
    requires Tree(mem, root, level) && t in level && level[t] == 1 && i < ENTRIES && |path| <= 3
    ensures Descend(SetEntry(mem, t, i, entry), root, path) == Descend(mem, root, path)
    decreases |path|
  {
    hide Present, MapsHuge, TableFrame, ChildrenBelow, OneParent, HasParent;
    if path != [] {
      var q := path[..|path| - 1];
      LeafKeepsWalks(mem, root, level, t, i, entry, q);
      DescendLevel(mem, root, level, q);
    }
  }

  lemma LeafKeepsTree(mem: Memory, root: nat, level: map<nat, nat>, t: nat, i: nat, entry: nat, mem': Memory)
    requires Tree(mem, root, level) && t in level && level[t] == 1 && i < ENTRIES && mem' == SetEntry(mem, t, i, entry)
    ensures Tree(mem', root, level)
  {
    assert forall u, j :: u in level && level[u] > 1 ==> Child(mem', u, j) == Child(mem, u, j);
    forall c | c in level && c != root ensures HasParent(mem', level, c) {
      assert HasParent(mem, level, c);
      var u, j :| u in level && level[u] > 1 && Child(mem, u, j) == At(c);
      assert Child(mem', u, j) == At(c);
    }
  }

  /** Writing the entry of one page changes the translation of that page only. */
  lemma LeafChangesOnePage(mem: Memory, root: nat, level: map<nat, nat>, path: seq<nat>, i: nat, t: nat,
                           entry: nat, path': seq<nat>, i': nat)
    requires Tree(mem, root, level) && |path| == |path'| == 3 && i < ENTRIES && i' < ENTRIES
    requires Descend(mem, root, path) == At(t) && t in level && level[t] == 1
    ensures LookupAt(SetEntry(mem, t, i, entry), root, path', i') ==
            if path' == path && i' == i then EntryMeaning(entry) else LookupAt(mem, root, path', i')
  {
    LeafKeepsWalks(mem, root, level, t, i, entry, path');
    if Descend(mem, root, path') == At(t) {
      PathUnique(mem, root, level, path, path');
    }
  }

  /* ---- Writing pages that are no tables ---- */

  ghost predicate SameTables(mem: Memory, mem': Memory, level: map<nat, nat>) {
    |mem'| == |mem| && forall t :: t in level && t < |mem| ==> mem'[t] == mem[t]
  }

  lemma {:induction false} ForeignKeepsWalks(mem: Memory, root: nat, level: map<nat, nat>, mem': Memory, path: seq<nat>)
    requires Tree(mem, root, level) && SameTables(mem, mem', level) && |path| <= 3
    ensures Descend(mem', root, path) == Descend(mem, root, path)
    decreases |path|
  {
    if path != [] {
      var q := path[..|path| - 1];
      ForeignKeepsWalks(mem, root, level, mem', q);
      DescendLevel(mem, root, level, q);
    }
  }

  /** Whatever is written to pages that are no tables, the tree stays a tree and
      every translation as it was. */
  lemma ForeignKeepsTree(mem: Memory, root: nat, level: map<nat, nat>, mem': Memory)
    requires Tree(mem, root, level) && SameTables(mem, mem', level)
    ensures Tree(mem', root, level)
    ensures forall path, i: nat :: |path| == 3 ==> LookupAt(mem', root, path, i) == LookupAt(mem, root, path, i)
  {
    assert forall u, j :: u in level ==> Child(mem', u, j) == Child(mem, u, j);
    forall c | c in level && c != root ensures HasParent(mem', level, c) {
      assert HasParent(mem, level, c);
      var u, j :| u in level && level[u] > 1 && Child(mem, u, j) == At(c);
      assert Child(mem', u, j) == At(c);
    }
    forall path, i: nat | |path| == 3 ensures LookupAt(mem', root, path, i) == LookupAt(mem, root, path, i) {
      ForeignKeepsWalks(mem, root, level, mem', path);
      DescendLevel(mem, root, level, path);
    }
  }

  /* ---- The first table ---- */

  /** A root table without entries, on a page that is not free, is a sound tree in
      which every address can be walked and none is translated. */
  lemma EmptyRoot(s: Space, root: nat, virt: nat)
    requires Valid(s.pool) && |s.pool.page| <= |s.mem| && root < |s.mem| && !FreeAt(s.pool, root)
    requires s.mem[root] == Zeros(ENTRIES)
    ensures Sound(s, root, map[root := 4]) && Walkable(s.mem, root, virt) && Lookup(s.mem, root, virt) == Unmapped
  {
    forall i: nat | i < ENTRIES ensures Child(s.mem, root, i) == Absent {
      EmptyTableIsBarren(s.mem, root, i);
    }
    assert Tree(s.mem, root, map[root := 4]);
    var path := Path(virt);
    assert path[..3] == path && path[..2][..1] == path[..1] && path[..1][..0] == path[..0];
    assert Descend(s.mem, root, path[..1]) == Absent;
    assert Descend(s.mem, root, path[..2]) == Absent;
  }

  /* ---- Installing a table ---- */

  /** An empty table at frame f, entered at index i of table t. */
  function Install(mem: Memory, t: nat, i: nat, f: nat, entry: nat): Memory
    requires t < |mem| && f < |mem| && i < ENTRIES
  {
    SetEntry(mem[f := Zeros(ENTRIES)], t, i, entry)
  }

  /** A present entry that leads to frame f, in no way huge. */
  predicate LeadsTo(entry: nat, f: nat) {
    Present(entry) && !MapsHuge(entry) && TableFrame(entry) == f
  }

  /** mem' is mem with the new, empty table f as child i of table t. */
  ghost predicate Grafted(mem: Memory, mem': Memory, level: map<nat, nat>, t: nat, i: nat, f: nat) {
    && t in level && level[t] > 1 && f !in level && Child(mem, t, i) == Absent
    && |mem'| == |mem| && f < |mem|
    && (forall u: nat, j: nat :: u in level ==> Child(mem', u, j) == if u == t && j == i then At(f)
      else Child(mem, u, j))
    && (forall u :: u in level && u != t && u < |mem| ==> mem'[u] == mem[u])
    && (forall j: nat :: j < ENTRIES ==> mem'[f][j] == 0)
  }

  lemma InstallGrafts(mem: Memory, level: map<nat, nat>, t: nat, i: nat, f: nat, entry: nat, mem': Memory)
    requires t in level && level[t] > 1 && f !in level && t < |mem| && f < |mem| && i < ENTRIES
    requires Child(mem, t, i) == Absent && LeadsTo(entry, f) && mem' == Install(mem, t, i, f, entry)
    ensures Grafted(mem, mem', level, t, i, f)
  {
  }

  lemma EmptyTableIsBarren(mem: Memory, f: nat, j: nat)
    requires f < |mem| && j < ENTRIES && mem[f][j] == 0
    ensures Child(mem, f, j) == Absent && EntryMeaning(mem[f][j]) == Unmapped
  {
  }

  lemma GraftKeepsTree(mem: Memory, mem': Memory, root: nat, level: map<nat, nat>, level': map<nat, nat>, t: nat,
                       i: nat, f: nat)
    requires Tree(mem, root, level) && Grafted(mem, mem', level, t, i, f) && level' == level[f := level[t] - 1]
    ensures Tree(mem', root, level')
  {
    forall j: nat ensures !Child(mem', f, j).At? {
      if j < ENTRIES {
        EmptyTableIsBarren(mem', f, j);
      }
    }
    GraftKeepsUniqueness(mem, mem', level, level', t, i, f);
    GraftKeepsParents(mem, mem', root, level, level', t, i, f);
  }

  lemma GraftKeepsUniqueness(mem: Memory, mem': Memory, level: map<nat, nat>, level': map<nat, nat>, t: nat,
                             i: nat, f: nat)
    requires ChildrenBelow(mem, level) && OneParent(mem, level) && Grafted(mem, mem', level, t, i, f)
    requires level' == level[f := level[t] - 1] && forall j: nat :: !Child(mem', f, j).At?
    ensures ChildrenBelow(mem', level') && OneParent(mem', level')
  {
  }

  lemma GraftKeepsParents(mem: Memory, mem': Memory, root: nat, level: map<nat, nat>, level': map<nat, nat>,
                          t: nat, i: nat, f: nat)
    requires Grafted(mem, mem', level, t, i, f) && level' == level[f := level[t] - 1]
    requires forall c :: c in level && c != root ==> HasParent(mem, level, c)
    ensures forall c :: c in level' && c != root ==> HasParent(mem', level', c)
  {
    forall c | c in level' && c != root ensures HasParent(mem', level', c) {
      if c == f {
        assert Child(mem', t, i) == At(f) && t in level';
      } else {
        assert HasParent(mem, level, c);
        var u, j :| u in level && level[u] > 1 && Child(mem, u, j) == At(c);
        assert u in level' && level'[u] > 1 && Child(mem', u, j) == At(c);
      }
    }
  }

  /** A new table only turns some walks that led nowhere into walks to it. */
  lemma {:induction false} GraftWalks(mem: Memory, mem': Memory, root: nat, level: map<nat, nat>, t: nat, i: nat,
                                      f: nat, path: seq<nat>)
    requires Tree(mem, root, level) && Grafted(mem, mem', level, t, i, f) && |path| <= 3
    requires forall k :: 0 <= k < |path| ==> path[k] < ENTRIES
    ensures Descend(mem', root, path) == Descend(mem, root, path)
         || (Descend(mem, root, path) == Absent && Descend(mem', root, path) == At(f))
    decreases |path|
  {
    if path != [] {
      var q, j := path[..|path| - 1], path[|path| - 1];
      GraftWalks(mem, mem', root, level, t, i, f, q);
      DescendLevel(mem, root, level, q);
      EmptyTableIsBarren(mem', f, j);
    }
  }

  lemma GraftKeepsLookup(mem: Memory, mem': Memory, root: nat, level: map<nat, nat>, t: nat, i: nat, f: nat,
                         path: seq<nat>, j: nat)
    requires Tree(mem, root, level) && Grafted(mem, mem', level, t, i, f)
    requires |path| == 3 && (forall k :: 0 <= k < 3 ==> path[k] < ENTRIES) && j < ENTRIES
    ensures LookupAt(mem', root, path, j) == LookupAt(mem, root, path, j)
  {
    GraftWalks(mem, mem', root, level, t, i, f, path);
    DescendLevel(mem, root, level, path);
    EmptyTableIsBarren(mem', f, j);
    LastLevelIsNot(mem, root, level, path, t);
  }

  lemma LastLevelIsNot(mem: Memory, root: nat, level: map<nat, nat>, path: seq<nat>, t: nat)
    requires Tree(mem, root, level) && |path| == 3 && t in level && level[t] > 1
    ensures Descend(mem, root, path) != At(t)
  {
    DescendLevel(mem, root, level, path);
  }
}
