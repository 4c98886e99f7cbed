/** kernel/src/memory/vmm.c in place: page tables in physical memory, updated
    entry by entry, with table pages taken from the buddy allocator. */
module Vmm {
  import opened Bits
  import opened BuddyPool
  import opened BuddyOps
  import opened PageTables
  import opened VmmOps
  import opened VmmWords
  import Buddy

  class Vmm {
    const buddy: Buddy.Buddy
    /** Physical memory by frame; the HHDM mapping is the identity here. */
    const mem: array<Table>
    /** The word read from CR3. */
    const cr3: nat
    ghost var level: map<nat, nat>

    /** Takes over page tables that are a sound tree, such as an empty root table
        outside the free pages, with the level of each table. */
    constructor (buddy: Buddy.Buddy, mem: array<Table>, cr3: nat, ghost level: map<nat, nat>)
      requires buddy.Valid() && buddy.pageState.Length <= mem.Length
      requires Sound(Space(buddy.Model(), mem[..]), TableFrame(cr3), level)
      ensures Valid() && this.buddy == buddy && this.mem == mem && this.cr3 == cr3 && this.level == level
    {
      this.buddy, this.mem, this.cr3, this.level := buddy, mem, cr3, level;
    }

    ghost function State(): Space
      reads mem, buddy, buddy.pageState
    {
      Space(buddy.Model(), mem[..])
    }

    function Root(): nat {
      TableFrame(cr3)
    }

    ghost predicate Ready()
      reads mem, buddy, buddy.pageState, buddy.freeList, buddy.freeNext, buddy.freePrev
    {
      buddy.Valid() && buddy.pageState.Length <= mem.Length
    }

    ghost predicate Valid()
      reads this, mem, buddy, buddy.pageState, buddy.freeList, buddy.freeNext, buddy.freePrev
    {
      Ready() && Sound(State(), Root(), level)
    }

    /** The root table lies at bits 12 to 51 of CR3. */
    lemma RootIs()
      ensures Root() == cr3 % 0x10_0000_0000_0000 / 0x1000
    {
      FrameBits(cr3);
    }

    method MakePage() returns (phys: nat)
      requires Ready()
      modifies mem, buddy`lists, buddy.pageState, buddy.freeList, buddy.freeNext, buddy.freePrev
      ensures Ready() && (buddy.Model(), phys) == AllocPages(old(buddy.Model()), 1)
      ensures phys == INVALID_ADDRESS ==> mem[..] == old(mem[..])
      ensures phys != INVALID_ADDRESS ==>
        phys / PAGE_SIZE < mem.Length && mem[..] == old(mem[..])[phys / PAGE_SIZE := Zeros(ENTRIES)]
    {
      AllocPagesKeeps(buddy.Model(), 1);
      phys := buddy.AllocPage();
      if phys == INVALID_ADDRESS {
        return;
      }
      var f := phys / PAGE_SIZE;
      for i := 0 to ENTRIES
        invariant Ready() && (buddy.Model(), phys) == AllocPages(old(buddy.Model()), 1)
        invariant forall j :: 0 <= j < i ==> mem[f][j] == 0
        invariant forall g :: 0 <= g < mem.Length && g != f ==> mem[g] == old(mem[g])
      {
        mem[f] := mem[f][i := 0];
      }
      assert mem[f] == Zeros(ENTRIES);
    }

    method GetNextLevel(t: nat, i: nat) returns (w: Walk)
      requires Ready() && t < mem.Length && i < ENTRIES && Child(mem[..], t, i) != Untracked
      modifies mem, buddy`lists, buddy.pageState, buddy.freeList, buddy.freeNext, buddy.freePrev
      ensures Ready() && (State(), w) == NextLevel(old(State()), t, i)
    {
      var entry := mem[t][i];
      if And(entry, PRESENT) == 0 {
        var phys := MakePage();
        if phys == INVALID_ADDRESS {
          return Absent;
        }
        mem[t] := mem[t][i := Or(Or(phys, PRESENT), WRITABLE)];
        return At(phys / PAGE_SIZE);
      }
      return At(And(entry, ADDR_MASK) / PAGE_SIZE);
    }

    method GetExistingLevel(t: nat, i: nat) returns (w: Walk)
      requires t < mem.Length && i < ENTRIES && Child(mem[..], t, i) != Untracked
      ensures w == Child(mem[..], t, i)
    {
      var entry := mem[t][i];
      if And(entry, PRESENT) == 0 {
        return Absent;
      }
      return At(And(entry, ADDR_MASK) / PAGE_SIZE);
    }

    /** The read-only walk shared by vmm_unmap and vmm_get_phys. */
    method FindTable(virt: nat) returns (w: Walk)
      requires Valid() && Walkable(mem[..], Root(), virt)
      ensures w == Descend(mem[..], Root(), Path(virt))
      ensures w.At? ==> w.frame < mem.Length
    {
      WalkSteps(mem[..], Root(), level, virt);
      w := GetExistingLevel(Root(), Index(virt, 4));
      if !w.At? {
        return;
      }
      w := GetExistingLevel(w.frame, Index(virt, 3));
      if !w.At? {
        return;
      }
      w := GetExistingLevel(w.frame, Index(virt, 2));
    }

    /** One call of vmm_get_next_level and the test for NULL before it; s is the
        state in which the walk began, q and r the path before and after. */
    method ExtendWalk(w: Walk, i: nat, ghost s: Space, ghost virt: nat, ghost k: nat, ghost q: seq<nat>,
                      ghost r: seq<nat>)
      returns (w': Walk)
      requires Ready() && Sound(s, Root(), level) && Walkable(s.mem, Root(), virt) && k < 3
      requires q == Path(virt)[..k] && r == Path(virt)[..k + 1] && i == Path(virt)[k]
      requires (State(), w) == WalkCreate(s, Root(), q)
      modifies mem, buddy`lists, buddy.pageState, buddy.freeList, buddy.freeNext, buddy.freePrev
      ensures Ready() && (State(), w') == WalkCreate(s, Root(), r)
    {
      NextIsReady(s, Root(), level, virt, k, q, r);
      if !w.At? {
        return w;
      }
      w' := GetNextLevel(w.frame, i);
    }

    /** The three calls of vmm_get_next_level in vmm_map. */
    method CreateTables(virt: nat) returns (w: Walk)
      requires Valid() && Walkable(mem[..], Root(), virt)
      modifies mem, buddy`lists, buddy.pageState, buddy.freeList, buddy.freeNext, buddy.freePrev
      ensures Ready() && (State(), w) == WalkCreate(old(State()), Root(), Path(virt))
    {
      EmptyWalk(State(), Root(), level);
      hide Sound, Walkable, WalkCreate, Usable;
      ghost var s, path := State(), Path(virt);
      ghost var p0, p1, p2 := path[..0], path[..1], path[..2];
      assert path[..3] == path;
      w := ExtendWalk(At(Root()), Index(virt, 4), s, virt, 0, p0, p1);
      w := ExtendWalk(w, Index(virt, 3), s, virt, 1, p1, p2);
      w := ExtendWalk(w, Index(virt, 2), s, virt, 2, p2, path);
    }

    /** vmm_map: one page gets an entry with the given frame and flags, the entries of
        new tables on the way are present and writable, and nothing else in use is
        written; or, when the walk runs out of pages, all translations stay. */
    method Map(virt: nat, phys: nat, flags: nat) returns (ok: bool)
      requires Valid() && Walkable(mem[..], Root(), virt)
      modifies this`level, mem, buddy`lists, buddy.pageState, buddy.freeList, buddy.freeNext, buddy.freePrev
      ensures Valid() && (State(), ok) == MapPage(old(State()), Root(), virt, phys, flags)
      ensures MapDone(old(State()), State(), Root(), virt, phys, flags, ok)
    {
      SoundIsUsable(State(), Root(), level);
      hide MapPage, MapDone, Sound, Walkable;
      ghost var s := State();
      ghost var level' := MapOutcome(s, Root(), level, virt, phys, flags);
      ok := StoreEntry(virt, phys, flags);
      level := level';
    }

    /** The body of vmm_map. */
    method StoreEntry(virt: nat, phys: nat, flags: nat) returns (ok: bool)
      requires Valid() && Walkable(mem[..], Root(), virt)
      modifies mem, buddy`lists, buddy.pageState, buddy.freeList, buddy.freeNext, buddy.freePrev
      ensures Ready() && (State(), ok) == MapPage(old(State()), Root(), virt, phys, flags)
    {
      LeafInMemory(State(), Root(), level, virt);
      var w := CreateTables(virt);
      if !w.At? {
        return false;
      }
      mem[w.frame] := mem[w.frame][Index(virt, 1) := Or(And(phys, ADDR_MASK), flags)];
      return true;
    }

    /** vmm_unmap: it removes one translation; the invariant survives exactly when
        the page that is freed is not one of the tables. */
    method Unmap(virt: nat) returns (ok: bool)
      requires Valid() && Walkable(mem[..], Root(), virt)
      modifies mem, buddy`lists, buddy.pageState, buddy.freeList, buddy.freeNext, buddy.freePrev
      ensures Ready() && (State(), ok) == UnmapPage(old(State()), Root(), virt)
      ensures Valid() <==> !(ok && FreesTable(old(State()), level, old(Lookup(mem[..], Root(), virt)).entry))
      ensures ok <==> old(Lookup(mem[..], Root(), virt)).Maps?
      ensures ok ==> Updates(old(mem[..]), mem[..], Root(), virt, Unmapped)
      ensures if ok then UnmapWritten(old(mem[..]), mem[..], Root(), virt) else mem[..] == old(mem[..])
    {
      SoundIsUsable(State(), Root(), level);
      hide UnmapWritten, Updates, Sound, Walkable, FreesTable, EntryMeaning;
      UnmapWords(State(), Root(), virt, UnmapPage(State(), Root(), virt).0, UnmapPage(State(), Root(), virt).1);
      UnmapRemovesOne(State(), Root(), level, virt, UnmapPage(State(), Root(), virt).0,
        UnmapPage(State(), Root(), virt).1);
      var w := FindTable(virt);
      if !w.At? {
        return false;
      }
      var entry := mem[w.frame][Index(virt, 1)];
      if And(entry, PRESENT) == 0 {
        return false;
      }
      mem[w.frame] := mem[w.frame][Index(virt, 1) := 0];
      buddy.FreePage(And(entry, ADDR_MASK));
      return true;
    }

    method GetPhysOf(virt: nat) returns (phys: nat)
      requires Valid() && Walkable(mem[..], Root(), virt)
      ensures phys == GetPhys(mem[..], Root(), virt)
    {
      var w := FindTable(virt);
      if !w.At? {
        return INVALID_ADDRESS;
      }
      var entry := mem[w.frame][Index(virt, 1)];
      if And(entry, PRESENT) == 0 {
        return INVALID_ADDRESS;
      }
      return Or(And(entry, ADDR_MASK), And(virt, OFFSET_MASK));
    }
  }

  /** The creating walk, one level at a time: q is a prefix of the path of virt
      and r the prefix that is one longer. */
  lemma NextIsReady(s: Space, root: nat, level: map<nat, nat>, virt: nat, k: nat, q: seq<nat>, r: seq<nat>)
    requires Sound(s, root, level) && Walkable(s.mem, root, virt) && k < 3
    requires q == Path(virt)[..k] && r == Path(virt)[..k + 1]
    ensures var (s1, w) := WalkCreate(s, root, q);
      if w.At? then
        && w.frame < |s1.mem| && Child(s1.mem, w.frame, Path(virt)[k]) != Untracked
        && WalkCreate(s, root, r) == NextLevel(s1, w.frame, Path(virt)[k])
      else WalkCreate(s, root, r) == (s1, w)
  {
    PathIsValid(virt);
    WalkableWalks(s.mem, root, virt);
    assert r[..k] == q && r[k] == Path(virt)[k];
    forall j | 0 <= j <= k ensures Descend(s.mem, root, q[..j]) != Untracked {
      assert q[..j] == Path(virt)[..j];
    }
    var level1 := WalkCreateKeeps(s, root, level, q);
    var (s1, w) := WalkCreate(s, root, q);
    if w.At? {
      DescendLevel(s1.mem, root, level1, q);
      assert Descend(s1.mem, root, r) == Child(s1.mem, w.frame, r[k]);
      assert ValidPath(r);
    }
  }

  lemma EmptyWalk(s: Space, root: nat, level: map<nat, nat>)
    requires Sound(s, root, level)
    ensures Usable(s) && WalkCreate(s, root, []) == (s, At(root))
  {
  }

  lemma SoundIsUsable(s: Space, root: nat, level: map<nat, nat>)
    requires Sound(s, root, level)
    ensures Usable(s)
  {
  }

  lemma LeafInMemory(s: Space, root: nat, level: map<nat, nat>, virt: nat)
    requires Sound(s, root, level) && Walkable(s.mem, root, virt)
    ensures var (s1, w) := WalkCreate(s, root, Path(virt)); w.At? ==> w.frame < |s1.mem|
  {
    PathIsValid(virt);
    WalkableWalks(s.mem, root, virt);
    var level1 := WalkCreateKeeps(s, root, level, Path(virt));
    DescendLevel(WalkCreate(s, root, Path(virt)).0.mem, root, level1, Path(virt));
  }

  /** Descend, level by level. */
  lemma WalkSteps(mem: Memory, root: nat, level: map<nat, nat>, virt: nat)
    requires Tree(mem, root, level) && Walkable(mem, root, virt)
    ensures root < |mem| && Child(mem, root, Index(virt, 4)) != Untracked
    ensures var a := Child(mem, root, Index(virt, 4));
      if !a.At? then Descend(mem, root, Path(virt)) == a
      else
        && a.frame < |mem| && Child(mem, a.frame, Index(virt, 3)) != Untracked
        && var b := Child(mem, a.frame, Index(virt, 3));
           if !b.At? then Descend(mem, root, Path(virt)) == b
           else b.frame < |mem| && Descend(mem, root, Path(virt)) == Child(mem, b.frame, Index(virt, 2))
                && Child(mem, b.frame, Index(virt, 2)) != Untracked
    ensures Descend(mem, root, Path(virt)).At? ==> Descend(mem, root, Path(virt)).frame < |mem|
  {
    WalkableWalks(mem, root, virt);
    var path := Path(virt);
    assert path[..3] == path && path[..2][..1] == path[..1] && path[..1][..0] == path[..0];
    assert Descend(mem, root, path[..0]) == At(root);
    assert Descend(mem, root, path[..1]) == Child(mem, root, Index(virt, 4));
    assert Descend(mem, root, path[..2]) != Untracked;
    DescendLevel(mem, root, level, path);
    DescendLevel(mem, root, level, path[..2]);
    DescendLevel(mem, root, level, path[..1]);
  }
}
