/** The buddy allocator of kernel/src/memory/buddy.c on values: the page-state
    table together with, for every order, the frames of the free list in list
    order. Links and list heads are a function of the lists (module Buddy).

    The maximum order is a parameter: a pool with N + 1 lists has 2^N pages. */
module BuddyPool {
  import opened Bits

  const FREE_BODY: nat := 0xFD
  const ALLOCATED: nat := 0xFE
  const RESERVED: nat := 0xFF
  const PAGE_SIZE: nat := 0x1000
  const UNSPLITTABLE_SIZE: nat := 4096
  const INVALID_ADDRESS: nat := 0xFFFF_FFFF_FFFF_FFFF
  const NO_FRAME: nat := 0xFFFF_FFFF

  /** The test at buddy.c:170 multiplies in 32 bits, so it rejects every order
      above 19; the code's own maximum is 18. */
  const ORDER_LIMIT: nat := 19

  datatype Pool = Pool(page: seq<nat>, lists: seq<seq<nat>>)

  /* ---- Lists ---- */

  ghost predicate NoDup(s: seq<nat>) {
    forall i, j :: 0 <= i < j < |s| ==> s[i] != s[j]
  }

  /** s without its first occurrence of x. */
  function Without(s: seq<nat>, x: nat): seq<nat>
  {
    if s == [] then []
    else if s[0] == x then s[1..]
    else [s[0]] + Without(s[1..], x)
  }

  lemma {:induction false} WithoutAt(s: seq<nat>, k: nat)
    requires NoDup(s) && k < |s|
    ensures Without(s, s[k]) == s[..k] + s[k + 1..]
    decreases s
  {
    if k > 0 {
      WithoutAt(s[1..], k - 1);
      assert s[1..][..k - 1] == s[1..k];
      assert s[1..][k..] == s[k + 1..];
      assert [s[0]] + s[1..k] == s[..k];
    }
  }

  lemma WithoutMembers(s: seq<nat>, x: nat)
    requires NoDup(s)
    ensures NoDup(Without(s, x))
    ensures forall y :: y in Without(s, x) <==> y in s && y != x
    ensures |Without(s, x)| == if x in s then |s| - 1 else |s|
  {
    if x in s {
      var k :| 0 <= k < |s| && s[k] == x;
      WithoutAt(s, k);
    } else {
      WithoutAbsent(s, x);
    }
  }

  lemma {:induction false} WithoutAbsent(s: seq<nat>, x: nat)
    requires x !in s
    ensures Without(s, x) == s
    decreases s
  {
    if s != [] {
      WithoutAbsent(s[1..], x);
    }
  }

  /* ---- Invariant ---- */

  ghost predicate Shape(p: Pool) {
    && 1 <= |p.lists| <= ORDER_LIMIT + 1
    && |p.page| == Pow2(|p.lists| - 1)
  }

  /** The block of order o at frame f is on the free list of order o. */
  ghost predicate Listed(p: Pool, f: nat, o: nat) {
    o < |p.lists| && f in p.lists[o]
  }

  ghost predicate BlockOk(p: Pool, f: nat, o: nat) {
    && Aligned(f, o)
    && f + Pow2(o) <= |p.page|
    && p.page[f] == o
    && forall i :: f < i < f + Pow2(o) ==> p.page[i] == FREE_BODY
  }

  ghost predicate InsideBlock(p: Pool, i: nat) {
    exists f: nat, o: nat :: Listed(p, f, o) && f < i < f + Pow2(o)
  }

  ghost predicate PageOk(p: Pool, i: nat)
    requires i < |p.page|
  {
    && (p.page[i] < |p.lists| || p.page[i] in {FREE_BODY, ALLOCATED, RESERVED})
    && (p.page[i] < |p.lists| ==> Listed(p, i, p.page[i]))
    && (p.page[i] == FREE_BODY ==> InsideBlock(p, i))
  }

  ghost predicate Apart(f: nat, o: nat, lo: nat, hi: nat) {
    hi <= lo || f + Pow2(o) <= lo || hi <= f
  }

  /** The invariant with a hole: pages of [lo, hi) are in transit, so nothing
      is said about their states, but no listed block overlaps them. */
  ghost predicate Consistent(p: Pool, lo: nat, hi: nat) {
    && Shape(p)
    && (forall f: nat, o: nat :: Listed(p, f, o) ==> BlockOk(p, f, o) && Apart(f, o, lo, hi))
    && (forall o :: 0 <= o < |p.lists| ==> NoDup(p.lists[o]))
    && (forall i :: 0 <= i < |p.page| && !(lo <= i < hi) ==> PageOk(p, i))
  }

  ghost predicate Valid(p: Pool) {
    Consistent(p, 0, 0)
  }

  /** The block (f, o) is in transit: on no list, and about to be split, merged,
      listed or handed out. */
  ghost predicate Floating(p: Pool, f: nat, o: nat) {
    o < |p.lists| && Aligned(f, o) && f + Pow2(o) <= |p.page| && Consistent(p, f, f + Pow2(o))
  }

  ghost predicate FreeAt(p: Pool, i: nat) {
    i < |p.page| && (p.page[i] < |p.lists| || p.page[i] == FREE_BODY)
  }

  /** Frame 0 is not usable memory. */
  ghost predicate FrameZeroReserved(p: Pool) {
    |p.page| > 0 && p.page[0] == RESERVED
  }

  ghost predicate AllFree(p: Pool, lo: nat, hi: nat) {
    forall i :: lo <= i < hi ==> FreeAt(p, i)
  }

  ghost predicate AllInState(p: Pool, lo: nat, hi: nat, s: nat) {
    hi <= |p.page| && forall i :: lo <= i < hi ==> p.page[i] == s
  }

  /* ---- Steps ---- */

  function MarkFree(page: seq<nat>, f: nat, o: nat): seq<nat> {
    seq(|page|, i requires 0 <= i < |page| =>
      if i == f then o else if f < i < f + Pow2(o) then FREE_BODY else page[i])
  }

  function MarkAllocated(page: seq<nat>, f: nat, o: nat): seq<nat> {
    seq(|page|, i requires 0 <= i < |page| =>
      if f <= i < f + Pow2(o) then ALLOCATED else page[i])
  }

  function AddFree(p: Pool, f: nat, o: nat): Pool
    requires o < |p.lists|
  {
    Pool(MarkFree(p.page, f, o), p.lists[o := [f] + p.lists[o]])
  }

  function RemoveFree(p: Pool, f: nat, o: nat): Pool
    requires o < |p.lists|
  {
    p.(lists := p.lists[o := Without(p.lists[o], f)])
  }

  /** A page keeps its condition when its state and the listing of the blocks
      around it stay as they were. */
  lemma PageOkCarries(p: Pool, p': Pool, i: nat)
    requires |p'.page| == |p.page| && |p'.lists| == |p.lists| && i < |p.page|
    requires PageOk(p, i) && p'.page[i] == p.page[i]
    requires forall g: nat, q: nat :: Listed(p, g, q) && g <= i < g + Pow2(q) ==> Listed(p', g, q)
    ensures PageOk(p', i)
  {
    if p.page[i] == FREE_BODY {
      var g: nat, q: nat :| Listed(p, g, q) && g < i < g + Pow2(q);
      assert Listed(p', g, q);
    } else if p.page[i] < |p.lists| {
      assert Listed(p, i, p.page[i]);
    }
  }

  lemma BlockOkCarries(p: Pool, p': Pool, f: nat, o: nat)
    requires |p'.page| == |p.page| && BlockOk(p, f, o)
    requires forall i :: f <= i < f + Pow2(o) ==> p'.page[i] == p.page[i]
    ensures BlockOk(p', f, o)
  {
  }

  lemma AddFills(p: Pool, lo: nat, hi: nat, f: nat, o: nat, lo': nat, hi': nat)
    requires Consistent(p, lo, hi) && o < |p.lists| && Aligned(f, o)
    requires lo <= lo' <= hi' <= hi <= |p.page|
    requires (f == lo && lo' == f + Pow2(o) && hi' == hi) || (f + Pow2(o) == hi && hi' == f && lo' == lo)
    ensures Consistent(AddFree(p, f, o), lo', hi')
    ensures forall g: nat, q: nat :: Listed(AddFree(p, f, o), g, q) <==> Listed(p, g, q) || (g == f && q == o)
  {
    var p' := AddFree(p, f, o);
    assert !Listed(p, f, o);
    forall g: nat, q: nat ensures Listed(p', g, q) <==> Listed(p, g, q) || (g == f && q == o) {
    }
    forall g: nat, q: nat | Listed(p', g, q)
      ensures BlockOk(p', g, q) && Apart(g, q, lo', hi')
    {
      if Listed(p, g, q) {
        BlockOkCarries(p, p', g, q);
      }
    }
    assert forall i :: 0 <= i < |p.lists| ==> NoDup(p'.lists[i]);
    forall i | 0 <= i < |p'.page| && !(lo' <= i < hi')
      ensures PageOk(p', i)
    {
      if f <= i < f + Pow2(o) {
        assert Listed(p', f, o);
      } else {
        PageOkCarries(p, p', i);
      }
    }
  }

  lemma RemoveOpens(p: Pool, lo: nat, hi: nat, f: nat, o: nat, lo': nat, hi': nat)
    requires Consistent(p, lo, hi) && Listed(p, f, o)
    requires (lo == hi && lo' == f && hi' == f + Pow2(o))
          || (lo < hi && f + Pow2(o) == lo && lo' == f && hi' == hi)
          || (lo < hi && f == hi && lo' == lo && hi' == f + Pow2(o))
    ensures Consistent(RemoveFree(p, f, o), lo', hi')
    ensures forall g: nat, q: nat :: Listed(RemoveFree(p, f, o), g, q) <==> Listed(p, g, q) && !(g == f && q == o)
  {
    var p' := RemoveFree(p, f, o);
    WithoutMembers(p.lists[o], f);
    forall g: nat, q: nat ensures Listed(p', g, q) <==> Listed(p, g, q) && !(g == f && q == o) {
    }
    forall g: nat, q: nat | Listed(p', g, q)
      ensures BlockOk(p', g, q) && Apart(g, q, lo', hi')
    {
      assert Listed(p, g, q);
      BlockOkCarries(p, p', g, q);
      ListedDisjoint(p, lo, hi, f, o, g, q);
    }
    assert forall i :: 0 <= i < |p.lists| ==> NoDup(p'.lists[i]);
    forall i | 0 <= i < |p'.page| && !(lo' <= i < hi')
      ensures PageOk(p', i)
    {
      PageOkCarries(p, p', i);
    }
  }

  lemma ListedDisjoint(p: Pool, lo: nat, hi: nat, f: nat, o: nat, g: nat, q: nat)
    requires Consistent(p, lo, hi) && Listed(p, f, o) && Listed(p, g, q)
    ensures (f == g && o == q) || Apart(f, o, g, g + Pow2(q))
  {
    assert BlockOk(p, f, o) && BlockOk(p, g, q);
  }

  lemma MarkAllocatedCloses(p: Pool, f: nat, o: nat)
    requires Floating(p, f, o)
    ensures Valid(p.(page := MarkAllocated(p.page, f, o)))
    ensures forall g: nat, q: nat :: Listed(p.(page := MarkAllocated(p.page, f, o)), g, q) <==> Listed(p, g, q)
  {
    CloseHole(p, p.(page := MarkAllocated(p.page, f, o)), f, f + Pow2(o));
  }

  /** A hole closes when all its pages become allocated. */
  lemma CloseHole(p: Pool, p': Pool, lo: nat, hi: nat)
    requires Consistent(p, lo, hi) && lo < hi && p'.lists == p.lists && |p'.page| == |p.page|
    requires forall i :: 0 <= i < |p.page| ==> p'.page[i] == if lo <= i < hi then ALLOCATED else p.page[i]
    ensures Valid(p')
    ensures forall g: nat, q: nat :: Listed(p', g, q) <==> Listed(p, g, q)
  {
    forall g: nat, q: nat | Listed(p', g, q)
      ensures BlockOk(p', g, q) && Apart(g, q, 0, 0)
    {
      assert Listed(p, g, q);
      BlockOkCarries(p, p', g, q);
    }
    forall i | 0 <= i < |p'.page|
      ensures PageOk(p', i)
    {
      if !(lo <= i < hi) {
        PageOkCarries(p, p', i);
      }
    }
  }

  /** A range without free pages may be put in transit. */
  lemma OpenHole(p: Pool, lo: nat, hi: nat)
    requires Valid(p) && hi <= |p.page|
    requires forall i :: lo <= i < hi ==> !FreeAt(p, i)
    ensures Consistent(p, lo, hi)
  {
    forall f: nat, o: nat | Listed(p, f, o)
      ensures BlockOk(p, f, o) && Apart(f, o, lo, hi)
    {
      BlockIsFree(p, f, o);
      assert FreeAt(p, f) && (f < lo < f + Pow2(o) ==> FreeAt(p, lo));
    }
  }

  lemma BlockIsFree(p: Pool, f: nat, o: nat)
    requires BlockOk(p, f, o) && o < |p.lists|
    ensures AllFree(p, f, f + Pow2(o))
  {
  }
}
