/** buddy_add_range and buddy_init of kernel/src/memory/buddy.c: which blocks a
    range of frames is cut into, and which pool the memory map produces. */
module BuddyRanges {
  import opened Bits
  import opened BuddyPool
  import opened BuddyCanonical

  /** The frames first, first + 1, ..., first + count - 1. */
  datatype Range = Range(first: nat, count: nat)
  {
    function End(): nat { first + count }
    predicate Holds(i: nat) { first <= i < End() }
    predicate HoldsBlock(f: nat, o: nat) { first <= f && f + Pow2(o) <= End() }
  }

  datatype Block = Block(frame: nat, order: nat)

  /* ---- Cutting one range ---- */

  /** The inner loop of buddy_add_range, counting down from order o. */
  function FitOrder(r: Range, o: nat): (k: nat)
    requires r.count > 0
    ensures k <= o && Aligned(r.first, k) && Pow2(k) <= r.count
    ensures forall q :: k < q <= o ==> !(Aligned(r.first, q) && Pow2(q) <= r.count)
    decreases o
  {
    if o > 0 && (Pow2(o) > r.count || !Aligned(r.first, o)) then FitOrder(r, o - 1) else o
  }

  function Rest(r: Range, o: nat): Range
    requires Pow2(o) <= r.count
  {
    Range(r.first + Pow2(o), r.count - Pow2(o))
  }

  /** The blocks that buddy_add_range makes of a range, in order. */
  function Blocks(r: Range, n: nat): seq<Block>
    decreases r.count
  {
    if r.count == 0 then []
    else var o := FitOrder(r, n); [Block(r.first, o)] + Blocks(Rest(r, o), n)
  }

  function AddRange(p: Pool, r: Range): (p': Pool)
    requires 1 <= |p.lists|
    ensures |p'.lists| == |p.lists| && |p'.page| == |p.page|
    decreases r.count
  {
    if r.count == 0 then p
    else var o := FitOrder(r, |p.lists| - 1); AddRange(AddFree(p, r.first, o), Rest(r, o))
  }

  /** An aligned block inside the range that no larger one inside the range contains. */
  ghost predicate MaximalIn(r: Range, f: nat, o: nat, n: nat) {
    && o <= n && Aligned(f, o) && r.HoldsBlock(f, o)
    && (o == n || !r.HoldsBlock(ParentOf(f, o), o + 1))
  }

  /** A block that fits the range but does not start with its first block
      starts after it. */
  lemma StartsInRest(r: Range, k: nat, n: nat, f: nat, g: nat, q: nat)
    requires r.count > 0 && k == FitOrder(r, n)
    requires q <= n && Aligned(g, q) && r.HoldsBlock(g, q)
    requires r.first + Pow2(k) <= f < g + Pow2(q)
    ensures r.first + Pow2(k) <= g
  {
    if g < r.first + Pow2(k) {
      if q <= k {
        Nest(g, q, r.first, k);
      } else {
        Nest(r.first, k, g, q);
      }
    }
  }

  lemma FirstIsMaximal(r: Range, k: nat, n: nat, f: nat, o: nat)
    requires r.count > 0 && k == FitOrder(r, n) && f < r.first + Pow2(k)
    ensures MaximalIn(r, f, o, n) <==> f == r.first && o == k
  {
    if o <= n && Aligned(f, o) && r.HoldsBlock(f, o) {
      BuddyFacts(f, o);
      if o <= k {
        Nest(f, o, r.first, k);
        if o < k {
          Nest(ParentOf(f, o), o + 1, r.first, k);
        }
      } else {
        Nest(r.first, k, f, o);
      }
    }
  }

  lemma OthersInRest(r: Range, k: nat, n: nat, f: nat, o: nat)
    requires r.count > 0 && k == FitOrder(r, n) && r.first + Pow2(k) <= f
    ensures MaximalIn(r, f, o, n) <==> MaximalIn(Rest(r, k), f, o, n)
  {
    if o < n && Aligned(f, o) {
      hide FitOrder, BuddyOf, ParentOf;
      BuddyFacts(f, o);
      if r.HoldsBlock(ParentOf(f, o), o + 1) {
        StartsInRest(r, k, n, f, ParentOf(f, o), o + 1);
      }
    }
  }

  /** Cutting off the first block keeps the maximal blocks of the rest. */
  lemma MaximalInStep(r: Range, f: nat, o: nat, n: nat)
    requires r.count > 0
    ensures MaximalIn(r, f, o, n) <==>
            (f == r.first && o == FitOrder(r, n)) || MaximalIn(Rest(r, FitOrder(r, n)), f, o, n)
  {
    var k := FitOrder(r, n);
    if f < r.first + Pow2(k) {
      FirstIsMaximal(r, k, n, f, o);
    } else {
      OthersInRest(r, k, n, f, o);
    }
  }

  /** The cut is exact: the blocks are the maximal aligned blocks of the range. */
  lemma {:induction false} BlocksAreMaximal(r: Range, f: nat, o: nat, n: nat)
    ensures Block(f, o) in Blocks(r, n) <==> MaximalIn(r, f, o, n)
    decreases r.count
  {
    if r.count > 0 {
      var k := FitOrder(r, n);
      MaximalInStep(r, f, o, n);
      BlocksAreMaximal(Rest(r, k), f, o, n);
      assert Blocks(r, n) == [Block(r.first, k)] + Blocks(Rest(r, k), n);
    }
  }

  /** Every frame of the range is in exactly one block, and no other frame is in any. */
  lemma {:induction false} BlocksPartition(r: Range, n: nat, i: nat)
    ensures r.Holds(i) <==> exists b :: b in Blocks(r, n) && b.frame <= i < b.frame + Pow2(b.order)
    ensures forall b, c | b in Blocks(r, n) && c in Blocks(r, n) ::
      b.frame <= i < b.frame + Pow2(b.order) && c.frame <= i < c.frame + Pow2(c.order) ==> b == c
    decreases r.count
  {
    if r.count > 0 {
      var k := FitOrder(r, n);
      var b0, rest := Block(r.first, k), Blocks(Rest(r, k), n);
      BlocksPartition(Rest(r, k), n, i);
      assert Blocks(r, n) == [b0] + rest;
      assert forall b :: b in Blocks(r, n) <==> b == b0 || b in rest;
      forall b | b in rest ensures r.first + Pow2(k) <= b.frame && b.frame + Pow2(b.order) <= r.End() {
        BlocksAreMaximal(Rest(r, k), b.frame, b.order, n);
      }
    }
  }

  /** Blocks come in increasing frame order. */
  lemma {:induction false} BlocksIncrease(r: Range, n: nat, i: nat, j: nat)
    requires i < j < |Blocks(r, n)|
    ensures var bs := Blocks(r, n); bs[i].frame + Pow2(bs[i].order) <= bs[j].frame
    decreases r.count
  {
    var k := FitOrder(r, n);
    var bs := Blocks(Rest(r, k), n);
    if i == 0 {
      assert Blocks(r, n)[j] == bs[j - 1];
      assert Block(bs[j - 1].frame, bs[j - 1].order) in bs;
      BlocksAreMaximal(Rest(r, k), bs[j - 1].frame, bs[j - 1].order, n);
    } else {
      BlocksIncrease(Rest(r, k), n, i - 1, j - 1);
    }
  }

  /** No order occurs three times in the cut of a range that fits 2^n frames. */
  lemma OrderAtMostTwice(r: Range, n: nat, i: nat, j: nat, k: nat)
    requires r.End() <= Pow2(n) && i < j < k < |Blocks(r, n)|
    ensures var bs := Blocks(r, n); !(bs[i].order == bs[j].order == bs[k].order)
  {
    var bs := Blocks(r, n);
    BlocksIncrease(r, n, i, j);
    BlocksIncrease(r, n, j, k);
    var o := bs[j].order;
    if bs[i].order == o && bs[k].order == o {
      assert Block(bs[i].frame, o) in bs && Block(bs[j].frame, o) in bs && Block(bs[k].frame, o) in bs;
      BlocksAreMaximal(r, bs[i].frame, o, n);
      BlocksAreMaximal(r, bs[k].frame, o, n);
      BlocksAreMaximal(r, bs[j].frame, o, n);
      BuddyFacts(bs[j].frame, o);
    }
  }

  /** A range that starts aligned to 2^k and is shorter than 2^k takes at most k blocks. */
  lemma {:induction false} TailLength(r: Range, k: nat, n: nat)
    requires Aligned(r.first, k) && r.count < Pow2(k) && k <= n
    ensures |Blocks(r, n)| <= k
    decreases k
  {
    if r.count > 0 {
      var o := FitOrder(r, n);
      assert o < k by {
        if k <= o {
          Pow2Mono(k, o);
        }
      }
      assert r.count < 2 * Pow2(o) by {
        AlignedWeaken(r.first, k, o + 1);
      }
      AlignedStep(r.first, o);
      TailLength(Rest(r, o), o, n);
    }
  }

  lemma {:induction false} LengthFrom(r: Range, k: nat, n: nat)
    requires Aligned(r.first, k) && k <= n && r.End() <= Pow2(n)
    ensures |Blocks(r, n)| <= (n - k) + n + 1
    decreases r.count
  {
    if r.count > 0 {
      var o := FitOrder(r, n);
      AlignedStep(r.first, o);
      if o < n && !Aligned(r.first, o + 1) {
        if k <= o {
          LengthFrom(Rest(r, o), o + 1, n);
        } else {
          AlignedWeaken(r.first, k, o + 1);
        }
      } else {
        TailLength(Rest(r, o), o, n);
      }
    }
  }

  /** The cut of a range needs at most 2n + 1 blocks. */
  lemma LogarithmicallyMany(r: Range, n: nat)
    requires r.End() <= Pow2(n)
    ensures |Blocks(r, n)| <= 2 * n + 1
  {
    LengthFrom(r, 0, n);
  }

  /* ---- Adding ranges to the pool ---- */

  ghost predicate Added(p: Pool, p': Pool, r: Range)
    requires 1 <= |p.lists|
  {
    && |p'.page| == |p.page| && |p'.lists| == |p.lists|
    && (forall i :: 0 <= i < |p.page| && !r.Holds(i) ==> p'.page[i] == p.page[i])
    && AllFree(p', r.first, r.End())
    && (forall f: nat, o: nat :: Listed(p', f, o) <==> Listed(p, f, o) || MaximalIn(r, f, o, |p.lists| - 1))
  }

  lemma {:induction false} AddRangeKeeps(p: Pool, r: Range)
    requires Consistent(p, r.first, r.End()) && r.End() <= |p.page|
    ensures Valid(AddRange(p, r)) && Added(p, AddRange(p, r), r)
    decreases r.count
  {
    if r.count > 0 {
      var o := FitOrder(r, |p.lists| - 1);
      AddFills(p, r.first, r.End(), r.first, o, r.first + Pow2(o), r.End());
      var p1, rest := AddFree(p, r.first, o), Rest(r, o);
      AddRangeKeeps(p1, rest);
      var p' := AddRange(p1, rest);
      assert AddRange(p, r) == p';
      AddedComposes(p, p', r, o);
    }
  }

  lemma AddedComposes(p: Pool, p': Pool, r: Range, o: nat)
    requires 1 <= |p.lists| && r.count > 0 && o == FitOrder(r, |p.lists| - 1) && r.End() <= |p.page|
    requires forall g: nat, q: nat :: Listed(AddFree(p, r.first, o), g, q) <==>
      Listed(p, g, q) || (g == r.first && q == o)
    requires Added(AddFree(p, r.first, o), p', Rest(r, o))
    ensures Added(p, p', r)
  {
    var p1, rest := AddFree(p, r.first, o), Rest(r, o);
    forall f: nat, q: nat
      ensures Listed(p', f, q) <==> Listed(p, f, q) || MaximalIn(r, f, q, |p.lists| - 1)
    {
      MaximalInStep(r, f, q, |p.lists| - 1);
    }
    forall i | r.first <= i < r.End() ensures FreeAt(p', i) {
      if i < rest.first {
        assert p'.page[i] == p1.page[i];
      }
    }
  }

  /** The frames of the blocks of order q, last block first. */
  function LastFirst(bs: seq<Block>, q: nat): seq<nat> {
    if bs == [] then []
    else LastFirst(bs[1..], q) + if bs[0].order == q then [bs[0].frame] else []
  }

  lemma {:induction false} LastFirstMembers(bs: seq<Block>, q: nat, f: nat)
    ensures f in LastFirst(bs, q) <==> Block(f, q) in bs
    decreases |bs|
  {
    if bs != [] {
      LastFirstMembers(bs[1..], q, f);
      assert bs == [bs[0]] + bs[1..];
    }
  }

  lemma {:induction false} LastFirstDecreases(bs: seq<Block>, q: nat)
    requires forall i, j :: 0 <= i < j < |bs| ==> bs[i].frame < bs[j].frame
    ensures forall i, j :: 0 <= i < j < |LastFirst(bs, q)| ==> LastFirst(bs, q)[i] > LastFirst(bs, q)[j]
    decreases |bs|
  {
    if bs != [] {
      var rest := bs[1..];
      LastFirstDecreases(rest, q);
      forall k | 0 <= k < |LastFirst(rest, q)| ensures LastFirst(rest, q)[k] > bs[0].frame {
        var f := LastFirst(rest, q)[k];
        LastFirstMembers(rest, q, f);
        assert Block(f, q) in rest;
        var j :| 0 <= j < |rest| && rest[j] == Block(f, q);
        assert bs[j + 1] == rest[j];
      }
    }
  }

  lemma LastFirstCons(b: Block, bs: seq<Block>, q: nat)
    ensures LastFirst([b] + bs, q) == LastFirst(bs, q) + if b.order == q then [b.frame] else []
  {
    assert ([b] + bs)[1..] == bs;
  }

  /** Each list gets the blocks of its order in front, last block first. */
  lemma {:induction false} AddRangeLists(p: Pool, r: Range, q: nat, n: nat)
    requires |p.lists| == n + 1 && q <= n
    ensures AddRange(p, r).lists[q] == LastFirst(Blocks(r, n), q) + p.lists[q]
    decreases r.count
  {
    hide LastFirst, Aligned, FitOrder;
    if r.count > 0 {
      var k := FitOrder(r, n);
      var b, rest := Block(r.first, k), Rest(r, k);
      var p1 := AddFree(p, r.first, k);
      AddRangeLists(p1, rest, q, n);
      LastFirstCons(b, Blocks(rest, n), q);
      assert p1.lists[q] == (if k == q then [r.first] else []) + p.lists[q];
    } else {
      LastFirstEmpty(q);
    }
  }

  lemma LastFirstEmpty(q: nat)
    ensures LastFirst([], q) == []
  {
  }

  /** What buddy_add_range puts in front of each list: the maximal blocks of the
      range of that order, in decreasing order of frames. */
  lemma AddRangeOrder(p: Pool, r: Range, q: nat) returns (fs: seq<nat>)
    requires 1 <= |p.lists| && q < |p.lists|
    ensures AddRange(p, r).lists[q] == fs + p.lists[q]
    ensures forall i, j :: 0 <= i < j < |fs| ==> fs[i] > fs[j]
    ensures forall f: nat :: f in fs <==> MaximalIn(r, f, q, |p.lists| - 1)
  {
    var n := |p.lists| - 1;
    var bs := Blocks(r, n);
    fs := LastFirst(bs, q);
    AddRangeLists(p, r, q, n);
    forall i, j | 0 <= i < j < |bs| ensures bs[i].frame < bs[j].frame {
      BlocksIncrease(r, n, i, j);
    }
    LastFirstDecreases(bs, q);
    forall f: nat ensures f in fs <==> MaximalIn(r, f, q, n) {
      LastFirstMembers(bs, q, f);
      BlocksAreMaximal(r, f, q, n);
    }
  }

  /** buddy_reset: everything reserved, every list empty. */
  function Reset(n: nat): Pool {
    Pool(seq(Pow2(n), i => RESERVED), seq(n + 1, i => []))
  }

  /** The pool after the first ranges have been added in order. */
  function InitPool(rs: seq<Range>, n: nat): (p: Pool)
    ensures |p.lists| == n + 1 && |p.page| == Pow2(n)
  {
    if rs == [] then Reset(n) else AddRange(InitPool(rs[..|rs| - 1], n), rs[|rs| - 1])
  }

  predicate Overlap(r: Range, s: Range) {
    r.first < s.End() && s.first < r.End() && r.count > 0 && s.count > 0
  }

  ghost predicate Separate(rs: seq<Range>, n: nat) {
    && (forall i :: 0 <= i < |rs| ==> rs[i].End() <= Pow2(n))
    && (forall i, j :: 0 <= i < j < |rs| ==> !Overlap(rs[i], rs[j]))
  }

  ghost predicate InSome(rs: seq<Range>, i: nat) {
    exists k :: 0 <= k < |rs| && rs[k].Holds(i)
  }

  ghost predicate CutFromSome(rs: seq<Range>, f: nat, o: nat, n: nat) {
    exists k :: 0 <= k < |rs| && MaximalIn(rs[k], f, o, n)
  }

  /** After initialisation the free pages are exactly the frames of the ranges,
      every other page is reserved, and the listed blocks are exactly the blocks
      that the ranges are cut into. */
  ghost predicate Initialised(p: Pool, rs: seq<Range>, n: nat)
    requires |p.lists| == n + 1 && |p.page| == Pow2(n)
  {
    && Valid(p)
    && (forall i :: 0 <= i < |p.page| ==> if InSome(rs, i) then FreeAt(p, i) else p.page[i] == RESERVED)
    && (forall f: nat, o: nat :: Listed(p, f, o) <==> CutFromSome(rs, f, o, n))
  }

  lemma {:induction false} InitPoolEffect(rs: seq<Range>, n: nat)
    requires n <= ORDER_LIMIT && Separate(rs, n)
    ensures Initialised(InitPool(rs, n), rs, n)
    decreases |rs|
  {
    if rs == [] {
      ResetIsInitialised(n);
    } else {
      var r, p := rs[|rs| - 1], InitPool(rs[..|rs| - 1], n);
      InitPoolEffect(rs[..|rs| - 1], n);
      LastIsReserved(rs, n, p);
      AddRangeKeeps(p, r);
      var p' := AddRange(p, r);
      assert InitPool(rs, n) == p';
      InitStep(p, p', rs, n);
    }
  }

  lemma ResetIsInitialised(n: nat)
    requires n <= ORDER_LIMIT
    ensures Initialised(Reset(n), [], n)
  {
    assert forall f: nat, o: nat :: !Listed(Reset(n), f, o);
  }

  lemma LastIsReserved(rs: seq<Range>, n: nat, p: Pool)
    requires rs != [] && Separate(rs, n) && |p.lists| == n + 1 && |p.page| == Pow2(n)
    requires Initialised(p, rs[..|rs| - 1], n)
    ensures Consistent(p, rs[|rs| - 1].first, rs[|rs| - 1].End())
  {
    var r, xs := rs[|rs| - 1], rs[..|rs| - 1];
    forall i | r.first <= i < r.End() ensures !FreeAt(p, i) {
      forall k | 0 <= k < |xs| ensures !xs[k].Holds(i) {
        assert !Overlap(rs[k], r);
      }
      assert !InSome(xs, i);
    }
    OpenHole(p, r.first, r.End());
  }

  lemma InitStep(p: Pool, p': Pool, rs: seq<Range>, n: nat)
    requires rs != [] && |p.lists| == n + 1 && |p.page| == Pow2(n)
    requires Initialised(p, rs[..|rs| - 1], n) && Valid(p') && Added(p, p', rs[|rs| - 1])
    requires rs[|rs| - 1].End() <= |p.page|
    ensures Initialised(p', rs, n)
  {
    var last := |rs| - 1;
    forall i | 0 <= i < |p.page|
      ensures if InSome(rs, i) then FreeAt(p', i) else p'.page[i] == RESERVED
    {
      InSomeSplit(rs, i);
      assert FreeAt(p, i) && !rs[last].Holds(i) ==> FreeAt(p', i);
    }
    forall f: nat, o: nat ensures Listed(p', f, o) <==> CutFromSome(rs, f, o, n) {
      CutSplit(rs, f, o, n);
    }
  }

  lemma InSomeSplit(rs: seq<Range>, i: nat)
    requires rs != []
    ensures InSome(rs, i) <==> InSome(rs[..|rs| - 1], i) || rs[|rs| - 1].Holds(i)
  {
    var xs := rs[..|rs| - 1];
    if InSome(xs, i) {
      var k :| 0 <= k < |xs| && xs[k].Holds(i);
      assert rs[k].Holds(i);
    }
    if InSome(rs, i) {
      var k :| 0 <= k < |rs| && rs[k].Holds(i);
      assert k < |xs| ==> xs[k].Holds(i);
    }
  }

  lemma CutSplit(rs: seq<Range>, f: nat, o: nat, n: nat)
    requires rs != []
    ensures CutFromSome(rs, f, o, n) <==> CutFromSome(rs[..|rs| - 1], f, o, n) || MaximalIn(rs[|rs| - 1], f, o, n)
  {
    var xs := rs[..|rs| - 1];
    if CutFromSome(xs, f, o, n) {
      var k :| 0 <= k < |xs| && MaximalIn(xs[k], f, o, n);
      assert MaximalIn(rs[k], f, o, n);
    }
    if CutFromSome(rs, f, o, n) {
      var k :| 0 <= k < |rs| && MaximalIn(rs[k], f, o, n);
      assert k < |xs| ==> MaximalIn(xs[k], f, o, n);
    }
  }

  /** Ranges are added one after the other, so the blocks of a later range stand in
      front of those of earlier ones. */
  lemma InitOrder(rs: seq<Range>, r: Range, n: nat, q: nat) returns (fs: seq<nat>)
    requires q <= n
    ensures InitPool(rs + [r], n).lists[q] == fs + InitPool(rs, n).lists[q]
    ensures forall i, j :: 0 <= i < j < |fs| ==> fs[i] > fs[j]
    ensures forall f: nat :: f in fs <==> MaximalIn(r, f, q, n)
  {
    var all := rs + [r];
    assert all[..|all| - 1] == rs;
    fs := AddRangeOrder(InitPool(rs, n), r, q);
  }

  /* ---- When the initial pool is canonical ---- */

  /** s starts where r ends, and both are at least as long as the largest power
      of two that divides the frame where they meet. */
  ghost predicate Mergeable(r: Range, s: Range) {
    && r.count > 0 && s.count > 0 && r.End() == s.first
    && Pow2(TrailingZeros(s.first)) <= r.count
    && Pow2(TrailingZeros(s.first)) <= s.count
  }

  /** buddy_add_range never merges with what earlier ranges left, so the initial
      pool is canonical exactly when no two usable ranges meet mergeably. */
  lemma InitCanonicalIff(rs: seq<Range>, n: nat)
    requires n <= ORDER_LIMIT && Separate(rs, n)
    ensures Canonical(InitPool(rs, n)) <==>
            forall i, j :: 0 <= i < |rs| && 0 <= j < |rs| ==> !Mergeable(rs[i], rs[j])
  {
    InitPoolEffect(rs, n);
    CutCanonicalIff(InitPool(rs, n), rs, n);
  }

  lemma CutCanonicalIff(p: Pool, rs: seq<Range>, n: nat)
    requires |p.lists| == n + 1 && Separate(rs, n)
    requires forall f: nat, o: nat :: Listed(p, f, o) <==> CutFromSome(rs, f, o, n)
    ensures Canonical(p) <==> forall i, j :: 0 <= i < |rs| && 0 <= j < |rs| ==> !Mergeable(rs[i], rs[j])
  {
    forall i, j | 0 <= i < |rs| && 0 <= j < |rs| && Mergeable(rs[i], rs[j])
      ensures !Canonical(p)
    {
      MergeableGivesBuddies(rs, n, i, j);
      var e := rs[j].first;
      var k := TrailingZeros(e);
      ListedBuddies(p, e - Pow2(k), e, k);
    }
    if !Canonical(p) {
      var f: nat, o: nat :| Listed(p, f, o) && o < |p.lists| - 1 && Aligned(f, o) && Listed(p, BuddyOf(f, o), o);
      BuddyFacts(f, o);
      if f < BuddyOf(f, o) {
        CutBuddies(rs, n, f, BuddyOf(f, o), o);
      } else {
        CutBuddies(rs, n, BuddyOf(f, o), f, o);
      }
    }
  }

  lemma ListedBuddies(p: Pool, f: nat, b: nat, o: nat)
    requires o < |p.lists| - 1 && Aligned(f, o) && b == BuddyOf(f, o)
    requires Listed(p, f, o) && Listed(p, b, o)
    ensures !Canonical(p)
  {
  }

  lemma CutBuddies(rs: seq<Range>, n: nat, f: nat, e: nat, o: nat)
    requires Separate(rs, n) && o < n && Aligned(f, o + 1) && e == f + Pow2(o)
    requires CutFromSome(rs, f, o, n) && CutFromSome(rs, e, o, n)
    ensures exists i, j :: 0 <= i < |rs| && 0 <= j < |rs| && Mergeable(rs[i], rs[j])
  {
    var i :| 0 <= i < |rs| && MaximalIn(rs[i], f, o, n);
    var j :| 0 <= j < |rs| && MaximalIn(rs[j], e, o, n);
    BuddiesGiveMergeable(rs[i], rs[j], n, f, e, o);
  }

  lemma MergeableGivesBuddies(rs: seq<Range>, n: nat, i: nat, j: nat)
    requires Separate(rs, n) && i < |rs| && j < |rs| && Mergeable(rs[i], rs[j])
    ensures var e, k := rs[j].first, TrailingZeros(rs[j].first);
      && k < n && Pow2(k) <= e && Aligned(e - Pow2(k), k) && BuddyOf(e - Pow2(k), k) == e
      && CutFromSome(rs, e - Pow2(k), k, n) && CutFromSome(rs, e, k, n)
  {
    var e := rs[j].first;
    var k := TrailingZeros(e);
    AlignedStepBack(e, k);
    if n <= k {
      AlignedWeaken(e, k, n);
      AlignedZero(n);
      Nest(e, n, 0, n);
    }
    var f := e - Pow2(k);
    BuddyFacts(f, k);
    BuddyFacts(e, k);
    assert MaximalIn(rs[i], f, k, n) && MaximalIn(rs[j], e, k, n);
  }

  lemma BuddiesGiveMergeable(r: Range, s: Range, n: nat, f: nat, e: nat, o: nat)
    requires r == s || (!Overlap(r, s) && !Overlap(s, r))
    requires o < n && Aligned(f, o + 1) && e == f + Pow2(o) && MaximalIn(r, f, o, n) && MaximalIn(s, e, o, n)
    ensures Mergeable(r, s)
  {
    AlignedStep(f, o);
    assert !r.HoldsBlock(f, o + 1);
    TrailingZerosUnique(e, o);
  }
}
