/** The free lists as kernel/src/memory/buddy.c stores them: list heads by order,
    and next and previous frames in two arrays indexed by frame. */
module BuddyLinks {
  import opened BuddyPool

  /** Position k of list q holds frame f. */
  ghost predicate At(lists: seq<seq<nat>>, q: int, k: int, f: int) {
    0 <= q < |lists| && 0 <= k < |lists[q]| && lists[q][k] == f
  }

  ghost predicate OnSome(lists: seq<seq<nat>>, f: int) {
    exists q, k :: At(lists, q, k, f)
  }

  /** No frame occurs twice, in one list or in two. */
  ghost predicate Distinct(lists: seq<seq<nat>>) {
    forall q, k, q', k', f :: At(lists, q, k, f) && At(lists, q', k', f) ==> q == q' && k == k'
  }

  function Neighbour(s: seq<nat>, k: int): nat {
    if 0 <= k < |s| then s[k] else NO_FRAME
  }

  /** heads, next and prev store exactly these lists; frames on no list have no
      neighbours. */
  ghost predicate Linked(heads: seq<nat>, next: seq<nat>, prev: seq<nat>, lists: seq<seq<nat>>) {
    && |heads| == |lists| && |prev| == |next| <= NO_FRAME
    && Distinct(lists)
    && (forall q :: 0 <= q < |lists| ==> heads[q] == Neighbour(lists[q], 0))
    && (forall q, k, f :: At(lists, q, k, f) ==>
          0 <= f < |next| && next[f] == Neighbour(lists[q], k + 1) && prev[f] == Neighbour(lists[q], k - 1))
    && (forall f :: 0 <= f < |next| && !OnSome(lists, f) ==> next[f] == NO_FRAME && prev[f] == NO_FRAME)
  }

  /** The stored form is a function of the lists: pools with equal lists have
      equal heads and equal links, entry by entry. */
  lemma LinksDetermined(heads: seq<nat>, next: seq<nat>, prev: seq<nat>,
                        heads': seq<nat>, next': seq<nat>, prev': seq<nat>, lists: seq<seq<nat>>)
    requires Linked(heads, next, prev, lists) && Linked(heads', next', prev', lists) && |next| == |next'|
    ensures heads == heads' && next == next' && prev == prev'
  {
    forall f | 0 <= f < |next| ensures next[f] == next'[f] && prev[f] == prev'[f] {
      if OnSome(lists, f) {
        var q, k :| At(lists, q, k, f);
      }
    }
  }

  /** next and prev are inverse to each other along the lists. */
  lemma LinksInverse(heads: seq<nat>, next: seq<nat>, prev: seq<nat>, lists: seq<seq<nat>>, f: nat)
    requires Linked(heads, next, prev, lists) && f < |next|
    ensures next[f] != NO_FRAME ==> next[f] < |next| && prev[next[f]] == f
    ensures prev[f] != NO_FRAME ==> prev[f] < |next| && next[prev[f]] == f
    ensures OnSome(lists, f) <==> prev[f] != NO_FRAME || f in heads
  {
    if OnSome(lists, f) {
      var q, k :| At(lists, q, k, f);
      if next[f] != NO_FRAME {
        assert At(lists, q, k + 1, next[f]);
      }
      if k > 0 {
        assert At(lists, q, k - 1, prev[f]);
      } else {
        assert heads[q] == f;
      }
    }
    if f in heads {
      var q :| 0 <= q < |heads| && heads[q] == f;
      assert At(lists, q, 0, f);
    }
  }

  lemma AddFront(heads: seq<nat>, next: seq<nat>, prev: seq<nat>, lists: seq<seq<nat>>, f: nat, o: nat,
                 next': seq<nat>, prev': seq<nat>)
    requires Linked(heads, next, prev, lists) && f < |next| && o < |lists| && !OnSome(lists, f)
    requires heads[o] != NO_FRAME ==> heads[o] < |prev|
    requires next' == next[f := heads[o]]
    requires prev' == (if heads[o] != NO_FRAME then prev[heads[o] := f] else prev)[f := NO_FRAME]
    ensures Linked(heads[o := f], next', prev', lists[o := [f] + lists[o]])
  {
    var lists' := lists[o := [f] + lists[o]];
    assert lists[o] != [] ==> At(lists, o, 0, heads[o]);
    AtAfterAdd(lists, f, o, lists');
    forall q, k, g | At(lists', q, k, g)
      ensures 0 <= g < |next| && next'[g] == Neighbour(lists'[q], k + 1) && prev'[g] == Neighbour(lists'[q], k - 1)
    {
      if q != o {
        assert At(lists, q, k, g);
      } else if k > 0 {
        assert At(lists, o, k - 1, g);
      }
    }
  }

  lemma AtAfterAdd(lists: seq<seq<nat>>, f: nat, o: nat, lists': seq<seq<nat>>)
    requires o < |lists| && Distinct(lists) && !OnSome(lists, f) && lists' == lists[o := [f] + lists[o]]
    ensures Distinct(lists')
    ensures forall q, k, g :: At(lists', q, k, g) <==>
      if q == o then (k == 0 && g == f) || At(lists, o, k - 1, g) else At(lists, q, k, g)
    ensures forall g :: OnSome(lists', g) <==> g == f || OnSome(lists, g)
  {
    forall q, k, g ensures At(lists', q, k, g) <==>
      if q == o then (k == 0 && g == f) || At(lists, o, k - 1, g) else At(lists, q, k, g)
    {
    }
    forall g ensures OnSome(lists', g) <==> g == f || OnSome(lists, g) {
      assert At(lists', o, 0, f);
      if OnSome(lists, g) {
        var q, k :| At(lists, q, k, g);
        assert At(lists', q, if q == o then k + 1 else k, g);
      }
      if OnSome(lists', g) && g != f {
        var q, k :| At(lists', q, k, g);
        assert At(lists, q, if q == o then k - 1 else k, g);
      }
    }
    forall q, k, q', k', g | At(lists', q, k, g) && At(lists', q', k', g)
      ensures q == q' && k == k'
    {
      if g == f {
        assert !At(lists, q, if q == o then k - 1 else k, f) && !At(lists, q', if q' == o then k' - 1 else k', f);
      } else {
        assert At(lists, q, if q == o then k - 1 else k, g) && At(lists, q', if q' == o then k' - 1 else k', g);
      }
    }
  }

  /** All lists without frame f. */
  function Unlisted(lists: seq<seq<nat>>, f: nat): seq<seq<nat>> {
    seq(|lists|, q requires 0 <= q < |lists| => Without(lists[q], f))
  }

  lemma AtAfterRemove(lists: seq<seq<nat>>, f: nat, o: nat, i: nat, lists': seq<seq<nat>>)
    requires Distinct(lists) && At(lists, o, i, f) && lists' == lists[o := lists[o][..i] + lists[o][i + 1..]]
    ensures Distinct(lists')
    ensures forall q, k, g :: At(lists', q, k, g) <==> At(lists, q, if q == o && k >= i then k + 1 else k, g) && k >= 0
    ensures forall g :: OnSome(lists', g) <==> g != f && OnSome(lists, g)
  {
    forall q, k, g
      ensures At(lists', q, k, g) <==> At(lists, q, if q == o && k >= i then k + 1 else k, g) && k >= 0
    {
    }
    forall g ensures OnSome(lists', g) <==> g != f && OnSome(lists, g) {
      if OnSome(lists, g) {
        var q, k :| At(lists, q, k, g);
        if g != f {
          assert At(lists', q, if q == o && k > i then k - 1 else k, g);
        }
      }
      if OnSome(lists', g) {
        var q, k :| At(lists', q, k, g);
        assert At(lists, q, if q == o && k >= i then k + 1 else k, g);
      }
    }
  }

  lemma RemoveIsUnlisted(lists: seq<seq<nat>>, f: nat, o: nat, i: nat)
    requires Distinct(lists) && At(lists, o, i, f)
    ensures Unlisted(lists, f) == lists[o := lists[o][..i] + lists[o][i + 1..]]
  {
    forall q | 0 <= q < |lists| ensures NoDup(lists[q]) && (q != o ==> f !in lists[q]) {
      assert forall k :: 0 <= k < |lists[q]| ==> At(lists, q, k, lists[q][k]);
    }
    WithoutAt(lists[o], i);
    forall q | 0 <= q < |lists| && q != o ensures Without(lists[q], f) == lists[q] {
      WithoutAbsent(lists[q], f);
    }
  }

  /** Unlinking position i of list o. */
  lemma Unlink(heads: seq<nat>, next: seq<nat>, prev: seq<nat>, lists: seq<seq<nat>>, f: nat, o: nat, i: nat,
               heads': seq<nat>, next': seq<nat>, prev': seq<nat>)
    requires Linked(heads, next, prev, lists) && At(lists, o, i, f)
    requires heads' == if i == 0 then heads[o := next[f]] else heads
    requires prev[f] != NO_FRAME ==> prev[f] < |next|
    requires next[f] != NO_FRAME ==> next[f] < |next|
    requires next' == (if prev[f] != NO_FRAME then next[prev[f] := next[f]] else next)[f := NO_FRAME]
    requires prev' == (if next[f] != NO_FRAME then prev[next[f] := prev[f]] else prev)[f := NO_FRAME]
    ensures Linked(heads', next', prev', Unlisted(lists, f))
  {
    RemoveIsUnlisted(lists, f, o, i);
    var lists' := Unlisted(lists, f);
    AtAfterRemove(lists, f, o, i, lists');
    assert i > 0 ==> At(lists, o, i - 1, prev[f]);
    assert i + 1 < |lists[o]| ==> At(lists, o, i + 1, next[f]);
    forall q, k, g | At(lists', q, k, g)
      ensures 0 <= g < |next| && next'[g] == Neighbour(lists'[q], k + 1) && prev'[g] == Neighbour(lists'[q], k - 1)
    {
      UnlinkAt(next, prev, lists, f, o, i, next', prev', lists', q, k, g);
    }
  }

  lemma UnlinkAt(next: seq<nat>, prev: seq<nat>, lists: seq<seq<nat>>, f: nat, o: nat, i: nat,
                 next': seq<nat>, prev': seq<nat>, lists': seq<seq<nat>>, q: int, k: int, g: int)
    requires |prev| == |next| <= NO_FRAME && Distinct(lists) && At(lists, o, i, f) && f < |next|
    requires forall q, k, f :: At(lists, q, k, f) ==>
      0 <= f < |next| && next[f] == Neighbour(lists[q], k + 1) && prev[f] == Neighbour(lists[q], k - 1)
    requires prev[f] != NO_FRAME ==> prev[f] < |next| && At(lists, o, i - 1, prev[f])
    requires next[f] != NO_FRAME ==> next[f] < |next| && At(lists, o, i + 1, next[f])
    requires next' == (if prev[f] != NO_FRAME then next[prev[f] := next[f]] else next)[f := NO_FRAME]
    requires prev' == (if next[f] != NO_FRAME then prev[next[f] := prev[f]] else prev)[f := NO_FRAME]
    requires lists' == lists[o := lists[o][..i] + lists[o][i + 1..]] && At(lists', q, k, g)
    ensures 0 <= g < |next| && next'[g] == Neighbour(lists'[q], k + 1) && prev'[g] == Neighbour(lists'[q], k - 1)
  {
    var k0 := if q == o && k >= i then k + 1 else k;
    assert At(lists, q, k0, g);
    assert next[f] == Neighbour(lists[o], i + 1) && prev[f] == Neighbour(lists[o], i - 1);
    assert g == prev[f] ==> q == o && k0 == i - 1;
    assert g == next[f] ==> q == o && k0 == i + 1;
    if q == o {
      assert |lists'[o]| == |lists[o]| - 1;
    }
  }
}
