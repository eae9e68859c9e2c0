/** States of a ten-page region in which a stale forward link does harm, for good or for a while. */
module BuddyStates {
  import opened Powers
  import opened FreeLists
  import opened BuddyTree
  import opened BuddyLists
  import opened BuddyMend
  import opened Buddy

  /** The tree of a region whose pages `t` cuts up. */
  function Padded(t: Tree, k: nat, top: nat): Tree
    requires k <= top
    decreases top - k
  {
    if k == top then t else Padded(Node(t, Gone), k + 1, top)
  }

  lemma {:induction false} PaddedHolds(t: Tree, k: nat, top: nat, n: nat, order: seq<nat>, free: seq<bool>)
    requires k <= top && 0 < n <= Pow2(k) && |order| == |free| == n && Holds(t, k, 0, n, order, free) && Coalesced(t)
    ensures Holds(Padded(t, k, top), top, 0, n, order, free) && Coalesced(Padded(t, k, top))
    decreases top - k
  {
    if k < top {
      PaddedHolds(Node(t, Gone), k + 1, top, n, order, free);
    }
  }

  lemma {:induction false} PaddedLeaves(t: Tree, k: nat, top: nat, w: Tree, x: int)
    requires k <= top && !w.Node? && !w.Gone?
    ensures Leaf(Padded(t, k, top), top, 0, w, x) <==> Leaf(t, k, 0, w, x)
    decreases top - k
  {
    if k < top {
      PaddedLeaves(Node(t, Gone), k + 1, top, w, x);
      assert Leaf(Node(t, Gone), k + 1, 0, w, x) <==> Leaf(t, k, 0, w, x) || Leaf(Gone, k, Pow2(k), w, x);
    }
  }

  lemma {:induction false} PaddedWithout(t: Tree, k: nat, top: nat)
    requires k <= top && Without(t, Spare)
    ensures Without(Padded(t, k, top), Spare)
    decreases top - k
  {
    if k < top {
      assert Without(Node(t, Gone), Spare) by {
        assert Without(Gone, Spare);
      }
      PaddedWithout(Node(t, Gone), k + 1, top);
    }
  }

  /** Ten pages: four pairs, each a block or cut in two, and two blocks in use. */
  function TenPages(t0: Tree, t2: Tree, t4: Tree, t6: Tree): Tree {
    Node(Node(Node(t0, t2), Node(t4, t6)), Node(Node(Node(Live, Live), Gone), Gone))
  }

  /** The leaves of ten pages are those of the pairs. */
  lemma TenLeaves(t0: Tree, t2: Tree, t4: Tree, t6: Tree, w: Tree, x: int)
    requires !w.Node? && !w.Gone?
    ensures Leaf(Padded(TenPages(t0, t2, t4, t6), 4, LISTS), LISTS, 0, w, x) <==>
              || Leaf(t0, 1, 0, w, x) || Leaf(t2, 1, 2, w, x) || Leaf(t4, 1, 4, w, x) || Leaf(t6, 1, 6, w, x)
              || (w == Live && 8 <= x <= 9)
  {
    PaddedLeaves(TenPages(t0, t2, t4, t6), 4, LISTS, w, x);
    assert Pow2(0) == 1 && Pow2(1) == 2 && Pow2(2) == 4 && Pow2(3) == 8;
    TenHalves(t0, t2, t4, t6, w, x);
  }

  lemma TenHalves(t0: Tree, t2: Tree, t4: Tree, t6: Tree, w: Tree, x: int)
    requires !w.Node? && !w.Gone? && Pow2(0) == 1 && Pow2(1) == 2 && Pow2(2) == 4 && Pow2(3) == 8
    ensures Leaf(TenPages(t0, t2, t4, t6), 4, 0, w, x) <==>
              || Leaf(t0, 1, 0, w, x) || Leaf(t2, 1, 2, w, x) || Leaf(t4, 1, 4, w, x) || Leaf(t6, 1, 6, w, x)
              || (w == Live && 8 <= x <= 9)
  {
    hide Leaf, Pow2;
    var last := Node(Live, Live);
    var four, half := Node(Node(t0, t2), Node(t4, t6)), Node(Node(last, Gone), Gone);
    PairLeaves(w, x);
    Halve(half, 3, 8, w, x);
    Halve(Node(t0, t2), 2, 0, w, x);
    Halve(Node(t4, t6), 2, 4, w, x);
    Halve(four, 3, 0, w, x);
    Halve(Node(four, half), 4, 0, w, x);
  }

  lemma PairLeaves(w: Tree, x: int)
    requires !w.Node? && !w.Gone?
    ensures Leaf(Node(Node(Live, Live), Gone), 2, 8, w, x) <==> w == Live && 8 <= x <= 9
  {
    assert Pow2(0) == 1 && Pow2(1) == 2;
    Halve(Node(Node(Live, Live), Gone), 2, 8, w, x);
    Halve(Node(Live, Live), 1, 8, w, x);
  }

  lemma Halve(t: Tree, k: nat, a: nat, w: Tree, x: int)
    requires t.Node? && k > 0 && !w.Gone?
    ensures Leaf(t, k, a, w, x) <==> Leaf(t.lo, k - 1, a, w, x) || Leaf(t.hi, k - 1, a + Pow2(k - 1), w, x)
    ensures t.hi.Gone? ==> !Leaf(t.hi, k - 1, a + Pow2(k - 1), w, x)
  {
  }

  lemma TenHolds(t0: Tree, t2: Tree, t4: Tree, t6: Tree, order: seq<nat>, free: seq<bool>)
    requires |order| == |free| == 10 && order[8] == order[9] == 0 && !free[8] && !free[9]
    requires Holds(t0, 1, 0, 10, order, free) && Holds(t2, 1, 2, 10, order, free)
    requires Holds(t4, 1, 4, 10, order, free) && Holds(t6, 1, 6, 10, order, free)
    requires Coalesced(t0) && Coalesced(t2) && Coalesced(t4) && Coalesced(t6)
    requires !(t0.Vacant? && t2.Vacant?) && !(t4.Vacant? && t6.Vacant?)
    ensures var t := Padded(TenPages(t0, t2, t4, t6), 4, LISTS); Holds(t, LISTS, 0, 10, order, free) && Coalesced(t)
  {
    assert Pow2(0) == 1 && Pow2(1) == 2 && Pow2(2) == 4 && Pow2(3) == 8 && Pow2(4) == 16;
    var last := Node(Live, Live);
    assert Holds(last, 1, 8, 10, order, free) && Holds(Node(last, Gone), 2, 8, 10, order, free);
    assert Holds(Node(Node(last, Gone), Gone), 3, 8, 10, order, free);
    assert Holds(Node(t0, t2), 2, 0, 10, order, free) && Holds(Node(t4, t6), 2, 4, 10, order, free);
    assert Holds(Node(Node(t0, t2), Node(t4, t6)), 3, 0, 10, order, free);
    assert Holds(TenPages(t0, t2, t4, t6), 4, 0, 10, order, free);
    assert Coalesced(Node(t0, t2)) && Coalesced(Node(t4, t6)) && Coalesced(Node(Node(last, Gone), Gone));
    PaddedHolds(TenPages(t0, t2, t4, t6), 4, LISTS, 10, order, free);
  }

  // ------------------------------------------------------- harm for good

  /** Pages 2, 5 and 6 are free, and listed as 5, 6, 2. Page 4 was popped when page 2 came after it. */
  ghost predicate StaleState(p: Buddy)
    reads p
  {
    && p.pages == 10 && p.base > 0
    && p.tree == Padded(TenPages(Node(Live, Live), Node(Vacant, Live), Node(Live, Vacant), Node(Vacant, Live)), 4,
                        LISTS)
    && p.order == [0, 0, 0, 0, 0, 0, 0, 0, 0, 0]
    && p.free == [false, false, true, false, false, true, true, false, false, false]
    && p.fwd == [NIL, NIL, NIL, NIL, 2, 6, 2, NIL, NIL, NIL]
    && p.bwd == [NIL, NIL, 6, NIL, NIL, NIL, 5, NIL, NIL, NIL]
    && p.heads == seq(LISTS, k => if k == 0 then 5 else NIL)
    && p.lists == seq(LISTS, k => if k == 0 then [5, 6, 2] else [])
    && p.bin == map[5 := 0, 6 := 0, 2 := 0]
  }

  /** It is a valid state, and releasing page 4, which merges it with page 5, clears the back link that
      page 2 has to page 6. */
  lemma StaleHarms(p: Buddy)
    requires StaleState(p)
    ensures p.Valid() && p.SpareRule() && 4 in p.Lives()
    ensures !Harmless(p.fwd, p.bwd, 4, 5) && !Mends(p.fwd, p.bwd, p.order, p.free, 4)
  {
    StaleTree(p);
    StaleLists(p);
    NotMended(p.fwd, p.bwd, p.order, p.free);
    hide Linked, Holds, Coalesced, Leaf, Without, Padded, TenPages, Mends, Harmless;
    Small(p);
  }

  lemma NotMended(fwd: seq<int>, bwd: seq<int>, order: seq<nat>, free: seq<bool>)
    requires |fwd| == |bwd| == |order| == |free| == 10 && order[4] == order[5] == order[6] == 0 && free[5]
    requires fwd[4] == 2 && bwd[2] == 6
    ensures !Harmless(fwd, bwd, 4, 5) && !Mends(fwd, bwd, order, free, 4)
  {
    assert Flip(4, 0) == 5;
    if Absorbs(order, free, 4, 1, 6) {
      AbsorbsAbove(order, free, 4, 1, 6);
    }
    hide Absorbs;
  }

  /** Ten pages are no power of two, and few enough. */
  lemma Small(p: Buddy)
    requires p.pages == 10
    ensures 10 < Pow2(LISTS) && (!p.HasSpare() ==> p.SpareRule())
  {
    assert Pow2(4) == 16;
    Pow2Monotone(4, LISTS);
  }

  lemma StaleTree(p: Buddy)
    requires StaleState(p)
    ensures Holds(p.tree, LISTS, 0, 10, p.order, p.free) && Coalesced(p.tree) && Without(p.tree, Spare)
    ensures forall x | 0 <= x < 10 :: !p.free[x] <==> Leaf(p.tree, LISTS, 0, Live, x)
    ensures forall x :: x in p.bin <==> Leaf(p.tree, LISTS, 0, Vacant, x)
  {
    var t0, t2, t4, t6 := Node(Live, Live), Node(Vacant, Live), Node(Live, Vacant), Node(Vacant, Live);
    assert Pow2(0) == 1;
    TenHolds(t0, t2, t4, t6, p.order, p.free);
    forall x
      ensures Leaf(p.tree, LISTS, 0, Vacant, x) <==> x == 2 || x == 5 || x == 6
      ensures Leaf(p.tree, LISTS, 0, Live, x) <==> x == 0 || x == 1 || x == 3 || x == 4 || x == 7 || x == 8 || x == 9
    {
      TenLeaves(t0, t2, t4, t6, Vacant, x);
      TenLeaves(t0, t2, t4, t6, Live, x);
    }
    PaddedWithout(TenPages(t0, t2, t4, t6), 4, LISTS);
  }

  lemma StaleLists(p: Buddy)
    requires StaleState(p)
    ensures Linked(p.fwd, p.bwd, p.order, p.free, p.heads, p.lists, p.bin, NIL)
  {
    assert Chain(p.fwd, p.bwd, 6, 2, [2]);
    assert [6, 2][1..] == [2] && Chain(p.fwd, p.bwd, 5, 6, [6, 2]);
    assert [5, 6, 2][1..] == [6, 2] && Chain(p.fwd, p.bwd, NIL, 5, [5, 6, 2]);
    assert p.lists[0] == [5, 6, 2];
    assert forall e | e in p.bin :: e in p.lists[0];
    assert forall k, e | 0 <= k < |p.lists| && e in p.lists[k] :: k == 0 && e in p.bin;
  }

  // -------------------------------------------------- harm for a while

  /** Page 3 and the pairs at 0 and 4 are free. Page 2 was popped when page 4 came after it. */
  ghost predicate MendedState(p: Buddy)
    reads p
  {
    && p.pages == 10 && p.base > 0
    && p.tree == Padded(TenPages(Vacant, Node(Live, Vacant), Vacant, Node(Live, Live)), 4, LISTS)
    && p.order == [1, 0, 0, 0, 1, 0, 0, 0, 0, 0]
    && p.free == [true, true, false, true, true, true, false, false, false, false]
    && p.fwd == [4, NIL, 4, NIL, NIL, NIL, NIL, NIL, NIL, NIL]
    && p.bwd == [NIL, NIL, NIL, NIL, 0, NIL, NIL, NIL, NIL, NIL]
    && p.heads == seq(LISTS, k => if k == 0 then 3 else if k == 1 then 0 else NIL)
    && p.lists == seq(LISTS, k => if k == 0 then [3] else if k == 1 then [0, 4] else [])
    && p.bin == map[3 := 0, 0 := 1, 4 := 1]
  }

  /** It is a valid state, and releasing page 2 first clears the back link that page 4 has to page 0,
      but then merges the block with page 0. */
  lemma MendedLater(p: Buddy)
    requires MendedState(p)
    ensures p.Valid() && p.SpareRule() && 2 in p.Lives()
    ensures !Harmless(p.fwd, p.bwd, 2, 3) && Mends(p.fwd, p.bwd, p.order, p.free, 2)
  {
    MendedTree(p);
    MendedLists(p);
    MendsLater(p.fwd, p.bwd, p.order, p.free);
    hide Linked, Holds, Coalesced, Leaf, Without, Padded, TenPages, Mends, Harmless;
    Small(p);
  }

  lemma MendsLater(fwd: seq<int>, bwd: seq<int>, order: seq<nat>, free: seq<bool>)
    requires |fwd| == |bwd| == |order| == |free| == 10 && order[2] == order[3] == 0 && order[0] == 1
    requires free[0] && free[3] && fwd[2] == 4 && bwd[4] == 0
    ensures !Harmless(fwd, bwd, 2, 3) && Mends(fwd, bwd, order, free, 2)
  {
    assert Flip(2, 0) == 3 && Flip(2, 1) == 0;
    assert Absorbs(order, free, 2, 1, 0);
    hide Absorbs;
  }

  lemma MendedTree(p: Buddy)
    requires MendedState(p)
    ensures Holds(p.tree, LISTS, 0, 10, p.order, p.free) && Coalesced(p.tree) && Without(p.tree, Spare)
    ensures forall x | 0 <= x < 10 :: !p.free[x] <==> Leaf(p.tree, LISTS, 0, Live, x)
    ensures forall x :: x in p.bin <==> Leaf(p.tree, LISTS, 0, Vacant, x)
  {
    var t0, t2, t4, t6 := Vacant, Node(Live, Vacant), Vacant, Node(Live, Live);
    assert Pow2(0) == 1 && Pow2(1) == 2;
    TenHolds(t0, t2, t4, t6, p.order, p.free);
    forall x
      ensures Leaf(p.tree, LISTS, 0, Vacant, x) <==> x == 0 || x == 3 || x == 4
      ensures Leaf(p.tree, LISTS, 0, Live, x) <==> x == 2 || x == 6 || x == 7 || x == 8 || x == 9
    {
      TenLeaves(t0, t2, t4, t6, Vacant, x);
      TenLeaves(t0, t2, t4, t6, Live, x);
    }
    PaddedWithout(TenPages(t0, t2, t4, t6), 4, LISTS);
  }

  lemma MendedLists(p: Buddy)
    requires MendedState(p)
    ensures Linked(p.fwd, p.bwd, p.order, p.free, p.heads, p.lists, p.bin, NIL)
  {
    assert Chain(p.fwd, p.bwd, NIL, 3, [3]);
    assert Chain(p.fwd, p.bwd, 0, 4, [4]);
    assert [0, 4][1..] == [4] && Chain(p.fwd, p.bwd, NIL, 0, [0, 4]);
    assert p.lists[0] == [3] && p.lists[1] == [0, 4];
    assert forall e | e in p.bin :: e in p.lists[0] || e in p.lists[1];
    assert forall k, e | 0 <= k < |p.lists| && e in p.lists[k] :: k <= 1 && e in p.bin;
  }
}
