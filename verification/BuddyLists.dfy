/** The buddy allocator's free lists as they are while a block is being taken, split or merged. */
module BuddyLists {
  import opened FreeLists
  import opened Powers
  import opened BuddyTree

  /** Every listed entry is in the list of its order, and every other entry has no back link; nor
      a forward link, unless it heads a live block: popping leaves that one stale. `loose` is a
      block between lists, whose forward link may be stale too. */
  ghost predicate Linked(fwd: seq<int>, bwd: seq<int>, order: seq<nat>, free: seq<bool>, heads: seq<int>,
                         lists: seq<seq<int>>, bin: map<int, int>, loose: int)
  {
    && |fwd| == |bwd| == |order| == |free| && |heads| == LISTS
    && Good(fwd, bwd, heads, lists, bin)
    && Tidy(fwd, bwd, order, free, bin, loose)
  }

  lemma LinkedSizes(fwd: seq<int>, bwd: seq<int>, order: seq<nat>, free: seq<bool>, heads: seq<int>,
                    lists: seq<seq<int>>, bin: map<int, int>, loose: int)
    requires Linked(fwd, bwd, order, free, heads, lists, bin, loose)
    ensures |lists| == |heads| == LISTS
  {
  }

  ghost predicate Tidy(fwd: seq<int>, bwd: seq<int>, order: seq<nat>, free: seq<bool>, bin: map<int, int>, loose: int)
    requires |fwd| == |bwd| == |order| == |free|
  {
    && (forall x | x in bin :: 0 <= x < |fwd| && bin[x] == order[x])
    && (forall x | 0 <= x < |fwd| && x !in bin :: bwd[x] == NIL && (fwd[x] == NIL || !free[x] || x == loose))
  }

  lemma Blank(fwd: seq<int>, bwd: seq<int>, order: seq<nat>, free: seq<bool>, heads: seq<int>, lists: seq<seq<int>>)
    requires |fwd| == |bwd| == |order| == |free| && |heads| == |lists| == LISTS
    requires forall x | 0 <= x < |fwd| :: fwd[x] == NIL && bwd[x] == NIL
    requires forall k | 0 <= k < LISTS :: heads[k] == NIL && lists[k] == []
    ensures Linked(fwd, bwd, order, free, heads, lists, map[], NIL)
  {
  }

  function RemoveHead(fwd: seq<int>, order: seq<nat>, heads: seq<int>, e: nat): seq<int>
    requires e < |fwd| == |order|
  {
    if order[e] < |heads| && heads[order[e]] == e then heads[order[e] := fwd[e]] else heads
  }

  lemma UnlinkListed(fwd: seq<int>, bwd: seq<int>, order: seq<nat>, free: seq<bool>, heads: seq<int>,
                     lists: seq<seq<int>>, bin: map<int, int>, loose: int, e: int)
    requires Linked(fwd, bwd, order, free, heads, lists, bin, loose) && e in bin
    ensures 0 <= e < |fwd| && order[e] < LISTS
    ensures Linked(RemoveFwd(fwd, bwd, e), RemoveBwd(fwd, bwd, e), order, free, RemoveHead(fwd, order, heads, e),
                   lists[order[e] := Minus(lists[order[e]], e)], bin - {e}, loose)
  {
    var b := bin[e];
    UnlinkTidy(fwd, bwd, order, free, heads, lists, bin, loose, e);
    assert RemoveHead(fwd, order, heads, e) == heads[b := if heads[b] == e then fwd[e] else heads[b]];
    hide Good, Tidy, RemoveFwd, RemoveBwd, RemoveHead;
    RemoveGood(fwd, bwd, heads, lists, bin, e, b);
  }

  lemma UnlinkTidy(fwd: seq<int>, bwd: seq<int>, order: seq<nat>, free: seq<bool>, heads: seq<int>,
                   lists: seq<seq<int>>, bin: map<int, int>, loose: int, e: int)
    requires Linked(fwd, bwd, order, free, heads, lists, bin, loose) && e in bin
    ensures 0 <= e < |fwd| && Tidy(RemoveFwd(fwd, bwd, e), RemoveBwd(fwd, bwd, e), order, free, bin - {e}, loose)
  {
    UnlinkKeeps(fwd, bwd, heads, lists, bin, e);
    hide Good, RemoveFwd, RemoveBwd;
  }

  lemma UnlinkKeeps(fwd: seq<int>, bwd: seq<int>, heads: seq<int>, lists: seq<seq<int>>, bin: map<int, int>, e: int)
    requires Good(fwd, bwd, heads, lists, bin) && e in bin && 0 <= e < |fwd| == |bwd|
    ensures RemoveFwd(fwd, bwd, e)[e] == NIL && RemoveBwd(fwd, bwd, e)[e] == NIL
    ensures forall x | 0 <= x < |fwd| && x !in bin ::
              RemoveFwd(fwd, bwd, e)[x] == fwd[x] && RemoveBwd(fwd, bwd, e)[x] == bwd[x]
  {
    hide Good;
    forall x | 0 <= x < |fwd| && x !in bin
      ensures RemoveFwd(fwd, bwd, e)[x] == fwd[x] && RemoveBwd(fwd, bwd, e)[x] == bwd[x]
    {
      RemoveKeeps(fwd, bwd, heads, lists, bin, e, x);
    }
  }

  /** A stale forward link does no harm when the entry it points to heads its list or is in none:
      the back link that Remove clears there is clear already. */
  lemma UnlinkLoose(fwd: seq<int>, bwd: seq<int>, order: seq<nat>, free: seq<bool>, heads: seq<int>,
                    lists: seq<seq<int>>, bin: map<int, int>, loose: int, e: nat)
    requires Linked(fwd, bwd, order, free, heads, lists, bin, loose) && e < |fwd| && e !in bin
    requires 0 <= fwd[e] < |fwd| ==> bwd[fwd[e]] == NIL
    ensures Linked(RemoveFwd(fwd, bwd, e), RemoveBwd(fwd, bwd, e), order, free, RemoveHead(fwd, order, heads, e),
                   lists, bin, loose)
    ensures RemoveHead(fwd, order, heads, e) == heads && RemoveBwd(fwd, bwd, e) == bwd
  {
    assert bwd[e] == NIL;
    assert RemoveBwd(fwd, bwd, e) == bwd;
    WriteUnlisted(fwd, bwd, heads, lists, bin, e, NIL, NIL);
    assert bwd[e := NIL] == bwd;
    if order[e] < LISTS {
      HeadListed(fwd, bwd, heads, lists, bin, order[e]);
    }
  }

  lemma PushLinked(fwd: seq<int>, bwd: seq<int>, order: seq<nat>, free: seq<bool>, heads: seq<int>,
                   lists: seq<seq<int>>, bin: map<int, int>, loose: int, k: nat, e: nat)
    requires Linked(fwd, bwd, order, free, heads, lists, bin, loose) && e < |fwd| && e !in bin && k < LISTS
    ensures NIL <= heads[k] < |bwd|
    ensures Linked(fwd[e := heads[k]], PushBwd(bwd, heads[k], e), order[e := k], free, heads[k := e],
                   lists[k := [e] + lists[k]], bin[e := k], loose)
  {
    PushGood(fwd, bwd, heads, lists, bin, k, e);
    HeadListed(fwd, bwd, heads, lists, bin, k);
  }

  /** Popping clears the new head's back link, and leaves the old head's forward link. */
  lemma PopLinked(fwd: seq<int>, bwd: seq<int>, order: seq<nat>, free: seq<bool>, heads: seq<int>,
                  lists: seq<seq<int>>, bin: map<int, int>, loose: int, k: nat)
    requires Linked(fwd, bwd, order, free, heads, lists, bin, loose) && k < LISTS && heads[k] != NIL
    requires loose == NIL || loose == heads[k]
    ensures var h := heads[k]; 0 <= h < |fwd| && h in bin && bin[h] == k && NIL <= fwd[h] < |fwd|
    ensures var h := heads[k];
            Linked(fwd, PushBwd(bwd, fwd[h], NIL), order, free, heads[k := fwd[h]], lists[k := Minus(lists[k], h)],
                   bin - {h}, h)
  {
    HeadListed(fwd, bwd, heads, lists, bin, k);
    var h := heads[k];
    Neighbours(fwd, bwd, heads, lists, bin, h, k);
    UnlinkListed(fwd, bwd, order, free, heads, lists, bin, loose, h);
    var fwd', bwd' := RemoveFwd(fwd, bwd, h), RemoveBwd(fwd, bwd, h);
    var heads', lists' := heads[k := fwd[h]], lists[k := Minus(lists[k], h)];
    WriteUnlisted(fwd', bwd', heads', lists', bin - {h}, h, fwd[h], NIL);
    assert fwd'[h := fwd[h]] == fwd && bwd'[h := NIL] == PushBwd(bwd, fwd[h], NIL);
  }

  /** Orders and flags of unlisted entries are free to change, if what is marked free has no
      forward link. */
  lemma Relabel(fwd: seq<int>, bwd: seq<int>, order: seq<nat>, free: seq<bool>, heads: seq<int>, lists: seq<seq<int>>,
                bin: map<int, int>, loose: int, order': seq<nat>, free': seq<bool>, loose': int)
    requires Linked(fwd, bwd, order, free, heads, lists, bin, loose) && |order'| == |order| && |free'| == |free|
    requires forall x | 0 <= x < |fwd| && x in bin :: order'[x] == order[x]
    requires forall x | 0 <= x < |fwd| && x !in bin ::
              fwd[x] == NIL || (free'[x] ==> free[x] && x != loose) || x == loose'
    ensures Linked(fwd, bwd, order', free', heads, lists, bin, loose')
  {
  }

  /** Splitting, as the lists see it: `e`, which was between lists, is pushed onto list `k`, and
      `b` is between lists instead. */
  lemma SplitLinked(fwd: seq<int>, bwd: seq<int>, order: seq<nat>, free: seq<bool>, heads: seq<int>,
                    lists: seq<seq<int>>,
                    bin: map<int, int>, k: nat, e: nat, b: nat)
    requires e < |fwd| && b < |fwd| && e != b && k < LISTS
    requires Linked(fwd[e := NIL], bwd, order, free, heads, lists, bin, e)
    requires e !in bin && b !in bin && free[b]
    ensures NIL <= heads[k] < |bwd|
    ensures Linked(fwd[e := heads[k]], PushBwd(bwd, heads[k], e), order[b := k][e := k], free[e := true][b := false],
                   heads[k := e],
                   lists[k := [e] + lists[k]], bin[e := k], b)
    ensures fwd[e := heads[k]][b] == NIL
  {
    hide Good;
    Relabel(fwd[e := NIL], bwd, order, free, heads, lists, bin, e, order[b := k], free[e := true][b := false], b);
    PushLinked(fwd[e := NIL], bwd, order[b := k], free[e := true][b := false], heads, lists, bin, b, k, e);
    assert fwd[e := NIL][e := heads[k]] == fwd[e := heads[k]];
  }

  /** The listed entries are the free blocks in the tree, and the one in the hole if `listed`. */
  ghost predicate Bins(c: Ctx, k: nat, a: nat, listed: bool, bin: map<int, int>) {
    forall x :: x in bin <==> CtxLeaf(c, k, a, Vacant, x) || (listed && x == a)
  }

  lemma BinsCut(c: Ctx, j: nat, a: nat, m: nat, bin: map<int, int>)
    requires m == a + Pow2(j) && Bins(c, j + 1, a, false, bin)
    ensures Bins(InHi(c, Vacant), j, m, false, bin[a := j])
  {
    CutLeaf(c, j, a, m);
    hide CtxLeaf;
  }

  lemma BinsSkip(c: Ctx, j: nat, a: nat, bin: map<int, int>)
    requires Bins(c, j + 1, a, false, bin)
    ensures Bins(InLo(c, Gone), j, a, false, bin)
  {
  }

  /** Marking the block between lists as live: its forward link may stay stale. */
  lemma Unloose(fwd: seq<int>, bwd: seq<int>, order: seq<nat>, free: seq<bool>, heads: seq<int>, lists: seq<seq<int>>,
                bin: map<int, int>, e: nat, k: nat)
    requires Linked(fwd, bwd, order, free, heads, lists, bin, e) && e < |fwd| && e !in bin
    ensures Linked(fwd, bwd, order[e := k], free[e := false], heads, lists, bin, NIL)
  {
    hide Good;
  }

  lemma Unloosed(fwd: seq<int>, bwd: seq<int>, order: seq<nat>, free: seq<bool>, heads: seq<int>, lists: seq<seq<int>>,
                 bin: map<int, int>, e: nat)
    requires Linked(fwd, bwd, order, free, heads, lists, bin, e) && e in bin
    ensures Linked(fwd, bwd, order, free, heads, lists, bin, NIL)
  {
    hide Good;
  }

  lemma AloneBins(c: Ctx, k: nat, e: nat, bin: map<int, int>)
    requires Bins(c, k, e, false, bin)
    ensures e !in bin && Bins(c, k, e, true, bin[e := k])
  {
    CtxLeavesBounds(c, k, e, Vacant);
    hide CtxLeaf;
  }

  lemma BinsInside(c: Ctx, k: nat, a: nat, listed: bool, bin: map<int, int>)
    requires Bins(c, k, a, listed, bin)
    ensures forall x | a <= x < a + Pow2(k) :: x in bin <==> listed && x == a
  {
    CtxLeavesBounds(c, k, a, Vacant);
  }

  lemma HeadFirst(fwd: seq<int>, bwd: seq<int>, order: seq<nat>, free: seq<bool>, heads: seq<int>,
                  lists: seq<seq<int>>, bin: map<int, int>, k: nat)
    requires Linked(fwd, bwd, order, free, heads, lists, bin, NIL) && k < LISTS && heads[k] != NIL
    ensures |lists| == LISTS && lists[k] == [heads[k]] + Minus(lists[k], heads[k])
  {
    HeadListed(fwd, bwd, heads, lists, bin, k);
  }

  lemma PopClear(fwd: seq<int>, bwd: seq<int>, order: seq<nat>, free: seq<bool>, heads: seq<int>,
                 lists: seq<seq<int>>, bin: map<int, int>, k: nat)
    requires Linked(fwd, bwd, order, free, heads, lists, bin, NIL) && k < LISTS && heads[k] != NIL
    ensures var h := heads[k]; 0 <= h < |fwd| && h in bin && order[h] == k && NIL <= fwd[h] < |fwd|
    ensures var f := fwd[heads[k]]; f != NIL ==> PushBwd(bwd, f, NIL)[f] == NIL
  {
    HeadListed(fwd, bwd, heads, lists, bin, k);
    Neighbours(fwd, bwd, heads, lists, bin, heads[k], k);
  }

  /** Unlinking any entry, listed or not, whose links can do no harm. */
  lemma UnlinkAny(fwd: seq<int>, bwd: seq<int>, order: seq<nat>, free: seq<bool>, heads: seq<int>,
                  lists: seq<seq<int>>, bin: map<int, int>, loose: int, e: nat) returns (lists': seq<seq<int>>)
    requires Linked(fwd, bwd, order, free, heads, lists, bin, loose) && e < |fwd|
    requires e !in bin && 0 <= fwd[e] < |fwd| ==> bwd[fwd[e]] == NIL
    ensures Linked(RemoveFwd(fwd, bwd, e), RemoveBwd(fwd, bwd, e), order, free, RemoveHead(fwd, order, heads, e),
                   lists', bin - {e}, loose)
    ensures forall x | 0 <= x < |fwd| && x !in bin && x != e :: RemoveFwd(fwd, bwd, e)[x] == fwd[x]
  {
    if e in bin {
      UnlinkListed(fwd, bwd, order, free, heads, lists, bin, loose, e);
      UnlinkKeeps(fwd, bwd, heads, lists, bin, e);
      lists' := lists[order[e] := Minus(lists[order[e]], e)];
    } else {
      UnlinkLoose(fwd, bwd, order, free, heads, lists, bin, loose, e);
      assert bin - {e} == bin;
      lists' := lists;
    }
  }

  /** Unlinking two buddies, the lower one first, and pushing it onto the next list: the effect on
      forward links, back links and heads. */
  function MergeFwd(fwd: seq<int>, bwd: seq<int>, order: seq<nat>, heads: seq<int>, lo: nat, hi: nat, k: nat): seq<int>
    requires lo < |fwd| && hi < |fwd| && |fwd| == |bwd| == |order| && k < |heads|
  {
    var heads' := RemoveHead(RemoveFwd(fwd, bwd, lo), order, RemoveHead(fwd, order, heads, lo), hi);
    RemoveFwd(RemoveFwd(fwd, bwd, lo), RemoveBwd(fwd, bwd, lo), hi)[lo := heads'[k]]
  }

  function MergeBwd(fwd: seq<int>, bwd: seq<int>, order: seq<nat>, heads: seq<int>, lo: nat, hi: nat, k: nat): seq<int>
    requires lo < |fwd| && hi < |fwd| && |fwd| == |bwd| == |order| && k < |heads|
  {
    var heads' := RemoveHead(RemoveFwd(fwd, bwd, lo), order, RemoveHead(fwd, order, heads, lo), hi);
    PushBwd(RemoveBwd(RemoveFwd(fwd, bwd, lo), RemoveBwd(fwd, bwd, lo), hi), heads'[k], lo)
  }

  function MergeHeads(fwd: seq<int>, bwd: seq<int>, order: seq<nat>, heads: seq<int>, lo: nat, hi: nat,
                      k: nat): seq<int>
    requires lo < |fwd| && hi < |fwd| && |fwd| == |bwd| == |order| && k < |heads|
  {
    RemoveHead(RemoveFwd(fwd, bwd, lo), order, RemoveHead(fwd, order, heads, lo), hi)[k := lo]
  }

  /** Merging `e` is harmless when the entry its stale forward link points to has no back link at
      the moment `e` is unlinked, or has one that unlinking the buddy `b` then sets right. */
  predicate Harmless(fwd: seq<int>, bwd: seq<int>, e: nat, b: nat)
    requires e < |fwd| && b < |fwd| && |fwd| == |bwd|
  {
    0 <= fwd[e] < |fwd| ==>
      if e < b then bwd[fwd[e]] == NIL || bwd[fwd[e]] == b
      else RemoveBwd(fwd, bwd, b)[fwd[e]] == NIL
  }

  /** Unlinking `b` sets right the back link that unlinking `e` cleared. */
  lemma SetRight(fwd: seq<int>, bwd: seq<int>, order: seq<nat>, free: seq<bool>, heads: seq<int>,
                 lists: seq<seq<int>>, bin: map<int, int>, e: nat, b: nat)
    requires Linked(fwd, bwd, order, free, heads, lists, bin, e) && e < |fwd| && b < |fwd| && e != b && e !in bin
    requires 0 <= fwd[e] < |fwd| && bwd[fwd[e]] == b
    ensures Linked(fwd[e := NIL], bwd, order, free, heads, lists, bin, e)
    ensures var fwd1, bwd1 := RemoveFwd(fwd, bwd, e), RemoveBwd(fwd, bwd, e);
            && fwd1 == fwd[e := NIL] && RemoveHead(fwd, order, heads, e) == heads
            && RemoveFwd(fwd1, bwd1, b) == RemoveFwd(fwd[e := NIL], bwd, b)
            && RemoveBwd(fwd1, bwd1, b) == RemoveBwd(fwd[e := NIL], bwd, b)
  {
    var f := fwd[e];
    assert f in bin && bwd[e] == NIL;
    Neighbours(fwd, bwd, heads, lists, bin, f, bin[f]);
    ChainMirror(fwd, bwd, NIL, heads[bin[f]], lists[bin[f]], f);
    assert fwd[b] == f && f != b by { ChainLinks(fwd, bwd, NIL, heads[bin[f]], lists[bin[f]], f); }
    WriteUnlisted(fwd, bwd, heads, lists, bin, e, NIL, NIL);
    assert bwd[e := NIL] == bwd;
    if order[e] < LISTS {
      HeadListed(fwd, bwd, heads, lists, bin, order[e]);
    }
  }

  lemma MergeLinked(fwd: seq<int>, bwd: seq<int>, order: seq<nat>, free: seq<bool>, heads: seq<int>,
                    lists: seq<seq<int>>, bin: map<int, int>, e: nat, b: nat, k: nat) returns (lists': seq<seq<int>>)
    requires Linked(fwd, bwd, order, free, heads, lists, bin, e) && e < |fwd| && b < |fwd| && e != b && k < LISTS
    requires free[b] && (e in bin || Harmless(fwd, bwd, e, b))
    ensures var lo, hi := if e < b then e else b, if e < b then b else e;
            Linked(MergeFwd(fwd, bwd, order, heads, lo, hi, k), MergeBwd(fwd, bwd, order, heads, lo, hi, k),
                   order[lo := k], free, MergeHeads(fwd, bwd, order, heads, lo, hi, k), lists',
                     (bin - {lo} - {hi})[lo := k], e)
  {
    hide Good, RemoveHead, RemoveFwd, RemoveBwd, PushBwd;
    var lo, hi := if e < b then e else b, if e < b then b else e;
    if e < b && e !in bin && 0 <= fwd[e] < |fwd| && bwd[fwd[e]] != NIL {
      SetRight(fwd, bwd, order, free, heads, lists, bin, e, b);
      lists' := UnlinkPush(fwd[e := NIL], bwd, order, free, heads, lists, bin, e, hi, lo, k);
      assert bin - {lo} == bin;
      return;
    }
    var lists1 := UnlinkAny(fwd, bwd, order, free, heads, lists, bin, e, lo);
    var fwd1, bwd1, heads1 := RemoveFwd(fwd, bwd, lo), RemoveBwd(fwd, bwd, lo), RemoveHead(fwd, order, heads, lo);
    lists' := UnlinkPush(fwd1, bwd1, order, free, heads1, lists1, bin - {lo}, e, hi, lo, k);
  }

  lemma UnlinkPush(fwd: seq<int>, bwd: seq<int>, order: seq<nat>, free: seq<bool>, heads: seq<int>,
                   lists: seq<seq<int>>,
                   bin: map<int, int>, loose: int, hi: nat, lo: nat, k: nat) returns (lists': seq<seq<int>>)
    requires Linked(fwd, bwd, order, free, heads, lists, bin, loose) && lo < |fwd| && hi < |fwd| && lo != hi &&
             k < LISTS
    requires lo !in bin && (hi !in bin && 0 <= fwd[hi] < |fwd| ==> bwd[fwd[hi]] == NIL)
    ensures var heads2 := RemoveHead(fwd, order, heads, hi);
            Linked(RemoveFwd(fwd, bwd, hi)[lo := heads2[k]], PushBwd(RemoveBwd(fwd, bwd, hi), heads2[k], lo),
                   order[lo := k], free, heads2[k := lo], lists', (bin - {hi})[lo := k], loose)
  {
    hide Good, RemoveHead, RemoveFwd, RemoveBwd, PushBwd;
    var lists2 := UnlinkAny(fwd, bwd, order, free, heads, lists, bin, loose, hi);
    var fwd2, bwd2, heads2 := RemoveFwd(fwd, bwd, hi), RemoveBwd(fwd, bwd, hi), RemoveHead(fwd, order, heads, hi);
    LinkedSizes(fwd2, bwd2, order, free, heads2, lists2, bin - {hi}, loose);
    PushLinked(fwd2, bwd2, order, free, heads2, lists2, bin - {hi}, loose, k, lo);
    lists' := lists2[k := [lo] + lists2[k]];
  }

  /** Merging, as the lists see it. */
  lemma MergeReady(fwd: seq<int>, bwd: seq<int>, order: seq<nat>, free: seq<bool>, heads: seq<int>,
                   lists: seq<seq<int>>,
                   bin: map<int, int>, k: nat, e: nat, b: nat) returns (lists': seq<seq<int>>)
    requires |fwd| == |bwd| == |order| == |free| && e < |fwd| && b < |fwd| && e != b && free[b] && k < LISTS == |heads|
    requires Linked(fwd, bwd, order, free, heads, lists, bin, e)
    requires e in bin || Harmless(fwd, bwd, e, b)
    ensures var lo, hi := if e < b then e else b, if e < b then b else e;
            Linked(MergeFwd(fwd, bwd, order, heads, lo, hi, k), MergeBwd(fwd, bwd, order, heads, lo, hi, k),
                   order[lo := k], free[e := true], MergeHeads(fwd, bwd, order, heads, lo, hi, k), lists',
                   (bin - {lo} - {hi})[lo := k], lo)
  {
    hide Good, Harmless, RemoveHead, PushBwd;
    var lo, hi := if e < b then e else b, if e < b then b else e;
    Relabel(fwd, bwd, order, free, heads, lists, bin, e, order, free[e := true], e);
    lists' := MergeLinked(fwd, bwd, order, free[e := true], heads, lists, bin, e, b, k);
    assert MergeFwd(fwd, bwd, order, heads, lo, hi, k)[hi] == NIL;
    hide MergeFwd, MergeBwd, MergeHeads;
  }

  lemma ListedInBin(c: Ctx, k: nat, e: nat, bin: map<int, int>)
    requires Bins(c, k, e, true, bin)
    ensures e in bin
  {
  }

  lemma MergeBins(c: Ctx, k: nat, e: nat, b: nat, listed: bool, bin: map<int, int>, n: nat, order: seq<nat>,
                  free: seq<bool>)
    requires Hole(c, k, e, n, order, free) && n < Pow2(LISTS) && (Sibling(c).Vacant? || Sibling(c).Spare?)
    requires b == Flip(e, k) && Bins(c, k, e, listed, bin)
    ensures var lo, hi := if e < b then e else b, if e < b then b else e;
            !c.Top? && Bins(c.up, k + 1, lo, true, (bin - {lo} - {hi})[lo := k + 1])
  {
    hide CtxHolds, CtxCoalesced, LiveFlags, CtxLeaf, Flip;
    FlipIsSibling(c, k, e, n, order, free);
    var lo := if e < b then e else b;
    Widen(c, k, e, lo, n, order, free);
    CtxLeavesBounds(c.up, k + 1, lo, Vacant);
    assert Pow2(k + 1) == Pow2(k) + Pow2(k);
    hide Hole;
  }

  // -------------------------------------------------- the stale forward link

  /** Lists are what their heads and forward links say. */
  lemma {:induction false} ForwardDecides(fwd: seq<int>, bwd: seq<int>, bwd': seq<int>, prev: int, prev': int,
                                          head: int, l: seq<int>, m: seq<int>)
    requires |fwd| == |bwd| == |bwd'| && Chain(fwd, bwd, prev, head, l) && Chain(fwd, bwd', prev', head, m)
    ensures l == m
    decreases l
  {
    if l != [] {
      ForwardDecides(fwd, bwd, bwd', l[0], l[0], fwd[l[0]], l[1..], m[1..]);
      assert l == [l[0]] + l[1..] && m == [m[0]] + m[1..];
    }
  }

  /** Unlinking an entry that is in no list, as a merge does with the block being freed, leaves
      well-formed lists behind if and only if the entry its stale forward link points to has no
      back link. */
  lemma StaleUnlink(fwd: seq<int>, bwd: seq<int>, heads: seq<int>, lists: seq<seq<int>>, bin: map<int, int>, e: nat)
    requires Good(fwd, bwd, heads, lists, bin) && e < |fwd| && e !in bin && bwd[e] == NIL && NIL <= fwd[e] < |fwd|
    requires forall x | 0 <= x < |fwd| && x !in bin :: bwd[x] == NIL
    ensures (exists lists', bin' :: Good(RemoveFwd(fwd, bwd, e), RemoveBwd(fwd, bwd, e), heads, lists', bin'))
        <==> (fwd[e] == NIL || bwd[fwd[e]] == NIL)
  {
    var fwd', bwd' := RemoveFwd(fwd, bwd, e), RemoveBwd(fwd, bwd, e);
    WriteUnlisted(fwd, bwd, heads, lists, bin, e, NIL, NIL);
    if fwd[e] == NIL || bwd[fwd[e]] == NIL {
      assert bwd[e := NIL] == bwd' && fwd[e := NIL] == fwd';
      assert Good(fwd', bwd', heads, lists, bin);
    } else if lists', bin' :| Good(fwd', bwd', heads, lists', bin') {
      var f := fwd[e];
      assert f in bin;
      var b := bin[f];
      Neighbours(fwd, bwd, heads, lists, bin, f, b);
      assert Chain(fwd[e := NIL], bwd[e := NIL], NIL, heads[b], lists[b]);
      assert Chain(fwd', bwd', NIL, heads[b], lists'[b]);
      ForwardDecides(fwd', bwd[e := NIL], bwd', NIL, NIL, heads[b], lists[b], lists'[b]);
      ChainLinks(fwd', bwd', NIL, heads[b], lists'[b], f);
      ChainBounds(fwd', bwd', NIL, heads[b], lists'[b]);
    }
  }

  /** The list up to and including `b`. */
  function UpTo(l: seq<int>, b: int): seq<int> {
    if l == [] then [] else if l[0] == b then [b] else [l[0]] + UpTo(l[1..], b)
  }

  lemma {:induction false} Truncated(fwd: seq<int>, bwd: seq<int>, prev: int, head: int, l: seq<int>, b: int)
    requires |fwd| == |bwd| && Chain(fwd, bwd, prev, head, l) && b in l && 0 <= b < |fwd|
    ensures Chain(fwd[b := NIL], bwd, prev, head, UpTo(l, b)) && b in UpTo(l, b)
    ensures forall x | x in UpTo(l, b) :: x in l
    decreases l
  {
    if l[0] != b {
      Truncated(fwd, bwd, l[0], fwd[l[0]], l[1..], b);
      assert ([l[0]] + UpTo(l[1..], b))[1..] == UpTo(l[1..], b);
    }
  }

  lemma {:induction false} ForwardMirror(fwd: seq<int>, bwd: seq<int>, prev: int, head: int, l: seq<int>, e: int)
    requires |fwd| == |bwd| && Chain(fwd, bwd, prev, head, l) && e in l
    ensures 0 <= e < |fwd| && (0 <= fwd[e] < |fwd| ==> bwd[fwd[e]] == e)
    decreases l
  {
    if l[0] != e {
      ForwardMirror(fwd, bwd, l[0], fwd[l[0]], l[1..], e);
    }
  }

  /** An entry that is not the first of its list has a back link. */
  lemma BackLinked(fwd: seq<int>, bwd: seq<int>, bwd': seq<int>, head: int, l: seq<int>, m: seq<int>, f: int)
    requires |fwd| == |bwd| == |bwd'| && Chain(fwd, bwd, NIL, head, l) && Chain(fwd, bwd', NIL, head, m)
    requires f in l && f != head
    ensures 0 <= f < |fwd| && bwd'[f] != NIL
  {
    ForwardDecides(fwd, bwd, bwd', NIL, NIL, head, l, m);
    ChainLinks(fwd, bwd', NIL, head, m, f);
    ChainBounds(fwd, bwd', NIL, head, m);
  }

  /** Where merging would not be harmless, the lists are broken once the two buddies are unlinked. A
      later merge may still mend them. */
  lemma HarmIsReal(fwd: seq<int>, bwd: seq<int>, order: seq<nat>, free: seq<bool>, heads: seq<int>,
                   lists: seq<seq<int>>,
                   bin: map<int, int>, e: nat, b: nat, lists': seq<seq<int>>, bin': map<int, int>)
    requires Linked(fwd, bwd, order, free, heads, lists, bin, e) && e < |fwd| && b < |fwd| && e != b
    requires e !in bin && free[b] && !Harmless(fwd, bwd, e, b)
    ensures var lo, hi := if e < b then e else b, if e < b then b else e;
            var fwd1, bwd1, heads1 := RemoveFwd(fwd, bwd, lo), RemoveBwd(fwd, bwd, lo),
              RemoveHead(fwd, order, heads, lo);
            !Good(RemoveFwd(fwd1, bwd1, hi), RemoveBwd(fwd1, bwd1, hi), RemoveHead(fwd1, order, heads1, hi), lists',
                  bin')
  {
    if e > b {
      HarmAbove(fwd, bwd, order, free, heads, lists, bin, e, b, lists', bin');
    } else if fwd[e] == b {
      HarmAtBuddy(fwd, bwd, order, free, heads, lists, bin, e, b, lists', bin');
    } else {
      HarmBelow(fwd, bwd, order, free, heads, lists, bin, e, b, lists', bin');
    }
  }

  lemma HarmAbove(fwd: seq<int>, bwd: seq<int>, order: seq<nat>, free: seq<bool>, heads: seq<int>, lists: seq<seq<int>>,
                  bin: map<int, int>, e: nat, b: nat, lists': seq<seq<int>>, bin': map<int, int>)
    requires Linked(fwd, bwd, order, free, heads, lists, bin, e) && b < e < |fwd|
    requires e !in bin && free[b] && !Harmless(fwd, bwd, e, b)
    ensures var fwd1, bwd1, heads1 := RemoveFwd(fwd, bwd, b), RemoveBwd(fwd, bwd, b), RemoveHead(fwd, order, heads, b);
            !Good(RemoveFwd(fwd1, bwd1, e), RemoveBwd(fwd1, bwd1, e), RemoveHead(fwd1, order, heads1, e), lists', bin')
  {
    hide RemoveFwd, RemoveBwd, Good;
    var lists1 := UnlinkAny(fwd, bwd, order, free, heads, lists, bin, e, b);
    var fwd1, bwd1, heads1 := RemoveFwd(fwd, bwd, b), RemoveBwd(fwd, bwd, b), RemoveHead(fwd, order, heads, b);
    StaleUnlink(fwd1, bwd1, heads1, lists1, bin - {b}, e);
    LinkedSizes(fwd1, bwd1, order, free, heads1, lists1, bin - {b}, e);
    if order[e] < LISTS {
      HeadListed(fwd1, bwd1, heads1, lists1, bin - {b}, order[e]);
    }
  }

  lemma HarmAtBuddy(fwd: seq<int>, bwd: seq<int>, order: seq<nat>, free: seq<bool>, heads: seq<int>,
                    lists: seq<seq<int>>,
                    bin: map<int, int>, e: nat, b: nat, lists': seq<seq<int>>, bin': map<int, int>)
    requires Linked(fwd, bwd, order, free, heads, lists, bin, e) && e < b < |fwd|
    requires e !in bin && fwd[e] == b && !Harmless(fwd, bwd, e, b)
    ensures var fwd1, bwd1, heads1 := RemoveFwd(fwd, bwd, e), RemoveBwd(fwd, bwd, e), RemoveHead(fwd, order, heads, e);
            !Good(RemoveFwd(fwd1, bwd1, b), RemoveBwd(fwd1, bwd1, b), RemoveHead(fwd1, order, heads1, b), lists', bin')
  {
    assert b in bin;
    var n := bin[b];
    Neighbours(fwd, bwd, heads, lists, bin, b, n);
    WriteUnlisted(fwd, bwd, heads, lists, bin, e, NIL, NIL);
    assert bwd[e := NIL] == bwd;
    if order[e] < LISTS {
      HeadListed(fwd, bwd, heads, lists, bin, order[e]);
    }
    var fwd1, bwd1 := RemoveFwd(fwd, bwd, e), RemoveBwd(fwd, bwd, e);
    var fwd2, bwd2 := RemoveFwd(fwd1, bwd1, b), RemoveBwd(fwd1, bwd1, b);
    assert fwd1 == fwd[e := NIL] && bwd1[b] == NIL && fwd2 == fwd1[b := NIL] && bwd2[b] == NIL;
    assert RemoveHead(fwd1, order, heads, b) == heads;
    Truncated(fwd1, bwd, NIL, heads[n], lists[n], b);
    if Good(fwd2, bwd2, heads, lists', bin') {
      BackLinked(fwd2, bwd, bwd2, heads[n], UpTo(lists[n], b), lists'[n], b);
    }
  }

  lemma HarmBelow(fwd: seq<int>, bwd: seq<int>, order: seq<nat>, free: seq<bool>, heads: seq<int>, lists: seq<seq<int>>,
                  bin: map<int, int>, e: nat, b: nat, lists': seq<seq<int>>, bin': map<int, int>)
    requires Linked(fwd, bwd, order, free, heads, lists, bin, e) && e < b < |fwd|
    requires e !in bin && free[b] && fwd[e] != b && !Harmless(fwd, bwd, e, b)
    ensures var fwd1, bwd1, heads1 := RemoveFwd(fwd, bwd, e), RemoveBwd(fwd, bwd, e), RemoveHead(fwd, order, heads, e);
            !Good(RemoveFwd(fwd1, bwd1, b), RemoveBwd(fwd1, bwd1, b), RemoveHead(fwd1, order, heads1, b), lists', bin')
  {
    var f := fwd[e];
    assert f in bin;
    var n := bin[f];
    Neighbours(fwd, bwd, heads, lists, bin, f, n);
    WriteUnlisted(fwd, bwd, heads, lists, bin, e, NIL, NIL);
    assert bwd[e := NIL] == bwd;
    if order[e] < LISTS {
      HeadListed(fwd, bwd, heads, lists, bin, order[e]);
    }
    var fwd1, bwd1 := RemoveFwd(fwd, bwd, e), RemoveBwd(fwd, bwd, e);
    assert fwd1 == fwd[e := NIL] && bwd1 == bwd[f := NIL];
    var lists2 := UnlinkAny(fwd1, bwd, order, free, heads, lists, bin, e, b);
    var fwd2, bwd2, heads2 := RemoveFwd(fwd1, bwd1, b), RemoveBwd(fwd1, bwd1, b), RemoveHead(fwd1, order, heads, b);
    assert fwd2 == RemoveFwd(fwd1, bwd, b);
    if b in bin && fwd[b] == f {
      Neighbours(fwd, bwd, heads, lists, bin, b, bin[b]);
      ForwardMirror(fwd, bwd, NIL, heads[bin[b]], lists[bin[b]], b);
    }
    if Good(fwd2, bwd2, heads2, lists', bin') {
      assert RemoveBwd(fwd1, bwd, b)[f] == bwd[f] != NIL;
      Neighbours(fwd2, RemoveBwd(fwd1, bwd, b), heads2, lists2, bin - {b}, f, n);
      BackLinked(fwd2, RemoveBwd(fwd1, bwd, b), bwd2, heads2[n], lists2[n], lists'[n], f);
    }
  }
}
