/** The physical page allocator: power-of-two blocks in intrusive free lists, split on allocation
    and merged with their buddies on release. */
module Buddy {
  import opened Powers
  import opened FreeLists
  import opened BuddyTree
  import opened BuddyLists
  import opened BuddyMend

  const MIN_ORDER: nat := 12
  const MIN_ALLOCATION: nat := 0x1000
  /** sizeof(FreeListEntry). */
  const ENTRY_SIZE: nat := 24

  /** Computes ceil(log2(size)). */
  method CeilLog2(size: nat) returns (i: nat)
    ensures size <= Pow2(i) && (i > 0 ==> Pow2(i - 1) < size)
  {
    i := 0;
    while Pow2(i) < size
      invariant i > 0 ==> Pow2(i - 1) < size
      decreases size - Pow2(i)
    {
      i := i + 1;
    }
  }

  function RoundUp(size: nat): (r: nat)
    ensures r % MIN_ALLOCATION == 0 && size <= r < size + MIN_ALLOCATION
  {
    (size + MIN_ALLOCATION - 1) / MIN_ALLOCATION * MIN_ALLOCATION
  }

  /** Every link is an entry's index, or null. */
  ghost predicate Links(s: seq<int>, n: nat) {
    forall x | 0 <= x < |s| :: NIL <= s[x] < n
  }

  lemma Halving(k: nat)
    ensures k == 0 ==> Pow2(k) == 1
    ensures k > 0 ==> Pow2(k) == 2 * Pow2(k - 1) && (k > 1 ==> Pow2(k - 1) % 2 == 0) && (k == 1 ==> Pow2(k) == 2)
  {
  }

  /** The part of `n` pages left from page `a`, when level `k` has been reached: the whole of the
      stretch of that level if `n` is a power of two, and otherwise less, after an even page. */
  predicate SizeRule(n: nat, k: nat, a: nat, left: nat) {
    if IsPow2(n) then left == Pow2(k) else left < Pow2(k) && a % 2 == 0
  }

  lemma SizeAfterPush(n: nat, j: nat, a: nat, left: nat)
    requires SizeRule(n, j + 1, a, left) && Pow2(j) <= left && left > 1
    ensures SizeRule(n, j, a + Pow2(j), left - Pow2(j))
  {
    hide IsPow2;
    Halving(j + 1);
  }

  lemma Leftover(k: nat, a: nat, n: nat)
    requires n > 0 && a <= n <= a + 1 && SizeRule(n, k, a, n - a)
    ensures a < n <==> n % 2 == 1 || IsPow2(n)
  {
    hide IsPow2;
  }

  lemma Middle(e: nat, k: nat)
    requires k > 0
    ensures e < e + Pow2(k - 1) < e + Pow2(k)
  {
  }

  /** The bytes set aside at the start of a range. */
  function MetadataSize(length: nat, initMdataSize: nat): nat {
    RoundUp(initMdataSize) + RoundUp(length / MIN_ALLOCATION * ENTRY_SIZE)
  }

  lemma Sizes(length: nat, initMdataSize: nat)
    requires length > 0 && length % MIN_ALLOCATION == 0 && MetadataSize(length, initMdataSize) <= length
    ensures var n := (length - MetadataSize(length, initMdataSize)) / MIN_ALLOCATION;
            0 <= n <= length / MIN_ALLOCATION && MetadataSize(length, initMdataSize) + n * MIN_ALLOCATION == length
    ensures MetadataSize(length, initMdataSize) > 0
    ensures var metadata := initMdataSize + 24 * (length / 0x1000);
            metadata <= MetadataSize(length, initMdataSize) < metadata + 2 * 0x1000
    ensures MetadataSize(length, initMdataSize) % 0x1000 == 0
  {
    var pages := length / MIN_ALLOCATION;
    assert pages > 0 && pages * ENTRY_SIZE > 0;
    var a, b := RoundUp(initMdataSize), RoundUp(pages * ENTRY_SIZE);
    hide RoundUp;
    WholePages(length, a, b);
  }

  lemma WholePages(length: nat, a: nat, b: nat)
    requires length % MIN_ALLOCATION == 0 && a % MIN_ALLOCATION == 0 && b % MIN_ALLOCATION == 0 && a + b <= length
    ensures var n := (length - (a + b)) / MIN_ALLOCATION;
            0 <= n <= length / MIN_ALLOCATION && a + b + n * MIN_ALLOCATION == length
  {
  }

  /** One range of usable memory. Entries are indexed by page, counted from `base`. */
  class Buddy {
    const base: nat
    const pages: nat
    var fwd: seq<int>
    var bwd: seq<int>
    var order: seq<nat>
    var free: seq<bool>
    var heads: seq<int>
    ghost var tree: Tree
    ghost var lists: seq<seq<int>>
    ghost var bin: map<int, int>

    ghost predicate Ranged()
      reads this
    {
      && |fwd| == |bwd| == |order| == |free| == pages && |heads| == LISTS
      && Links(fwd, pages) && Links(bwd, pages) && Links(heads, pages)
      && (forall x | 0 <= x < pages :: order[x] < LISTS)
    }

    /** The block of `2^k` pages from `a` is out of the tree. */
    ghost predicate Holed(c: Ctx, k: nat, a: nat)
      reads this
    {
      Ranged() && Hole(c, k, a, pages, order, free)
    }

    /** The block of `2^k` pages from `a` is out of the tree, and on its list only if `listed`; every
        other free block is on the list it belongs on. */
    ghost predicate Open(c: Ctx, k: nat, a: nat, listed: bool)
      reads this
    {
      && Holed(c, k, a) && (listed ==> order[a] == k)
      && Linked(fwd, bwd, order, free, heads, lists, bin, a) && Bins(c, k, a, listed, bin)
    }

    /** The same of a block that is being merged and was listed, but the lists may be bent. */
    ghost predicate Merging(c: Ctx, k: nat, e: nat, s: Shape)
      reads this
    {
      && Holed(c, k, e) && order[e] == k && free[e]
      && Shaped(s, fwd, bwd, order, free, heads, lists, bin, e, k) && Bins(c, k, e, true, bin)
    }

    /** The blocks cut up the region, no two free buddies of one size are left apart, and the
        lists hold exactly the free blocks. */
    ghost predicate Valid()
      reads this
    {
      && Ranged() && base > 0 && pages < Pow2(LISTS)
      && Holds(tree, LISTS, 0, pages, order, free) && Coalesced(tree)
      && (forall x | 0 <= x < pages :: !free[x] <==> Leaf(tree, LISTS, 0, Live, x))
      && Linked(fwd, bwd, order, free, heads, lists, bin, NIL)
      && (forall x :: x in bin <==> Leaf(tree, LISTS, 0, Vacant, x))
    }

    /** The first pages of the blocks handed out and not yet returned. */
    ghost function Lives(): set<int>
      reads this
    {
      set x | 0 <= x < |free| && !free[x]
    }

    // ----------------------------------------------------------- cataloguing

    /** Takes over a range of usable memory, whose start is set aside: whole pages, no more than needed
        for what comes first and then for an entry of 24 bytes for every page of the range. */
    constructor (rangeBase: nat, length: nat, initMdataSize: nat)
      requires length > 0 && length % MIN_ALLOCATION == 0 && length / MIN_ALLOCATION < Pow2(LISTS)
      requires MetadataSize(length, initMdataSize) <= length
      ensures Valid() && Lives() == {}
      ensures base == rangeBase + MetadataSize(length, initMdataSize) &&
              base + pages * MIN_ALLOCATION == rangeBase + length
      ensures var metadata := initMdataSize + 24 * (length / 0x1000);
              rangeBase + metadata <= base < rangeBase + metadata + 2 * 0x1000 && (base - rangeBase) % 0x1000 == 0
      ensures SpareRule() && (HasSpare() <==> pages % 2 == 1 || IsPow2(pages))
    {
      hide Linked, IsPow2, Pow2, RoundUp, Leaf, Holds, Coalesced, Without;
      var mdataSize := RoundUp(initMdataSize) + RoundUp(length / MIN_ALLOCATION * ENTRY_SIZE);
      var size := length - mdataSize;
      Sizes(length, initMdataSize);
      base := rangeBase + mdataSize;
      pages := size / MIN_ALLOCATION;
      var n := size / MIN_ALLOCATION;
      fwd, bwd := seq(n, _ => NIL), seq(n, _ => NIL);
      order, free := seq(n, _ => 0), seq(n, _ => true);
      heads := seq(LISTS, _ => NIL);
      lists, bin := seq(LISTS, _ => []), map[];
      tree := Gone;
      new;
      assert forall x | 0 <= x < n :: fwd[x] == NIL && bwd[x] == NIL && order[x] == 0 && free[x];
      Blank(fwd, bwd, order, free, heads, lists);
      CatalogRange();
    }

    /** What is known while the catalogue has reached page `a`: the pages before it are cut up as
        `c` says, and those from it on are as they were initialised. */
    ghost predicate Catalogued(c: Ctx, k: nat, a: nat)
      reads this
    {
      && Ranged() && CtxHolds(c, k, a, pages, order, free) && CtxCoalesced(c) && CtxWithout(c, Live) &&
         CtxWithout(c, Spare)
      && Linked(fwd, bwd, order, free, heads, lists, bin, NIL) && Bins(c, k, a, false, bin)
      && (forall x | a <= x < pages :: order[x] == 0)
    }

    ghost predicate AllFlagsFree()
      reads this`free
    {
      forall x | 0 <= x < |free| :: free[x]
    }

    /** Cuts the range into blocks, from the largest down, until a page or less is left. */
    method CatalogRange()
      requires Valid0() && Linked(fwd, bwd, order, free, heads, lists, bin, NIL) && bin == map[] && AllFlagsFree()
      requires forall x | 0 <= x < pages :: order[x] == 0
      modifies this
      ensures Valid() && Lives() == {}
      ensures HasSpare() <==> pages % 2 == 1 || IsPow2(pages)
    {
      assert !IsPow2(0);
      hide Linked, Links, Catalogued, IsPow2, AllFlagsFree, Pow2;
      var i := CeilLog2(pages * MIN_ALLOCATION);
      ghost var k: nat, c: Ctx := 0, Top;
      if pages > 0 {
        c, k := Start(i);
      }
      ghost var a;
      c, k, a := CatalogBlocks(i - 1 - MIN_ORDER, c, k);
      Finish(c, k, a);
    }

    /** The progress of the catalogue: either the region is a power of two, and the part left is
        the size of the hole, or the part left is smaller than that and starts at an even page. */
    ghost predicate Progress(c: Ctx, k: nat, a: nat, left: nat)
      reads this
    {
      a + left == pages && k <= LISTS && Catalogued(c, k, a) && SizeRule(pages, k, a, left)
    }

    method CatalogBlocks(j0: int, ghost c0: Ctx, ghost k0: nat) returns (ghost c: Ctx, ghost k: nat, ghost a: nat)
      requires Valid0() && AllFlagsFree() && (pages > 0 ==> Progress(c0, k0, 0, pages) && (pages > 1 ==> j0 + 1 == k0))
      modifies this`fwd, this`bwd, this`order, this`heads, this`lists, this`bin
      ensures Valid0() && AllFlagsFree() && a <= pages <= a + 1
      ensures pages > 0 ==> Progress(c, k, a, pages - a)
      ensures pages == 0 ==> bin == old(bin) && fwd == old(fwd) && bwd == old(bwd) && order == old(order)
      ensures pages == 0 ==> heads == old(heads) && lists == old(lists)
    {
      hide Valid0, Progress, AllFlagsFree, Pow2;
      var regionSize: nat, regionBase: nat, j := pages, 0, j0;
      c, k := c0, k0;
      while regionSize > 1
        invariant regionBase + regionSize == pages && Valid0() && AllFlagsFree()
        invariant regionSize > 1 ==> j + 1 == k
        invariant pages > 0 ==> Progress(c, k, regionBase, regionSize)
        invariant pages == 0 ==> bin == old(bin) && fwd == old(fwd) && bwd == old(bwd) && order == old(order)
        invariant pages == 0 ==> heads == old(heads) && lists == old(lists)
        decreases regionSize, k
      {
        Positive(c, k, regionBase, regionSize);
        if regionSize >= Pow2(j) {
          Push(c, j, regionBase, regionSize);
          c := InHi(c, Vacant);
          regionSize := regionSize - Pow2(j);
          regionBase := regionBase + Pow2(j);
        } else {
          Skip(c, j, regionBase, regionSize);
          c := InLo(c, Gone);
        }
        j, k := j - 1, k - 1;
      }
      a := regionBase;
    }

    lemma Positive(c: Ctx, k: nat, a: nat, left: nat)
      requires Progress(c, k, a, left) && left > 1
      ensures k > 0
    {
      hide Catalogued;
    }

    lemma Start(i: nat) returns (c: Ctx, k: nat)
      requires Valid0() && Linked(fwd, bwd, order, free, heads, lists, bin, NIL) && bin == map[] && AllFlagsFree() &&
               pages > 0
      requires forall x | 0 <= x < pages :: order[x] == 0
      requires pages * MIN_ALLOCATION <= Pow2(i) && (i > 0 ==> Pow2(i - 1) < pages * MIN_ALLOCATION)
      ensures Progress(c, k, 0, pages) && (pages > 1 ==> i - MIN_ORDER == k)
    {
      hide Linked, CtxHolds, CtxCoalesced, CtxLeaf, CtxWithout, IsPow2;
      k := Level(i, pages);
      c := Descend(k, pages, order, free);
    }

    lemma Level(i: nat, n: nat) returns (k: nat)
      requires 0 < n < Pow2(LISTS) && n * MIN_ALLOCATION <= Pow2(i) && (i > 0 ==> Pow2(i - 1) < n * MIN_ALLOCATION)
      ensures k <= LISTS && n <= Pow2(k) && (n > 1 ==> i - MIN_ORDER == k) && SizeRule(n, k, 0, n)
    {
      if n == 1 {
        k := 0;
        BitLengthBounds(1);
      } else {
        hide IsPow2;
        AtLeastAPage(i, n);
        k := i - MIN_ORDER;
        InPages(n, k);
        hide Pow2;
        if k > LISTS {
          Pow2Monotone(LISTS, k - 1);
        }
        PowersApart(n, k);
      }
    }

    lemma AtLeastAPage(i: nat, n: nat)
      requires n > 1 && n * MIN_ALLOCATION <= Pow2(i)
      ensures i > MIN_ORDER
    {
      assert Pow2(MIN_ORDER) == MIN_ALLOCATION;
      if i <= MIN_ORDER {
        Pow2Monotone(i, MIN_ORDER);
      }
    }

    lemma InPages(n: nat, k: nat)
      requires k > 0
      ensures n * MIN_ALLOCATION <= Pow2(k + MIN_ORDER) <==> n <= Pow2(k)
      ensures n * MIN_ALLOCATION <= Pow2(k + MIN_ORDER - 1) <==> n <= Pow2(k - 1)
    {
      assert Pow2(MIN_ORDER) == MIN_ALLOCATION;
      Pow2Sum(MIN_ORDER, k);
      Pow2Sum(MIN_ORDER, k - 1);
    }

    /** Lists the block at `a`, and goes on after it. */
    method Push(ghost c: Ctx, j: nat, a: nat, ghost left: nat)
      requires Valid0() && AllFlagsFree() && Progress(c, j + 1, a, left) && Pow2(j) <= left && left > 1
      modifies this`fwd, this`bwd, this`order, this`heads, this`lists, this`bin
      ensures Valid0() && AllFlagsFree() && Progress(InHi(c, Vacant), j, a + Pow2(j), left - Pow2(j))
    {
      hide Linked, Links, Bins, CtxHolds, CtxCoalesced, CtxLeaf, CtxWithout, AllFlagsFree, PushBwd, SizeRule;
      ghost var m := a + Pow2(j);
      SizeAfterPush(pages, j, a, left);
      PushReady(c, j, a, m);
      LinkedSizes(fwd, bwd, order, free, heads, lists, bin, NIL);
      hide Pow2;
      lists, bin := lists[j := [a] + lists[j]], bin[a := j];
      PushFront(j, a);
    }

    lemma PushReady(c: Ctx, j: nat, a: nat, m: nat)
      requires Valid0() && AllFlagsFree() && Catalogued(c, j + 1, a) && m == a + Pow2(j) <= pages && j < LISTS
      ensures CtxHolds(InHi(c, Vacant), j, m, pages, order[a := j], free) && CtxCoalesced(InHi(c, Vacant))
      ensures CtxWithout(InHi(c, Vacant), Live) && CtxWithout(InHi(c, Vacant), Spare)
      ensures Linked(fwd[a := heads[j]], PushBwd(bwd, heads[j], a), order[a := j], free, heads[j := a],
                     lists[j := [a] + lists[j]],
                     bin[a := j], NIL)
      ensures Bins(InHi(c, Vacant), j, m, false, bin[a := j])
    {
      hide Linked, Links, Bins, CtxHolds, CtxLeaf, PushBwd;
      assert a < a + Pow2(j + 1);
      BinsInside(c, j + 1, a, false, bin);
      BinsCut(c, j, a, m, bin);
      PushLinked(fwd, bwd, order, free, heads, lists, bin, NIL, j, a);
      CtxFrame(c, j + 1, a, pages, order, free, order[a := j], free);
      Step(c, j, a, pages, order[a := j], free);
    }

    /** No block of level `j` fits any more. */
    lemma Skip(c: Ctx, j: nat, a: nat, left: nat)
      requires Valid0() && Progress(c, j + 1, a, left) && 1 < left < Pow2(j)
      ensures Progress(InLo(c, Gone), j, a, left)
    {
      hide Linked, Links, Bins, CtxHolds, CtxLeaf;
      StepLo(c, j, a, pages, order, free);
      BinsSkip(c, j, a, bin);
    }

    method Finish(ghost c: Ctx, ghost k: nat, ghost a: nat)
      requires Valid0() && AllFlagsFree() && a <= pages <= a + 1
      requires pages > 0 ==> Progress(c, k, a, pages - a)
      requires pages == 0 ==> bin == map[] && Linked(fwd, bwd, order, free, heads, lists, bin, NIL)
      modifies this`tree
      ensures Valid() && Lives() == {} && (HasSpare() <==> pages % 2 == 1 || IsPow2(pages))
    {
      hide Linked, Links, Bins, CtxHolds, CtxCoalesced, CtxWithout, Holds, Coalesced, Leaf, Without, Plug, Tail,
        IsPow2, SizeRule;
      if pages == 0 {
        FinishEmpty();
        tree := Gone;
      } else {
        FinishTree(c, k, a);
        Leftover(k, a, pages);
        tree := Plug(c, Tail(k, pages - a));
      }
    }

    lemma FinishEmpty()
      requires pages == 0
      ensures !IsPow2(0) && Holds(Gone, LISTS, 0, pages, [], []) && Coalesced(Gone) && Without(Gone, Spare)
      ensures (forall x :: !Leaf(Gone, LISTS, 0, Vacant, x)) && (forall x :: !Leaf(Gone, LISTS, 0, Live, x))
    {
    }

    lemma FinishTree(c: Ctx, k: nat, a: nat)
      requires Valid0() && AllFlagsFree() && Catalogued(c, k, a) && a <= pages <= a + 1
      ensures var t := Plug(c, Tail(k, pages - a));
        && Holds(t, LISTS, 0, pages, order, free) && Coalesced(t) && (Without(t, Spare) <==> a == pages)
        && (forall x :: x in bin <==> Leaf(t, LISTS, 0, Vacant, x))
        && (forall x :: !Leaf(t, LISTS, 0, Live, x))
    {
      hide Linked, Links, CtxHolds, Holds, CtxCoalesced, Coalesced, CtxLeaf, Leaf, CtxWithout, Without, Plug, Tail;
      var u := Tail(k, pages - a);
      var t := Plug(c, u);
      TailHolds(k, a, pages, order, free);
      HoldsPlug(c, u, k, a, pages, order, free);
      CoalescedPlug(c, u);
      WithoutPlug(c, u, Spare);
      WithoutPlug(c, u, Live);
      WithoutLeaf(t, LISTS, 0, Live, pages, order, free);
      WithoutLeaf(u, k, a, Vacant, pages, order, free);
      forall x
        ensures x in bin <==> Leaf(t, LISTS, 0, Vacant, x)
      {
        LeafPlug(c, u, k, a, Vacant, pages, order, free, x);
      }
    }

    // ------------------------------------------------------------ list edits

    method PushFront(k: nat, e: nat)
      requires Ranged() && k < LISTS && e < pages
      modifies this`fwd, this`bwd, this`order, this`heads
      ensures Ranged()
      ensures order == old(order)[e := k] && fwd == old(fwd)[e := old(heads)[k]]
      ensures bwd == PushBwd(old(bwd), old(heads)[k], e) && heads == old(heads)[k := e]
    {
      order := order[e := k];
      fwd := fwd[e := heads[k]];
      if heads[k] != NIL {
        bwd := bwd[heads[k] := e];
      }
      heads := heads[k := e];
    }

    /** Takes the first entry off a list; its forward link is left as it is. */
    method PopFront(k: nat) returns (h: nat)
      requires Ranged() && k < LISTS && heads[k] != NIL
      modifies this`bwd, this`heads
      ensures Ranged() && h == old(heads)[k]
      ensures heads == old(heads)[k := fwd[h]] && bwd == PushBwd(old(bwd), fwd[h], NIL)
    {
      h := heads[k];
      heads := heads[k := fwd[h]];
      if heads[k] != NIL {
        bwd := bwd[heads[k] := NIL];
      }
    }

    method Remove(e: nat)
      requires Ranged() && e < pages
      modifies this`fwd, this`bwd, this`heads
      ensures Ranged()
      ensures fwd == RemoveFwd(old(fwd), old(bwd), e) && bwd == RemoveBwd(old(fwd), old(bwd), e)
      ensures heads == RemoveHead(old(fwd), order, old(heads), e)
    {
      if fwd[e] != NIL {
        bwd := bwd[fwd[e] := bwd[e]];
      }
      if bwd[e] != NIL {
        fwd := fwd[bwd[e] := fwd[e]];
      }
      if heads[order[e]] == e {
        heads := heads[order[e] := fwd[e]];
      }
      fwd := fwd[e := NIL];
      bwd := bwd[e := NIL];
    }

    // -------------------------------------------------------------- splitting

    /** Unlinking `e`, which is in no list, will not disturb any list. */
    predicate Clear(e: nat)
      reads this
    {
      e < |fwd| && (0 <= fwd[e] < |bwd| ==> bwd[fwd[e]] == NIL)
    }

    /** The entry of the other half of the block twice the size, or null beyond the range. */
    function BuddyOf(e: nat, k: nat): int {
      if Flip(e, k) < pages then Flip(e, k) else NIL
    }

    /** Cuts the block at `e` in two, lists the lower half as free and returns the upper one. */
    method Split(e: nat, k: nat) returns (b: nat)
      requires Ranged() && 0 < k < LISTS && Splittable(e, e + Pow2(k - 1), k - 1)
      modifies this`fwd, this`bwd, this`order, this`free, this`heads
      ensures Ranged() && b == e + Pow2(k - 1)
      ensures order == old(order)[b := k - 1][e := k - 1] && free == old(free)[e := true]
      ensures fwd == old(fwd)[e := old(heads)[k - 1]] && bwd == PushBwd(old(bwd), old(heads)[k - 1], e)
      ensures heads == old(heads)[k - 1 := e]
    {
      hide RemoveFwd, RemoveBwd, Flip, PushBwd, Links, RemoveHead;
      b := BuddyOf(e, k - 1);
      Remove(b);
      Remove(e);
      order := order[e := k - 1];
      order := order[b := k - 1];
      free := free[e := true];
      PushFront(k - 1, e);
    }

    /** The same, with the hole in the tree moved to the upper half, which is then marked live. */
    method SplitHole(e: nat, k: nat, ghost c: Ctx) returns (b: nat)
      requires Open(c, k, e, false) && 0 < k < LISTS && Clear(e)
      modifies this`fwd, this`bwd, this`order, this`free, this`heads, this`lists, this`bin
      ensures b == e + Pow2(k - 1)
      ensures Open(InHi(c, Vacant), k - 1, b, false) && Clear(b)
      ensures order == old(order)[b := k - 1][e := k - 1] && bin == old(bin)[e := k - 1]
      ensures |lists| == |old(lists)| == LISTS && lists == old(lists)[k - 1 := [e] + old(lists)[k - 1]]
    {
      hide CtxHolds, CtxCoalesced, LiveFlags, CtxLeaf, Linked, Bins, Flip, Links, Splittable, PushBwd;
      ghost var j, mid := k - 1, e + Pow2(k - 1);
      Middle(e, k);
      SplitReady(c, k, j, e, mid, order[mid := j][e := j], free[e := true][mid := false]);
      LinkedSizes(fwd, bwd, order, free, heads, lists, bin, e);
      hide Hole;
      lists, bin := lists[j := [e] + lists[j]], bin[e := j];
      b := Split(e, k);
      free := free[b := false];
    }

    lemma SplitReady(c: Ctx, k: nat, j: nat, e: nat, b: nat, order': seq<nat>, free': seq<bool>)
      requires Open(c, k, e, false) && k == j + 1 < LISTS && b == e + Pow2(j) && Clear(e)
      requires e < pages && b < pages && order' == order[b := j][e := j] && free' == free[e := true][b := false]
      ensures Splittable(e, b, j)
      ensures Hole(InHi(c, Vacant), j, b, pages, order', free') && Bins(InHi(c, Vacant), j, b, false, bin[e := j])
      ensures Linked(fwd[e := heads[j]], PushBwd(bwd, heads[j], e), order', free', heads[j := e],
                     lists[j := [e] + lists[j]], bin[e := j], b)
      ensures fwd[e := heads[j]][b] == NIL
    {
      hide Bins, CtxHolds, CtxCoalesced, CtxLeaf, Linked, LiveFlags, Links, RemoveFwd, RemoveBwd, RemoveHead, PushBwd,
        Flip;
      assert e < b < e + Pow2(k);
      HoleFree(c, k, e, b, pages, order, free);
      CutHole(c, k, j, e, b, pages, order, free, order', free');
      BinsInside(c, k, e, false, bin);
      BinsCut(c, j, e, b, bin);
      UnlinkBoth(e, b);
      SplitLinked(fwd, bwd, order, free, heads, lists, bin, j, e, b);
    }

    /** The two halves are in no list, and the upper one has no links. */
    predicate Splittable(e: nat, b: nat, j: nat)
      reads this`fwd, this`bwd, this`order, this`heads
      requires |fwd| == |bwd| == |order|
    {
      && Flip(e, j) == b && e < |fwd| && b < |fwd| && e != b
      && RemoveFwd(fwd, bwd, b) == fwd && RemoveBwd(fwd, bwd, b) == bwd && RemoveHead(fwd, order, heads, b) == heads
      && RemoveFwd(fwd, bwd, e) == fwd[e := NIL] && RemoveBwd(fwd, bwd, e) == bwd &&
         RemoveHead(fwd, order, heads, e) == heads
    }

    /** Unlinking the two halves of a block in no list changes nothing but the stale link. */
    lemma UnlinkBoth(e: nat, b: nat)
      requires Ranged() && e < pages && b < pages && e != b && e !in bin && b !in bin && free[b] && Clear(e)
      requires Linked(fwd, bwd, order, free, heads, lists, bin, e)
      ensures RemoveFwd(fwd, bwd, b) == fwd && RemoveBwd(fwd, bwd, b) == bwd &&
              RemoveHead(fwd, order, heads, b) == heads
      ensures RemoveFwd(fwd, bwd, e) == fwd[e := NIL] && RemoveBwd(fwd, bwd, e) == bwd &&
              RemoveHead(fwd, order, heads, e) == heads
      ensures Linked(fwd[e := NIL], bwd, order, free, heads, lists, bin, e)
    {
      UnlinkLoose(fwd, bwd, order, free, heads, lists, bin, e, b);
      UnlinkLoose(fwd, bwd, order, free, heads, lists, bin, e, e);
      assert fwd[b := NIL] == fwd;
    }

    /** A page is left over when their number is odd, and otherwise at most when it is a power of
        two. */
    ghost predicate SpareRule()
      reads this
    {
      (pages % 2 == 1 ==> HasSpare()) && (HasSpare() ==> pages % 2 == 1 || IsPow2(pages))
    }

    // ------------------------------------------------------------- allocating

    /** Address of a page, and page of an address. */
    function EntryToAddr(e: nat): nat {
      e * MIN_ALLOCATION + base
    }

    function AddrToEntry(addr: nat): int {
      (addr - base) / MIN_ALLOCATION
    }

    /** The last page is marked free but is on no list. */
    ghost predicate HasSpare()
      reads this
    {
      !Without(tree, Spare)
    }

    /** Filling the hole gives back a whole tree. */
    lemma FillHole(c: Ctx, t: Tree, k: nat, a: nat)
      requires Hole(c, k, a, pages, order, free) && order[a] == k
      requires (t.Live? && !free[a]) || (t.Vacant? && free[a] && !Sibling(c).Vacant?)
      ensures Holds(Plug(c, t), LISTS, 0, pages, order, free) && Coalesced(Plug(c, t))
      ensures forall x :: Leaf(Plug(c, t), LISTS, 0, Live, x) <==> CtxLeaf(c, k, a, Live, x) || (t.Live? && x == a)
      ensures forall x :: Leaf(Plug(c, t), LISTS, 0, Vacant, x) <==>
                CtxLeaf(c, k, a, Vacant, x) || (t.Vacant? && x == a)
      ensures Without(Plug(c, t), Spare) <==> CtxWithout(c, Spare)
    {
      HoldsPlug(c, t, k, a, pages, order, free);
      CoalescedPlug(c, t);
      WithoutPlug(c, t, Spare);
      FillLeaves(c, t, k, a);
      hide Holds, CtxHolds, CtxLeaf, Plug, CtxWithout, Leaf;
    }

    lemma FillLeaves(c: Ctx, t: Tree, k: nat, a: nat)
      requires |order| == |free| == pages && CtxHolds(c, k, a, pages, order, free) && (t.Live? || t.Vacant?)
      ensures forall x :: Leaf(Plug(c, t), LISTS, 0, Live, x) <==> CtxLeaf(c, k, a, Live, x) || (t.Live? && x == a)
      ensures forall x :: Leaf(Plug(c, t), LISTS, 0, Vacant, x) <==>
                CtxLeaf(c, k, a, Vacant, x) || (t.Vacant? && x == a)
    {
      hide CtxHolds, CtxLeaf, Plug;
      forall x
        ensures Leaf(Plug(c, t), LISTS, 0, Live, x) <==> CtxLeaf(c, k, a, Live, x) || (t.Live? && x == a)
        ensures Leaf(Plug(c, t), LISTS, 0, Vacant, x) <==> CtxLeaf(c, k, a, Vacant, x) || (t.Vacant? && x == a)
      {
        LeafPlug(c, t, k, a, Live, pages, order, free, x);
        LeafPlug(c, t, k, a, Vacant, pages, order, free, x);
      }
    }

    /** Pops the first block of list `k`, leaving a hole in the tree. */
    method TakeFirst(k: nat) returns (e: nat, ghost c: Ctx)
      requires Valid() && k < LISTS && heads[k] != NIL
      modifies this`bwd, this`heads, this`lists, this`bin
      ensures Open(c, k, e, false) && Clear(e) && LivesAre(c, k, e, Lives())
      ensures order == old(order) && free == old(free)
      ensures CtxWithout(c, Spare) <==> !HasSpare()
      ensures e == old(heads[k]) && e in old(bin) && old(order[e]) == k && bin == old(bin) - {e}
      ensures |lists| == |old(lists)| == LISTS && old(lists[k]) == [e] + lists[k] && lists == old(lists)[k := lists[k]]
    {
      hide CtxHolds, Holds, CtxCoalesced, Coalesced, Linked, CtxLeaf, Leaf, Plug, Links, Good, PushBwd, Without,
        CtxWithout;
      ghost var h := heads[k];
      PopLinked(fwd, bwd, order, free, heads, lists, bin, NIL, k);
      LinkedSizes(fwd, bwd, order, free, heads, lists, bin, NIL);
      c := FindHole(h, Vacant);
      PopClear(fwd, bwd, order, free, heads, lists, bin, k);
      HeadFirst(fwd, bwd, order, free, heads, lists, bin, k);
      lists, bin := lists[k := Minus(lists[k], h)], bin - {h};
      e := PopFront(k);
    }

    /** The hole left by taking the block at `x` out of the tree. */
    lemma FindHole(x: int, t: Tree) returns (c: Ctx)
      requires Valid() && (t.Vacant? || t.Live?) && Leaf(tree, LISTS, 0, t, x)
      ensures 0 <= x < pages && Hole(c, order[x], x, pages, order, free) && LivesAre(c, order[x], x, Lives() - {x})
      ensures (forall y :: CtxLeaf(c, order[x], x, Vacant, y) <==> y in bin && y != x) && free[x] == t.Vacant?
      ensures CtxWithout(c, Spare) <==> !HasSpare()
    {
      hide Linked, Links;
      var j;
      c, j := Locate(Top, tree, LISTS, 0, t, pages, order, free, x);
      HoleMade(c, j, x, t);
      LeavesInside(x);
      hide CtxHolds, Holds, CtxCoalesced, Coalesced, CtxLeaf, Leaf, Plug, Without, CtxWithout;
    }

    lemma LeavesInside(x: int)
      requires Valid()
      ensures forall x | Leaf(tree, LISTS, 0, Live, x) :: 0 <= x < pages
      ensures Leaf(tree, LISTS, 0, Vacant, x) ==> 0 <= x < pages && free[x]
    {
      hide Linked, Links;
      forall x | Leaf(tree, LISTS, 0, Live, x)
        ensures 0 <= x < pages
      {
        LeafEntry(tree, LISTS, 0, Live, pages, order, free, x);
      }
      if Leaf(tree, LISTS, 0, Vacant, x) {
        LeafEntry(tree, LISTS, 0, Vacant, pages, order, free, x);
      }
    }

    /** Taking a block out of the tree. */
    lemma HoleMade(c: Ctx, k: nat, a: nat, t: Tree)
      requires |order| == |free| == pages && CtxHolds(c, k, a, pages, order, free) && tree == Plug(c, t) &&
               (t.Vacant? || t.Live?)
      requires Holds(t, k, a, pages, order, free)
      ensures forall x :: CtxLeaf(c, k, a, Live, x) <==> Leaf(tree, LISTS, 0, Live, x) && (t.Live? ==> x != a)
      ensures forall x :: CtxLeaf(c, k, a, Vacant, x) <==> Leaf(tree, LISTS, 0, Vacant, x) && (t.Vacant? ==> x != a)
      ensures CtxWithout(c, Spare) <==> !HasSpare()
    {
      WithoutPlug(c, t, Spare);
      CtxLeavesBounds(c, k, a, Live);
      CtxLeavesBounds(c, k, a, Vacant);
      hide CtxHolds, Holds, CtxLeaf, Plug, Without, CtxWithout;
      forall x
        ensures CtxLeaf(c, k, a, Live, x) <==> Leaf(tree, LISTS, 0, Live, x) && (t.Live? ==> x != a)
        ensures CtxLeaf(c, k, a, Vacant, x) <==> Leaf(tree, LISTS, 0, Vacant, x) && (t.Vacant? ==> x != a)
      {
        LeafPlug(c, t, k, a, Live, pages, order, free, x);
        LeafPlug(c, t, k, a, Vacant, pages, order, free, x);
      }
    }

    /** The first page of the block of level `i` that is cut off when the block of level `j` at `h` is
        split: its lower half, the lower half of what is left then, and so on. */
    function CutOff(h: nat, j: nat, i: nat): int { h + Pow2(j) - Pow2(i + 1) }

    /** The lists, orders and listed blocks, before and after. */
    ghost predicate CutDown(h: nat, j: nat, k: nat, e: nat, bin0: map<int, int>, order0: seq<nat>,
                            lists0: seq<seq<int>>, bin: map<int, int>, order: seq<nat>, lists: seq<seq<int>>)
    {
      && e == h + Pow2(j) - Pow2(k) && k <= j && |order| == |order0| && |lists| == |lists0| == LISTS
      && h + Pow2(j) <= |order|
      && (forall i: nat | i < LISTS :: lists[i] == if k <= i < j then [CutOff(h, j, i)] + lists0[i] else lists0[i])
      && (forall x :: x in bin <==> x in bin0 || exists i: nat :: k <= i < j && x == CutOff(h, j, i))
      && (forall i: nat | k <= i < j :: h <= CutOff(h, j, i) < e && order[CutOff(h, j, i)] == i)
      && (forall x | 0 <= x < |order| && !(h <= x < h + Pow2(j)) :: order[x] == order0[x])
      && (forall x | x in bin0 :: !(h <= x < h + Pow2(j)))
    }

    lemma NothingCut(c: Ctx, h: nat, j: nat)
      requires Open(c, j, h, false)
      ensures CutDown(h, j, j, h, bin, order, lists, bin, order, lists)
    {
      BinsInside(c, j, h, false, bin);
      LinkedSizes(fwd, bwd, order, free, heads, lists, bin, h);
    }

    lemma MoreCut(h: nat, j: nat, k: nat, e: nat, b: nat, bin0: map<int, int>, order0: seq<nat>, lists0: seq<seq<int>>,
                  bin: map<int, int>, order: seq<nat>, lists: seq<seq<int>>)
      requires CutDown(h, j, k + 1, e, bin0, order0, lists0, bin, order, lists) && k < j < LISTS && b == e + Pow2(k)
      ensures e < |order| && b < |order|
      ensures CutDown(h, j, k, b, bin0, order0, lists0, bin[e := k], order[b := k][e := k],
                      lists[k := [e] + lists[k]])
    {
      Halving(k + 1);
      assert e == CutOff(h, j, k);
      Pow2Monotone(k + 1, j);
      hide Pow2;
    }

    /** What is left of the block is handed out. */
    lemma CutRest(h: nat, j: nat, k: nat, e: nat, bin0: map<int, int>, order0: seq<nat>, lists0: seq<seq<int>>,
                  bin: map<int, int>, order: seq<nat>, lists: seq<seq<int>>)
      requires CutDown(h, j, k, e, bin0, order0, lists0, bin, order, lists)
      ensures e < |order| && CutDown(h, j, k, e, bin0, order0, lists0, bin, order[e := k], lists)
    {
      Pow2Monotone(k, j);
    }

    /** Splits the block in the hole until it has level `k`. */
    method Narrow(h: nat, j: nat, k: nat, ghost c0: Ctx, ghost lives: set<int>) returns (e: nat, ghost c: Ctx)
      requires Open(c0, j, h, false) && Clear(h) && k <= j < LISTS && LivesAre(c0, j, h, lives)
      modifies this`fwd, this`bwd, this`order, this`free, this`heads, this`lists, this`bin
      ensures Open(c, k, e, false) && LivesAre(c, k, e, lives) && SameOrders(lives, old(order), order)
      ensures CtxWithout(c, Spare) <==> CtxWithout(c0, Spare)
      ensures CutDown(h, j, k, e, old(bin), old(order), old(lists), bin, order, lists)
    {
      hide Linked, Links, Bins, SameOrders, Hole, LivesAre, CtxLeaf, CutDown, Pow2, CutOff;
      e, c := h, c0;
      var o := j;
      SameAtFirst(lives, order);
      NothingCut(c0, h, j);
      ghost var bin0, order0, lists0 := bin, order, lists;
      while o > k
        invariant k <= o <= j && Open(c, o, e, false) && Clear(e)
        invariant CtxWithout(c, Spare) <==> CtxWithout(c0, Spare)
        invariant LivesAre(c, o, e, lives) && SameOrders(lives, old(order), order)
        invariant CutDown(h, j, o, e, bin0, order0, lists0, bin, order, lists)
      {
        SplitMarks(c, o - 1, e, lives, order, free, old(order));
        MoreCut(h, j, o - 1, e, e + Pow2(o - 1), bin0, order0, lists0, bin, order, lists);
        e := SplitHole(e, o, c);
        c, o := InHi(c, Vacant), o - 1;
      }
    }

    /** Splitting touches no entry marked live. */
    lemma SplitMarks(c: Ctx, j: nat, e: nat, lives: set<int>, order: seq<nat>, free: seq<bool>, order0: seq<nat>)
      requires Hole(c, j + 1, e, pages, order, free) && LivesAre(c, j + 1, e, lives) && SameOrders(lives, order0, order)
      ensures LivesAre(InHi(c, Vacant), j, e + Pow2(j), lives)
      ensures e + Pow2(j) < pages && SameOrders(lives, order0, order[e + Pow2(j) := j][e := j])
    {
      hide CtxHolds, CtxLeaf;
      assert e < e + Pow2(j) < e + Pow2(j + 1);
      CutLives(c, j, e, e + Pow2(j), lives);
      Inside(c, j + 1, e, pages, order, free, lives);
    }

    /** Hands out the block in the hole. */
    method HandOut(e: nat, k: nat, ghost c: Ctx, ghost lives: set<int>)
      requires Valid0() && Open(c, k, e, false) && LivesAre(c, k, e, lives) && k < LISTS
      modifies this`order, this`free, this`tree
      ensures Valid() && Lives() == lives + {e} && order == old(order)[e := k]
      ensures HasSpare() <==> !CtxWithout(c, Spare)
    {
      hide CtxHolds, Holds, CtxCoalesced, Coalesced, Plug, Links, CtxLeaf, Leaf, Without, Linked;
      HoleHead(c, k, e, pages, order, free, k, false);
      BinsInside(c, k, e, false, bin);
      HoleLives(c, k, e, pages, order, free, lives);
      Unloose(fwd, bwd, order, free, heads, lists, bin, e, k);
      free := free[e := false];
      order := order[e := k];
      FillHole(c, Live, k, e);
      tree := Plug(c, Live);
    }

    ghost predicate Valid0()
      reads this
    {
      Ranged() && base > 0 && pages < Pow2(LISTS)
    }

    /** Hands out a block of at least `size` bytes, the smallest power of two pages that will do,
        or null. The block is the end of a smallest free block that is large enough, `cut`, the first
        of its list; what is cut off before it is free, and nothing else changes. */
    method Allocate(size: nat) returns (address: nat, ghost cut: nat)
      requires Valid() && size <= Pow2(63)
      modifies this
      ensures Valid() && (HasSpare() <==> old(HasSpare())) && (old(SpareRule()) ==> SpareRule())
      ensures address == 0 ==> Lives() == old(Lives()) && order == old(order) && heads == old(heads) && NoneFits(size)
      ensures address == 0 ==> fwd == old(fwd) && bwd == old(bwd) && free == old(free) && lists == old(lists)
      ensures address != 0 ==> IsPage(address) && AddrToEntry(address) !in old(Lives())
      ensures address != 0 ==> address == base + 0x1000 * AddrToEntry(address)
      ensures address != 0 ==>
                Lives() == old(Lives()) + {AddrToEntry(address)} && SameOrders(old(Lives()), old(order), order)
      ensures address != 0 ==> Suits(order[AddrToEntry(address)], size)
      ensures address != 0 ==>
                var k := order[AddrToEntry(address)];
                && cut in old(bin) && cut < |order| && k <= old(order[cut]) < LISTS && old(heads[order[cut]]) == cut
                && (forall x | x in old(bin) && 0 <= x < |order| && old(order[x]) >= k ::
                      old(order[cut]) <= old(order[x]))
                && old(lists[order[cut]]) != []
                && CutDown(cut, old(order[cut]), k, AddrToEntry(address), old(bin) - {cut}, old(order),
                           old(lists[order[cut] := lists[order[cut]][1..]]), bin, order, lists)
    {
      hide Holds, Coalesced, Leaf, Linked, Links, Hole, LivesAre, Bins, Without, CtxWithout, NoneFits, Suits, IsPage,
        Pow2;
      var i := CeilLog2(size);
      var k := if i > MIN_ORDER then i - MIN_ORDER else 0;
      Rounded(i, size);
      var o := k;
      while o < LISTS && heads[o] == NIL
        invariant k <= o && forall j | k <= j < o && j < LISTS :: heads[j] == NIL
      {
        o := o + 1;
      }
      if o >= LISTS {
        Exhausted(k, size);
        return 0, 0;
      }
      SmallestListed(k, o);
      ghost var lives, bin0, order0, lists0 := Lives(), bin, order, lists;
      var e;
      ghost var c;
      e, c := TakeFirst(o);
      cut := e;
      ghost var lists1 := lists;
      e, c := Narrow(e, o, k, c, lives);
      CutRest(cut, o, k, e, bin0 - {cut}, order0, lists1, bin, order, lists);
      HoleLives(c, k, e, pages, order, free, lives);
      HandOut(e, k, c, lives);
      PageAddress(e);
      assert lists1 == lists0[o := lists0[o][1..]];
      return EntryToAddr(e), cut;
    }

    /** If list `o` is the first from `k` on that holds a block, no free block of level `k` or more is
        smaller than those it holds. */
    lemma SmallestListed(k: nat, o: nat)
      requires Valid() && k <= o < LISTS && forall j | k <= j < o :: heads[j] == NIL
      ensures forall x | x in bin && 0 <= x < |order| && order[x] >= k :: o <= order[x]
    {
      hide Holds, Coalesced, Leaf, Links;
      forall x | x in bin && 0 <= x < |order| && order[x] >= k
        ensures o <= order[x]
      {
        HeadListed(fwd, bwd, heads, lists, bin, order[x]);
        assert x in lists[order[x]];
      }
    }

    /** A block of level `k` holds `size` bytes, and no smaller block does. */
    ghost predicate Suits(k: nat, size: nat) {
      size <= Pow2(k) * MIN_ALLOCATION && (k > 0 ==> Pow2(k - 1) * MIN_ALLOCATION < size)
    }

    lemma Rounded(i: nat, size: nat)
      requires size <= Pow2(i) && (i > 0 ==> Pow2(i - 1) < size)
      ensures Suits(if i > MIN_ORDER then i - MIN_ORDER else 0, size)
    {
      if i > MIN_ORDER {
        Pow2Sum(MIN_ORDER, i - MIN_ORDER);
        Pow2Sum(MIN_ORDER, i - MIN_ORDER - 1);
      } else {
        Pow2Monotone(i, MIN_ORDER);
      }
      assert Pow2(MIN_ORDER) == MIN_ALLOCATION;
    }

    /** Every free block is too small. */
    ghost predicate NoneFits(size: nat)
      reads this
    {
      forall x | x in bin && 0 <= x < |order| :: Pow2(order[x]) * MIN_ALLOCATION < size
    }

    lemma Exhausted(k: nat, size: nat)
      requires Valid() && Suits(k, size) && forall j | k <= j < LISTS :: heads[j] == NIL
      ensures NoneFits(size)
    {
      hide Holds, Coalesced, Leaf, Links;
      forall x | x in bin && 0 <= x < |order|
        ensures Pow2(order[x]) * MIN_ALLOCATION < size
      {
        var j := order[x];
        HeadListed(fwd, bwd, heads, lists, bin, j);
        assert x in lists[j];
        assert j < k;
        Pow2Monotone(j, k - 1);
      }
    }

    /** The address of one of the range's pages. */
    predicate IsPage(address: nat) {
      && base <= address && 0 <= AddrToEntry(address) < pages
      && EntryToAddr(AddrToEntry(address)) == address
    }

    lemma PageAddress(e: nat)
      requires e < pages && base > 0
      ensures IsPage(EntryToAddr(e)) && AddrToEntry(EntryToAddr(e)) == e && EntryToAddr(e) != 0
      ensures EntryToAddr(e) == base + 0x1000 * e
    {
    }

    // ---------------------------------------------------------------- freeing

    /** Whether a block of `e`'s order at `b` is free to merge with it. */
    predicate Mergeable(e: nat, b: int)
      reads this`free, this`order
      requires e < |order|
    {
      0 <= b < |free| && b < |order| && free[b] && order[b] == order[e]
    }

    /** Joins two buddies and lists the result. */
    method Merge(e: nat, b: nat) returns (r: nat)
      requires Ranged() && e < pages && b < pages && e != b && order[e] == order[b] && order[e] + 1 < LISTS
      modifies this`fwd, this`bwd, this`order, this`heads
      ensures Ranged() && r == (if e < b then e else b) && order == old(order)[r := old(order)[e] + 1]
      ensures fwd == MergeFwd(old(fwd), old(bwd), old(order), old(heads), r, if e < b then b else e, old(order)[e] + 1)
      ensures bwd == MergeBwd(old(fwd), old(bwd), old(order), old(heads), r, if e < b then b else e, old(order)[e] + 1)
      ensures heads == MergeHeads(old(fwd), old(bwd), old(order), old(heads), r, if e < b then b else e,
                                  old(order)[e] + 1)
      ensures heads[order[r]] == r
    {
      hide Links, RemoveFwd, RemoveBwd, RemoveHead, PushBwd;
      r := if e < b then e else b;
      var upper := if e < b then b else e;
      Remove(r);
      Remove(upper);
      order := order[r := order[r] + 1];
      PushFront(order[r], r);
    }

    /** The block at `h` is free and the first of its list. */
    ghost predicate FirstFree(h: nat)
      reads this`order, this`free, this`heads
    {
      h < |order| && h < |free| && order[h] < |heads| && free[h] && heads[order[h]] == h
    }

    /** The block of level `k` at `h` contains that of level `l` at `e`. */
    ghost predicate Covers(h: int, k: nat, e: int, l: nat) { h <= e && e + Pow2(l) <= h + Pow2(k) }

    /** Merges the block in the hole, which was live, with its free buddy; the hole is then their
        parent, which is listed. */
    method MergeFirst(e: nat, b: nat, ghost c: Ctx, ghost k: nat, ghost lives: set<int>)
      returns (r: nat, ghost s: Shape)
      requires Valid0() && Open(c, k, e, false) && order[e] == k && LivesAre(c, k, e, lives)
      requires b == Flip(e, k) && Mergeable(e, b)
      modifies this`fwd, this`bwd, this`order, this`free, this`heads, this`lists, this`bin
      ensures !c.Top? && Merging(c.up, k + 1, r, s) && LivesAre(c.up, k + 1, r, lives) && k < LISTS
      ensures r == (if e < b then e else b) && SameOrders(lives, old(order), order)
      ensures Tracks(s, old(fwd), old(bwd), old(order), old(free), e, r, k + 1)
      ensures FirstFree(r) && Covers(r, k + 1, e, k)
      ensures Outside(old(order), order, old(free), free, r, k + 1)
    {
      hide Linked, Shaped, Links, Bins, Hole, LivesAre, SameOrders, MergeFwd, MergeBwd, MergeHeads, Harmless, Flip;
      hide Tracks, Outside, TurnedFirst;
      ghost var lo, hi, lists0 := if e < b then e else b, if e < b then b else e, lists;
      MergeTree(e, b, lo, c, k, lives);
      s, lists0 := FirstReady(e, b, c, k);
      lists, bin := lists0, (bin - {lo} - {hi})[lo := k + 1];
      free := free[e := true];
      r := Merge(e, b);
    }

    /** What the first merge does to the links and the lists. */
    lemma FirstReady(e: nat, b: nat, c: Ctx, k: nat) returns (s: Shape, lists': seq<seq<int>>)
      requires Valid0() && Open(c, k, e, false) && order[e] == k
      requires b == Flip(e, k) && Mergeable(e, b) && k + 1 < LISTS && (Sibling(c).Vacant? || Sibling(c).Spare?)
      requires e < pages && (b == e + Pow2(k) || e == b + Pow2(k))
      ensures var lo, hi := if e < b then e else b, if e < b then b else e;
        && Shaped(s, MergeFwd(fwd, bwd, order, heads, lo, hi, k + 1), MergeBwd(fwd, bwd, order, heads, lo, hi, k + 1),
                  order[lo := k + 1], free[e := true], MergeHeads(fwd, bwd, order, heads, lo, hi, k + 1), lists',
                  (bin - {lo} - {hi})[lo := k + 1], lo, k + 1)
        && !c.Top? && Bins(c.up, k + 1, lo, true, (bin - {lo} - {hi})[lo := k + 1])
        && Tracks(s, fwd, bwd, order, free, e, lo, k + 1)
        && Outside(order, order[lo := k + 1], free, free[e := true], lo, k + 1)
    {
      hide Linked, Shaped, Links, Bins, Hole, MergeFwd, MergeBwd, MergeHeads, Harmless, Flip;
      hide Tracks, Outside, TurnedFirst;
      assert Pow2(k + 1) == Pow2(k) + Pow2(k);
      Unmerged(order, free, e, k);
      OutsideMore(order, order, free, free, e, b, k);
      MergeBins(c, k, e, b, false, bin, pages, order, free);
      NotListed(c, k, e);
      s, lists' := FirstShaped(fwd, bwd, order, free, heads, lists, bin, e, b, k);
      TracksFirst(s, fwd, bwd, order, free, e, b);
    }

    /** Merges the block in the hole once more. */
    method MergeAgain(e: nat, b: nat, ghost c: Ctx, ghost k: nat, ghost s: Shape, ghost lives: set<int>,
                      ghost order0: seq<nat>, ghost free0: seq<bool>)
      returns (r: nat, ghost s': Shape)
      requires Valid0() && Merging(c, k, e, s) && LivesAre(c, k, e, lives)
      requires b == Flip(e, k) && Mergeable(e, b) && Outside(order0, order, free0, free, e, k)
      modifies this`fwd, this`bwd, this`order, this`free, this`heads, this`lists, this`bin
      ensures !c.Top? && Merging(c.up, k + 1, r, s') && LivesAre(c.up, k + 1, r, lives) && k < LISTS
      ensures r == (if e < b then e else b) && SameOrders(lives, old(order), order)
      ensures Turned(s, s', old(order), b, k)
      ensures FirstFree(r) && Covers(r, k + 1, e, k)
      ensures Outside(order0, order, free0, free, r, k + 1) && |order0| == pages == |free0|
      ensures free0[b] && order0[b] == k
      ensures s.Bent? && s.p < pages ==> order0[s.p] == old(order)[s.p]
    {
      hide Linked, Shaped, Links, Bins, Hole, LivesAre, SameOrders, MergeFwd, MergeBwd, MergeHeads, Flip;
      hide Outside, Turned;
      ghost var lo, hi, lists0 := if e < b then e else b, if e < b then b else e, lists;
      MergeTree(e, b, lo, c, k, lives);
      s', lists0 := AgainReady(e, b, c, k, s, order0, free0);
      lists, bin := lists0, (bin - {lo} - {hi})[lo := k + 1];
      free := free[e := true];
      r := Merge(e, b);
    }

    /** What a later merge does to the links and the lists. */
    lemma AgainReady(e: nat, b: nat, c: Ctx, k: nat, s: Shape, order0: seq<nat>, free0: seq<bool>)
      returns (s': Shape, lists': seq<seq<int>>)
      requires Valid0() && Merging(c, k, e, s) && Outside(order0, order, free0, free, e, k)
      requires b == Flip(e, k) && Mergeable(e, b) && k + 1 < LISTS && (Sibling(c).Vacant? || Sibling(c).Spare?)
      requires e < pages && (b == e + Pow2(k) || e == b + Pow2(k))
      ensures var lo, hi := if e < b then e else b, if e < b then b else e;
        && Shaped(s', MergeFwd(fwd, bwd, order, heads, lo, hi, k + 1), MergeBwd(fwd, bwd, order, heads, lo, hi, k + 1),
                  order[lo := k + 1], free[e := true], MergeHeads(fwd, bwd, order, heads, lo, hi, k + 1), lists',
                  (bin - {lo} - {hi})[lo := k + 1], lo, k + 1)
        && !c.Top? && Bins(c.up, k + 1, lo, true, (bin - {lo} - {hi})[lo := k + 1]) && Turned(s, s', order, b, k)
        && Outside(order0, order[lo := k + 1], free0, free[e := true], lo, k + 1) && |order0| == pages == |free0|
        && free0[b] && order0[b] == k && (s.Bent? && s.p < pages ==> order0[s.p] == order[s.p])
    {
      hide Linked, Shaped, Links, Bins, Hole, MergeFwd, MergeBwd, MergeHeads, Flip;
      hide Outside, Turned;
      assert Pow2(k + 1) == Pow2(k) + Pow2(k);
      BendOutside(c, k, e, s, order0, free0);
      OutsideMore(order0, order, free0, free, e, b, k);
      MergeBins(c, k, e, b, true, bin, pages, order, free);
      ListedInBin(c, k, e, bin);
      s', lists' := MergeShaped(s, fwd, bwd, order, free, heads, lists, bin, e, b, k);
    }

    lemma Unmerged(order: seq<nat>, free: seq<bool>, e: nat, k: nat)
      ensures Outside(order, order, free, free, e, k)
    {
    }

    lemma NotListed(c: Ctx, k: nat, e: nat)
      requires Open(c, k, e, false)
      ensures e !in bin
    {
      hide Linked, Links, Hole;
      assert e < e + Pow2(k);
      BinsInside(c, k, e, false, bin);
    }

    /** What leads to where the lists bend is outside the block that is being merged. */
    lemma BendOutside(c: Ctx, k: nat, e: nat, s: Shape, order0: seq<nat>, free0: seq<bool>)
      requires Merging(c, k, e, s) && Outside(order0, order, free0, free, e, k)
      ensures |order0| == |free0| == pages
      ensures s.Bent? && s.p < pages ==> order0[s.p] == order[s.p]
    {
      hide Linked, Links, Hole, Bins;
      BinsInside(c, k, e, true, bin);
    }

    lemma MergeTree(e: nat, b: nat, lo: nat, c: Ctx, k: nat, lives: set<int>)
      requires Valid0() && Holed(c, k, e) && order[e] == k && LivesAre(c, k, e, lives)
      requires b == Flip(e, k) && Mergeable(e, b) && lo == if e < b then e else b
      ensures e != b && e < pages && k + 1 < LISTS && !c.Top? && (Sibling(c).Vacant? || Sibling(c).Spare?)
      ensures Hole(c.up, k + 1, lo, pages, order[lo := k + 1], free[e := true]) && LivesAre(c.up, k + 1, lo, lives)
      ensures SameOrders(lives, order, order[lo := k + 1]) && free[b] && order[b] == k && free[e := true][lo]
      ensures Pow2(k + 1) == Pow2(k) + Pow2(k) && (b == e + Pow2(k) || e == b + Pow2(k))
    {
      hide Linked, Links, Bins, CtxHolds, CtxCoalesced, LiveFlags, LivesAre, CtxLeaf, Flip, SameOrders;
      assert e < e + Pow2(k);
      MergeableExact(c, k, e, pages, order, free);
      Widen(c, k, e, lo, pages, order, free);
      WidenLives(c, k, e, lo, pages, order, free, lives);
      FlipIsSibling(c, k, e, pages, order, free);
    }

    /** Lists the block in the hole as free. */
    method FreeAlone(e: nat, ghost c: Ctx, ghost k: nat, ghost lives: set<int>)
      requires Valid0() && Open(c, k, e, false) && LivesAre(c, k, e, lives) && order[e] == k
      modifies this`fwd, this`bwd, this`order, this`free, this`heads, this`lists, this`bin
      ensures Open(c, k, e, true) && LivesAre(c, k, e, lives) && free[e] && order == old(order) && FirstFree(e)
    {
      hide Linked, Links, Bins, CtxHolds, CtxCoalesced, LiveFlags, LivesAre, CtxLeaf;
      HoleHead(c, k, e, pages, order, free, k, true);
      assert e < e + Pow2(k);
      hide Hole;
      AloneBins(c, k, e, bin);
      Relabel(fwd, bwd, order, free, heads, lists, bin, e, order, free[e := true], e);
      LinkedSizes(fwd, bwd, order, free, heads, lists, bin, e);
      PushLinked(fwd, bwd, order, free[e := true], heads, lists, bin, e, k, e);
      lists, bin := lists[k := [e] + lists[k]], bin[e := k];
      free := free[e := true];
      assert order[e := k] == order;
      PushFront(order[e], e);
    }

    /** The blocks cut up the region, and no two free buddies of one size are left apart. */
    ghost predicate Blocks()
      reads this
    {
      && Valid0() && Holds(tree, LISTS, 0, pages, order, free) && Coalesced(tree)
      && (forall x | 0 <= x < pages :: !free[x] <==> Leaf(tree, LISTS, 0, Live, x))
    }

    /** There are lists that hold exactly the free blocks, each in that of its size, and that the links
        and the heads are those of. */
    ghost predicate ListsFit()
      reads this
    {
      exists l, m :: Fit(l, m)
    }

    ghost predicate Fit(l: seq<seq<int>>, m: map<int, int>)
      reads this
    {
      Linked(fwd, bwd, order, free, heads, l, m, NIL) && forall x :: x in m <==> Leaf(tree, LISTS, 0, Vacant, x)
    }

    /** Puts the listed block in the hole back into the tree. */
    method Close(e: nat, ghost c: Ctx, ghost k: nat, ghost lives: set<int>)
      requires Valid0() && Holed(c, k, e) && order[e] == k && LivesAre(c, k, e, lives) && free[e] && !Sibling(c).Vacant?
      modifies this`tree
      ensures Blocks() && Lives() == lives && (HasSpare() <==> !CtxWithout(c, Spare)) && tree == Plug(c, Vacant)
    {
      hide Linked, Links, CtxHolds, CtxCoalesced, CtxLeaf, Holds, Coalesced, Leaf, Without, CtxWithout, Plug;
      FillHole(c, Vacant, k, e);
      HoleLives(c, k, e, pages, order, free, lives);
      tree := Plug(c, Vacant);
    }

    /** The lists fit when they are straight. */
    lemma ClosedWell(e: nat, c: Ctx, k: nat)
      requires Blocks() && Holed(c, k, e) && order[e] == k && free[e] && !Sibling(c).Vacant? && tree == Plug(c, Vacant)
      requires Linked(fwd, bwd, order, free, heads, lists, bin, e) && Bins(c, k, e, true, bin)
      ensures Valid() && ListsFit()
    {
      hide Linked, Links, CtxHolds, CtxCoalesced, CtxLeaf, Holds, Coalesced, Leaf, Plug;
      FillHole(c, Vacant, k, e);
      Unloosed(fwd, bwd, order, free, heads, lists, bin, e);
      assert Fit(lists, bin);
    }

    /** No lists fit while they bend. */
    lemma ClosedBent(e: nat, c: Ctx, k: nat, s: Shape)
      requires Blocks() && Merging(c, k, e, s) && s.Bent? && !Sibling(c).Vacant? && tree == Plug(c, Vacant)
      ensures !ListsFit()
    {
      hide Linked, Links, CtxHolds, CtxCoalesced, CtxLeaf, Holds, Coalesced, Leaf, Plug, Shaped;
      FillHole(c, Vacant, k, e);
      CtxLeavesBounds(c, k, e, Vacant);
      forall l, m
        ensures !Fit(l, m)
      {
        if Fit(l, m) {
          NoLists(s, fwd, bwd, order, free, heads, lists, bin, e, k, l, m);
        }
      }
    }

    /** Takes back a block, merging it with its buddy as long as that is free. What comes of the blocks
        is as it should be; the lists then hold the free ones if and only if Mends says so. The block that
        the pages are in then is the first of its list. */
    method Free(allocation: nat)
      requires Valid() && (allocation != 0 ==> IsPage(allocation) && AddrToEntry(allocation) in Lives())
      modifies this
      ensures allocation == 0 ==>
                Valid() && fwd == old(fwd) && bwd == old(bwd) && order == old(order) && free == old(free) &&
                heads == old(heads)
      ensures allocation != 0 ==>
                var e := AddrToEntry(allocation);
                && Blocks() && Lives() == old(Lives()) - {e} && SameOrders(Lives(), old(order), order)
                && (HasSpare() <==> old(HasSpare()) && !(e + 2 == pages && pages % 2 == 0))
                && (old(SpareRule()) ==> SpareRule())
      ensures allocation != 0 ==> (ListsFit() <==> old(Mends(fwd, bwd, order, free, AddrToEntry(allocation))))
      ensures allocation != 0 ==>
                var e := AddrToEntry(allocation);
                exists h: nat :: h < |order| && FirstFree(h) && Covers(h, order[h], e, old(order[e]))
      ensures ListsFit() ==> Valid()
    {
      if allocation == 0 {
        assert Fit(lists, bin);
        return;
      }
      hide Linked, Shaped, Links, Bins, Hole, LivesAre, Holds, Coalesced, Leaf, Without, CtxWithout, Mends, Pow2;
      hide SameOrders, Plug, Fit;
      var e := AddrToEntry(allocation);
      ghost var k, lives := order[e], Lives() - {e};
      ghost var c := OpenLive(e);
      Buddies(c, k, e);
      var b := BuddyOf(e, order[e]);
      if !Mergeable(e, b) {
        SameAtFirst(lives, order);
        AloneMends(e);
        hide FirstFree;
        FreeAlone(e, c, k, lives);
        Buddies(c, k, e);
        Close(e, c, k, lives);
        ClosedWell(e, c, k);
      } else {
        ghost var s;
        e, c, k, s := MergeAll(e, b, c, k, lives);
        Buddies(c, k, e);
        Close(e, c, k, lives);
        Closed(e, c, k, s);
      }
    }

    lemma Closed(e: nat, c: Ctx, k: nat, s: Shape)
      requires Blocks() && Merging(c, k, e, s) && !Sibling(c).Vacant? && tree == Plug(c, Vacant)
      ensures (ListsFit() <==> s.Straight?) && (s.Straight? ==> Valid())
    {
      if s.Straight? {
        ClosedWell(e, c, k);
      } else {
        ClosedBent(e, c, k, s);
      }
    }

    lemma AloneMends(e: nat)
      requires Ranged() && e < pages && !Mergeable(e, BuddyOf(e, order[e]))
      ensures Mends(fwd, bwd, order, free, e)
    {
    }

    /** Merges the block being freed with its buddy, and the result with its own, as long as the
        buddy is free. */
    method MergeAll(e0: nat, b0: nat, ghost c0: Ctx, ghost k0: nat, ghost lives: set<int>)
      returns (e: nat, ghost c: Ctx, ghost k: nat, ghost s: Shape)
      requires Valid0() && Open(c0, k0, e0, false) && LivesAre(c0, k0, e0, lives) && order[e0] == k0
      requires b0 == BuddyOf(e0, k0) && Mergeable(e0, b0)
      modifies this`fwd, this`bwd, this`order, this`free, this`heads, this`lists, this`bin
      ensures Merging(c, k, e, s) && LivesAre(c, k, e, lives) && SameOrders(lives, old(order), order)
      ensures FirstFree(e) && Covers(e, k, e0, k0)
      ensures !Mergeable(e, BuddyOf(e, k)) && (s.Straight? <==> old(Mends(fwd, bwd, order, free, e0)))
      ensures CtxWithout(c, Spare) <==> CtxWithout(c0, Spare) || Sibling(c0).Spare?
    {
      hide Linked, Shaped, Links, Bins, Hole, LivesAre, CtxWithout, Mends, Pow2, SameOrders, Tracks, Turned, Outside;
      ghost var fwd0, bwd0, order0, free0 := fwd, bwd, order, free;
      Buddies(c0, k0, e0);
      e, s := MergeFirst(e0, b0, c0, k0, lives);
      hide FirstFree;
      c, k := c0.up, k0 + 1;
      var b := BuddyOf(e, order[e]);
      while Mergeable(e, b)
        invariant Merging(c, k, e, s) && LivesAre(c, k, e, lives) && SameOrders(lives, order0, order)
        invariant e < pages && b == BuddyOf(e, k) && k > 0 && FirstFree(e) && Covers(e, k, e0, k0)
        invariant Tracks(s, fwd0, bwd0, order0, free0, e0, e, k) && Outside(order0, order, free0, free, e, k)
        invariant CtxWithout(c, Spare) <==> CtxWithout(c0, Spare) || Sibling(c0).Spare?
        decreases LISTS - k
      {
        Buddies(c, k, e);
        ghost var order1, s1, e1 := order, s, e;
        e, s := MergeAgain(e, b, c, k, s, lives, order0, free0);
        TracksMore(s1, s, fwd0, bwd0, order0, free0, e0, e1, b, k, order1);
        SameThroughout(lives, order0, order1, order);
        c, k := c.up, k + 1;
        b := BuddyOf(e, order[e]);
      }
      BuddyKept(c, k, e, order0, free0);
      TracksLast(s, fwd0, bwd0, order0, free0, e0, e, k);
    }

    /** The buddy of a block that is being merged is as it was. */
    lemma BuddyKept(c: Ctx, k: nat, e: nat, order0: seq<nat>, free0: seq<bool>)
      requires Valid0() && Holed(c, k, e) && order[e] == k && Outside(order0, order, free0, free, e, k)
      ensures var b := Flip(e, k); b < pages ==> order0[b] == order[b] && free0[b] == free[b]
    {
      hide Links, CtxHolds, CtxCoalesced, LiveFlags, Flip;
      NotTop(c, k, e, pages, order, free);
      FlipIsSibling(c, k, e, pages, order, free);
    }

    lemma OpenLive(e: nat) returns (c: Ctx)
      requires Valid() && e in Lives()
      ensures Open(c, order[e], e, false) && LivesAre(c, order[e], e, Lives() - {e}) && !free[e]
      ensures CtxWithout(c, Spare) <==> !HasSpare()
    {
      hide Linked, Links, Hole, LivesAre, Holds, Coalesced, Leaf, Without, CtxWithout, CtxLeaf;
      c := FindHole(e, Live);
      LiveUnlisted(e);
    }

    lemma LiveUnlisted(e: nat)
      requires Valid() && e in Lives()
      ensures e !in bin && Linked(fwd, bwd, order, free, heads, lists, bin, e)
    {
      hide Good, Links, Holds, Coalesced;
      LeavesInside(e);
    }

    /** What a block's buddy's entry says, as the tree has it. */
    lemma Buddies(c: Ctx, k: nat, e: nat)
      requires Valid0() && Holed(c, k, e) && order[e] == k
      ensures e < pages && (Mergeable(e, BuddyOf(e, k)) <==> Sibling(c).Vacant? || Sibling(c).Spare?)
      ensures Sibling(c).Spare? <==> !CtxWithout(c, Spare) && e + 2 == pages && pages % 2 == 0
      ensures !c.Top? && (Mergeable(e, BuddyOf(e, k)) ==> (CtxWithout(c.up, Spare) <==>
                CtxWithout(c, Spare) || Sibling(c).Spare?))
      ensures Sibling(c).Spare? ==> k == 0
    {
      hide Linked, Links, Bins, CtxHolds, CtxCoalesced, LiveFlags, CtxLeaf, Flip, CtxWithout;
      MergeableExact(c, k, e, pages, order, free);
      SpareSibling(c, k, e, pages, order, free);
      if Sibling(c).Vacant? || Sibling(c).Spare? {
        WidenSpare(c, k, e, pages, order, free);
      }
    }

    // -------------------------------------------------------------- properties

    /** Blocks handed out are page-aligned, aligned to their own size within the range, inside it
        and disjoint. */
    lemma LiveBlocks(x: int, y: int)
      requires Valid() && x in Lives() && y in Lives() && x < y
      ensures 0 <= x && x + Pow2(order[x]) <= y && y + Pow2(order[y]) <= pages
      ensures Aligned(x, order[x]) && Aligned(y, order[y])
    {
      hide Linked, Links, Coalesced, Leaf, Holds;
      LeavesApart(tree, LISTS, 0, Live, Live, pages, order, free, x, y);
      LeafEntry(tree, LISTS, 0, Live, pages, order, free, y);
      ZeroAligned(LISTS);
      LeafAligned(tree, LISTS, 0, Live, pages, order, free, x);
      LeafAligned(tree, LISTS, 0, Live, pages, order, free, y);
    }

    /** A block handed out, a free block, or the spare page, whose first page is `h`, contains `page`. */
    ghost predicate Contains(h: int, page: nat)
      reads this
    {
      && 0 <= h < |order| && h <= page < h + Pow2(order[h])
      && (h in Lives() || h in bin || (HasSpare() && h == pages - 1))
    }

    /** Every page is in exactly one block, or is the spare page. */
    lemma Tiled(page: nat) returns (h: nat)
      requires Valid() && page < pages
      ensures Contains(h, page) && forall g :: Contains(g, page) ==> g == h
    {
      hide Linked, Links, Coalesced, Leaf, Holds, Without;
      ghost var w;
      h, w := Covered(tree, LISTS, 0, pages, order, free, page);
      Kinds(h);
      LeafEntry(tree, LISTS, 0, w, pages, order, free, h);
      forall g | Contains(g, page)
        ensures g == h
      {
        Kinds(g);
        ghost var v := if g in Lives() then Live else if g in bin then Vacant else Spare;
        if g < h {
          LeavesApart(tree, LISTS, 0, v, w, pages, order, free, g, h);
        } else if h < g {
          LeavesApart(tree, LISTS, 0, w, v, pages, order, free, h, g);
        }
      }
    }

    /** What the first page of a leaf of each kind is. */
    lemma Kinds(x: int)
      requires Valid()
      ensures Leaf(tree, LISTS, 0, Live, x) <==> x in Lives()
      ensures Leaf(tree, LISTS, 0, Vacant, x) <==> x in bin
      ensures Leaf(tree, LISTS, 0, Spare, x) <==> HasSpare() && x == pages - 1
    {
      hide Linked, Links, Coalesced, Leaf, Holds, Without;
      LeavesInside(x);
      WithoutLeaf(tree, LISTS, 0, Spare, pages, order, free);
      if HasSpare() {
        var y :| Leaf(tree, LISTS, 0, Spare, y);
        SpareLast(tree, LISTS, 0, pages, order, free, y);
      }
      if Leaf(tree, LISTS, 0, Spare, x) {
        SpareLast(tree, LISTS, 0, pages, order, free, x);
      }
    }

    /** With nothing handed out, the tree is the one for this number of pages. */
    lemma NothingOut()
      requires Valid() && Lives() == {}
      ensures tree == Whole(pages, if HasSpare() then pages - 1 else pages, LISTS, 0)
    {
      hide Linked, Links;
      forall x
        ensures !Leaf(tree, LISTS, 0, Live, x)
      {
        LeavesInside(x);
        assert x !in Lives();
      }
      WithoutLeaf(tree, LISTS, 0, Live, pages, order, free);
      if HasSpare() {
        SpareIsLast(tree, LISTS, 0, pages, order, free);
      }
      AllFree(tree, LISTS, 0, pages, if HasSpare() then pages - 1 else pages, order, free);
    }

    /** No two buddies of the same order are both on the free lists. */
    lemma NoFreeBuddies(x: int)
      requires Valid() && x in bin
      ensures 0 <= x < pages && !(Flip(x, order[x]) in bin && order[Flip(x, order[x])] == order[x])
    {
      LeavesInside(x);
      var c, k := Locate(Top, tree, LISTS, 0, Vacant, pages, order, free, x);
      NotBothFree(c);
      hide Linked, Links, CtxHolds, Holds, CtxCoalesced, Coalesced, CtxLeaf, Leaf, Plug, Flip;
      MergeableExact(c, k, x, pages, order, free);
      var b := Flip(x, k);
      if b in bin && order[b] == k {
        LeavesInside(b);
        LeafPlug(c, Vacant, k, x, Vacant, pages, order, free, b);
        SpareNotFree(c, k, x, b);
      }
    }

    lemma SpareNotFree(c: Ctx, k: nat, x: nat, b: nat)
      requires |order| == |free| == pages && CtxHolds(c, k, x, pages, order, free) && Sibling(c).Spare? &&
               b == Flip(x, k)
      ensures !CtxLeaf(c, k, x, Vacant, b) && b != x
    {
      FlipIsSibling(c, k, x, pages, order, free);
      CtxLeavesBounds(c.up, k + 1, if c.InLo? then x else x - Pow2(k), Vacant);
      hide Flip;
    }

    /** A list holds the free blocks of its order, each once, and nothing else. */
    lemma ListHolds(k: nat, x: int)
      requires Valid() && k < LISTS
      ensures x in lists[k] <==> Leaf(tree, LISTS, 0, Vacant, x) && 0 <= x < pages && order[x] == k
    {
      hide Links, Holds, Coalesced, Leaf;
      LinkedSizes(fwd, bwd, order, free, heads, lists, bin, NIL);
      LeavesInside(x);
    }
  }

  /** The free lists are decided by the blocks handed out: two allocators over as many pages, with
      the same live blocks and the same spare page, list the same free blocks, whatever
      allocations and releases brought them there. */
  lemma Confluent(p: Buddy, q: Buddy, k: nat, x: int)
    requires p.Valid() && q.Valid() && p.pages == q.pages && k < LISTS
    requires p.Lives() == q.Lives() && SameOrders(p.Lives(), p.order, q.order) && (p.HasSpare() <==> q.HasSpare())
    ensures p.tree == q.tree && |p.lists| == |q.lists| == LISTS
    ensures x in p.lists[k] <==> x in q.lists[k]
  {
    hide Linked, Links, Coalesced, Holds, Leaf, Without;
    LinkedSizes(p.fwd, p.bwd, p.order, p.free, p.heads, p.lists, p.bin, NIL);
    LinkedSizes(q.fwd, q.bwd, q.order, q.free, q.heads, q.lists, q.bin, NIL);
    p.LeavesInside(x);
    q.LeavesInside(x);
    forall y
      ensures Leaf(p.tree, LISTS, 0, Live, y) <==> Leaf(q.tree, LISTS, 0, Live, y)
    {
      assert y in p.Lives() <==> y in q.Lives();
    }
    Canonical(p.tree, q.tree, LISTS, 0, p.pages, p.order, p.free, q.order, q.free);
    p.ListHolds(k, x);
    q.ListHolds(k, x);
    if Leaf(p.tree, LISTS, 0, Vacant, x) {
      LeafLevel(p.tree, LISTS, 0, p.pages, p.order, p.free, q.order, q.free, x);
    }
  }

  /** Once everything is returned, the free lists hold what the catalogue first put on them, if the
      number of pages is not a power of two. */
  lemma Restored(now: Buddy, first: Buddy, k: nat, x: int)
    requires now.Valid() && first.Valid() && now.pages == first.pages && k < LISTS
    requires now.Lives() == {} && first.Lives() == {}
    requires now.SpareRule() && first.SpareRule() && !IsPow2(now.pages)
    ensures now.tree == first.tree && |now.lists| == |first.lists| == LISTS
    ensures x in now.lists[k] <==> x in first.lists[k]
  {
    Confluent(now, first, k, x);
  }

  /** If it is a power of two, that is so exactly while the spare page has not been merged in: the
      first block is then half the region, and all of it afterwards. */
  lemma RestoredPowerOfTwo(now: Buddy, first: Buddy, k: nat)
    requires now.Valid() && first.Valid() && now.pages == first.pages == Pow2(k) && k > 0
    requires now.Lives() == {} && first.Lives() == {} && first.HasSpare()
    ensures first.order[0] == k - 1 && now.order[0] == if now.HasSpare() then k - 1 else k
    ensures 0 in first.bin && 0 in now.bin
    ensures now.tree == first.tree <==> now.HasSpare()
  {
    now.NothingOut();
    first.NothingOut();
    if k > LISTS {
      Pow2Monotone(LISTS, k);
    }
    hide Linked, Links, Coalesced;
    FirstBlock(now.pages, if now.HasSpare() then now.pages - 1 else now.pages, k, LISTS, now.order, now.free);
    FirstBlock(first.pages, first.pages - 1, k, LISTS, first.order, first.free);
  }
}
