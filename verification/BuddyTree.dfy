/** The buddy allocator's region as a binary tree. A subtree at level `k` and offset `a` stands
    for the `2^k` pages from page `a`; levels are orders less MIN_ORDER. */
module BuddyTree {
  import opened Powers

  /** Vacant and Live leaves are blocks. Gone stands for pages beyond the region, Spare for a last
      page that is marked free but was never put on a list. */
  datatype Tree = Gone | Vacant | Live | Spare | Node(lo: Tree, hi: Tree)

  /** A tree with a hole: the way up from the hole to the root. */
  datatype Ctx = Top | InLo(up: Ctx, hi: Tree) | InHi(up: Ctx, lo: Tree)

  /** MAX_ORDER - MIN_ORDER: the number of free lists, and the level of the root. */
  const LISTS: nat := 28

  function Plug(c: Ctx, t: Tree): Tree
    decreases c
  {
    match c
    case Top => t
    case InLo(up, hi) => Plug(up, Node(t, hi))
    case InHi(up, lo) => Plug(up, Node(lo, t))
  }

  /** The page entries hold the order and the free flag of every leaf at its first page. */
  ghost predicate Holds(t: Tree, k: nat, a: nat, n: nat, order: seq<nat>, free: seq<bool>)
    requires |order| == |free| == n
    decreases t
  {
    match t
    case Gone => a >= n
    case Vacant => a + Pow2(k) <= n && order[a] == k && free[a]
    case Live => a + Pow2(k) <= n && order[a] == k && !free[a]
    case Spare => k == 0 && a + 1 == n && order[a] == 0 && free[a]
    case Node(lo, hi) =>
      k > 0 && a < n && Holds(lo, k - 1, a, n, order, free) && Holds(hi, k - 1, a + Pow2(k - 1), n, order, free)
  }

  ghost predicate CtxHolds(c: Ctx, k: nat, a: nat, n: nat, order: seq<nat>, free: seq<bool>)
    requires |order| == |free| == n
    decreases c
  {
    match c
    case Top => k == LISTS && a == 0
    case InLo(up, hi) => a < n && CtxHolds(up, k + 1, a, n, order, free) && Holds(hi, k, a + Pow2(k), n, order, free)
    case InHi(up, lo) =>
      && 0 <= a - Pow2(k) < n && CtxHolds(up, k + 1, a - Pow2(k), n, order, free)
      && Holds(lo, k, a - Pow2(k), n, order, free)
  }

  /** No two halves of a block are both free and listed. */
  ghost predicate Coalesced(t: Tree) {
    t.Node? ==> !(t.lo.Vacant? && t.hi.Vacant?) && Coalesced(t.lo) && Coalesced(t.hi)
  }

  ghost predicate CtxCoalesced(c: Ctx) {
    match c
    case Top => true
    case InLo(up, hi) => Coalesced(hi) && CtxCoalesced(up)
    case InHi(up, lo) => Coalesced(lo) && CtxCoalesced(up)
  }

  function Sibling(c: Ctx): Tree {
    match c
    case Top => Gone
    case InLo(_, hi) => hi
    case InHi(_, lo) => lo
  }

  /** `x` is the first page of a leaf of kind `w`. */
  predicate Leaf(t: Tree, k: nat, a: nat, w: Tree, x: int)
    decreases t
  {
    if t.Node? then k > 0 && (Leaf(t.lo, k - 1, a, w, x) || Leaf(t.hi, k - 1, a + Pow2(k - 1), w, x))
    else t == w && x == a
  }

  predicate CtxLeaf(c: Ctx, k: nat, a: nat, w: Tree, x: int)
    decreases c
  {
    match c
    case Top => false
    case InLo(up, hi) => Leaf(hi, k, a + Pow2(k), w, x) || CtxLeaf(up, k + 1, a, w, x)
    case InHi(up, lo) => a >= Pow2(k) && (Leaf(lo, k, a - Pow2(k), w, x) || CtxLeaf(up, k + 1, a - Pow2(k), w, x))
  }

  // -------------------------------------------------------- plugging a hole

  lemma {:induction false} HoldsPlug(c: Ctx, t: Tree, k: nat, a: nat, n: nat, order: seq<nat>, free: seq<bool>)
    requires |order| == |free| == n && CtxHolds(c, k, a, n, order, free) && Holds(t, k, a, n, order, free)
    ensures Holds(Plug(c, t), LISTS, 0, n, order, free)
    decreases c
  {
    match c
    case Top =>
    case InLo(up, hi) => HoldsPlug(up, Node(t, hi), k + 1, a, n, order, free);
    case InHi(up, lo) => HoldsPlug(up, Node(lo, t), k + 1, a - Pow2(k), n, order, free);
  }

  lemma {:induction false} LeafPlug(c: Ctx, t: Tree, k: nat, a: nat, w: Tree, n: nat, order: seq<nat>, free: seq<bool>,
                                    x: int)
    requires |order| == |free| == n && CtxHolds(c, k, a, n, order, free)
    ensures Leaf(Plug(c, t), LISTS, 0, w, x) <==> CtxLeaf(c, k, a, w, x) || Leaf(t, k, a, w, x)
    decreases c
  {
    hide Holds;
    match c
    case Top =>
    case InLo(up, hi) => LeafPlug(up, Node(t, hi), k + 1, a, w, n, order, free, x);
    case InHi(up, lo) => LeafPlug(up, Node(lo, t), k + 1, a - Pow2(k), w, n, order, free, x);
  }

  lemma {:induction false} CoalescedPlug(c: Ctx, t: Tree)
    requires CtxCoalesced(c) && Coalesced(t) && !(t.Vacant? && Sibling(c).Vacant?)
    ensures Coalesced(Plug(c, t))
    decreases c
  {
    match c
    case Top =>
    case InLo(up, hi) => CoalescedPlug(up, Node(t, hi));
    case InHi(up, lo) => CoalescedPlug(up, Node(lo, t));
  }

  lemma {:induction false} PlugCoalesced(c: Ctx, t: Tree)
    requires Coalesced(Plug(c, t))
    ensures Coalesced(t)
    decreases c
  {
    match c
    case Top =>
    case InLo(up, hi) => PlugCoalesced(up, Node(t, hi));
    case InHi(up, lo) => PlugCoalesced(up, Node(lo, t));
  }

  lemma NotBothFree(c: Ctx)
    requires Coalesced(Plug(c, Vacant))
    ensures !Sibling(c).Vacant?
  {
    match c
    case Top =>
    case InLo(up, hi) => PlugCoalesced(up, Node(Vacant, hi));
    case InHi(up, lo) => PlugCoalesced(up, Node(lo, Vacant));
  }

  // ----------------------------------------------------------------- bounds

  lemma {:induction false} LeavesBounds(t: Tree, k: nat, a: nat, w: Tree)
    ensures forall x | Leaf(t, k, a, w, x) :: a <= x < a + Pow2(k)
    decreases t
  {
    if t.Node? && k > 0 {
      LeavesBounds(t.lo, k - 1, a, w);
      LeavesBounds(t.hi, k - 1, a + Pow2(k - 1), w);
    }
  }

  lemma {:induction false} CtxLeavesBounds(c: Ctx, k: nat, a: nat, w: Tree)
    ensures forall x | CtxLeaf(c, k, a, w, x) :: x < a || a + Pow2(k) <= x
    decreases c
  {
    match c
    case Top =>
    case InLo(up, hi) =>
      LeavesBounds(hi, k, a + Pow2(k), w);
      CtxLeavesBounds(up, k + 1, a, w);
    case InHi(up, lo) =>
      if a >= Pow2(k) {
        LeavesBounds(lo, k, a - Pow2(k), w);
        CtxLeavesBounds(up, k + 1, a - Pow2(k), w);
      }
  }

  /** What the entries say of a leaf: its order, its flag, and that it is in the region. */
  lemma {:induction false} LeafEntry(t: Tree, k: nat, a: nat, w: Tree, n: nat, order: seq<nat>, free: seq<bool>, x: int)
    requires |order| == |free| == n && Holds(t, k, a, n, order, free) && Leaf(t, k, a, w, x)
    requires w.Vacant? || w.Live? || w.Spare?
    ensures a <= x < n && x + Pow2(order[x]) <= n && x + Pow2(order[x]) <= a + Pow2(k) && order[x] <= k
    ensures free[x] == !w.Live? && (t.Node? ==> order[x] < k)
    decreases t
  {
    if t.Node? {
      if Leaf(t.lo, k - 1, a, w, x) {
        LeafEntry(t.lo, k - 1, a, w, n, order, free, x);
      } else {
        LeafEntry(t.hi, k - 1, a + Pow2(k - 1), w, n, order, free, x);
      }
    }
  }

  /** The first entry of a subtree never shows a larger order, and a smaller one if it is split. */
  lemma {:induction false} FirstOrder(t: Tree, k: nat, a: nat, n: nat, order: seq<nat>, free: seq<bool>)
    requires |order| == |free| == n && Holds(t, k, a, n, order, free) && a < n
    ensures order[a] <= k && (t.Node? ==> order[a] < k)
    decreases t
  {
    if t.Node? {
      FirstOrder(t.lo, k - 1, a, n, order, free);
    }
  }

  /** A leaf's level is where it is in the tree, whatever entries describe it. */
  lemma {:induction false} LeafLevel(t: Tree, k: nat, a: nat, n: nat, order: seq<nat>, free: seq<bool>,
                                     order': seq<nat>, free': seq<bool>, x: int)
    requires |order| == |free| == n == |order'| == |free'|
    requires Holds(t, k, a, n, order, free) && Holds(t, k, a, n, order', free') && Leaf(t, k, a, Vacant, x)
    ensures 0 <= x < n && order[x] == order'[x]
    decreases t
  {
    if t.Node? {
      if Leaf(t.lo, k - 1, a, Vacant, x) {
        LeafLevel(t.lo, k - 1, a, n, order, free, order', free', x);
      } else {
        LeafLevel(t.hi, k - 1, a + Pow2(k - 1), n, order, free, order', free', x);
      }
    }
  }

  // ------------------------------------------------------------------ frames

  lemma {:induction false} HoldsFrame(t: Tree, k: nat, a: nat, n: nat, order: seq<nat>, free: seq<bool>,
                                      order': seq<nat>, free': seq<bool>)
    requires |order| == |free| == n == |order'| == |free'| && Holds(t, k, a, n, order, free)
    requires forall x | a <= x < a + Pow2(k) && x < n :: order'[x] == order[x] && free'[x] == free[x]
    ensures Holds(t, k, a, n, order', free')
    decreases t
  {
    if t.Node? {
      HoldsFrame(t.lo, k - 1, a, n, order, free, order', free');
      HoldsFrame(t.hi, k - 1, a + Pow2(k - 1), n, order, free, order', free');
    }
  }

  /** Changing entries within the hole's pages does not concern the context. */
  lemma {:induction false} CtxFrame(c: Ctx, k: nat, a: nat, n: nat, order: seq<nat>, free: seq<bool>, order': seq<nat>,
                                    free': seq<bool>)
    requires |order| == |free| == n == |order'| == |free'| && CtxHolds(c, k, a, n, order, free)
    requires forall x | 0 <= x < n && !(a <= x < a + Pow2(k)) :: order'[x] == order[x] && free'[x] == free[x]
    ensures CtxHolds(c, k, a, n, order', free')
    decreases c
  {
    match c
    case Top =>
    case InLo(up, hi) =>
      HoldsFrame(hi, k, a + Pow2(k), n, order, free, order', free');
      CtxFrame(up, k + 1, a, n, order, free, order', free');
    case InHi(up, lo) =>
      HoldsFrame(lo, k, a - Pow2(k), n, order, free, order', free');
      CtxFrame(up, k + 1, a - Pow2(k), n, order, free, order', free');
  }

  // ----------------------------------------------------------------- buddies

  /** Flips bit `k` of a page index. */
  function Flip(a: nat, k: nat): nat {
    if k > 0 then 2 * Flip(a / 2, k - 1) + a % 2
    else if a % 2 == 0 then a + 1
    else a - 1
  }

  /** `a` is a multiple of `2^k`: its last `k` binary digits are zero. */
  predicate Aligned(a: nat, k: nat) {
    k > 0 ==> a % 2 == 0 && Aligned(a / 2, k - 1)
  }

  /** The two halves of an aligned block are aligned and are each other's flip. */
  lemma {:induction false} Halves(a: nat, k: nat)
    requires Aligned(a, k + 1)
    ensures Aligned(a, k) && Aligned(a + Pow2(k), k)
    ensures Flip(a, k) == a + Pow2(k) && Flip(a + Pow2(k), k) == a
    decreases k
  {
    if k > 0 {
      Halves(a / 2, k - 1);
      assert (a + Pow2(k)) / 2 == a / 2 + Pow2(k - 1);
    }
  }

  lemma {:induction false} ZeroAligned(k: nat)
    ensures Aligned(0, k)
  {
    if k > 0 {
      ZeroAligned(k - 1);
    }
  }

  /** Every hole is aligned to its size, and flipping its level's bit leads to the other half of
      its parent. */
  lemma {:induction false} FlipIsSibling(c: Ctx, k: nat, a: nat, n: nat, order: seq<nat>, free: seq<bool>)
    requires |order| == |free| == n && CtxHolds(c, k, a, n, order, free)
    ensures Aligned(a, k)
    ensures c.InLo? ==> Flip(a, k) == a + Pow2(k)
    ensures c.InHi? ==> Flip(a, k) == a - Pow2(k)
    decreases c
  {
    hide Holds, Flip, Aligned;
    match c
    case Top => ZeroAligned(k);
    case InLo(up, _) =>
      FlipIsSibling(up, k + 1, a, n, order, free);
      Halves(a, k);
    case InHi(up, _) =>
      FlipIsSibling(up, k + 1, a - Pow2(k), n, order, free);
      Halves(a - Pow2(k), k);
  }

  /** Whether the entries let a block merge is whether its sibling is a single free block: an
      entry inside a larger or smaller block never passes for a buddy. */
  lemma MergeableExact(c: Ctx, k: nat, a: nat, n: nat, order: seq<nat>, free: seq<bool>)
    requires |order| == |free| == n < Pow2(LISTS) && CtxHolds(c, k, a, n, order, free) && a + Pow2(k) <= n
    ensures var b := Flip(a, k); (b < n && free[b] && order[b] == k) <==> (Sibling(c).Vacant? || Sibling(c).Spare?)
    ensures !c.Top?
  {
    SiblingHolds(c, k, a, n, order, free);
    hide CtxHolds, Flip;
    var b, s := Flip(a, k), Sibling(c);
    if b < n {
      FirstOrder(s, k, b, n, order, free);
    }
  }

  lemma SiblingHolds(c: Ctx, k: nat, a: nat, n: nat, order: seq<nat>, free: seq<bool>)
    requires |order| == |free| == n < Pow2(LISTS) && CtxHolds(c, k, a, n, order, free) && a + Pow2(k) <= n
    ensures !c.Top? && Holds(Sibling(c), k, Flip(a, k), n, order, free)
  {
    FlipIsSibling(c, k, a, n, order, free);
    hide Flip, Holds;
  }

  /** The entries marked live, other than the hole's first, are those of live blocks. */
  ghost predicate LiveFlags(c: Ctx, k: nat, a: nat, n: nat, free: seq<bool>)
    requires |free| == n
  {
    forall x | 0 <= x < n && x != a :: !free[x] <==> CtxLeaf(c, k, a, Live, x)
  }

  /** The block of level `k` at `a` is out of the tree, and the entries describe the rest. */
  ghost predicate Hole(c: Ctx, k: nat, a: nat, n: nat, order: seq<nat>, free: seq<bool>) {
    && |order| == |free| == n && a + Pow2(k) <= n
    && CtxHolds(c, k, a, n, order, free) && CtxCoalesced(c) && LiveFlags(c, k, a, n, free)
  }

  /** The blocks handed out, other than one in the hole. */
  ghost predicate LivesAre(c: Ctx, k: nat, a: nat, lives: set<int>) {
    forall x :: x in lives <==> CtxLeaf(c, k, a, Live, x)
  }

  lemma HoleFree(c: Ctx, k: nat, a: nat, x: nat, n: nat, order: seq<nat>, free: seq<bool>)
    requires Hole(c, k, a, n, order, free) && a < x < a + Pow2(k)
    ensures x < n && free[x]
  {
    hide CtxHolds, CtxCoalesced;
    CtxLeavesBounds(c, k, a, Live);
  }

  lemma HoleLives(c: Ctx, k: nat, a: nat, n: nat, order: seq<nat>, free: seq<bool>, lives: set<int>)
    requires Hole(c, k, a, n, order, free) && LivesAre(c, k, a, lives)
    ensures a !in lives && forall x | 0 <= x < n && x != a :: !free[x] <==> x in lives
    ensures forall x | x in lives :: 0 <= x < n
  {
    CtxLeavesBounds(c, k, a, Live);
    forall x | x in lives
      ensures 0 <= x < n
    {
      CtxLeafEntry(c, k, a, Live, n, order, free, x);
    }
  }

  lemma {:induction false} CtxLeafEntry(c: Ctx, k: nat, a: nat, w: Tree, n: nat, order: seq<nat>, free: seq<bool>,
                                        x: int)
    requires |order| == |free| == n && CtxHolds(c, k, a, n, order, free) && CtxLeaf(c, k, a, w, x) &&
             (w.Vacant? || w.Live?)
    ensures 0 <= x < n && free[x] == w.Vacant?
    decreases c
  {
    match c
    case InLo(up, hi) =>
      if Leaf(hi, k, a + Pow2(k), w, x) {
        LeafEntry(hi, k, a + Pow2(k), w, n, order, free, x);
      } else {
        CtxLeafEntry(up, k + 1, a, w, n, order, free, x);
      }
    case InHi(up, lo) =>
      if Leaf(lo, k, a - Pow2(k), w, x) {
        LeafEntry(lo, k, a - Pow2(k), w, n, order, free, x);
      } else {
        CtxLeafEntry(up, k + 1, a - Pow2(k), w, n, order, free, x);
      }
  }

  lemma CutLives(c: Ctx, j: nat, a: nat, m: nat, lives: set<int>)
    requires m == a + Pow2(j) && LivesAre(c, j + 1, a, lives)
    ensures LivesAre(InHi(c, Vacant), j, m, lives)
  {
    CutLeaf(c, j, a, m);
    hide CtxLeaf;
  }

  /** Entries within the hole are not marked live, save perhaps its first. */
  lemma Inside(c: Ctx, k: nat, a: nat, n: nat, order: seq<nat>, free: seq<bool>, lives: set<int>)
    requires Hole(c, k, a, n, order, free) && LivesAre(c, k, a, lives)
    ensures forall x | a <= x < a + Pow2(k) :: x !in lives && (x == a || free[x])
  {
    hide CtxHolds, CtxCoalesced;
    CtxLeavesBounds(c, k, a, Live);
  }

  ghost predicate SameOrders(lives: set<int>, order0: seq<nat>, order: seq<nat>) {
    |order| == |order0| && forall x | x in lives && 0 <= x < |order| :: order[x] == order0[x]
  }

  lemma SameAtFirst(lives: set<int>, order: seq<nat>)
    ensures SameOrders(lives, order, order)
  {
  }

  lemma SameThroughout(lives: set<int>, order0: seq<nat>, order1: seq<nat>, order2: seq<nat>)
    requires SameOrders(lives, order0, order1) && SameOrders(lives, order1, order2)
    ensures SameOrders(lives, order0, order2)
  {
  }

  /** What the first entry of a hole says does not matter. */
  lemma HoleHead(c: Ctx, k: nat, a: nat, n: nat, order: seq<nat>, free: seq<bool>, o: nat, f: bool)
    requires Hole(c, k, a, n, order, free)
    ensures Hole(c, k, a, n, order[a := o], free[a := f])
  {
    hide CtxHolds;
    CtxFrame(c, k, a, n, order, free, order[a := o], free[a := f]);
  }

  /** Cutting the block in the hole in two, at page `m`: the lower half is a free leaf, and the
      hole is the upper half. */
  lemma CutHole(c: Ctx, k: nat, j: nat, a: nat, m: nat, n: nat, order: seq<nat>, free: seq<bool>,
                order': seq<nat>, free': seq<bool>)
    requires |order| == |free| == n && a < m < n && k == j + 1 && m == a + Pow2(j)
    requires order' == order[m := j][a := j] && (free' == free[a := true] || free' == free[a := true][m := false])
    requires Hole(c, k, a, n, order, free)
    ensures Flip(a, j) == m
    ensures Hole(InHi(c, Vacant), j, m, n, order', free')
  {
    hide CtxHolds, CtxCoalesced, CtxLeaf, Flip;
    CutBuddy(c, j, a, n, order, free);
    CutLeaf(c, j, a, m);
    Cut(c, j, a, m, n, order, free, order', free');
    CtxLeavesBounds(c, j + 1, a, Live);
    assert Pow2(j + 1) == 2 * Pow2(j);
  }

  lemma Cut(c: Ctx, j: nat, a: nat, m: nat, n: nat, order: seq<nat>, free: seq<bool>, order': seq<nat>,
            free': seq<bool>)
    requires Hole(c, j + 1, a, n, order, free) && m == a + Pow2(j)
    requires |order'| == |free'| == n && order'[a] == j && free'[a]
    requires forall x | 0 <= x < n && x != m && x != a :: order'[x] == order[x] && free'[x] == free[x]
    ensures CtxHolds(InHi(c, Vacant), j, m, n, order', free') && CtxCoalesced(InHi(c, Vacant))
  {
    assert CtxHolds(c, j + 1, a, n, order', free') by {
      hide CtxHolds;
      CtxFrame(c, j + 1, a, n, order, free, order', free');
    }
    hide Coalesced;
    Step(c, j, a, n, order', free');
  }

  lemma Step(c: Ctx, j: nat, a: nat, n: nat, order: seq<nat>, free: seq<bool>)
    requires |order| == |free| == n && CtxHolds(c, j + 1, a, n, order, free)
    requires a + Pow2(j) <= n && order[a] == j && free[a]
    ensures CtxHolds(InHi(c, Vacant), j, a + Pow2(j), n, order, free)
  {
  }

  lemma StepLo(c: Ctx, j: nat, a: nat, n: nat, order: seq<nat>, free: seq<bool>)
    requires |order| == |free| == n && CtxHolds(c, j + 1, a, n, order, free) && a < n <= a + Pow2(j)
    ensures CtxHolds(InLo(c, Gone), j, a, n, order, free)
  {
  }

  lemma CutBuddy(c: Ctx, j: nat, a: nat, n: nat, order: seq<nat>, free: seq<bool>)
    requires |order| == |free| == n && CtxHolds(c, j + 1, a, n, order, free)
    ensures Flip(a, j) == a + Pow2(j)
  {
    FlipIsSibling(c, j + 1, a, n, order, free);
    Halves(a, j);
  }

  lemma CutLeaf(c: Ctx, j: nat, a: nat, m: nat)
    requires m == a + Pow2(j)
    ensures forall w, x :: CtxLeaf(InHi(c, Vacant), j, m, w, x) <==>
              CtxLeaf(c, j + 1, a, w, x) || (w == Vacant && x == a)
  {
  }

  lemma Parent(c: Ctx, k: nat, a: nat, r: nat, n: nat, order: seq<nat>, free: seq<bool>)
    requires |order| == |free| == n && CtxHolds(c, k, a, n, order, free) && !c.Top? && a + Pow2(k) <= n
    requires Sibling(c).Vacant? || Sibling(c).Spare?
    requires r == if c.InLo? then a else a - Pow2(k)
    ensures CtxHolds(c.up, k + 1, r, n, order, free) && r + Pow2(k + 1) <= n
    ensures forall x | r <= x < r + Pow2(k + 1) && !(a <= x < a + Pow2(k)) ::
              0 <= x < n && (x == a + Pow2(k) || x == a - Pow2(k) || !CtxLeaf(c, k, a, Live, x))
  {
    hide CtxCoalesced;
    CtxLeavesBounds(c.up, k + 1, r, Live);
  }

  lemma ParentLeaf(c: Ctx, k: nat, a: nat, r: nat, w: Tree)
    requires !c.Top? && (Sibling(c).Vacant? || Sibling(c).Spare?) && r == if c.InLo? then a else a - Pow2(k)
    requires !w.Node? && !w.Spare?
    ensures forall x :: CtxLeaf(c, k, a, w, x) <==>
              CtxLeaf(c.up, k + 1, r, w, x) || (Sibling(c) == w && x == if c.InLo? then a + Pow2(k) else a - Pow2(k))
  {
  }

  /** Merging the block in the hole with its sibling: the hole is their parent. */
  lemma Widen(c: Ctx, k: nat, a: nat, r: nat, n: nat, order: seq<nat>, free: seq<bool>)
    requires |order| == |free| == n < Pow2(LISTS) && Hole(c, k, a, n, order, free) &&
             (Sibling(c).Vacant? || Sibling(c).Spare?)
    requires r == if Flip(a, k) < a then Flip(a, k) else a
    ensures !c.Top? && r <= a && k + 1 < LISTS && r + Pow2(k + 1) <= n && Flip(a, k) != a
    ensures Hole(c.up, k + 1, r, n, order[r := k + 1], free[a := true])
    ensures forall x :: CtxLeaf(c, k, a, Live, x) <==> CtxLeaf(c.up, k + 1, r, Live, x)
    ensures forall x :: CtxLeaf(c, k, a, Vacant, x) <==>
              CtxLeaf(c.up, k + 1, r, Vacant, x) || (Sibling(c).Vacant? && x == Flip(a, k))
  {
    hide CtxHolds, CtxLeaf, Flip, Coalesced, LiveFlags, Leaf;
    NotTop(c, k, a, n, order, free);
    FlipIsSibling(c, k, a, n, order, free);
    Parent(c, k, a, r, n, order, free);
    ParentLeaf(c, k, a, r, Vacant);
    ParentLeaf(c, k, a, r, Live);
    Fits(k + 1, r, n);
    CtxFrame(c.up, k + 1, r, n, order, free, order[r := k + 1], free[a := true]);
    ParentFlags(c, k, a, r, n, free);
  }

  /** A block is smaller than the whole of the largest region. */
  lemma Fits(k: nat, a: nat, n: nat)
    requires a + Pow2(k) <= n < Pow2(LISTS)
    ensures k < LISTS
  {
    if k >= LISTS {
      Pow2Monotone(LISTS, k);
    }
  }

  lemma NotTop(c: Ctx, k: nat, a: nat, n: nat, order: seq<nat>, free: seq<bool>)
    requires |order| == |free| == n < Pow2(LISTS) && CtxHolds(c, k, a, n, order, free) && a + Pow2(k) <= n
    ensures !c.Top?
  {
  }

  lemma ParentFlags(c: Ctx, k: nat, a: nat, r: nat, n: nat, free: seq<bool>)
    requires |free| == n && !c.Top? && (Sibling(c).Vacant? || Sibling(c).Spare?) && LiveFlags(c, k, a, n, free)
    requires r == (if c.InLo? then a else a - Pow2(k)) && a < n
    ensures LiveFlags(c.up, k + 1, r, n, free[a := true])
  {
    ParentLeaf(c, k, a, r, Live);
    CtxLeavesBounds(c.up, k + 1, r, Live);
    hide CtxLeaf;
  }

  lemma WidenLives(c: Ctx, k: nat, a: nat, r: nat, n: nat, order: seq<nat>, free: seq<bool>, lives: set<int>)
    requires |order| == |free| == n < Pow2(LISTS) && Hole(c, k, a, n, order, free) &&
             (Sibling(c).Vacant? || Sibling(c).Spare?)
    requires r == (if Flip(a, k) < a then Flip(a, k) else a) && LivesAre(c, k, a, lives)
    ensures !c.Top? && LivesAre(c.up, k + 1, r, lives)
    ensures Hole(c.up, k + 1, r, n, order[r := k + 1], free[a := true]) && SameOrders(lives, order, order[r := k + 1])
  {
    hide CtxHolds, CtxLeaf, Flip, CtxCoalesced, LiveFlags;
    Widen(c, k, a, r, n, order, free);
    CtxLeavesBounds(c.up, k + 1, r, Live);
  }

  // ------------------------------------------------------------- finding a leaf

  /** Stepping from a split block to one of its halves. */
  lemma Halved(c: Ctx, lo: Tree, hi: Tree, k: nat, a: nat, n: nat, order: seq<nat>, free: seq<bool>)
    requires |order| == |free| == n && k > 0
    requires CtxHolds(c, k, a, n, order, free) && Holds(Node(lo, hi), k, a, n, order, free)
    requires CtxCoalesced(c) && Coalesced(Node(lo, hi))
    ensures CtxHolds(InLo(c, hi), k - 1, a, n, order, free) && CtxCoalesced(InLo(c, hi)) && Coalesced(lo)
    ensures CtxHolds(InHi(c, lo), k - 1, a + Pow2(k - 1), n, order, free) && CtxCoalesced(InHi(c, lo)) && Coalesced(hi)
    ensures Holds(lo, k - 1, a, n, order, free) && Holds(hi, k - 1, a + Pow2(k - 1), n, order, free)
    ensures forall w, x :: Leaf(Node(lo, hi), k, a, w, x) <==>
              Leaf(lo, k - 1, a, w, x) || Leaf(hi, k - 1, a + Pow2(k - 1), w, x)
  {
    assert Pow2(k) == 2 * Pow2(k - 1);
  }

  /** The way up from the leaf at `x`. */
  lemma {:induction false} Locate(c: Ctx, t: Tree, k: nat, a: nat, w: Tree, n: nat, order: seq<nat>, free: seq<bool>,
                                  x: int) returns (c': Ctx, j: nat)
    requires |order| == |free| == n && CtxHolds(c, k, a, n, order, free) && Holds(t, k, a, n, order, free)
    requires Leaf(t, k, a, w, x) && (w.Vacant? || w.Live?) && CtxCoalesced(c) && Coalesced(t)
    ensures 0 <= x < n && j == order[x] && CtxHolds(c', j, x, n, order, free) && Holds(w, j, x, n, order, free)
    ensures Plug(c', w) == Plug(c, t) && CtxCoalesced(c')
    decreases t
  {
    if t.Node? {
      Halved(c, t.lo, t.hi, k, a, n, order, free);
      hide CtxHolds, CtxCoalesced, Coalesced, Leaf, Plug, Pow2;
      var h := a + Pow2(k - 1);
      if Leaf(t.lo, k - 1, a, w, x) {
        c', j := Locate(InLo(c, t.hi), t.lo, k - 1, a, w, n, order, free, x);
      } else {
        c', j := Locate(InHi(c, t.lo), t.hi, k - 1, h, w, n, order, free, x);
      }
    } else {
      c', j := c, k;
    }
  }

  // --------------------------------------------------------------- the tiling

  /** Every page of the region is in a block, or is the spare page. */
  lemma {:induction false} Covered(t: Tree, k: nat, a: nat, n: nat, order: seq<nat>, free: seq<bool>,
                                   p: nat) returns (h: nat, w: Tree)
    requires |order| == |free| == n && Holds(t, k, a, n, order, free) && a <= p < a + Pow2(k) && p < n
    ensures w.Vacant? || w.Live? || w.Spare?
    ensures Leaf(t, k, a, w, h) && h < n && h <= p < h + Pow2(order[h])
    decreases t
  {
    if t.Node? {
      if p < a + Pow2(k - 1) {
        h, w := Covered(t.lo, k - 1, a, n, order, free, p);
      } else {
        h, w := Covered(t.hi, k - 1, a + Pow2(k - 1), n, order, free, p);
      }
    } else {
      h, w := a, t;
    }
  }

  lemma {:induction false} SpareLast(t: Tree, k: nat, a: nat, n: nat, order: seq<nat>, free: seq<bool>, x: int)
    requires |order| == |free| == n && Holds(t, k, a, n, order, free) && Leaf(t, k, a, Spare, x)
    ensures x == n - 1
    decreases t
  {
    if t.Node? {
      if Leaf(t.lo, k - 1, a, Spare, x) {
        SpareLast(t.lo, k - 1, a, n, order, free, x);
      } else {
        SpareLast(t.hi, k - 1, a + Pow2(k - 1), n, order, free, x);
      }
    }
  }

  /** Two blocks, of whatever kind, share no page. */
  lemma {:induction false} LeavesApart(t: Tree, k: nat, a: nat, v: Tree, w: Tree, n: nat, order: seq<nat>,
                                       free: seq<bool>, x: int, y: int)
    requires |order| == |free| == n && Holds(t, k, a, n, order, free)
    requires (v.Vacant? || v.Live? || v.Spare?) && (w.Vacant? || w.Live? || w.Spare?)
    requires Leaf(t, k, a, v, x) && Leaf(t, k, a, w, y) && x < y
    ensures 0 <= x < n && x + Pow2(order[x]) <= y
    decreases t
  {
    if t.Node? {
      var m := a + Pow2(k - 1);
      LeavesBounds(t.lo, k - 1, a, v);
      LeavesBounds(t.lo, k - 1, a, w);
      LeavesBounds(t.hi, k - 1, m, v);
      LeavesBounds(t.hi, k - 1, m, w);
      if y < m {
        LeavesApart(t.lo, k - 1, a, v, w, n, order, free, x, y);
      } else if x < m {
        LeafEntry(t.lo, k - 1, a, v, n, order, free, x);
      } else {
        LeavesApart(t.hi, k - 1, m, v, w, n, order, free, x, y);
      }
    }
  }

  /** A block starts at a multiple of its size. */
  lemma {:induction false} LeafAligned(t: Tree, k: nat, a: nat, w: Tree, n: nat, order: seq<nat>, free: seq<bool>,
                                       x: int)
    requires |order| == |free| == n && Holds(t, k, a, n, order, free) && Leaf(t, k, a, w, x) && Aligned(a, k)
    requires w.Vacant? || w.Live? || w.Spare?
    ensures 0 <= x < n && Aligned(x, order[x])
    decreases t
  {
    if t.Node? {
      Halves(a, k - 1);
      if Leaf(t.lo, k - 1, a, w, x) {
        LeafAligned(t.lo, k - 1, a, w, n, order, free, x);
      } else {
        LeafAligned(t.hi, k - 1, a + Pow2(k - 1), w, n, order, free, x);
      }
    }
  }

  // --------------------------------------------------------------- confluence

  predicate Without(t: Tree, w: Tree) {
    if t.Node? then Without(t.lo, w) && Without(t.hi, w) else t != w
  }

  lemma {:induction false} WithoutLeaf(t: Tree, k: nat, a: nat, w: Tree, n: nat, order: seq<nat>, free: seq<bool>)
    requires |order| == |free| == n && Holds(t, k, a, n, order, free) && !w.Node?
    ensures Without(t, w) ==> forall x :: !Leaf(t, k, a, w, x)
    ensures !Without(t, w) ==> exists x :: Leaf(t, k, a, w, x)
    decreases t
  {
    if t.Node? {
      var m := a + Pow2(k - 1);
      WithoutLeaf(t.lo, k - 1, a, w, n, order, free);
      WithoutLeaf(t.hi, k - 1, m, w, n, order, free);
      if !Without(t.lo, w) {
        var x :| Leaf(t.lo, k - 1, a, w, x);
        assert Leaf(t, k, a, w, x);
      } else if !Without(t.hi, w) {
        var x :| Leaf(t.hi, k - 1, m, w, x);
        assert Leaf(t, k, a, w, x);
      }
    } else if t == w {
      assert Leaf(t, k, a, w, a);
    }
  }

  /** Only the last page can be spare. */
  lemma {:induction false} SpareIsLast(t: Tree, k: nat, a: nat, n: nat, order: seq<nat>, free: seq<bool>)
    requires |order| == |free| == n && Holds(t, k, a, n, order, free) && !Without(t, Spare)
    ensures a < n <= a + Pow2(k) && Leaf(t, k, a, Spare, n - 1)
    decreases t
  {
    if t.Node? {
      if !Without(t.lo, Spare) {
        SpareIsLast(t.lo, k - 1, a, n, order, free);
      } else {
        SpareIsLast(t.hi, k - 1, a + Pow2(k - 1), n, order, free);
      }
    }
  }

  /** A fully coalesced stretch with nothing live in it is one block. */
  lemma {:induction false} NothingLive(t: Tree, k: nat, a: nat, n: nat, order: seq<nat>, free: seq<bool>)
    requires |order| == |free| == n && Holds(t, k, a, n, order, free) && Coalesced(t) && a + Pow2(k) <= n
    requires Without(t, Live) && Without(t, Spare)
    ensures t == Vacant
    decreases t
  {
    if t.Node? {
      NothingLive(t.lo, k - 1, a, n, order, free);
      NothingLive(t.hi, k - 1, a + Pow2(k - 1), n, order, free);
    }
  }

  ghost predicate SameLeaves(t: Tree, u: Tree, k: nat, a: nat, w: Tree) {
    forall x :: Leaf(t, k, a, w, x) <==> Leaf(u, k, a, w, x)
  }

  lemma LeafSplit(t: Tree, u: Tree, k: nat, a: nat, w: Tree)
    requires t.Node? && u.Node? && k > 0 && SameLeaves(t, u, k, a, w)
    ensures SameLeaves(t.lo, u.lo, k - 1, a, w) && SameLeaves(t.hi, u.hi, k - 1, a + Pow2(k - 1), w)
  {
    var m := a + Pow2(k - 1);
    LeavesBounds(t.lo, k - 1, a, w);
    LeavesBounds(u.lo, k - 1, a, w);
    LeavesBounds(t.hi, k - 1, m, w);
    LeavesBounds(u.hi, k - 1, m, w);
    var j, lo, hi, lo', hi' := k - 1, t.lo, t.hi, u.lo, u.hi;
    forall x
      ensures Leaf(lo, j, a, w, x) <==> Leaf(lo', j, a, w, x)
    {
      assert Leaf(t, k, a, w, x) <==> Leaf(u, k, a, w, x);
      assert (Leaf(lo, j, a, w, x) || Leaf(lo', j, a, w, x) ==> x < m) &&
             (Leaf(hi, j, m, w, x) || Leaf(hi', j, m, w, x) ==> x >= m);
    }
    forall x
      ensures Leaf(hi, j, m, w, x) <==> Leaf(hi', j, m, w, x)
    {
      assert Leaf(t, k, a, w, x) <==> Leaf(u, k, a, w, x);
      assert (Leaf(lo, j, a, w, x) || Leaf(lo', j, a, w, x) ==> x < m) &&
             (Leaf(hi, j, m, w, x) || Leaf(hi', j, m, w, x) ==> x >= m);
    }
  }

  lemma SpareHalves(t: Tree, k: nat, a: nat, n: nat, order: seq<nat>, free: seq<bool>)
    requires |order| == |free| == n && Holds(t, k, a, n, order, free) && t.Node?
    ensures Without(t.lo, Spare) <==> Without(t, Spare) || n > a + Pow2(k - 1)
    ensures Without(t.hi, Spare) <==> Without(t, Spare) || n <= a + Pow2(k - 1)
  {
    if !Without(t.lo, Spare) {
      SpareIsLast(t.lo, k - 1, a, n, order, free);
    }
    if !Without(t.hi, Spare) {
      SpareIsLast(t.hi, k - 1, a + Pow2(k - 1), n, order, free);
    }
  }

  /** The live blocks alone decide how the region is cut up: two coalesced states with the same
      live blocks, and the same spare page, have the same free blocks. */
  lemma {:induction false} Canonical(t: Tree, u: Tree, k: nat, a: nat, n: nat, order: seq<nat>, free: seq<bool>,
                                     order': seq<nat>, free': seq<bool>)
    requires |order| == |free| == n == |order'| == |free'|
    requires Holds(t, k, a, n, order, free) && Coalesced(t) && Holds(u, k, a, n, order', free') && Coalesced(u)
    requires SameLeaves(t, u, k, a, Live) && (Without(t, Spare) <==> Without(u, Spare))
    requires forall x | Leaf(t, k, a, Live, x) && 0 <= x < n :: order[x] == order'[x]
    ensures t == u
    decreases t
  {
    if t.Node? && u.Node? {
      LeafSplit(t, u, k, a, Live);
      SpareHalves(t, k, a, n, order, free);
      SpareHalves(u, k, a, n, order', free');
      Canonical(t.lo, u.lo, k - 1, a, n, order, free, order', free');
      Canonical(t.hi, u.hi, k - 1, a + Pow2(k - 1), n, order, free, order', free');
    } else if t.Live? {
      assert Leaf(u, k, a, Live, a);
      LeafEntry(u, k, a, Live, n, order', free', a);
    } else if u.Live? {
      assert Leaf(t, k, a, Live, a);
      LeafEntry(t, k, a, Live, n, order, free, a);
    } else if t.Vacant? {
      WithoutLeaf(t, k, a, Live, n, order, free);
      WithoutLeaf(u, k, a, Live, n, order', free');
      NothingLive(u, k, a, n, order', free');
    } else if u.Vacant? {
      WithoutLeaf(t, k, a, Live, n, order, free);
      WithoutLeaf(u, k, a, Live, n, order', free');
      NothingLive(t, k, a, n, order, free);
    }
  }

  /** The blocks of a region with nothing live: the largest aligned ones that fit in its first
      `m` pages. */
  function Whole(n: nat, m: nat, k: nat, a: nat): Tree {
    if a >= n then Gone
    else if a + Pow2(k) <= m then Vacant
    else if k == 0 then Spare
    else Node(Whole(n, m, k - 1, a), Whole(n, m, k - 1, a + Pow2(k - 1)))
  }

  /** With nothing live, a coalesced region is cut up in the one way that is its size's. */
  lemma {:induction false} AllFree(t: Tree, k: nat, a: nat, n: nat, m: nat, order: seq<nat>, free: seq<bool>)
    requires |order| == |free| == n && Holds(t, k, a, n, order, free) && Coalesced(t) && m <= n <= m + 1
    requires Without(t, Live) && (Without(t, Spare) <==> m == n || n <= a || a + Pow2(k) < n)
    ensures t == Whole(n, m, k, a)
    decreases t
  {
    if a < n && a + Pow2(k) <= m {
      NothingLive(t, k, a, n, order, free);
    } else if t.Node? {
      SpareHalves(t, k, a, n, order, free);
      AllFree(t.lo, k - 1, a, n, m, order, free);
      AllFree(t.hi, k - 1, a + Pow2(k - 1), n, m, order, free);
    }
  }

  // ------------------------------------------------------------ the spare page

  predicate CtxWithout(c: Ctx, w: Tree) {
    match c
    case Top => true
    case InLo(up, hi) => Without(hi, w) && CtxWithout(up, w)
    case InHi(up, lo) => Without(lo, w) && CtxWithout(up, w)
  }

  lemma {:induction false} WithoutPlug(c: Ctx, t: Tree, w: Tree)
    requires !w.Node?
    ensures Without(Plug(c, t), w) <==> CtxWithout(c, w) && Without(t, w)
    decreases c
  {
    match c
    case Top =>
    case InLo(up, hi) => WithoutPlug(up, Node(t, hi), w);
    case InHi(up, lo) => WithoutPlug(up, Node(lo, t), w);
  }

  lemma {:induction false} CtxSpare(c: Ctx, k: nat, a: nat, n: nat, order: seq<nat>, free: seq<bool>)
    requires |order| == |free| == n && CtxHolds(c, k, a, n, order, free)
    ensures CtxWithout(c, Spare) || n <= a || a + Pow2(k) < n
    decreases c
  {
    match c
    case Top =>
    case InLo(up, hi) =>
      if !Without(hi, Spare) {
        SpareIsLast(hi, k, a + Pow2(k), n, order, free);
      } else {
        CtxSpare(up, k + 1, a, n, order, free);
      }
    case InHi(up, lo) =>
      if !Without(lo, Spare) {
        SpareIsLast(lo, k, a - Pow2(k), n, order, free);
      } else {
        CtxSpare(up, k + 1, a - Pow2(k), n, order, free);
      }
  }

  /** Merging takes in the spare page only as a single page. */
  lemma WidenSpare(c: Ctx, k: nat, a: nat, n: nat, order: seq<nat>, free: seq<bool>)
    requires |order| == |free| == n < Pow2(LISTS) && CtxHolds(c, k, a, n, order, free) && a + Pow2(k) <= n && !c.Top?
    requires Sibling(c).Vacant? || Sibling(c).Spare?
    ensures CtxWithout(c.up, Spare) <==> CtxWithout(c, Spare) || Sibling(c).Spare?
    ensures Sibling(c).Spare? ==> k == 0
  {
    CtxSpare(c.up, k + 1, if c.InLo? then a else a - Pow2(k), n, order, free);
  }

  /** A block's sibling is the spare page exactly when the block is the page before it. */
  lemma SpareSibling(c: Ctx, k: nat, a: nat, n: nat, order: seq<nat>, free: seq<bool>)
    requires |order| == |free| == n < Pow2(LISTS) && CtxHolds(c, k, a, n, order, free) && a + Pow2(k) <= n
    ensures Sibling(c).Spare? <==> !CtxWithout(c, Spare) && a + 2 == n && n % 2 == 0
  {
    hide CtxHolds;
    CtxSpare(c, k, a, n, order, free);
    SiblingHolds(c, k, a, n, order, free);
    FlipIsSibling(c, k, a, n, order, free);
    if c.InLo? {
      UpHolds(c, k, a, n, order, free);
      CtxSpare(c.up, k + 1, a, n, order, free);
    }
  }

  lemma UpHolds(c: Ctx, k: nat, a: nat, n: nat, order: seq<nat>, free: seq<bool>)
    requires |order| == |free| == n && CtxHolds(c, k, a, n, order, free) && c.InLo?
    ensures CtxHolds(c.up, k + 1, a, n, order, free)
  {
  }

  // -------------------------------------------------------------- the catalogue

  /** The pages left when the catalogue stops: none, or one spare page. */
  function Tail(k: nat, rem: nat): Tree {
    if rem == 0 then Gone
    else if k == 0 then Spare
    else Node(Tail(k - 1, rem), Gone)
  }

  lemma {:induction false} TailHolds(k: nat, a: nat, n: nat, order: seq<nat>, free: seq<bool>)
    requires |order| == |free| == n && a <= n <= a + 1 && (a < n ==> order[a] == 0 && free[a])
    ensures Holds(Tail(k, n - a), k, a, n, order, free) && Coalesced(Tail(k, n - a)) && !Tail(k, n - a).Vacant?
    ensures Without(Tail(k, n - a), Live) && (Without(Tail(k, n - a), Spare) <==> a == n)
    ensures Without(Tail(k, n - a), Vacant)
  {
    if k > 0 && a < n {
      TailHolds(k - 1, a, n, order, free);
    }
  }

  /** The way down to the smallest aligned stretch that holds the whole region. */
  lemma {:induction false} Descend(k: nat, n: nat, order: seq<nat>, free: seq<bool>) returns (c: Ctx)
    requires |order| == |free| == n && 0 < n <= Pow2(k) && k <= LISTS
    ensures CtxHolds(c, k, 0, n, order, free) && CtxCoalesced(c) && CtxWithout(c, Live) && CtxWithout(c, Spare)
    ensures forall x :: !CtxLeaf(c, k, 0, Vacant, x)
    decreases LISTS - k
  {
    if k == LISTS {
      c := Top;
    } else {
      var up := Descend(k + 1, n, order, free);
      c := InLo(up, Gone);
    }
  }

  predicate IsPow2(n: nat) {
    n > 0 && n == Pow2(BitLength(n) - 1)
  }

  lemma PowersApart(n: nat, k: nat)
    requires k > 0 && Pow2(k - 1) < n <= Pow2(k)
    ensures IsPow2(n) <==> n == Pow2(k)
  {
    BitLengthBounds(n);
    var l := BitLength(n);
    if l - 1 > k {
      Pow2Monotone(k, l - 1);
      Pow2Monotone(k + 1, l - 1);
    } else if l < k {
      Pow2Monotone(l, k - 1);
    }
    if n == Pow2(k) && l <= k {
      Pow2Monotone(l, k);
    }
  }

  /** With nothing live and `2^k` pages, the first block is the whole region unless the last page
      is spare. */
  lemma {:induction false} FirstBlock(n: nat, m: nat, k: nat, j: nat, order: seq<nat>, free: seq<bool>)
    requires |order| == |free| == n == Pow2(k) && k <= j && (m == n || (m + 1 == n && k > 0))
    requires Holds(Whole(n, m, j, 0), j, 0, n, order, free)
    ensures Leaf(Whole(n, m, j, 0), j, 0, Vacant, 0) && order[0] == if m == n then k else k - 1
    decreases j
  {
    if j > k {
      Pow2Monotone(k + 1, j);
      FirstBlock(n, m, k, j - 1, order, free);
    } else if m < n {
      assert Pow2(k - 1) <= m;
      assert Whole(n, m, k - 1, 0) == Vacant;
    }
  }
}
