/** What a stale forward link does to the buddy allocator's free lists while a block is merged, and
    when a later merge of the same release undoes it. */
module BuddyMend {
  import opened Powers
  import opened FreeLists
  import opened BuddyTree
  import opened BuddyLists

  /** How the links differ from those of well-formed lists: not at all, or, if those are `fwd` and
      `bwd`, in that `p` leads to `q` and what should follow `p` has no back link. */
  datatype Shape = Straight | Bent(fwd: seq<int>, bwd: seq<int>, p: nat, q: int)

  /** Only a back link is missing: `p` still leads to what should follow it. */
  predicate Cut(s: Shape) {
    s.Bent? && s.p < |s.fwd| && s.q == s.fwd[s.p] && s.q >= 0
  }

  ghost predicate Bends(s: Shape, fwd: seq<int>, bwd: seq<int>)
    requires s.Bent?
  {
    && s.p < |s.fwd| == |s.bwd|
    && fwd == s.fwd[s.p := s.q] && bwd == PushBwd(s.bwd, s.fwd[s.p], NIL)
  }

  function Fwd(s: Shape, fwd: seq<int>): seq<int> {
    if s.Straight? then fwd else s.fwd
  }

  function Bwd(s: Shape, bwd: seq<int>): seq<int> {
    if s.Straight? then bwd else s.bwd
  }

  /** The lists are those of `Linked`, up to `s`, and a block of `2^k` pages at `e` is being merged.
      What is bent for good is below its level. */
  ghost predicate Shaped(s: Shape, fwd: seq<int>, bwd: seq<int>, order: seq<nat>, free: seq<bool>, heads: seq<int>,
                         lists: seq<seq<int>>, bin: map<int, int>, e: nat, k: nat)
  {
    && Linked(Fwd(s, fwd), Bwd(s, bwd), order, free, heads, lists, bin, e)
    && e < |Bwd(s, bwd)| && Bwd(s, bwd)[e] == NIL
    && (s.Bent? ==>
      && Bends(s, fwd, bwd) && s.p in bin && s.p != e
      && if Cut(s) then s.q != e else bin[s.p] < k && e <= s.q < e + Pow2(k))
  }

  // ----------------------------------------------------------- single steps

  /** What the links of well-formed lists say of `p`, which is listed, and of `x`. */
  ghost predicate Away(fwd: seq<int>, bwd: seq<int>, p: nat, x: nat) {
    && p < |fwd| == |bwd| && x < |fwd| && x != p && x != fwd[p]
    && (0 <= fwd[p] < |bwd| ==> bwd[fwd[p]] == p)
    && (fwd[x] >= 0 ==> fwd[x] != fwd[p]) && bwd[x] != p
  }

  lemma FarAway(fwd: seq<int>, bwd: seq<int>, order: seq<nat>, free: seq<bool>, heads: seq<int>,
                lists: seq<seq<int>>, bin: map<int, int>, loose: int, p: nat, x: nat)
    requires Linked(fwd, bwd, order, free, heads, lists, bin, loose) && p in bin && p < |fwd| && x < |fwd|
    requires x != p && x != fwd[p] && (x in bin || fwd[x] == NIL)
    ensures Away(fwd, bwd, p, x)
  {
    Neighbours(fwd, bwd, heads, lists, bin, p, bin[p]);
    ForwardMirror(fwd, bwd, NIL, heads[bin[p]], lists[bin[p]], p);
    if x in bin {
      Neighbours(fwd, bwd, heads, lists, bin, x, bin[x]);
      ForwardMirror(fwd, bwd, NIL, heads[bin[x]], lists[bin[x]], x);
      ChainMirror(fwd, bwd, NIL, heads[bin[x]], lists[bin[x]], x);
    }
  }

  /** Unlinking another entry leaves things bent as they were. */
  lemma RemoveAway(s: Shape, fwd: seq<int>, bwd: seq<int>, order: seq<nat>, heads: seq<int>, x: nat)
    requires s.Bent? && Bends(s, fwd, bwd) && Away(s.fwd, s.bwd, s.p, x) && |order| == |fwd|
    ensures RemoveHead(fwd, order, heads, x) == RemoveHead(s.fwd, order, heads, x)
    ensures var s' := Bent(RemoveFwd(s.fwd, s.bwd, x), RemoveBwd(s.fwd, s.bwd, x), s.p, s.q);
            Bends(s', RemoveFwd(fwd, bwd, x), RemoveBwd(fwd, bwd, x)) && s'.fwd[s.p] == s.fwd[s.p]
  {
    assert fwd[x] == s.fwd[x] && bwd[x] == s.bwd[x];
    var fs', bs' := RemoveFwd(s.fwd, s.bwd, x), RemoveBwd(s.fwd, s.bwd, x);
    assert RemoveFwd(fwd, bwd, x) == fs'[s.p := s.q];
    assert RemoveBwd(fwd, bwd, x) == PushBwd(bs', s.fwd[s.p], NIL);
  }

  /** Unlinking the entry that leads to the cut makes the lists whole. */
  lemma RemoveMends(s: Shape, fwd: seq<int>, bwd: seq<int>)
    requires Cut(s) && Bends(s, fwd, bwd) && s.q < |s.fwd| && s.q != s.p
    ensures RemoveFwd(fwd, bwd, s.p) == RemoveFwd(s.fwd, s.bwd, s.p)
    ensures RemoveBwd(fwd, bwd, s.p) == RemoveBwd(s.fwd, s.bwd, s.p)
    ensures fwd == s.fwd
  {
  }

  /** Unlinking the entry behind the cut leaves what was before it leading to it for good. */
  lemma RemoveBreaks(s: Shape, fwd: seq<int>, bwd: seq<int>, order: seq<nat>, heads: seq<int>)
    requires Cut(s) && Bends(s, fwd, bwd) && s.q < |s.fwd| == |order| && s.q != s.p && s.fwd[s.q] != s.q
    requires s.bwd[s.q] == s.p && (0 <= s.fwd[s.q] < |s.bwd| ==> s.bwd[s.fwd[s.q]] == s.q)
    ensures fwd == s.fwd
    ensures var s' := Bent(RemoveFwd(s.fwd, s.bwd, s.q), RemoveBwd(s.fwd, s.bwd, s.q), s.p, s.q);
            Bends(s', RemoveFwd(fwd, bwd, s.q), RemoveBwd(fwd, bwd, s.q))
  {
    var fs', bs' := RemoveFwd(s.fwd, s.bwd, s.q), RemoveBwd(s.fwd, s.bwd, s.q);
    assert fs'[s.p] == s.fwd[s.q];
    assert RemoveFwd(fwd, bwd, s.q) == s.fwd[s.q := NIL] == fs'[s.p := s.q];
    assert RemoveBwd(fwd, bwd, s.q) == PushBwd(bs', s.fwd[s.q], NIL);
  }

  lemma PushBends(s: Shape, fwd: seq<int>, bwd: seq<int>, h: int, e: nat)
    requires s.Bent? && Bends(s, fwd, bwd) && e < |fwd| && e != s.p && (h >= 0 ==> h != s.fwd[s.p])
    ensures var s' := Bent(s.fwd[e := h], PushBwd(s.bwd, h, e), s.p, s.q);
            Bends(s', fwd[e := h], PushBwd(bwd, h, e)) && s'.fwd[s.p] == s.fwd[s.p]
  {
    assert fwd[e := h] == s.fwd[e := h][s.p := s.q];
    assert PushBwd(bwd, h, e) == PushBwd(PushBwd(s.bwd, h, e), s.fwd[s.p], NIL);
  }

  // ----------------------------------------------------------------- merges

  /** Whether an entry may be unlinked: what is bent for good is not to be touched any more. */
  ghost predicate Removable(s: Shape, fwd: seq<int>, bwd: seq<int>, bin: map<int, int>, x: nat)
  {
    && x < |Fwd(s, fwd)| && (x in bin || Fwd(s, fwd)[x] == NIL)
    && (s.Bent? ==> Bends(s, fwd, bwd) && s.p in bin && (!Cut(s) ==> x != s.p && x != s.fwd[s.p]))
  }

  /** What unlinking `x` makes of `s`. */
  function After(s: Shape, x: nat): Shape
    requires s.Bent? ==> x < |s.fwd| == |s.bwd|
  {
    if s.Straight? || (Cut(s) && x == s.p) then Straight
    else Bent(RemoveFwd(s.fwd, s.bwd, x), RemoveBwd(s.fwd, s.bwd, x), s.p, s.q)
  }

  lemma Lengths(fwd: seq<int>, bwd: seq<int>, x: nat)
    requires x < |fwd| == |bwd|
    ensures |RemoveFwd(fwd, bwd, x)| == |RemoveBwd(fwd, bwd, x)| == |fwd|
  {
  }

  lemma RemoveStep(s: Shape, fwd: seq<int>, bwd: seq<int>, order: seq<nat>, free: seq<bool>, heads: seq<int>,
                   lists: seq<seq<int>>, bin: map<int, int>, loose: int, x: nat)
    requires Linked(Fwd(s, fwd), Bwd(s, bwd), order, free, heads, lists, bin, loose)
    requires |fwd| == |bwd| == |order| && Removable(s, fwd, bwd, bin, x)
    ensures var fwd', bwd', s' := RemoveFwd(fwd, bwd, x), RemoveBwd(fwd, bwd, x), After(s, x);
            && Fwd(s', fwd') == RemoveFwd(Fwd(s, fwd), Bwd(s, bwd), x)
            && Bwd(s', bwd') == RemoveBwd(Fwd(s, fwd), Bwd(s, bwd), x)
            && (s'.Bent? ==> Bends(s', fwd', bwd') && s'.p != x && (Cut(s') <==> Cut(s) && x != s.q))
            && (s'.Bent? ==> s'.fwd[s.p] == if x == s.fwd[s.p] then s.fwd[x] else s.fwd[s.p])
    ensures RemoveHead(fwd, order, heads, x) == RemoveHead(Fwd(s, fwd), order, heads, x)
  {
    if s.Bent? {
      Neighbours(s.fwd, s.bwd, heads, lists, bin, s.p, bin[s.p]);
      ForwardMirror(s.fwd, s.bwd, NIL, heads[bin[s.p]], lists[bin[s.p]], s.p);
      ChainLinks(s.fwd, s.bwd, NIL, heads[bin[s.p]], lists[bin[s.p]], s.p);
      if x == s.p {
        RemoveMends(s, fwd, bwd);
      } else if x == s.fwd[s.p] {
        assert x in lists[bin[s.p]] && x in bin;
        ForwardMirror(s.fwd, s.bwd, NIL, heads[bin[s.p]], lists[bin[s.p]], x);
        ChainLinks(s.fwd, s.bwd, NIL, heads[bin[s.p]], lists[bin[s.p]], x);
        RemoveBreaks(s, fwd, bwd, order, heads);
      } else {
        FarAway(s.fwd, s.bwd, order, free, heads, lists, bin, loose, s.p, x);
        RemoveAway(s, fwd, bwd, order, heads, x);
      }
    }
  }

  /** What merging makes of `s`, up to its links. */
  function Merged(s: Shape, order: seq<nat>, heads: seq<int>, lo: nat, hi: nat, k: nat): Shape
    requires s.Bent? ==> lo < |s.fwd| && hi < |s.fwd| && |s.fwd| == |s.bwd| == |order| && k < |heads|
  {
    if s.Straight? || (Cut(s) && (lo == s.p || (lo != s.q && hi == s.p))) then Straight
    else Bent(MergeFwd(s.fwd, s.bwd, order, heads, lo, hi, k), MergeBwd(s.fwd, s.bwd, order, heads, lo, hi, k), s.p,
              s.q)
  }

  /** Merging on the links as they are does what merging on those of well-formed lists would, up to
      the bend, which it may straighten. */
  lemma MergeStep(s: Shape, fwd: seq<int>, bwd: seq<int>, order: seq<nat>, free: seq<bool>, heads: seq<int>,
                  lists: seq<seq<int>>, bin: map<int, int>, loose: int, lo: nat, hi: nat, k: nat)
    requires Linked(Fwd(s, fwd), Bwd(s, bwd), order, free, heads, lists, bin, loose) && lo != hi
    requires |fwd| == |bwd| == |order| && k < LISTS == |heads|
    requires Removable(s, fwd, bwd, bin, lo) && Removable(s, fwd, bwd, bin, hi)
    requires Cut(s) && lo == s.q ==> hi != s.p && hi != s.fwd[s.q]
    ensures var fwd', bwd', s' := MergeFwd(fwd, bwd, order, heads, lo, hi, k),
                                  MergeBwd(fwd, bwd, order, heads, lo, hi, k), Merged(s, order, heads, lo, hi, k);
            && Fwd(s', fwd') == MergeFwd(Fwd(s, fwd), Bwd(s, bwd), order, heads, lo, hi, k)
            && Bwd(s', bwd') == MergeBwd(Fwd(s, fwd), Bwd(s, bwd), order, heads, lo, hi, k)
            && (s'.Bent? ==> Bends(s', fwd', bwd') && (Cut(s') <==> Cut(s) && lo != s.q && hi != s.q))
    ensures MergeHeads(fwd, bwd, order, heads, lo, hi, k) ==
            MergeHeads(Fwd(s, fwd), Bwd(s, bwd), order, heads, lo, hi, k)
  {
    hide Good, RemoveFwd, RemoveBwd, RemoveHead, PushBwd;
    RemoveStep(s, fwd, bwd, order, free, heads, lists, bin, loose, lo);
    var lists1 := UnlinkAny(Fwd(s, fwd), Bwd(s, bwd), order, free, heads, lists, bin, loose, lo);
    var s1, fwd1, bwd1, heads1 := After(s, lo), RemoveFwd(fwd, bwd, lo), RemoveBwd(fwd, bwd, lo),
                                  RemoveHead(fwd, order, heads, lo);
    assert |fwd1| == |bwd1| == |fwd| by { Lengths(fwd, bwd, lo); }
    RemoveStep(s1, fwd1, bwd1, order, free, heads1, lists1, bin - {lo}, loose, hi);
    var s2, fwd2, bwd2, heads2 := After(s1, hi), RemoveFwd(fwd1, bwd1, hi), RemoveBwd(fwd1, bwd1, hi),
                                  RemoveHead(fwd1, order, heads1, hi);
    if s2.Bent? {
      var lists2 := UnlinkAny(Fwd(s1, fwd1), Bwd(s1, bwd1), order, free, heads1, lists1, bin - {lo}, loose, hi);
      HeadApart(s2.fwd, s2.bwd, order, free, heads2, lists2, bin - {lo} - {hi}, loose, s2.p, k);
      PushBends(s2, fwd2, bwd2, heads2[k], lo);
    }
  }

  /** No list begins with an entry that another one leads to. */
  lemma HeadApart(fwd: seq<int>, bwd: seq<int>, order: seq<nat>, free: seq<bool>, heads: seq<int>,
                  lists: seq<seq<int>>, bin: map<int, int>, loose: int, p: nat, k: nat)
    requires Linked(fwd, bwd, order, free, heads, lists, bin, loose) && p in bin && k < LISTS
    ensures p < |fwd| && (heads[k] >= 0 ==> heads[k] != fwd[p])
  {
    Neighbours(fwd, bwd, heads, lists, bin, p, bin[p]);
    ForwardMirror(fwd, bwd, NIL, heads[bin[p]], lists[bin[p]], p);
    HeadListed(fwd, bwd, heads, lists, bin, k);
    if heads[k] >= 0 {
      Neighbours(fwd, bwd, heads, lists, bin, heads[k], k);
    }
  }

  /** The entry that a listed one leads to. */
  lemma Successor(fwd: seq<int>, bwd: seq<int>, order: seq<nat>, free: seq<bool>, heads: seq<int>,
                  lists: seq<seq<int>>, bin: map<int, int>, loose: int, p: int)
    requires Linked(fwd, bwd, order, free, heads, lists, bin, loose) && p in bin
    ensures 0 <= p < |fwd| == |bwd| && 0 <= bin[p] < |heads| == |lists| && NIL <= fwd[p] < |fwd|
    ensures fwd[p] >= 0 ==> fwd[p] in bin && bin[fwd[p]] == bin[p] && fwd[p] != p && bwd[fwd[p]] == p
  {
    var l := lists[bin[p]];
    Neighbours(fwd, bwd, heads, lists, bin, p, bin[p]);
    ChainLinks(fwd, bwd, NIL, heads[bin[p]], l, p);
    ForwardMirror(fwd, bwd, NIL, heads[bin[p]], l, p);
    assert fwd[p] >= 0 ==> fwd[p] in l;
  }

  /** A listed block that is being merged, and its buddy, may both be unlinked. */
  lemma MayRemove(s: Shape, fwd: seq<int>, bwd: seq<int>, order: seq<nat>, free: seq<bool>, heads: seq<int>,
                  lists: seq<seq<int>>, bin: map<int, int>, e: nat, b: nat, k: nat)
    requires Shaped(s, fwd, bwd, order, free, heads, lists, bin, e, k) && e in bin && e != b && b < |fwd| == |bwd|
    requires order[e] == order[b] == k && free[b]
    ensures Linked(Fwd(s, fwd), Bwd(s, bwd), order, free, heads, lists, bin, e)
    ensures |order| == |free| == |fwd| == |Fwd(s, fwd)| == |Bwd(s, bwd)| && |heads| == LISTS
    ensures Removable(s, fwd, bwd, bin, e) && Removable(s, fwd, bwd, bin, b)
    ensures s.Bent? ==> s.p < |s.fwd| && bin[s.p] == order[s.p]
    ensures Cut(s) ==> 0 <= s.q < |s.fwd| && s.q in bin && s.q != s.p && bin[s.q] == bin[s.p] && s.fwd[s.q] != e
    ensures Cut(s) ==> bin[s.q] == order[s.q]
  {
    if s.Bent? {
      Successor(s.fwd, s.bwd, order, free, heads, lists, bin, e, s.p);
      if Cut(s) {
        Successor(s.fwd, s.bwd, order, free, heads, lists, bin, e, s.q);
      }
      hide Good;
    }
  }

  lemma FirstInList(fwd: seq<int>, bwd: seq<int>, order: seq<nat>, free: seq<bool>, heads: seq<int>,
                    lists: seq<seq<int>>, bin: map<int, int>, e: nat)
    requires Linked(fwd, bwd, order, free, heads, lists, bin, e) && e in bin
    ensures 0 <= bin[e] < |heads| && e < |bwd| && (heads[bin[e]] == e ==> bwd[e] == NIL)
  {
    Neighbours(fwd, bwd, heads, lists, bin, e, bin[e]);
  }

  lemma Newest(fwd: seq<int>, bwd: seq<int>, order: seq<nat>, heads: seq<int>, lo: nat, hi: nat, k: nat)
    requires lo < |fwd| && hi < |fwd| && |fwd| == |bwd| == |order| && k < |heads|
    ensures MergeHeads(fwd, bwd, order, heads, lo, hi, k)[k] == lo
  {
  }

  /** What merging a listed block of level `k` with its buddy `b` makes of `s`. */
  ghost predicate Turned(s: Shape, s': Shape, order: seq<nat>, b: nat, k: nat) {
    && (s'.Straight? <==> s.Straight? || (Cut(s) && s.p == b))
    && (s'.Bent? ==>
      && s'.p == s.p && (Cut(s') <==> Cut(s) && s.q != b)
      && (Cut(s) && !Cut(s') ==> s.p < |order| && order[s.p] == k))
  }

  /** A merge of a listed block with its buddy. */
  lemma MergeShaped(s: Shape, fwd: seq<int>, bwd: seq<int>, order: seq<nat>, free: seq<bool>, heads: seq<int>,
                    lists: seq<seq<int>>, bin: map<int, int>, e: nat, b: nat, k: nat)
    returns (s': Shape, lists': seq<seq<int>>)
    requires Shaped(s, fwd, bwd, order, free, heads, lists, bin, e, k) && e in bin && e != b && b < |fwd| == |bwd|
    requires order[e] == order[b] == k && free[b] && k + 1 < LISTS
    requires var lo := if e < b then e else b;
             e < lo + Pow2(k + 1) && b < lo + Pow2(k + 1) && e + Pow2(k) <= lo + Pow2(k + 1)
    ensures var lo, hi := if e < b then e else b, if e < b then b else e;
            Shaped(s', MergeFwd(fwd, bwd, order, heads, lo, hi, k + 1), MergeBwd(fwd, bwd, order, heads, lo, hi, k + 1),
                   order[lo := k + 1], free[e := true], MergeHeads(fwd, bwd, order, heads, lo, hi, k + 1), lists',
                   (bin - {lo} - {hi})[lo := k + 1], lo, k + 1)
    ensures Turned(s, s', order, b, k)
  {
    hide Good, RemoveFwd, RemoveBwd, RemoveHead, PushBwd, MergeFwd, MergeBwd, MergeHeads, Linked;
    var lo, hi := if e < b then e else b, if e < b then b else e;
    var fs, bs := Fwd(s, fwd), Bwd(s, bwd);
    MayRemove(s, fwd, bwd, order, free, heads, lists, bin, e, b, k);
    lists' := MergeReady(fs, bs, order, free, heads, lists, bin, k + 1, e, b);
    MergeStep(s, fwd, bwd, order, free, heads, lists, bin, e, lo, hi, k + 1);
    s' := Merged(s, order, heads, lo, hi, k + 1);
    Newest(fs, bs, order, heads, lo, hi, k + 1);
    FirstInList(MergeFwd(fs, bs, order, heads, lo, hi, k + 1), MergeBwd(fs, bs, order, heads, lo, hi, k + 1),
                order[lo := k + 1], free[e := true], MergeHeads(fs, bs, order, heads, lo, hi, k + 1), lists',
                (bin - {lo} - {hi})[lo := k + 1], lo);
    ghost var bin' := (bin - {lo} - {hi})[lo := k + 1];
    if s'.Bent? {
      assert s.Bent? && s'.p == s.p && s'.q == s.q;
      assert s'.p in bin' && s'.p != lo;
      assert Cut(s') ==> s'.q != lo;
      assert !Cut(s') ==> bin'[s'.p] < k + 1;
      assert !Cut(s') ==> lo <= s'.q < lo + Pow2(k + 1);
    }
  }

  // -------------------------------------------------------- the first merge

  /** The entry whose forward link leads, when `e` is unlinked in order to merge it with `b`, to where
      the stale forward link of `e` leads. */
  function Before(fwd: seq<int>, bwd: seq<int>, e: nat, b: nat): int
    requires e < |fwd| && b < |fwd| && |fwd| == |bwd| && 0 <= fwd[e] < |fwd|
  {
    if e < b then bwd[fwd[e]] else RemoveBwd(fwd, bwd, b)[fwd[e]]
  }

  /** Unlinking an entry that is in no list, but whose stale forward link leads to one that is not the
      first of its list, cuts that list. */
  lemma CutBy(fwd: seq<int>, bwd: seq<int>, order: seq<nat>, free: seq<bool>, heads: seq<int>,
              lists: seq<seq<int>>, bin: map<int, int>, e: nat)
    requires Linked(fwd, bwd, order, free, heads, lists, bin, e) && e < |fwd| && e !in bin
    requires 0 <= fwd[e] < |fwd| && bwd[fwd[e]] != NIL
    ensures var fs, p := fwd[e := NIL], bwd[fwd[e]];
            && Linked(fs, bwd, order, free, heads, lists, bin, e)
            && p >= 0 && p in bin && Cut(Bent(fs, bwd, p, fwd[e])) && p != e && fwd[e] in bin && bin[fwd[e]] == bin[p]
            && bin[p] == order[p]
            && Bends(Bent(fs, bwd, p, fwd[e]), RemoveFwd(fwd, bwd, e), RemoveBwd(fwd, bwd, e))
            && RemoveFwd(fs, bwd, e) == fs && RemoveBwd(fs, bwd, e) == bwd && bwd[e] == NIL
    ensures RemoveHead(fwd, order, heads, e) == RemoveHead(fwd[e := NIL], order, heads, e) == heads
  {
    var f := fwd[e];
    assert f in bin && bwd[e] == NIL;
    Neighbours(fwd, bwd, heads, lists, bin, f, bin[f]);
    ChainMirror(fwd, bwd, NIL, heads[bin[f]], lists[bin[f]], f);
    assert bwd[f] in lists[bin[f]];
    WriteUnlisted(fwd, bwd, heads, lists, bin, e, NIL, NIL);
    assert bwd[e := NIL] == bwd;
    if order[e] < LISTS {
      HeadListed(fwd, bwd, heads, lists, bin, order[e]);
    }
    hide Good;
  }

  lemma FirstBelow(fwd: seq<int>, bwd: seq<int>, order: seq<nat>, free: seq<bool>, heads: seq<int>,
                   lists: seq<seq<int>>, bin: map<int, int>, e: nat, b: nat, k: nat) returns (s': Shape)
    requires Linked(fwd, bwd, order, free, heads, lists, bin, e) && e < b < |fwd| && e !in bin && free[b] && k < LISTS
    requires 0 <= fwd[e] < |fwd| && !Harmless(fwd, bwd, e, b)
    ensures s'.Bent? && s'.fwd == MergeFwd(fwd[e := NIL], bwd, order, heads, e, b, k)
    ensures s'.bwd == MergeBwd(fwd[e := NIL], bwd, order, heads, e, b, k)
    ensures Bends(s', MergeFwd(fwd, bwd, order, heads, e, b, k), MergeBwd(fwd, bwd, order, heads, e, b, k))
    ensures MergeHeads(fwd, bwd, order, heads, e, b, k) == MergeHeads(fwd[e := NIL], bwd, order, heads, e, b, k)
    ensures s'.p == bwd[fwd[e]] && s'.q == fwd[e] && s'.p != b && (Cut(s') <==> b != s'.q)
  {
    hide Good, RemoveFwd, RemoveBwd, RemoveHead, PushBwd;
    var fs, p := fwd[e := NIL], bwd[fwd[e]];
    CutBy(fwd, bwd, order, free, heads, lists, bin, e);
    var s1, fwd1, bwd1 := Bent(fs, bwd, p, fwd[e]), RemoveFwd(fwd, bwd, e), RemoveBwd(fwd, bwd, e);
    Lengths(fwd, bwd, e);
    RemoveStep(s1, fwd1, bwd1, order, free, heads, lists, bin, e, b);
    var s2, fwd2, bwd2 := After(s1, b), RemoveFwd(fwd1, bwd1, b), RemoveBwd(fwd1, bwd1, b);
    var heads2 := RemoveHead(fwd1, order, heads, b);
    var lists2 := UnlinkAny(fs, bwd, order, free, heads, lists, bin, e, b);
    HeadApart(s2.fwd, s2.bwd, order, free, heads2, lists2, bin - {b}, e, p, k);
    PushBends(s2, fwd2, bwd2, heads2[k], e);
    s' := Bent(s2.fwd[e := heads2[k]], PushBwd(s2.bwd, heads2[k], e), p, fwd[e]);
  }

  lemma FirstAbove(fwd: seq<int>, bwd: seq<int>, order: seq<nat>, free: seq<bool>, heads: seq<int>,
                   lists: seq<seq<int>>, bin: map<int, int>, e: nat, b: nat, k: nat) returns (s': Shape)
    requires Linked(fwd, bwd, order, free, heads, lists, bin, e) && b < e < |fwd| && e !in bin && free[b] && k < LISTS
    requires 0 <= fwd[e] < |fwd| && !Harmless(fwd, bwd, e, b)
    ensures s'.Bent? && s'.fwd == MergeFwd(fwd[e := NIL], bwd, order, heads, b, e, k)
    ensures s'.bwd == MergeBwd(fwd[e := NIL], bwd, order, heads, b, e, k)
    ensures Bends(s', MergeFwd(fwd, bwd, order, heads, b, e, k), MergeBwd(fwd, bwd, order, heads, b, e, k))
    ensures MergeHeads(fwd, bwd, order, heads, b, e, k) == MergeHeads(fwd[e := NIL], bwd, order, heads, b, e, k)
    ensures s'.p == RemoveBwd(fwd, bwd, b)[fwd[e]] && s'.q == fwd[e] && Cut(s')
  {
    hide Good, RemoveHead, PushBwd;
    var lists1 := UnlinkAny(fwd, bwd, order, free, heads, lists, bin, e, b);
    var fwd1, bwd1, heads1 := RemoveFwd(fwd, bwd, b), RemoveBwd(fwd, bwd, b), RemoveHead(fwd, order, heads, b);
    var fs1, p := fwd1[e := NIL], bwd1[fwd[e]];
    CutBy(fwd1, bwd1, order, free, heads1, lists1, bin - {b}, e);
    Unrelated(fwd, bwd, order, free, heads, lists, bin, e, b);
    hide RemoveFwd, RemoveBwd;
    var s2, fwd2, bwd2 := Bent(fs1, bwd1, p, fwd[e]), RemoveFwd(fwd1, bwd1, e), RemoveBwd(fwd1, bwd1, e);
    HeadApart(fs1, bwd1, order, free, heads1, lists1, bin - {b}, e, p, k);
    PushBends(s2, fwd2, bwd2, heads1[k], b);
    s' := Bent(fs1[b := heads1[k]], PushBwd(bwd1, heads1[k], b), p, fwd[e]);
  }

  /** Unlinking the buddy does not touch the stale forward link. */
  lemma Unrelated(fwd: seq<int>, bwd: seq<int>, order: seq<nat>, free: seq<bool>, heads: seq<int>,
                  lists: seq<seq<int>>, bin: map<int, int>, e: nat, b: nat)
    requires Linked(fwd, bwd, order, free, heads, lists, bin, e) && b < |fwd| && e < |fwd| && e != b && e !in bin
    ensures RemoveFwd(fwd[e := NIL], bwd, b) == RemoveFwd(fwd, bwd, b)[e := NIL]
    ensures RemoveBwd(fwd[e := NIL], bwd, b) == RemoveBwd(fwd, bwd, b)
    ensures RemoveHead(fwd[e := NIL], order, heads, b) == RemoveHead(fwd, order, heads, b)
  {
    if b in bin {
      Neighbours(fwd, bwd, heads, lists, bin, b, bin[b]);
      assert bwd[b] >= 0 ==> bwd[b] in lists[bin[b]];
    }
    assert bwd[b] != e;
    assert RemoveFwd(fwd[e := NIL], bwd, b) == RemoveFwd(fwd, bwd, b)[e := NIL];
  }

  /** What the first merge of a release makes of straight lists. */
  ghost predicate TurnedFirst(s: Shape, fwd: seq<int>, bwd: seq<int>, order: seq<nat>, e: nat, b: nat, k: nat)
    requires e < |fwd| && b < |fwd| && |fwd| == |bwd| == |order|
  {
    && (s.Straight? <==> Harmless(fwd, bwd, e, b))
    && (s.Bent? ==>
      0 <= fwd[e] < |fwd| && s.p == Before(fwd, bwd, e, b) < |fwd| && (Cut(s) || order[s.p] == k))
  }

  /** The merge of a block that is being freed, whose forward link may be stale, with its buddy. */
  lemma FirstShaped(fwd: seq<int>, bwd: seq<int>, order: seq<nat>, free: seq<bool>, heads: seq<int>,
                    lists: seq<seq<int>>, bin: map<int, int>, e: nat, b: nat, k: nat)
    returns (s: Shape, lists': seq<seq<int>>)
    requires Linked(fwd, bwd, order, free, heads, lists, bin, e) && e !in bin && e != b && e < |fwd| && b < |fwd|
    requires order[b] == k && free[b] && k + 1 < LISTS && |order| == |fwd| == |bwd| == |free|
    requires var lo := if e < b then e else b; b < lo + Pow2(k + 1)
    ensures var lo, hi := if e < b then e else b, if e < b then b else e;
            Shaped(s, MergeFwd(fwd, bwd, order, heads, lo, hi, k + 1), MergeBwd(fwd, bwd, order, heads, lo, hi, k + 1),
                   order[lo := k + 1], free[e := true], MergeHeads(fwd, bwd, order, heads, lo, hi, k + 1), lists',
                   (bin - {lo} - {hi})[lo := k + 1], lo, k + 1)
    ensures TurnedFirst(s, fwd, bwd, order, e, b, k)
  {
    hide Good, RemoveFwd, RemoveHead, PushBwd, MergeFwd, MergeBwd, MergeHeads;
    var lo, hi := if e < b then e else b, if e < b then b else e;
    if Harmless(fwd, bwd, e, b) {
      lists' := MergeReady(fwd, bwd, order, free, heads, lists, bin, k + 1, e, b);
      s := Straight;
      Newest(fwd, bwd, order, heads, lo, hi, k + 1);
      FirstInList(MergeFwd(fwd, bwd, order, heads, lo, hi, k + 1), MergeBwd(fwd, bwd, order, heads, lo, hi, k + 1),
                  order[lo := k + 1], free[e := true], MergeHeads(fwd, bwd, order, heads, lo, hi, k + 1), lists',
                  (bin - {lo} - {hi})[lo := k + 1], lo);
    } else {
      s, lists' := FirstBent(fwd, bwd, order, free, heads, lists, bin, e, b, k);
    }
  }

  lemma FirstBent(fwd: seq<int>, bwd: seq<int>, order: seq<nat>, free: seq<bool>, heads: seq<int>,
                  lists: seq<seq<int>>, bin: map<int, int>, e: nat, b: nat, k: nat)
    returns (s: Shape, lists': seq<seq<int>>)
    requires Linked(fwd, bwd, order, free, heads, lists, bin, e) && e !in bin && e != b && e < |fwd| && b < |fwd|
    requires order[b] == k && free[b] && k + 1 < LISTS && !Harmless(fwd, bwd, e, b)
    requires var lo := if e < b then e else b; b < lo + Pow2(k + 1)
    ensures var lo, hi := if e < b then e else b, if e < b then b else e;
            Shaped(s, MergeFwd(fwd, bwd, order, heads, lo, hi, k + 1), MergeBwd(fwd, bwd, order, heads, lo, hi, k + 1),
                   order[lo := k + 1], free[e := true], MergeHeads(fwd, bwd, order, heads, lo, hi, k + 1), lists',
                   (bin - {lo} - {hi})[lo := k + 1], lo, k + 1)
    ensures s.Bent? && 0 <= fwd[e] < |fwd| && s.p == Before(fwd, bwd, e, b) < |fwd| && (Cut(s) || order[s.p] == k)
  {
    hide Good, RemoveFwd, RemoveHead, PushBwd, MergeFwd, MergeBwd, MergeHeads;
    var lo, hi := if e < b then e else b, if e < b then b else e;
    var fs := fwd[e := NIL];
    StaleTarget(fwd, bwd, order, free, heads, lists, bin, e, b);
    lists' := MergeReady(fs, bwd, order, free, heads, lists, bin, k + 1, e, b);
    if e < b {
      s := FirstBelow(fwd, bwd, order, free, heads, lists, bin, e, b, k + 1);
    } else {
      s := FirstAbove(fwd, bwd, order, free, heads, lists, bin, e, b, k + 1);
    }
    Newest(fs, bwd, order, heads, lo, hi, k + 1);
    FirstInList(s.fwd, s.bwd, order[lo := k + 1], free[e := true], MergeHeads(fs, bwd, order, heads, lo, hi, k + 1),
                lists', (bin - {lo} - {hi})[lo := k + 1], lo);
    hide Harmless, RemoveBwd;
  }

  /** Where a harmful forward link leads, and what leads there otherwise. */
  lemma StaleTarget(fwd: seq<int>, bwd: seq<int>, order: seq<nat>, free: seq<bool>, heads: seq<int>,
                    lists: seq<seq<int>>, bin: map<int, int>, e: nat, b: nat)
    requires Linked(fwd, bwd, order, free, heads, lists, bin, e) && e !in bin && e != b && e < |fwd| && b < |fwd|
    requires !Harmless(fwd, bwd, e, b) && free[b]
    ensures var f := fwd[e];
            0 <= f < |fwd| && f in bin && Before(fwd, bwd, e, b) in bin && Before(fwd, bwd, e, b) != b
            && bin[f] == bin[Before(fwd, bwd, e, b)] == order[Before(fwd, bwd, e, b)] && (e > b ==> f != b)
    ensures Linked(fwd[e := NIL], bwd, order, free, heads, lists, bin, e)
    ensures Harmless(fwd[e := NIL], bwd, e, b)
  {
    var f := fwd[e];
    if b in bin {
      Successor(fwd, bwd, order, free, heads, lists, bin, e, b);
    }
    CutBy(fwd, bwd, order, free, heads, lists, bin, e);
    if e > b {
      var lists1 := UnlinkAny(fwd, bwd, order, free, heads, lists, bin, e, b);
      var fwd1, bwd1, heads1 := RemoveFwd(fwd, bwd, b), RemoveBwd(fwd, bwd, b), RemoveHead(fwd, order, heads, b);
      CutBy(fwd1, bwd1, order, free, heads1, lists1, bin - {b}, e);
    }
    hide Good;
  }

  // ------------------------------------------------------- the later merges

  /** Whether merging the block of `2^k` pages at `a` with its buddy, and the result with its own, and
      so forth as long as that is free, unlinks `p` as one of the buddies. */
  predicate Absorbs(order: seq<nat>, free: seq<bool>, a: nat, k: nat, p: int)
    requires |order| == |free|
    decreases LISTS - k
  {
    var b := Flip(a, k);
    && k < LISTS && b < |order| && free[b] && order[b] == k
    && (b == p || Absorbs(order, free, if a < b then a else b, k + 1, p))
  }

  lemma {:induction false} AbsorbsAbove(order: seq<nat>, free: seq<bool>, a: nat, k: nat, p: int)
    requires |order| == |free| && Absorbs(order, free, a, k, p)
    ensures 0 <= p < |order| && order[p] >= k
    decreases LISTS - k
  {
    var b := Flip(a, k);
    if b != p {
      AbsorbsAbove(order, free, if a < b then a else b, k + 1, p);
    }
  }

  /** Releasing block `e` leaves the lists well formed: it is not merged, or merging it is harmless, or
      what led to where its stale forward link leads is unlinked by a later merge. */
  predicate Mends(fwd: seq<int>, bwd: seq<int>, order: seq<nat>, free: seq<bool>, e: nat)
    requires e < |fwd| == |bwd| == |order| == |free|
  {
    var k, b := order[e], Flip(e, order[e]);
    b < |fwd| && free[b] && order[b] == k ==>
      || Harmless(fwd, bwd, e, b)
      || (0 <= fwd[e] < |fwd| && Absorbs(order, free, if e < b then e else b, k + 1, Before(fwd, bwd, e, b)))
  }

  /** When the block has grown to `2^k` pages at `e`, the outcome is decided, or else depends on what
      merging unlinks from there on. */
  ghost predicate Tracks(s: Shape, fwd0: seq<int>, bwd0: seq<int>, order0: seq<nat>, free0: seq<bool>, e0: nat,
                         e: nat, k: nat)
    requires e0 < |fwd0| == |bwd0| == |order0| == |free0|
  {
    var b0 := Flip(e0, order0[e0]);
    b0 < |fwd0| &&
    var harmless, lo := Harmless(fwd0, bwd0, e0, b0), if e0 < b0 then e0 else b0;
    if s.Straight? then
      || harmless
      || (0 <= fwd0[e0] < |fwd0| && Absorbs(order0, free0, lo, order0[e0] + 1, Before(fwd0, bwd0, e0, b0)))
    else
      && !harmless && 0 <= fwd0[e0] < |fwd0| && s.p == Before(fwd0, bwd0, e0, b0)
      && (Absorbs(order0, free0, lo, order0[e0] + 1, s.p) <==> Cut(s) && Absorbs(order0, free0, e, k, s.p))
  }

  lemma TracksFirst(s: Shape, fwd0: seq<int>, bwd0: seq<int>, order0: seq<nat>, free0: seq<bool>, e0: nat, b0: nat)
    requires e0 < |fwd0| == |bwd0| == |order0| == |free0| && b0 == Flip(e0, order0[e0]) < |fwd0|
    requires TurnedFirst(s, fwd0, bwd0, order0, e0, b0, order0[e0])
    ensures Tracks(s, fwd0, bwd0, order0, free0, e0, if e0 < b0 then e0 else b0, order0[e0] + 1)
  {
    hide Harmless;
    var lo := if e0 < b0 then e0 else b0;
    if s.Bent? && !Cut(s) && Absorbs(order0, free0, lo, order0[e0] + 1, s.p) {
      AbsorbsAbove(order0, free0, lo, order0[e0] + 1, s.p);
    }
  }

  lemma TracksMore(s: Shape, s': Shape, fwd0: seq<int>, bwd0: seq<int>, order0: seq<nat>, free0: seq<bool>, e0: nat,
                   e: nat, b: nat, k: nat, order: seq<nat>)
    requires e0 < |fwd0| == |bwd0| == |order0| == |free0|
    requires Tracks(s, fwd0, bwd0, order0, free0, e0, e, k) && Turned(s, s', order, b, k)
    requires b == Flip(e, k) < |fwd0| && free0[b] && order0[b] == k && k < LISTS
    requires s.Bent? && s.p < |order0| && s.p < |order| ==> order0[s.p] == order[s.p]
    ensures Tracks(s', fwd0, bwd0, order0, free0, e0, if e < b then e else b, k + 1)
  {
    hide Harmless, Before;
    var lo := if e < b then e else b;
    if s.Bent? && s'.Bent? && Cut(s) && !Cut(s') && Absorbs(order0, free0, lo, k + 1, s.p) {
      AbsorbsAbove(order0, free0, lo, k + 1, s.p);
    }
  }

  lemma TracksLast(s: Shape, fwd0: seq<int>, bwd0: seq<int>, order0: seq<nat>, free0: seq<bool>, e0: nat,
                   e: nat, k: nat)
    requires e0 < |fwd0| == |bwd0| == |order0| == |free0| && Tracks(s, fwd0, bwd0, order0, free0, e0, e, k)
    requires var b0 := Flip(e0, order0[e0]); b0 < |fwd0| && free0[b0] && order0[b0] == order0[e0]
    requires var b := Flip(e, k); !(b < |order0| && free0[b] && order0[b] == k)
    ensures s.Straight? <==> Mends(fwd0, bwd0, order0, free0, e0)
  {
    hide Harmless, Before;
  }

  /** Outside the block of `2^k` pages at `e`, orders and flags are the same. */
  ghost predicate Outside(order0: seq<nat>, order: seq<nat>, free0: seq<bool>, free: seq<bool>, e: nat, k: nat) {
    && |order| == |order0| && |free| == |free0|
    && (forall x | 0 <= x < |order| && !(e <= x < e + Pow2(k)) :: order[x] == order0[x])
    && (forall x | 0 <= x < |free| && !(e <= x < e + Pow2(k)) :: free[x] == free0[x])
  }

  lemma OutsideMore(order0: seq<nat>, order: seq<nat>, free0: seq<bool>, free: seq<bool>, e: nat, b: nat, k: nat)
    requires Outside(order0, order, free0, free, e, k) && |order| == |free| && e < |order| && b < |order|
    requires b == e + Pow2(k) || e == b + Pow2(k)
    ensures var lo := if e < b then e else b;
            Outside(order0, order[lo := k + 1], free0, free[e := true], lo, k + 1)
    ensures order[b] == order0[b] && free[b] == free0[b]
  {
    assert Pow2(k + 1) == Pow2(k) + Pow2(k);
  }

  // --------------------------------------------------------- lists that bend

  /** A list that bends to `q` contains `q`. */
  lemma {:induction false} Leads(fs: seq<int>, bs: seq<int>, prev: int, fwd: seq<int>, bwd: seq<int>, prev': int,
                                 head: int, l: seq<int>, m: seq<int>, p: nat, q: int)
    requires |fs| == |bs| && |fwd| == |bwd| && Chain(fs, bs, prev, head, l) && Chain(fwd, bwd, prev', head, m)
    requires p in l && p < |fs| && fwd == fs[p := q] && q >= 0
    ensures q in m
    decreases l
  {
    if l[0] == p {
      assert m[1..][0] == q;
    } else {
      Leads(fs, bs, l[0], fwd, bwd, m[0], fs[l[0]], l[1..], m[1..], p, q);
    }
  }

  lemma StillCut(s: Shape, fwd: seq<int>, bwd: seq<int>, order: seq<nat>, free: seq<bool>, heads: seq<int>,
                 lists: seq<seq<int>>, bin: map<int, int>, e: nat, lists': seq<seq<int>>, bin': map<int, int>)
    requires Cut(s) && Linked(s.fwd, s.bwd, order, free, heads, lists, bin, e) && Bends(s, fwd, bwd) && s.p in bin
    ensures !Good(fwd, bwd, heads, lists', bin')
  {
    var q := s.q;
    Successor(s.fwd, s.bwd, order, free, heads, lists, bin, e, s.p);
    Neighbours(s.fwd, s.bwd, heads, lists, bin, q, bin[q]);
    assert fwd == s.fwd && bwd[q] == NIL;
    if Good(fwd, bwd, heads, lists', bin') {
      assert Chain(s.fwd, s.bwd, NIL, heads[bin[q]], lists[bin[q]]);
      assert Chain(fwd, bwd, NIL, heads[bin[q]], lists'[bin[q]]);
      hide Good, Linked;
      BackLinked(fwd, s.bwd, bwd, heads[bin[q]], lists[bin[q]], lists'[bin[q]], q);
    }
  }

  lemma StillBroken(s: Shape, fwd: seq<int>, bwd: seq<int>, order: seq<nat>, free: seq<bool>, heads: seq<int>,
                    lists: seq<seq<int>>, bin: map<int, int>, e: nat, lists': seq<seq<int>>, bin': map<int, int>)
    requires s.Bent? && Linked(s.fwd, s.bwd, order, free, heads, lists, bin, e) && Bends(s, fwd, bwd) && s.p in bin
    requires s.q >= 0 && Good(fwd, bwd, heads, lists', bin')
    ensures s.q in bin' && bin'[s.q] == bin[s.p]
  {
    var j := bin[s.p];
    Neighbours(s.fwd, s.bwd, heads, lists, bin, s.p, j);
    assert Chain(s.fwd, s.bwd, NIL, heads[j], lists[j]);
    assert Chain(fwd, bwd, NIL, heads[j], lists'[j]);
    Leads(s.fwd, s.bwd, NIL, fwd, bwd, NIL, heads[j], lists[j], lists'[j], s.p, s.q);
  }

  /** If the links still bend when merging has ended, no lists have them that hold each free block of
      the region and nothing else, each in the list of its size. */
  lemma NoLists(s: Shape, fwd: seq<int>, bwd: seq<int>, order: seq<nat>, free: seq<bool>, heads: seq<int>,
                lists: seq<seq<int>>, bin: map<int, int>, e: nat, k: nat, lists': seq<seq<int>>, bin': map<int, int>)
    requires Shaped(s, fwd, bwd, order, free, heads, lists, bin, e, k) && s.Bent? && e < |order| && order[e] == k
    requires forall x | x in bin' && e <= x < e + Pow2(k) :: x == e
    ensures !Linked(fwd, bwd, order, free, heads, lists', bin', NIL)
  {
    hide Good;
    if Linked(fwd, bwd, order, free, heads, lists', bin', NIL) {
      if Cut(s) {
        StillCut(s, fwd, bwd, order, free, heads, lists, bin, e, lists', bin');
      } else {
        StillBroken(s, fwd, bwd, order, free, heads, lists, bin, e, lists', bin');
      }
    }
  }
}
