/** Arrays of intrusive doubly linked free lists, as both allocators keep them: every entry
    holds its own links, and an array holds the head of each list. Entries are indices. */
module FreeLists {

  /** The null pointer. */
  const NIL := -1

  /** The entries of `l`, in order and without repetition, are chained from `head` through both
      links; the first one's back link is `prev`. */
  ghost predicate Chain(fwd: seq<int>, bwd: seq<int>, prev: int, head: int, l: seq<int>)
    requires |fwd| == |bwd|
    decreases l
  {
    if l == [] then head == NIL
    else
      && head == l[0] && 0 <= l[0] < |fwd| && bwd[l[0]] == prev && l[0] !in l[1..]
      && Chain(fwd, bwd, l[0], fwd[l[0]], l[1..])
  }

  /** `lists[b]` is the list of head `b`, and `bin` names the list of every listed entry. */
  ghost predicate Good(fwd: seq<int>, bwd: seq<int>, heads: seq<int>, lists: seq<seq<int>>, bin: map<int, int>) {
    && |fwd| == |bwd| && |lists| == |heads|
    && (forall b | 0 <= b < |lists| :: Chain(fwd, bwd, NIL, heads[b], lists[b]))
    && Binned(lists, bin)
  }

  ghost predicate Binned(lists: seq<seq<int>>, bin: map<int, int>) {
    && (forall b, e | 0 <= b < |lists| && e in lists[b] :: e in bin && bin[e] == b)
    && (forall e | e in bin :: 0 <= e && 0 <= bin[e] < |lists| && e in lists[bin[e]])
  }

  /** Writing links of entries that are not in a list leaves it chained. */
  lemma {:induction false} ChainFrame(fwd: seq<int>, bwd: seq<int>, fwd': seq<int>, bwd': seq<int>, prev: int,
                                      head: int, l: seq<int>)
    requires |fwd| == |bwd| && |fwd'| == |bwd'| >= |fwd|
    requires Chain(fwd, bwd, prev, head, l)
    requires forall e | e in l && 0 <= e < |fwd| :: fwd'[e] == fwd[e] && bwd'[e] == bwd[e]
    ensures Chain(fwd', bwd', prev, head, l)
    decreases l
  {
    if l != [] {
      ChainFrame(fwd, bwd, fwd', bwd', l[0], fwd[l[0]], l[1..]);
    }
  }

  /** A listed entry is an index, and its links are indices or null. */
  lemma {:induction false} ChainLinks(fwd: seq<int>, bwd: seq<int>, prev: int, head: int, l: seq<int>, e: int)
    requires |fwd| == |bwd| && Chain(fwd, bwd, prev, head, l) && e in l
    ensures 0 <= e < |fwd|
    ensures fwd[e] == NIL || (0 <= fwd[e] < |fwd| && fwd[e] in l && fwd[e] != e)
    ensures bwd[e] == prev || (0 <= bwd[e] < |fwd| && bwd[e] in l && bwd[e] != e)
    ensures head == e ==> bwd[e] == prev
    ensures head != e ==> bwd[e] in l
    decreases l
  {
    if l[0] != e {
      ChainLinks(fwd, bwd, l[0], fwd[l[0]], l[1..], e);
    } else if l[1..] != [] {
      assert l[1] in l[1..];
    }
  }

  lemma {:induction false} ChainBounds(fwd: seq<int>, bwd: seq<int>, prev: int, head: int, l: seq<int>)
    requires |fwd| == |bwd| && Chain(fwd, bwd, prev, head, l)
    ensures forall e | e in l :: 0 <= e < |fwd|
  {
    forall e | e in l
      ensures 0 <= e < |fwd|
    {
      ChainLinks(fwd, bwd, prev, head, l, e);
    }
  }

  // ------------------------------------------------------------------ push

  function PushBwd(bwd: seq<int>, head: int, e: int): seq<int> {
    if 0 <= head < |bwd| then bwd[head := e] else bwd
  }

  lemma PushChain(fwd: seq<int>, bwd: seq<int>, head: int, l: seq<int>, e: int)
    requires |fwd| == |bwd| && Chain(fwd, bwd, NIL, head, l) && 0 <= e < |fwd| && e !in l && bwd[e] == NIL
    ensures Chain(fwd[e := head], PushBwd(bwd, head, e), NIL, e, [e] + l)
  {
    var fwd', bwd' := fwd[e := head], PushBwd(bwd, head, e);
    assert ([e] + l)[1..] == l;
    if l != [] {
      ChainFrame(fwd, bwd, fwd', bwd', l[0], fwd[l[0]], l[1..]);
      assert Chain(fwd', bwd', e, head, l);
    }
  }

  /** Pushing an entry with no back link puts it first in its list and changes no other. */
  lemma PushGood(fwd: seq<int>, bwd: seq<int>, heads: seq<int>, lists: seq<seq<int>>, bin: map<int, int>, b: int,
                 e: int)
    requires Good(fwd, bwd, heads, lists, bin) && 0 <= b < |lists|
    requires 0 <= e < |fwd| && e !in bin && bwd[e] == NIL
    ensures NIL <= heads[b] < |bwd|
    ensures Good(fwd[e := heads[b]], PushBwd(bwd, heads[b], e), heads[b := e], lists[b := [e] + lists[b]], bin[e := b])
  {
    var fwd', bwd' := fwd[e := heads[b]], PushBwd(bwd, heads[b], e);
    assert Chain(fwd, bwd, NIL, heads[b], lists[b]);
    PushChain(fwd, bwd, heads[b], lists[b], e);
    forall c | 0 <= c < |lists| && c != b
      ensures Chain(fwd', bwd', NIL, heads[c], lists[c])
    {
      assert lists[b] != [] ==> lists[b][0] in lists[b] && bin[lists[b][0]] == b;
      assert forall x | x in lists[c] :: x in bin && bin[x] == c;
      ChainFrame(fwd, bwd, fwd', bwd', NIL, heads[c], lists[c]);
    }
  }

  // ---------------------------------------------------------------- remove

  /** The links after `e` is taken out of its list. */
  function RemoveFwd(fwd: seq<int>, bwd: seq<int>, e: int): seq<int>
    requires 0 <= e < |fwd| == |bwd|
  {
    (if 0 <= bwd[e] < |fwd| then fwd[bwd[e] := fwd[e]] else fwd)[e := NIL]
  }

  function RemoveBwd(fwd: seq<int>, bwd: seq<int>, e: int): seq<int>
    requires 0 <= e < |fwd| == |bwd|
  {
    (if 0 <= fwd[e] < |bwd| then bwd[fwd[e] := bwd[e]] else bwd)[e := NIL]
  }

  function Minus(l: seq<int>, e: int): (r: seq<int>)
    ensures forall x | x in r :: x in l
  {
    if l == [] then [] else if l[0] == e then l[1..] else [l[0]] + Minus(l[1..], e)
  }

  /** All lists without `e`. */
  function Unlisted(lists: seq<seq<int>>, e: int): (r: seq<seq<int>>)
    ensures |r| == |lists| && forall b | 0 <= b < |lists| :: r[b] == Minus(lists[b], e)
  {
    seq(|lists|, b requires 0 <= b < |lists| => Minus(lists[b], e))
  }

  lemma {:induction false} MinusNone(l: seq<int>, e: int)
    requires e !in l
    ensures Minus(l, e) == l
  {
    if l != [] {
      MinusNone(l[1..], e);
    }
  }

  /** An entry is in one list at most. */
  lemma UnlistedIs(lists: seq<seq<int>>, bin: map<int, int>, e: int)
    requires Binned(lists, bin)
    ensures Unlisted(lists, e) == if e in bin then lists[bin[e] := Minus(lists[bin[e]], e)] else lists
  {
    forall b | 0 <= b < |lists| && !(e in bin && b == bin[e])
      ensures Minus(lists[b], e) == lists[b]
    {
      MinusNone(lists[b], e);
    }
  }

  lemma {:induction false} MinusMembers(l: seq<int>, e: int, fwd: seq<int>, bwd: seq<int>, prev: int, head: int)
    requires |fwd| == |bwd| && Chain(fwd, bwd, prev, head, l)
    ensures forall x :: x in Minus(l, e) <==> x in l && x != e
  {
    if l != [] && l[0] != e {
      MinusMembers(l[1..], e, fwd, bwd, l[0], fwd[l[0]]);
    }
  }

  lemma {:induction false} RemoveChain(fwd: seq<int>, bwd: seq<int>, prev: int, head: int, l: seq<int>, e: int)
    requires |fwd| == |bwd| && Chain(fwd, bwd, prev, head, l) && e in l && prev !in l
    requires 0 <= e < |fwd|
    ensures Chain(RemoveFwd(fwd, bwd, e), RemoveBwd(fwd, bwd, e), prev, if head == e then fwd[e] else head, Minus(l, e))
    decreases l
  {
    var fwd', bwd', r := RemoveFwd(fwd, bwd, e), RemoveBwd(fwd, bwd, e), l[1..];
    if l[0] == e {
      if r != [] {
        assert r[0] in r;
        ChainFrame(fwd, bwd, fwd', bwd', r[0], fwd[r[0]], r[1..]);
      }
    } else {
      RemoveChain(fwd, bwd, l[0], fwd[l[0]], r, e);
      assert ([l[0]] + Minus(r, e))[1..] == Minus(r, e);
      ChainLinks(fwd, bwd, l[0], fwd[l[0]], r, e);
      assert fwd'[l[0]] == if fwd[l[0]] == e then fwd[e] else fwd[l[0]];
      assert bwd'[l[0]] == prev;
    }
  }

  /** Taking `e` out of its own list leaves the other lists alone. */
  lemma RemoveElsewhere(fwd: seq<int>, bwd: seq<int>, prev: int, head: int, l: seq<int>, e: int)
    requires |fwd| == |bwd| && Chain(fwd, bwd, prev, head, l)
    requires 0 <= e < |fwd| && e !in l
    requires (fwd[e] >= 0 ==> fwd[e] !in l) && (bwd[e] >= 0 ==> bwd[e] !in l)
    ensures Chain(RemoveFwd(fwd, bwd, e), RemoveBwd(fwd, bwd, e), prev, head, l)
  {
    ChainFrame(fwd, bwd, RemoveFwd(fwd, bwd, e), RemoveBwd(fwd, bwd, e), prev, head, l);
  }

  /** An entry's neighbours are in its list. */
  lemma Neighbours(fwd: seq<int>, bwd: seq<int>, heads: seq<int>, lists: seq<seq<int>>, bin: map<int, int>, e: int,
                   b: int)
    requires Good(fwd, bwd, heads, lists, bin) && e in bin && b == bin[e]
    ensures 0 <= b < |lists| && e in lists[b] && 0 <= e < |fwd| && NIL <= fwd[e] < |fwd| && NIL <= bwd[e] < |fwd|
    ensures fwd[e] >= 0 ==> fwd[e] in lists[b]
    ensures bwd[e] >= 0 ==> bwd[e] in lists[b]
    ensures heads[b] == e <==> bwd[e] == NIL
  {
    assert Chain(fwd, bwd, NIL, heads[b], lists[b]);
    assert forall x | x in lists[b] :: x in bin;
    ChainLinks(fwd, bwd, NIL, heads[b], lists[b], e);
  }

  lemma Apart(lists: seq<seq<int>>, bin: map<int, int>, b: int, c: int, x: int)
    requires Binned(lists, bin) && 0 <= b < |lists| && 0 <= c < |lists| && b != c && x in lists[b]
    ensures x !in lists[c]
  {
    var i :| 0 <= i < |lists[b]| && lists[b][i] == x;
    assert bin[lists[b][i]] == b;
  }

  lemma OthersKept(fwd: seq<int>, bwd: seq<int>, heads: seq<int>, lists: seq<seq<int>>, bin: map<int, int>, e: int,
                   c: int)
    requires Good(fwd, bwd, heads, lists, bin) && e in bin && 0 <= c < |lists| && c != bin[e]
    ensures 0 <= e < |fwd| && Chain(RemoveFwd(fwd, bwd, e), RemoveBwd(fwd, bwd, e), NIL, heads[c], lists[c])
  {
    var b := bin[e];
    Neighbours(fwd, bwd, heads, lists, bin, e, b);
    Apart(lists, bin, b, c, e);
    if fwd[e] >= 0 {
      Apart(lists, bin, b, c, fwd[e]);
    }
    if bwd[e] >= 0 {
      Apart(lists, bin, b, c, bwd[e]);
    }
    RemoveElsewhere(fwd, bwd, NIL, heads[c], lists[c], e);
  }

  lemma BinnedMinus(lists: seq<seq<int>>, bin: map<int, int>, e: int, l: seq<int>)
    requires Binned(lists, bin) && e in bin
    requires forall x :: x in l <==> x in lists[bin[e]] && x != e
    ensures Binned(lists[bin[e] := l], bin - {e})
  {
  }

  lemma OwnKept(fwd: seq<int>, bwd: seq<int>, heads: seq<int>, lists: seq<seq<int>>, bin: map<int, int>, e: int, b: int)
    requires Good(fwd, bwd, heads, lists, bin) && e in bin && b == bin[e]
    ensures 0 <= b < |lists| && 0 <= e < |fwd| && NIL <= fwd[e] < |fwd| && NIL <= bwd[e] < |fwd|
    ensures Chain(RemoveFwd(fwd, bwd, e), RemoveBwd(fwd, bwd, e), NIL, if heads[b] == e then fwd[e] else heads[b],
                  Minus(lists[b], e))
    ensures Binned(lists[b := Minus(lists[b], e)], bin - {e})
  {
    Neighbours(fwd, bwd, heads, lists, bin, e, b);
    assert Chain(fwd, bwd, NIL, heads[b], lists[b]);
    assert forall x | x in lists[b] :: x in bin;
    RemoveChain(fwd, bwd, NIL, heads[b], lists[b], e);
    MinusMembers(lists[b], e, fwd, bwd, NIL, heads[b]);
    BinnedMinus(lists, bin, e, Minus(lists[b], e));
  }

  /** Unlinking an entry takes it out of its list and changes no other. */
  lemma RemoveGood(fwd: seq<int>, bwd: seq<int>, heads: seq<int>, lists: seq<seq<int>>, bin: map<int, int>, e: int,
                   b: int)
    requires Good(fwd, bwd, heads, lists, bin) && e in bin && b == bin[e]
    ensures 0 <= b < |lists| && 0 <= e < |fwd| && NIL <= fwd[e] < |fwd| && NIL <= bwd[e] < |fwd|
    ensures Good(RemoveFwd(fwd, bwd, e), RemoveBwd(fwd, bwd, e),
                 heads[b := if heads[b] == e then fwd[e] else heads[b]], lists[b := Minus(lists[b], e)], bin - {e})
  {
    OwnKept(fwd, bwd, heads, lists, bin, e, b);
    var heads', lists' := heads[b := if heads[b] == e then fwd[e] else heads[b]], lists[b := Minus(lists[b], e)];
    forall c | 0 <= c < |lists'|
      ensures Chain(RemoveFwd(fwd, bwd, e), RemoveBwd(fwd, bwd, e), NIL, heads'[c], lists'[c])
    {
      if c != b {
        OthersKept(fwd, bwd, heads, lists, bin, e, c);
      }
    }
  }

  /** The head of a list is listed; an empty list has none. */
  lemma HeadListed(fwd: seq<int>, bwd: seq<int>, heads: seq<int>, lists: seq<seq<int>>, bin: map<int, int>, b: int)
    requires Good(fwd, bwd, heads, lists, bin) && 0 <= b < |lists|
    ensures heads[b] == NIL <==> lists[b] == []
    ensures heads[b] != NIL ==>
              0 <= heads[b] < |fwd| && heads[b] == lists[b][0] && heads[b] in bin && bin[heads[b]] == b
  {
    assert Chain(fwd, bwd, NIL, heads[b], lists[b]);
    assert lists[b] != [] ==> lists[b][0] in lists[b];
  }

  /** Entries that are not listed keep their links. */
  lemma RemoveKeeps(fwd: seq<int>, bwd: seq<int>, heads: seq<int>, lists: seq<seq<int>>, bin: map<int, int>, e: int,
                    h: int)
    requires Good(fwd, bwd, heads, lists, bin) && e in bin && 0 <= e < |fwd| && 0 <= h < |fwd| && h !in bin
    ensures RemoveFwd(fwd, bwd, e)[h] == fwd[h] && RemoveBwd(fwd, bwd, e)[h] == bwd[h]
  {
    var b := bin[e];
    Neighbours(fwd, bwd, heads, lists, bin, e, b);
    assert h !in lists[b];
  }

  /** The two links of neighbours mirror each other. */
  lemma {:induction false} ChainMirror(fwd: seq<int>, bwd: seq<int>, prev: int, head: int, l: seq<int>, e: int)
    requires |fwd| == |bwd| && Chain(fwd, bwd, prev, head, l) && e in l &&
             (0 <= prev ==> prev < |fwd| && fwd[prev] == head)
    ensures 0 <= e < |fwd| && (0 <= bwd[e] < |fwd| ==> fwd[bwd[e]] == e)
    decreases l
  {
    if l[0] != e {
      ChainMirror(fwd, bwd, l[0], fwd[l[0]], l[1..], e);
    }
  }

  /** More room for entries changes no list. */
  lemma GrowGood(fwd: seq<int>, bwd: seq<int>, more: seq<int>, heads: seq<int>, lists: seq<seq<int>>,
                 bin: map<int, int>)
    requires Good(fwd, bwd, heads, lists, bin)
    ensures Good(fwd + more, bwd + more, heads, lists, bin)
  {
    forall b | 0 <= b < |lists|
      ensures Chain(fwd + more, bwd + more, NIL, heads[b], lists[b])
    {
      ChainFrame(fwd, bwd, fwd + more, bwd + more, NIL, heads[b], lists[b]);
    }
  }

  /** Writing links of an entry that is not listed changes no list. */
  lemma WriteUnlisted(fwd: seq<int>, bwd: seq<int>, heads: seq<int>, lists: seq<seq<int>>, bin: map<int, int>, x: int,
                      f: int, b: int)
    requires Good(fwd, bwd, heads, lists, bin) && 0 <= x < |fwd| && x !in bin
    ensures Good(fwd[x := f], bwd[x := b], heads, lists, bin)
  {
    forall c | 0 <= c < |lists|
      ensures Chain(fwd[x := f], bwd[x := b], NIL, heads[c], lists[c])
    {
      assert x !in lists[c];
      ChainFrame(fwd, bwd, fwd[x := f], bwd[x := b], NIL, heads[c], lists[c]);
    }
  }
}
