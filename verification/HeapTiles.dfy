/** The chunks of the kernel heap as they lie in memory. Addresses count 32-byte granules from
    the heap's base; every chunk starts with a header of one granule. */
module HeapTiles {

  /** A size field: the size, and the in-use flag kept in its lowest bit. */
  datatype Word = Word(granules: nat, inUse: bool)

  const ZERO := Word(0, false)

  /** The chunks starting at `l` tile `at` up to `end`, each header's `prev` repeating the size
      field of the chunk before it; `before` and `last` are the size fields around the stretch. */
  ghost predicate Tiled(size: seq<Word>, prev: seq<Word>, at: nat, before: Word, l: seq<nat>, end: nat, last: Word)
    decreases l
  {
    if l == [] then at == end && before == last
    else
      && l[0] == at < |size| && at < |prev| && prev[at] == before && size[at].granules > 0
      && Tiled(size, prev, at + size[at].granules, size[at], l[1..], end, last)
  }

  function IsFree(size: seq<Word>, h: nat): bool {
    h < |size| && !size[h].inUse
  }

  /** No two neighbours of `l` are free, nor the first one if what comes before it is. */
  ghost predicate Spaced(size: seq<Word>, afterFree: bool, l: seq<nat>)
    decreases l
  {
    l != [] ==> !(afterFree && IsFree(size, l[0])) && Spaced(size, IsFree(size, l[0]), l[1..])
  }

  /** Whether the last chunk of `l` is free. */
  function LastFree(size: seq<Word>, afterFree: bool, l: seq<nat>): bool {
    if l == [] then afterFree else IsFree(size, l[|l| - 1])
  }

  lemma {:induction false} TiledBounds(size: seq<Word>, prev: seq<Word>, at: nat, before: Word, l: seq<nat>, end: nat,
                                       last: Word)
    requires Tiled(size, prev, at, before, l, end, last)
    ensures at <= end && (at == end ==> l == [])
    ensures forall h | h in l ::
              at <= h < end && h < |size| && h < |prev| && 0 < size[h].granules && h + size[h].granules <= end
    decreases l
  {
    if l != [] {
      TiledBounds(size, prev, at + size[at].granules, size[at], l[1..], end, last);
    }
  }

  /** Chunks do not overlap. */
  lemma {:induction false} TiledApart(size: seq<Word>, prev: seq<Word>, at: nat, before: Word, l: seq<nat>, end: nat,
                                      last: Word,
                                      h: nat, k: nat)
    requires Tiled(size, prev, at, before, l, end, last)
    requires h in l && k in l && h < k
    ensures h < |size| && h + size[h].granules <= k
    decreases l
  {
    TiledBounds(size, prev, at, before, l, end, last);
    TiledBounds(size, prev, at + size[at].granules, size[at], l[1..], end, last);
    if l[0] != h {
      TiledApart(size, prev, at + size[at].granules, size[at], l[1..], end, last, h, k);
    }
  }

  lemma {:induction false} TiledFrame(size: seq<Word>, prev: seq<Word>, size': seq<Word>, prev': seq<Word>,
                                      at: nat, before: Word, l: seq<nat>, end: nat, last: Word)
    requires Tiled(size, prev, at, before, l, end, last)
    requires forall h | h in l && h < |size| && h < |prev| ::
      h < |size'| && h < |prev'| && size'[h] == size[h] && prev'[h] == prev[h]
    ensures Tiled(size', prev', at, before, l, end, last)
    decreases l
  {
    if l != [] {
      assert forall h | h in l[1..] :: h in l;
      TiledFrame(size, prev, size', prev', at + size[at].granules, size[at], l[1..], end, last);
    }
  }

  /** A tiled stretch can be cut at any chunk boundary, and two that meet can be joined. */
  lemma {:induction false} TiledJoin(size: seq<Word>, prev: seq<Word>, at: nat, before: Word, l: seq<nat>, mid: nat,
                                     w: Word,
                                     r: seq<nat>, end: nat, last: Word)
    requires Tiled(size, prev, at, before, l, mid, w) && Tiled(size, prev, mid, w, r, end, last)
    ensures Tiled(size, prev, at, before, l + r, end, last)
    decreases l
  {
    if l == [] {
      assert l + r == r;
    } else {
      TiledJoin(size, prev, at + size[at].granules, size[at], l[1..], mid, w, r, end, last);
      assert (l + r)[1..] == l[1..] + r;
    }
  }

  lemma {:induction false} TiledCut(size: seq<Word>, prev: seq<Word>, at: nat, before: Word, l: seq<nat>, r: seq<nat>,
                                    end: nat, last: Word)
    returns (mid: nat, w: Word)
    requires Tiled(size, prev, at, before, l + r, end, last)
    ensures Tiled(size, prev, at, before, l, mid, w) && Tiled(size, prev, mid, w, r, end, last)
    decreases l
  {
    if l == [] {
      assert l + r == r;
      mid, w := at, before;
    } else {
      assert (l + r)[1..] == l[1..] + r;
      mid, w := TiledCut(size, prev, at + size[at].granules, size[at], l[1..], r, end, last);
    }
  }

  lemma {:induction false} SpacedFrame(size: seq<Word>, size': seq<Word>, afterFree: bool, l: seq<nat>)
    requires forall h | h in l :: IsFree(size', h) == IsFree(size, h)
    ensures Spaced(size, afterFree, l) == Spaced(size', afterFree, l)
    ensures LastFree(size, afterFree, l) == LastFree(size', afterFree, l)
    decreases l
  {
    if l != [] {
      assert forall h | h in l[1..] :: h in l;
      SpacedFrame(size, size', IsFree(size, l[0]), l[1..]);
    }
  }

  lemma {:induction false} SpacedJoin(size: seq<Word>, afterFree: bool, l: seq<nat>, r: seq<nat>)
    ensures Spaced(size, afterFree, l + r) <==>
      Spaced(size, afterFree, l) && Spaced(size, LastFree(size, afterFree, l), r)
    ensures LastFree(size, afterFree, l + r) == LastFree(size, LastFree(size, afterFree, l), r)
    decreases l
  {
    if l == [] {
      assert l + r == r;
    } else {
      assert (l + r)[1..] == l[1..] + r;
      SpacedJoin(size, IsFree(size, l[0]), l[1..], r);
    }
  }

  /** The chunks `l` tile the heap from its base to the top chunk, whose header records the last of them. */
  ghost predicate Tiling(size: seq<Word>, prev: seq<Word>, l: seq<nat>, top: nat) {
    top < |prev| && Tiled(size, prev, 0, ZERO, l, top, prev[top])
  }

  /** Replacing the chunks that fill `e` up to `z` by others that fill it. */
  lemma FrameBelow(size: seq<Word>, prev: seq<Word>, size': seq<Word>, prev': seq<Word>, l: seq<nat>, e: nat,
                   last: Word)
    requires Tiled(size, prev, 0, ZERO, l, e, last)
    requires e <= |size| && e <= |prev| && e <= |size'| && e <= |prev'|
    requires size'[..e] == size[..e] && prev'[..e] == prev[..e]
    ensures Tiled(size', prev', 0, ZERO, l, e, last)
  {
    TiledBounds(size, prev, 0, ZERO, l, e, last);
    forall h | h in l && h < |size| && h < |prev|
      ensures h < |size'| && h < |prev'| && size'[h] == size[h] && prev'[h] == prev[h]
    {
      assert size[..e][h] == size[h] && prev[..e][h] == prev[h] && size'[..e][h] == size'[h] &&
             prev'[..e][h] == prev'[h];
    }
    TiledFrame(size, prev, size', prev', 0, ZERO, l, e, last);
  }

  /** The stretch from `z` on, when the chunk before it changed. */
  lemma FrameAbove(size: seq<Word>, prev: seq<Word>, size': seq<Word>, prev': seq<Word>, z: nat, w: Word, l: seq<nat>,
                   top: nat)
    requires top < |prev| == |prev'| && |size| == |size'| && z <= |size| && z < |prev|
    requires Tiled(size, prev, z, w, l, top, prev[top])
    requires size'[z..] == size[z..] && prev'[z + 1..] == prev[z + 1..]
    ensures Tiled(size', prev', z, prev'[z], l, top, prev'[top])
  {
    TiledBounds(size, prev, z, w, l, top, prev[top]);
    assert forall h | z <= h < |size| :: size'[h] == size'[z..][h - z] == size[h];
    assert forall h | z + 1 <= h < |prev| :: prev'[h] == prev'[z + 1..][h - z - 1] == prev[h];
    if l != [] {
      var n := z + size[z].granules;
      TiledBounds(size, prev, n, size[z], l[1..], top, prev[top]);
      TiledFrame(size, prev, size', prev', n, size[z], l[1..], top, prev[top]);
    }
  }

  /** Replacing the chunks that fill `e` up to `z` by others that fill it. */
  lemma Retile(size: seq<Word>, prev: seq<Word>, size': seq<Word>, prev': seq<Word>,
               l1: seq<nat>, mid: seq<nat>, mid': seq<nat>, l2: seq<nat>, top: nat, e: nat, z: nat)
    requires Tiling(size, prev, l1 + (mid + l2), top) && |size'| == |size| == |prev'| == |prev|
    requires e < |prev| && z < |prev| && mid != [] && mid[0] == e && Fills(size, e, mid, z)
    requires size'[..e] == size[..e] && prev'[..e] == prev[..e]
    requires size'[z..] == size[z..] && prev'[z + 1..] == prev[z + 1..]
    requires Tiled(size', prev', e, prev[e], mid', z, prev'[z])
    ensures Tiling(size', prev', l1 + (mid' + l2), top)
  {
    var w2 := CutAround(size, prev, l1, mid, l2, top, e, z);
    FrameBelow(size, prev, size', prev', l1, e, prev[e]);
    FrameAbove(size, prev, size', prev', z, w2, l2, top);
    TiledJoin(size', prev', e, prev[e], mid', z, prev'[z], l2, top, prev'[top]);
    TiledJoin(size', prev', 0, ZERO, l1, e, prev[e], mid' + l2, top, prev'[top]);
  }

  lemma CutAround(size: seq<Word>, prev: seq<Word>, l1: seq<nat>, mid: seq<nat>, l2: seq<nat>, top: nat, e: nat, z: nat)
    returns (w2: Word)
    requires Tiling(size, prev, l1 + (mid + l2), top)
    requires e < |prev| && mid != [] && mid[0] == e && Fills(size, e, mid, z)
    ensures Tiled(size, prev, 0, ZERO, l1, e, prev[e]) && Tiled(size, prev, e, prev[e], mid, z, w2)
    ensures Tiled(size, prev, z, w2, l2, top, prev[top])
  {
    var a, w := TiledCut(size, prev, 0, ZERO, l1, mid + l2, top, prev[top]);
    assert (mid + l2)[0] == e;
    var b;
    b, w2 := TiledCut(size, prev, e, prev[e], mid, l2, top, prev[top]);
    FillsEnd(size, prev, e, prev[e], mid, b, w2, z);
  }

  /** The chunks `l` follow one another from `at` to `end`. */
  ghost predicate Fills(size: seq<Word>, at: nat, l: seq<nat>, end: nat)
    decreases l
  {
    if l == [] then at == end
    else l[0] == at < |size| && Fills(size, at + size[at].granules, l[1..], end)
  }

  lemma {:induction false} FillsEnd(size: seq<Word>, prev: seq<Word>, at: nat, before: Word, l: seq<nat>, end: nat,
                                    last: Word, z: nat)
    requires Tiled(size, prev, at, before, l, end, last) && Fills(size, at, l, z)
    ensures z == end
    decreases l
  {
    if l != [] {
      FillsEnd(size, prev, at + size[at].granules, size[at], l[1..], end, last, z);
    }
  }

  /** A chunk starts where another ends, or the top does; and a free chunk before it is found
      through `prev`. */
  lemma Place(size: seq<Word>, prev: seq<Word>, l1: seq<nat>, e: nat, l2: seq<nat>, top: nat)
    requires Tiling(size, prev, l1 + ([e] + l2), top)
    ensures e < |size| && e < |prev| && size[e].granules > 0
    ensures var z := e + size[e].granules;
      z <= top && (if l2 == [] then z == top else z == l2[0]) && prev[z] == size[e]
    ensures if l1 == [] then e == 0 && prev[e] == ZERO
            else var p := l1[|l1| - 1];
                      p < |size| && p + size[p].granules == e && prev[e] == size[p] && size[p].granules > 0
    ensures (forall h | h in l1 :: h < e) && (forall h | h in l2 :: e + size[e].granules <= h < top) && e < top
  {
    var a, w := TiledCut(size, prev, 0, ZERO, l1, [e] + l2, top, prev[top]);
    assert ([e] + l2)[1..] == l2;
    TiledBounds(size, prev, 0, ZERO, l1, e, w);
    TiledBounds(size, prev, e, w, [e] + l2, top, prev[top]);
    TiledBounds(size, prev, e + size[e].granules, size[e], l2, top, prev[top]);
    LastOf(size, prev, 0, ZERO, l1, e, w);
  }

  lemma {:induction false} LastOf(size: seq<Word>, prev: seq<Word>, at: nat, before: Word, l: seq<nat>, end: nat,
                                  last: Word)
    requires Tiled(size, prev, at, before, l, end, last)
    ensures if l == [] then at == end && before == last
            else var p := l[|l| - 1]; p < |size| && p + size[p].granules == end && last == size[p] && last.granules > 0
    decreases l
  {
    if l != [] {
      LastOf(size, prev, at + size[at].granules, size[at], l[1..], end, last);
    }
  }

  // ------------------------------------------------ what the operations do

  /** The chunks in use, with their sizes. */
  ghost function Live(size: seq<Word>, l: seq<nat>): map<nat, nat> {
    assert var w := map h | h in l && h < |size| && size[h].inUse :: size[h].granules; LiveIs(size, l, w);
    var m: map<nat, nat> :| LiveIs(size, l, m);
    m
  }

  ghost predicate LiveIs(size: seq<Word>, l: seq<nat>, m: map<nat, nat>) {
    && (forall h: nat :: h in m <==> h in l && h < |size| && size[h].inUse)
    && (forall h | h in m :: h < |size| && m[h] == size[h].granules)
  }

  /** Taking a chunk off the start of the top chunk. */
  lemma CarveTop(size: seq<Word>, prev: seq<Word>, l: seq<nat>, top: nat, n: nat)
    requires Tiling(size, prev, l, top) && |size| == |prev| && 0 < n && top + n < |size|
    ensures var size', prev' := size[top := Word(n, true)][top + n := Word(|size| - top - n, false)],
            prev[top + n := Word(n, true)];
      && Tiling(size', prev', l + [top], top + n)
      && Live(size', l + [top]) == Live(size, l)[top := n]
      && (Spaced(size, false, l) ==> Spaced(size', false, l + [top]))
      && !LastFree(size', false, l + [top])
  {
    var size', prev' := size[top := Word(n, true)][top + n := Word(|size| - top - n, false)],
      prev[top + n := Word(n, true)];
    TiledBounds(size, prev, 0, ZERO, l, top, prev[top]);
    TiledFrame(size, prev, size', prev', 0, ZERO, l, top, prev[top]);
    assert Tiled(size', prev', top, prev[top], [top], top + n, prev'[top + n]);
    TiledJoin(size', prev', 0, ZERO, l, top, prev[top], [top], top + n, prev'[top + n]);
    SpacedFrame(size, size', false, l);
    SpacedJoin(size', false, l, [top]);
    assert (l + [top])[|l|] == top;
  }

  lemma PiecesOf(l1: seq<nat>, mid: seq<nat>, l2: seq<nat>)
    ensures forall h :: h in l1 + (mid + l2) <==> h in l1 || h in mid || h in l2
  {
  }

  /** Cutting a free chunk in two: the first part goes into use. */
  lemma CarveFree(size: seq<Word>, prev: seq<Word>, l1: seq<nat>, e: nat, l2: seq<nat>, top: nat, n: nat)
    requires Tiling(size, prev, l1 + ([e] + l2), top) && |size| == |prev|
    requires IsFree(size, e) && 0 < n < size[e].granules
    ensures var g, r := size[e].granules, size[e].granules - n;
      && e + g <= top < |prev|
      && var size', prev' := size[e := Word(n, true)][e + n := Word(r, false)],
         prev[e + n := Word(n, true)][e + g := Word(r, false)];
      && Tiling(size', prev', l1 + ([e, e + n] + l2), top)
      && Live(size', l1 + ([e, e + n] + l2)) == Live(size, l1 + ([e] + l2))[e := n]
  {
    var g, r := size[e].granules, size[e].granules - n;
    Place(size, prev, l1, e, l2, top);
    var size', prev' := size[e := Word(n, true)][e + n := Word(r, false)],
      prev[e + n := Word(n, true)][e + g := Word(r, false)];
    assert [e, e + n][1..] == [e + n];
    assert Tiled(size', prev', e + n, Word(n, true), [e + n], e + g, Word(r, false));
    Retile(size, prev, size', prev', l1, [e], [e, e + n], l2, top, e, e + g);
    PiecesOf(l1, [e], l2);
    PiecesOf(l1, [e, e + n], l2);
  }

  /** Setting or clearing the in-use flag of a chunk, in its header and in the next one. */
  lemma Reflag(size: seq<Word>, prev: seq<Word>, l1: seq<nat>, e: nat, l2: seq<nat>, top: nat, inUse: bool)
    requires Tiling(size, prev, l1 + ([e] + l2), top) && |size| == |prev|
    ensures e < |size| && e + size[e].granules <= top < |prev|
    ensures var w := Word(size[e].granules, inUse);
      && Tiling(size[e := w], prev[e + w.granules := w], l1 + ([e] + l2), top)
      && Live(size[e := w], l1 + ([e] + l2)) ==
         if inUse then Live(size, l1 + ([e] + l2))[e := w.granules] else Live(size, l1 + ([e] + l2)) - {e}
  {
    Place(size, prev, l1, e, l2, top);
    var w := Word(size[e].granules, inUse);
    var size', prev' := size[e := w], prev[e + w.granules := w];
    assert Tiled(size', prev', e, prev[e], [e], e + w.granules, w);
    Retile(size, prev, size', prev', l1, [e], [e], l2, top, e, e + w.granules);
    PiecesOf(l1, [e], l2);
  }

  /** A free chunk absorbing the free chunk after it. */
  lemma JoinTwo(size: seq<Word>, prev: seq<Word>, l1: seq<nat>, a: nat, b: nat, l2: seq<nat>, top: nat)
    requires Tiling(size, prev, l1 + ([a] + ([b] + l2)), top) && |size| == |prev|
    requires IsFree(size, a) && IsFree(size, b)
    ensures b == a + size[a].granules && b + size[b].granules <= top < |prev| && b != top
    ensures b !in l1 && b !in l2 && a != b && size[b].granules > 0
    ensures var w, z := Word(size[a].granules + size[b].granules, false), b + size[b].granules;
      && Tiling(size[a := w], prev[z := w], l1 + ([a] + l2), top)
      && Live(size[a := w], l1 + ([a] + l2)) == Live(size, l1 + ([a] + ([b] + l2)))
  {
    Place(size, prev, l1, a, [b] + l2, top);
    Regroup2(l1, a, b, l2);
    Place(size, prev, l1 + [a], b, l2, top);
    assert (l1 + [a])[|l1|] == a;
    var w, z := Word(size[a].granules + size[b].granules, false), b + size[b].granules;
    var size', prev' := size[a := w], prev[z := w];
    assert a in l1 + [a];
    assert [a, b][1..] == [b] && [a, b] + l2 == [a] + ([b] + l2);
    assert Fills(size, b, [b], z);
    Retile(size, prev, size', prev', l1, [a, b], [a], l2, top, a, z);
    PiecesOf(l1, [a], l2);
    PiecesOf(l1, [a, b], l2);
  }

  lemma Regroup2(l1: seq<nat>, a: nat, b: nat, l2: seq<nat>)
    ensures l1 + ([a] + ([b] + l2)) == (l1 + [a]) + ([b] + l2)
  {
  }

  /** A free chunk absorbing the top chunk, and becoming it. */
  lemma JoinTop(size: seq<Word>, prev: seq<Word>, l1: seq<nat>, a: nat, top: nat)
    requires Tiling(size, prev, l1 + ([a] + []), top) && |size| == |prev| && IsFree(size, a) && top < |size|
    ensures top == a + size[a].granules && a < top
    ensures var w := Word(size[a].granules + size[top].granules, false);
      && Tiling(size[a := w], prev, l1, a)
      && Live(size[a := w], l1) == Live(size, l1 + ([a] + []))
  {
    Place(size, prev, l1, a, [], top);
    var w := Word(size[a].granules + size[top].granules, false);
    var at, last := TiledCut(size, prev, 0, ZERO, l1, [a] + [], top, prev[top]);
    TiledFrame(size, prev, size[a := w], prev, 0, ZERO, l1, a, prev[a]);
    PiecesOf(l1, [a], []);
  }

  /** Header fields that belong to no chunk do not matter. */
  lemma Stale(size: seq<Word>, prev: seq<Word>, l: seq<nat>, top: nat, z: nat, w: Word)
    requires z < |prev| && Tiling(size, prev[z := w], l, top) && z !in l && z != top
    ensures Tiling(size, prev, l, top)
  {
    TiledFrame(size, prev[z := w], size, prev, 0, ZERO, l, top, prev[top]);
  }

  /** Everything around one chunk is coalesced. */
  ghost predicate Around(size: seq<Word>, l1: seq<nat>, l2: seq<nat>) {
    Spaced(size, false, l1) && Spaced(size, false, l2) && !LastFree(size, false, l2)
  }

  ghost predicate AllSpaced(size: seq<Word>, l: seq<nat>) {
    Spaced(size, false, l) && !LastFree(size, false, l)
  }

  lemma SpacedAround(size: seq<Word>, l1: seq<nat>, e: nat, l2: seq<nat>)
    ensures AllSpaced(size, l1 + ([e] + l2)) && !IsFree(size, e) ==> Around(size, l1, l2)
    ensures AllSpaced(size, l1 + ([e] + l2)) && IsFree(size, e) ==>
      Around(size, l1, l2) && !LastFree(size, false, l1) && l2 != [] && !IsFree(size, l2[0])
    ensures Around(size, l1, l2) && !IsFree(size, e) ==> AllSpaced(size, l1 + ([e] + l2))
    ensures Around(size, l1, l2) && !LastFree(size, false, l1) && l2 != [] && !IsFree(size, l2[0]) ==>
      AllSpaced(size, l1 + ([e] + l2))
  {
    SpacedJoin(size, false, l1, [e] + l2);
    assert ([e] + l2)[1..] == l2 && ([e] + l2)[0] == e;
    SpacedJoin(size, LastFree(size, false, l1), [e], l2);
    assert [e][1..] == [];
    if l2 != [] {
      assert l2[0] == ([e] + l2)[1];
    }
  }

  lemma AroundFrame(size: seq<Word>, size': seq<Word>, l1: seq<nat>, l2: seq<nat>)
    requires forall h | h in l1 || h in l2 :: IsFree(size', h) == IsFree(size, h)
    ensures Around(size', l1, l2) == Around(size, l1, l2)
    ensures LastFree(size', false, l1) == LastFree(size, false, l1)
  {
    SpacedFrame(size, size', false, l1);
    SpacedFrame(size, size', false, l2);
  }

  /** A chunk in use followed by a free one, in the place of a free one. */
  lemma CarvedSpaced(size: seq<Word>, l1: seq<nat>, e: nat, m: nat, l2: seq<nat>)
    requires Around(size, l1, l2) && !IsFree(size, e) && l2 != [] && !IsFree(size, l2[0])
    ensures AllSpaced(size, l1 + ([e, m] + l2))
  {
    SpacedJoin(size, false, l1, [e]);
    assert (l1 + [e])[|l1|] == e;
    SpacedAround(size, l1 + [e], m, l2);
    assert (l1 + [e]) + ([m] + l2) == l1 + ([e, m] + l2);
  }
}
