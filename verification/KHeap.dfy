/** The kernel heap of sys/kheap.cpp: boundary-tagged chunks, segregated free lists with a
    bitmap, and a top chunk that requests fall back to. Addresses count 32-byte granules from
    the heap's base, so a header is one granule; memory is what the headers hold. */
module KHeap {
  import opened FreeLists
  import opened HeapBins
  import opened HeapTiles

  /** The index of the highest set bit. */
  function HighestBit(mask: set<nat>, below: nat): (b: nat)
    requires mask != {} && forall i | i in mask :: i < below
    ensures b in mask && forall i | i in mask :: i <= b
  {
    if below - 1 in mask then below - 1 else HighestBit(mask, below - 1)
  }

  /** Exactly the free chunks outside `out` are listed; all other chunks have null links. */
  ghost predicate Listed(l: seq<nat>, top: nat, size: seq<Word>, fwd: seq<int>, bwd: seq<int>, bin: map<int, int>,
                         out: set<nat>) {
    && (forall h: int | h in bin :: 0 <= h && h in l && h !in out && IsFree(size, h))
    && (forall h | h in l && h !in out && IsFree(size, h) :: h in bin)
    && (forall h | (h in l || h == top) && h < |fwd| && h < |bwd| && h !in bin :: fwd[h] == NIL && bwd[h] == NIL)
  }

  lemma ListedTop(l: seq<nat>, top: nat, size: seq<Word>, fwd: seq<int>, bwd: seq<int>, bin: map<int, int>, n: nat,
                  w: Word)
    requires Listed(l, top, size, fwd, bwd, bin, {}) && top !in l && top + n !in l && n > 0
    requires top + n < |size| == |fwd| == |bwd|
    ensures top !in bin && top + n !in bin
    ensures Listed(l + [top], top + n, size[top := Word(n, true)][top + n := w], fwd[top + n := NIL],
                   bwd[top + n := NIL], bin, {})
  {
    var size' := size[top := Word(n, true)][top + n := w];
    assert forall h | h in l :: h != top && h != top + n && IsFree(size', h) == IsFree(size, h);
  }

  lemma ListedCarve(l1: seq<nat>, e: nat, l2: seq<nat>, top: nat, size: seq<Word>, fwd: seq<int>, bwd: seq<int>,
                    bin: map<int, int>, n: nat, w: Word)
    requires Listed(l1 + ([e] + l2), top, size, fwd, bwd, bin, {e}) && !w.inUse
    requires e + n !in l1 + ([e] + l2) && e + n != top && e != top && n > 0 && e + n < |size| == |fwd| == |bwd|
    requires e !in l1 && e !in l2
    ensures e !in bin && e + n !in bin
    ensures Listed(l1 + ([e, e + n] + l2), top, size[e := Word(n, true)][e + n := w], fwd[e + n := NIL],
                   bwd[e + n := NIL], bin, {e + n})
  {
    var size' := size[e := Word(n, true)][e + n := w];
    PiecesOf(l1, [e], l2);
    PiecesOf(l1, [e, e + n], l2);
    assert forall h | h in l1 || h in l2 :: h != e && h != e + n && IsFree(size', h) == IsFree(size, h);
  }

  /** The headers agree on what precedes them, except at two places. */
  ghost predicate DifferAt(vp: seq<Word>, prev: seq<Word>, b: nat, z: nat) {
    |vp| == |prev| && forall h | 0 <= h < |prev| && h != b && h != z :: vp[h] == prev[h]
  }

  /** Unlinking a free chunk puts it outside the lists. */
  lemma ListedWithout(l: seq<nat>, top: nat, size: seq<Word>, fwd: seq<int>, bwd: seq<int>, fwd': seq<int>,
                      bwd': seq<int>,
                      bin: map<int, int>, out: set<nat>, p: nat)
    requires Listed(l, top, size, fwd, bwd, bin, out) && |fwd| == |bwd| == |fwd'| == |bwd'| && p < |fwd|
    requires fwd'[p] == NIL && bwd'[p] == NIL
    requires forall h | 0 <= h < |fwd| && h !in bin :: fwd'[h] == fwd[h] && bwd'[h] == bwd[h]
    ensures Listed(l, top, size, fwd', bwd', bin - {p}, out + {p})
  {
  }

  /** A chunk that is no longer listed absorbs another one. */
  lemma ListedJoin(l1: seq<nat>, a: nat, b: nat, l2: seq<nat>, top: nat, size: seq<Word>, fwd: seq<int>, bwd: seq<int>,
                   bin: map<int, int>, w: Word)
    requires Listed(l1 + ([a] + ([b] + l2)), top, size, fwd, bwd, bin, {a, b}) && a < |size|
    requires !w.inUse && IsFree(size, a) && b !in l1 && b !in l2 && a != b
    ensures Listed(l1 + ([a] + l2), top, size[a := w], fwd, bwd, bin, {a})
  {
    PiecesOf(l1, [a], [b] + l2);
    PiecesOf(l1, [a], l2);
    assert forall h :: h in [b] + l2 <==> h == b || h in l2;
  }

  /** ... or the top chunk, and becomes it. */
  lemma ListedJoinTop(l1: seq<nat>, a: nat, top: nat, size: seq<Word>, fwd: seq<int>, bwd: seq<int>,
                      bin: map<int, int>, w: Word)
    requires Listed(l1 + ([a] + []), top, size, fwd, bwd, bin, {a, top}) && a < |size| && a !in l1 && top !in l1
    ensures Listed(l1, a, size[a := w], fwd, bwd, bin, {})
  {
    PiecesOf(l1, [a], []);
    assert forall h | h in l1 :: h != a;
  }

  lemma OneFree(size: seq<Word>, prev: seq<Word>, l: seq<nat>, top: nat, h: nat)
    requires Tiling(size, prev, l, top) && AllSpaced(size, l) && 0 < h < top && Live(size, l) == map[h := top - h]
    ensures l == [0, h] && h < |size| && IsFree(size, 0) && size[0].granules == h && size[h].inUse
  {
    var m := Live(size, l);
    assert h in m && 0 !in m;
    assert h in l && h < |size| && size[h].inUse && size[h].granules == top - h;
    assert forall x: nat :: x in m <==> x == h;
    assert l[0] == 0;
    var b := size[0].granules;
    TiledBounds(size, prev, b, size[0], l[1..], top, prev[top]);
    assert h in l[1..];
    assert l[1] == l[1..][0] == b;
    assert Spaced(size, true, l[1..]);
    assert l[1] in l;
    assert b == h;
    assert Tiled(size, prev, top, size[h], l[1..][1..], top, prev[top]);
    TiledBounds(size, prev, top, size[h], l[1..][1..], top, prev[top]);
    var rest := l[1..][1..];
    assert l == [l[0]] + ([l[1]] + rest);
  }

  /** What a request got: nothing, a chunk of the heap, or a block of the page allocator. `Unserved`
      is one for which the heap grows for ever, or until it is no longer well formed. */
  datatype Allocation = Null | InHeap(chunk: nat) | FromPmm(bytes: nat) | Unserved

  /** What Verify reports. */
  datatype Report = Silent | PastTop | WrongPrevSize | LoopInList | TopListed | WrongSum

  /** Where a freed allocation went. */
  datatype Release = Ignored | ToHeap | ToPmm

  /** Doubling a heap of `h` bytes makes its top chunk, of `g` bytes, larger than `n`, never beyond
      `max`; `use` says how much memory is in use each time that growing is tried. */
  predicate Growable(h: nat, g: nat, n: nat, max: nat, use: seq<nat>)
    decreases use
  {
    n < g ||
    (use != [] &&
     if use[0] >= max then Growable(h, g, n, max, use[1..])
     else 2 * h <= max && 2 * h <= BITMAP_LIMIT && Growable(2 * h, g + h, n, max, use[1..]))
  }

  /** One growth of the heap. */
  function GrowStep(h: nat, g: nat, max: nat, inUse: nat): (nat, nat) {
    if inUse >= max then (h, g)
    else
      var h' := if 2 * h > max then max else 2 * h;
      (h', g + h' / 2)
  }

  /** It leaves a top chunk of whole granules that ends where the heap does, if and only if the heap
      does not grow or the limit does not clamp it. */
  lemma StepExact(h: nat, g: nat, max: nat, inUse: nat)
    requires 0 < h && h % GRANULE == 0 && g % GRANULE == 0
    ensures var s := GrowStep(h, g, max, inUse);
            s.1 % GRANULE == 0 && s.1 - g == s.0 - h <==> inUse >= max || 2 * h <= max
  {
    if inUse < max < 2 * h {
      if max / 2 == max - h {
        assert (g + h - 1) % GRANULE == GRANULE - 1;
      }
    }
  }

  function GrowSteps(h: nat, g: nat, max: nat, use: seq<nat>, k: nat): (nat, nat)
    requires k <= |use|
    decreases k
  {
    if k == 0 then (h, g)
    else
      var s := GrowStep(h, g, max, use[0]);
      GrowSteps(s.0, s.1, max, use[1..], k - 1)
  }

  /** The top chunk never grows by less than the heap. */
  lemma {:induction false} TopKeepsUp(h: nat, g: nat, max: nat, use: seq<nat>, k: nat)
    requires k <= |use|
    ensures var s := GrowSteps(h, g, max, use, k); s.1 - g >= s.0 - h
    ensures GrowSteps(h, g, max, use, k).1 >= g
    decreases k
  {
    if k > 0 {
      var s := GrowStep(h, g, max, use[0]);
      TopKeepsUp(s.0, s.1, max, use[1..], k - 1);
    }
  }

  /** Growing stops after `k` steps, and the top chunk is then whole granules and ends where the heap
      does. */
  ghost predicate StopsWell(h: nat, g: nat, n: nat, max: nat, use: seq<nat>, k: nat) {
    && k <= |use|
    && (forall j: nat | j < k :: GrowSteps(h, g, max, use, j).1 <= n)
    && var s := GrowSteps(h, g, max, use, k); n < s.1 && s.1 % GRANULE == 0 && s.1 - g == s.0 - h
  }

  /** Growing while the top chunk is too small ends, and the heap is then well formed, if and only if
      doublings that the limit does not clamp are enough. */
  lemma GrowthExact(h: nat, g: nat, n: nat, max: nat, use: seq<nat>)
    requires 0 < h && h % GRANULE == 0 && g % GRANULE == 0 && max <= BITMAP_LIMIT
    ensures Growable(h, g, n, max, use) <==> exists k: nat :: StopsWell(h, g, n, max, use, k)
  {
    if Growable(h, g, n, max, use) {
      var k := GrowthStops(h, g, n, max, use);
    }
    if k: nat :| StopsWell(h, g, n, max, use, k) {
      GrowthNeeds(h, g, n, max, use, k);
    }
  }

  lemma {:induction false} GrowthStops(h: nat, g: nat, n: nat, max: nat, use: seq<nat>) returns (k: nat)
    requires h % GRANULE == 0 && g % GRANULE == 0 && Growable(h, g, n, max, use)
    ensures StopsWell(h, g, n, max, use, k)
    decreases use
  {
    k := 0;
    if n >= g {
      var s := GrowStep(h, g, max, use[0]);
      k := GrowthStops(s.0, s.1, n, max, use[1..]);
      k := k + 1;
      StepFirst(h, g, n, max, use, k);
    }
  }

  lemma StepFirst(h: nat, g: nat, n: nat, max: nat, use: seq<nat>, k: nat)
    requires 0 < k <= |use| && g <= n
    ensures var s := GrowStep(h, g, max, use[0]);
            StopsWell(s.0, s.1, n, max, use[1..], k - 1) && s.1 - g == s.0 - h ==> StopsWell(h, g, n, max, use, k)
  {
    var s := GrowStep(h, g, max, use[0]);
    if StopsWell(s.0, s.1, n, max, use[1..], k - 1) {
      forall j: nat | j < k
        ensures GrowSteps(h, g, max, use, j).1 <= n
      {
        if j > 0 {
          assert GrowSteps(s.0, s.1, max, use[1..], j - 1).1 <= n;
        }
      }
    }
  }

  lemma {:induction false} GrowthNeeds(h: nat, g: nat, n: nat, max: nat, use: seq<nat>, k: nat)
    requires 0 < h && h % GRANULE == 0 && g % GRANULE == 0 && max <= BITMAP_LIMIT
    requires StopsWell(h, g, n, max, use, k)
    ensures Growable(h, g, n, max, use)
    decreases k
  {
    hide StopsWell, GrowSteps;
    RestStops(h, g, n, max, use, k);
    if k > 0 {
      var s := GrowStep(h, g, max, use[0]);
      if use[0] < max < 2 * h {
        ClampedBadly(h, g, max, use, k);
      } else {
        GrowthNeeds(s.0, s.1, n, max, use[1..], k - 1);
      }
    }
  }

  lemma RestStops(h: nat, g: nat, n: nat, max: nat, use: seq<nat>, k: nat)
    requires StopsWell(h, g, n, max, use, k)
    ensures k <= |use| && (k == 0 ==> n < g) && (k > 0 ==> g <= n)
    ensures k > 0 ==>
              var s := GrowStep(h, g, max, use[0]);
              s.1 - g == s.0 - h ==> StopsWell(s.0, s.1, n, max, use[1..], k - 1)
    ensures var s := GrowSteps(h, g, max, use, k); s.1 % GRANULE == 0 && s.1 - g == s.0 - h
  {
    if k > 0 {
      var s := GrowStep(h, g, max, use[0]);
      assert GrowSteps(h, g, max, use, 0).1 <= n;
      forall j: nat | j < k - 1
        ensures GrowSteps(s.0, s.1, max, use[1..], j).1 <= n
      {
        assert GrowSteps(h, g, max, use, j + 1).1 <= n;
      }
    }
  }

  /** At its limit a heap gets no larger. */
  lemma {:induction false} AtLimit(g: nat, max: nat, use: seq<nat>, k: nat)
    requires k <= |use|
    ensures GrowSteps(max, g, max, use, k).0 == max
    decreases k
  {
    if k > 0 {
      AtLimit(GrowStep(max, g, max, use[0]).1, max, use[1..], k - 1);
    }
  }

  /** Once a limit has clamped its growth, a heap is never well formed again: if the top chunk ends
      where the heap does, that is at an odd address. */
  lemma ClampedBadly(h: nat, g: nat, max: nat, use: seq<nat>, k: nat)
    requires 0 < h && h % GRANULE == 0 && g % GRANULE == 0 && 0 < k <= |use| && use[0] < max < 2 * h
    ensures var s := GrowSteps(h, g, max, use, k); !(s.1 % GRANULE == 0 && s.1 - g == s.0 - h)
  {
    AtLimit(g + max / 2, max, use[1..], k - 1);
    TopKeepsUp(max, g + max / 2, max, use[1..], k - 1);
    assert GrowSteps(h, g, max, use, k) == GrowSteps(max, g + max / 2, max, use[1..], k - 1);
    hide GrowSteps;
    OddTop(h, g, max, GrowSteps(h, g, max, use, k).1);
  }

  lemma OddTop(h: nat, g: nat, max: nat, top: nat)
    requires 0 < h && h % GRANULE == 0 && g % GRANULE == 0 && max < 2 * h && top >= g + max / 2
    ensures !(top % GRANULE == 0 && top - g == max - h)
  {
    if top - g == max - h {
      assert top == g + h - 1;
    }
  }

  /** What Allocate asks for: the request, a header, rounded up to whole granules. */
  function Granules(bytes: nat): (n: nat)
    ensures n >= 2 || bytes == 0
    ensures GRANULE * (n - 1) >= bytes > GRANULE * (n - 2)  || bytes == 0
  {
    (bytes + HEADER + GRANULE - 1) / GRANULE
  }

  function Max(a: nat, b: nat): nat { if a < b then b else a }

  class KHeap {
    // chunk headers, by the granule they start at
    var size: seq<Word>
    var prev: seq<Word>
    var fwd: seq<int>
    var bwd: seq<int>
    // globals
    var bins: seq<int>
    var bitmap: set<nat>
    var top: nat
    // sizes in bytes, and what the top chunk's size has beyond whole granules
    var heapSize: nat
    var maxHeap: nat
    var topOdd: nat
    // what they stand for
    ghost var chunks: seq<nat>      // the chunks below the top, in order
    ghost var lists: seq<seq<int>>  // the free lists
    ghost var bin: map<int, int>    // which chunk is listed, and where

    /** The lists are well formed, sorted into bins by size, and the bitmap shows the non-empty ones. */
    ghost predicate Lists()
      reads this`fwd, this`bwd, this`bins, this`bitmap, this`lists, this`bin, this`size
    {
      && |fwd| == |bwd| && |bins| == NUM_BINS && Good(fwd, bwd, bins, lists, bin)
      && (forall e | e in bin :: 0 <= e < |size| && bin[e] == BinIndex(GRANULE * size[e].granules))
      && (forall b | 0 <= b < NUM_BINS :: b in bitmap <==> bins[b] != NIL)
      && (forall b | b in bitmap :: b < NUM_BINS)
    }

    method PopFront(ind: nat) returns (entry: int)
      requires ind < |bins| && |fwd| == |bwd| && NIL <= bins[ind] < |fwd|
      requires bins[ind] != NIL ==> NIL <= fwd[bins[ind]] < |fwd|
      modifies this`fwd, this`bwd, this`bins, this`bitmap
      ensures entry == old(bins[ind])
      ensures if entry == NIL then
                fwd == old(fwd) && bwd == old(bwd) && bins == old(bins) && bitmap == old(bitmap)
              else
                var next := old(fwd[entry]);
                && bins == old(bins)[ind := next] && bitmap == (if next == NIL then old(bitmap) - {ind}
                                                                else old(bitmap))
                && fwd == old(fwd)[entry := NIL]
                && bwd == (if next == NIL then old(bwd) else old(bwd)[next := NIL])[entry := NIL]
    {
      entry := bins[ind];
      if entry != NIL {
        bins := bins[ind := fwd[entry]];
        if bins[ind] != NIL {
          bwd := bwd[bins[ind] := NIL];
        } else {
          bitmap := bitmap - {ind};
        }
        fwd := fwd[entry := NIL];
        bwd := bwd[entry := NIL];
      }
    }

    /** The writes of Remove. */
    method Unlink(entry: nat)
      requires |fwd| == |bwd| && entry < |fwd| && entry < |size|
      requires NIL <= fwd[entry] < |fwd| && NIL <= bwd[entry] < |fwd| && fwd[entry] != entry && bwd[entry] != entry
      requires BinIndex(GRANULE * size[entry].granules) < |bins|
      requires bins[BinIndex(GRANULE * size[entry].granules)] == entry ==> bwd[entry] == NIL
      modifies this`fwd, this`bwd, this`bins, this`bitmap
      ensures fwd == old(RemoveFwd(fwd, bwd, entry)) && bwd == old(RemoveBwd(fwd, bwd, entry))
      ensures var b := BinIndex(GRANULE * size[entry].granules);
        if old(bins[b]) == entry then
          bins == old(bins)[b := old(fwd[entry])] && bitmap == (if old(fwd[entry]) == NIL then old(bitmap) - {b}
                                                                else old(bitmap))
        else
          bins == old(bins) && bitmap == old(bitmap)
    {
      if fwd[entry] != NIL {
        bwd := bwd[fwd[entry] := bwd[entry]];
      }
      if bwd[entry] != NIL {
        fwd := fwd[bwd[entry] := fwd[entry]];
      }
      var entryBin := BinIndex(GRANULE * size[entry].granules);
      if bins[entryBin] == entry {
        var _ := PopFront(entryBin);
      }
      fwd := fwd[entry := NIL];
      bwd := bwd[entry := NIL];
    }

    /** Take an entry out of its list. An entry that is in no list stays so. */
    method Remove(entry: nat)
      requires Lists() && entry < |fwd| && entry < |size| && BinIndex(GRANULE * size[entry].granules) < NUM_BINS
      requires entry !in bin ==> fwd[entry] == NIL && bwd[entry] == NIL
      modifies this`fwd, this`bwd, this`bins, this`bitmap, this`lists, this`bin
      ensures Lists() && |fwd| == old(|fwd|) && bin == old(bin) - {entry}
      ensures fwd[entry] == NIL && bwd[entry] == NIL && lists == Unlisted(old(lists), entry)
      ensures forall h | 0 <= h < |fwd| && h !in old(bin) :: fwd[h] == old(fwd[h]) && bwd[h] == old(bwd[h])
    {
      hide Good, BinIndex;
      RemoveFacts(entry);
      ghost var b := BinIndex(GRANULE * size[entry].granules);
      Unlink(entry);
      assert bins == old(bins)[b := if old(bins)[b] == entry then old(fwd[entry]) else old(bins)[b]];
      if entry !in bin {
        assert fwd == old(fwd) && bwd == old(bwd) && bin - {entry} == bin;
      }
      lists, bin := Unlisted(lists, entry), bin - {entry};
    }

    lemma RemoveFacts(e: int)
      requires Lists() && 0 <= e < |fwd| && e < |size| && BinIndex(GRANULE * size[e].granules) < NUM_BINS
      requires e !in bin ==> fwd[e] == NIL && bwd[e] == NIL
      ensures NIL <= fwd[e] < |fwd| && NIL <= bwd[e] < |fwd| && fwd[e] != e && bwd[e] != e
      ensures e in bin ==> bin[e] == BinIndex(GRANULE * size[e].granules) && (bins[bin[e]] == e <==> bwd[e] == NIL)
      ensures e !in bin ==> bins[BinIndex(GRANULE * size[e].granules)] != e
      ensures e in bin ==>
        Good(RemoveFwd(fwd, bwd, e), RemoveBwd(fwd, bwd, e),
             bins[bin[e] := if bins[bin[e]] == e then fwd[e] else bins[bin[e]]],
             Unlisted(lists, e), bin - {e})
      ensures e !in bin ==> Unlisted(lists, e) == lists
      ensures forall h | 0 <= h < |fwd| && h !in bin && h != e && e in bin ::
        RemoveFwd(fwd, bwd, e)[h] == fwd[h] && RemoveBwd(fwd, bwd, e)[h] == bwd[h]
    {
      UnlistedIs(lists, bin, e);
      if e in bin {
        RemoveGood(fwd, bwd, bins, lists, bin, e, bin[e]);
        Neighbours(fwd, bwd, bins, lists, bin, e, bin[e]);
        assert Chain(fwd, bwd, NIL, bins[bin[e]], lists[bin[e]]);
        ChainLinks(fwd, bwd, NIL, bins[bin[e]], lists[bin[e]], e);
        forall h | 0 <= h < |fwd| && h !in bin
          ensures RemoveFwd(fwd, bwd, e)[h] == fwd[h] && RemoveBwd(fwd, bwd, e)[h] == bwd[h]
        {
          RemoveKeeps(fwd, bwd, bins, lists, bin, e, h);
        }
      } else {
        HeadListed(fwd, bwd, bins, lists, bin, BinIndex(GRANULE * size[e].granules));
      }
    }
  
    /** Listed chunks are small enough for every bin in use to have a bit of its own. */
    ghost predicate Bounded()
      reads this
    {
      forall e | e in bin :: 0 <= e < |size| && GRANULE * size[e].granules < BITMAP_LIMIT
    }

    ghost predicate NoneFits(need: nat)
      reads this
    {
      forall e | e in bin :: 0 <= e < |size| && size[e].granules <= need
    }

    /** The first chunk of a list that is larger than `need` granules. */
    ghost predicate FirstLarger(l: seq<int>, entry: int, need: nat)
      reads this`size
    {
      exists i :: 0 <= i < |l| && l[i] == entry && AllSmall(l[..i], need)
    }

    ghost predicate AllSmall(l: seq<int>, need: nat)
      reads this`size
    {
      forall e | e in l :: 0 <= e < |size| && size[e].granules <= need
    }

    /** No listed chunk is of a higher class than this one. */
    ghost predicate HighestClass(entry: int)
      reads this`size, this`bin
    {
      && 0 <= entry < |size|
      && forall e | e in bin && 0 <= e < |size| :: NoHigher(GRANULE * size[e].granules, GRANULE * size[entry].granules)
    }

    /** Find and unlink a listed chunk strictly larger than `need` granules: of the highest class that
        there is, the first in its list. */
    method FindEntry(need: nat) returns (entry: int)
      requires Lists() && Bounded() && BinIndex(GRANULE * need) < 64
      modifies this`fwd, this`bwd, this`bins, this`bitmap, this`lists, this`bin
      ensures Lists() && |fwd| == old(|fwd|)
      ensures entry == NIL <==> old(NoneFits(need))
      ensures entry == NIL ==> bin == old(bin) && fwd == old(fwd) && bwd == old(bwd)
      ensures entry != NIL ==>
        && entry in old(bin) && 0 <= entry < |size| && size[entry].granules > need
        && bin == old(bin) - {entry} && entry < |fwd| && fwd[entry] == NIL && bwd[entry] == NIL
        && (forall e | e in old(bin) :: old(bin)[e] <= old(bin)[entry])
        && old(FirstOfHighest(entry, need)) && lists == Unlisted(old(lists), entry)
      ensures entry == NIL ==> lists == old(lists)
      ensures forall h | 0 <= h < |fwd| && h !in old(bin) :: fwd[h] == old(fwd[h]) && bwd[h] == old(bwd[h])
    {
      entry := Search(need);
      if entry != NIL {
        LargestClass(entry);
        Remove(entry);
      }
    }

    lemma LargestClass(entry: int)
      requires Lists() && Largest(entry)
      ensures HighestClass(entry)
    {
      hide Good, BinIndex, NoHigher;
      forall e | e in bin && 0 <= e < |size|
        ensures NoHigher(GRANULE * size[e].granules, GRANULE * size[entry].granules)
      {
        BinsInOrder(GRANULE * size[e].granules, GRANULE * size[entry].granules);
      }
    }

    /** The search of FindEntry: an entry of the highest bin in use, not of the smallest one that
        would do. */
    method Search(need: nat) returns (entry: int)
      requires Lists() && Bounded() && BinIndex(GRANULE * need) < 64
      ensures entry == NIL <==> NoneFits(need)
      ensures entry != NIL ==> Largest(entry) && size[entry].granules > need
      ensures entry != NIL ==> exists b :: 0 <= b < |lists| && FirstLarger(lists[b], entry, need)
    {
      hide FirstLarger;
      var first := BinIndex(GRANULE * need);
      var binInd := first;
      BitsBounded();
      var mask := set b | b in bitmap && b >= binInd;
      entry := NIL;
      while mask != {} && entry == NIL
        invariant first <= binInd <= first + 64
        invariant forall b | b in mask :: b in bitmap && first <= b < 64
        invariant entry == NIL ==> forall i | first < i <= binInd :: i % 64 !in mask
        invariant entry == NIL ==> if binInd == first then mask == (set b | b in bitmap && b >= first)
                  else NoneFits(need)
        invariant entry != NIL ==> Largest(entry) && size[entry].granules > need
        invariant entry != NIL ==> exists b :: 0 <= b < |lists| && FirstLarger(lists[b], entry, need)
        decreases first + 64 - binInd, entry == NIL
      {
        var b := HighestBit(mask, 64);
        entry := WalkBin(b, need);
        if binInd == first {
          assert forall i | i in bitmap && i >= first :: i in mask;
          FirstScan(need, b);
        }
        if entry == NIL {
          assert binInd < first + 64 by {
            assert (if b > first then b else b + 64) % 64 == b;
          }
          binInd := binInd + 1;
          mask := mask - {binInd % 64};
        }
      }
      if entry == NIL && binInd == first {
        assert forall i | i in bitmap && i >= first :: i in mask;
        NothingToScan(need);
      }
    }

    /** A listed chunk in the highest bin in use. */
    ghost predicate Largest(entry: int)
      reads this
    {
      && entry in bin && 0 <= entry < |size| && entry < |fwd|
      && forall e | e in bin :: bin[e] <= bin[entry]
    }

    /** The inner loop of FindEntry: the first entry of a list that is strictly larger. */
    method WalkBin(b: nat, need: nat) returns (entry: int)
      requires Lists() && b < NUM_BINS
      ensures entry == NIL ==> forall e | e in lists[b] :: 0 <= e < |size| && size[e].granules <= need
      ensures entry != NIL ==>
                entry in lists[b] && entry in bin && 0 <= entry < |size| && entry < |fwd| && size[entry].granules > need
      ensures |lists| == NUM_BINS && (entry != NIL ==> FirstLarger(lists[b], entry, need))
    {
      entry := bins[b];
      ghost var i := 0;
      ghost var before, rest := NIL, lists[b];
      assert Chain(fwd, bwd, NIL, bins[b], lists[b]);
      assert forall e | e in lists[b] :: e in bin;
      while entry != NIL
        invariant Chain(fwd, bwd, before, entry, rest)
        invariant 0 <= i <= |lists[b]| && rest == lists[b][i..] && AllSmall(lists[b][..i], need)
        decreases rest
      {
        assert entry == lists[b][i] && entry in lists[b] && entry in bin;
        if size[entry].granules > need {
          return;
        }
        assert lists[b][..i + 1] == lists[b][..i] + [entry];
        before, entry, rest, i := entry, fwd[entry], rest[1..], i + 1;
      }
    }

    lemma BitsBounded()
      requires Lists() && Bounded()
      ensures forall b | b in bitmap && b < NUM_BINS :: b < 64
    {
      forall b | b in bitmap && b < NUM_BINS
        ensures b < 64
      {
        HeadListed(fwd, bwd, bins, lists, bin, b);
        BinBound(GRANULE * size[bins[b]].granules);
      }
    }
  
    /** The bit of a listed chunk's bin is set. */
    lemma BitSet(e: int)
      requires Lists() && e in bin
      ensures 0 <= bin[e] < NUM_BINS && bin[e] in bitmap && e in lists[bin[e]] && 0 <= e < |size|
    {
      HeadListed(fwd, bwd, bins, lists, bin, bin[e]);
    }

    /** The highest of the bins that may fit holds the largest listed chunks, and one that fits
        if any chunk does. */
    lemma FirstScan(need: nat, b: nat)
      requires Lists() && b in bitmap && b >= BinIndex(GRANULE * need)
      requires forall i | i in bitmap && i >= BinIndex(GRANULE * need) :: i <= b
      ensures forall e | e in bin :: bin[e] <= b
      ensures (forall e | e in lists[b] :: 0 <= e < |size| && size[e].granules <= need) ==> NoneFits(need)
    {
      forall e | e in bin
        ensures bin[e] <= b
      {
        BitSet(e);
      }
      if (forall e | e in lists[b] :: 0 <= e < |size| && size[e].granules <= need) {
        HeadListed(fwd, bwd, bins, lists, bin, b);
        var h := bins[b];
        assert h in lists[b];
        BinMonotone(GRANULE * size[h].granules, GRANULE * need);
        forall e | e in bin
          ensures 0 <= e < |size| && size[e].granules <= need
        {
          BitSet(e);
          if size[e].granules > need {
            BinMonotone(GRANULE * need, GRANULE * size[e].granules);
          }
        }
      }
    }

    lemma NothingToScan(need: nat)
      requires Lists() && forall i | i in bitmap :: i < BinIndex(GRANULE * need)
      ensures NoneFits(need)
    {
      forall e | e in bin
        ensures 0 <= e < |size| && size[e].granules <= need
      {
        BitSet(e);
        if size[e].granules > need {
          BinMonotone(GRANULE * need, GRANULE * size[e].granules);
        }
      }
    }
  
    method PushFront(ind: nat, entry: nat)
      requires Lists() && ind < NUM_BINS && entry < |fwd| && entry < |size|
      requires entry !in bin && bwd[entry] == NIL && ind == BinIndex(GRANULE * size[entry].granules)
      modifies this`fwd, this`bwd, this`bins, this`bitmap, this`lists, this`bin
      ensures Lists() && |fwd| == old(|fwd|) && bin == old(bin)[entry := ind]
      ensures |old(lists)| == NUM_BINS && lists == old(lists)[ind := [entry] + old(lists)[ind]]
      ensures forall h | 0 <= h < |fwd| && h !in bin :: fwd[h] == old(fwd[h]) && bwd[h] == old(bwd[h])
    {
      PushGood(fwd, bwd, bins, lists, bin, ind, entry);
      HeadListed(fwd, bwd, bins, lists, bin, ind);
      fwd := fwd[entry := bins[ind]];
      if fwd[entry] != NIL {
        bwd := bwd[fwd[entry] := entry];
      }
      bins := bins[ind := entry];
      bitmap := bitmap + {ind};
      lists := lists[ind := [entry] + lists[ind]];
      bin := bin[entry := ind];
    }

    // -------------------------------------------------------------- chunks

    /** The chunks tile the heap, the headers agreeing with `vp` for what precedes them. */
    ghost predicate Shape(vp: seq<Word>)
      reads this
    {
      && |size| == |prev| == |vp| == |fwd| == |bwd| && GRANULE * |size| == heapSize <= BITMAP_LIMIT
      && Tiling(size, vp, chunks, top) && top < |size| && size[top] == Word(|size| - top, false) && topOdd == 0
    }

    ghost predicate Listing(out: set<nat>)
      reads this
    {
      Listed(chunks, top, size, fwd, bwd, bin, out)
    }

    ghost predicate Valid()
      reads this
    {
      Lists() && Shape(prev) && Listing({}) && AllSpaced(size, chunks)
    }

    /** All of that but what the top chunk's size must be. */
    ghost predicate Laid()
      reads this
    {
      && Lists() && |size| == |prev| == |fwd| == |bwd| && top < |size| && Tiling(size, prev, chunks, top)
      && Listing({})
    }

    ghost function LiveChunks(): map<nat, nat>
      reads this
    {
      Live(size, chunks)
    }

    lemma ValidBounded()
      requires Lists() && Shape(prev) && Listing({})
      ensures Bounded()
    {
      TiledBounds(size, prev, 0, ZERO, chunks, top, prev[top]);
    }

    /** The writes of Split. */
    method Split(entry: nat, n: nat) returns (next: nat)
      requires entry < |size| && 0 < n < size[entry].granules && entry + size[entry].granules <= |size|
      requires |size| == |prev| == |fwd| == |bwd| && (entry != top ==> entry + size[entry].granules < |prev|)
      requires Lists() && entry !in bin && entry + n !in bin
      modifies this`size, this`prev, this`fwd, this`bwd, this`top
      ensures Lists()
      ensures next == entry + n && top == if entry == old(top) then next else old(top)
      ensures var rest := Word(old(size)[entry].granules - n, false);
        && size == old(size)[entry := Word(n, true)][next := rest]
        && prev == (if entry == old(top) then old(prev)[next := Word(n, true)]
                    else old(prev)[next := Word(n, true)][entry + old(size)[entry].granules := rest])
      ensures fwd == old(fwd)[next := NIL] && bwd == old(bwd)[next := NIL]
    {
      var oldSize := size[entry].granules;
      next := entry + n;
      WriteUnlisted(fwd, bwd, bins, lists, bin, next, NIL, NIL);
      fwd := fwd[next := NIL];
      bwd := bwd[next := NIL];
      size := size[entry := Word(n, true)];
      size := size[next := Word(oldSize - n, false)];
      prev := prev[next := size[entry]];
      if entry == top {
        top := next;
      } else {
        var afterNext := next + size[next].granules;
        prev := prev[afterNext := size[next]];
      }
    }

    /** A request served from the top chunk. */
    method TakeTop(n: nat) returns (entry: nat)
      requires Valid() && 0 < n < size[top].granules
      modifies this`size, this`prev, this`fwd, this`bwd, this`top, this`chunks
      ensures Valid() && entry == old(top) && entry !in old(chunks) && top == entry + n
      ensures entry < |size| && size[entry] == Word(n, true)
      ensures LiveChunks() == old(LiveChunks())[entry := n] && bin == old(bin) && heapSize == old(heapSize)
    {
      hide Good, Tiled, Listed, Spaced, LastFree;
      CarveTop(size, prev, chunks, top, n);
      TiledBounds(size, prev, 0, ZERO, chunks, top, prev[top]);
      ListedTop(chunks, top, size, fwd, bwd, bin, n, Word(|size| - top - n, false));
      entry := top;
      chunks := chunks + [entry];
      top := Split(top, n);
    }
  
    /** Where a chunk is among the others. */
    lemma SplitAt(l: seq<nat>, e: nat) returns (l1: seq<nat>, l2: seq<nat>)
      requires e in l
      ensures l == l1 + ([e] + l2)
    {
      var i :| 0 <= i < |l| && l[i] == e;
      l1, l2 := l[..i], l[i + 1..];
    }

    /** Cutting a chunk that FindEntry unlinked: the first part goes into use, the rest is free. */
    method SplitFree(entry: nat, n: nat, ghost l1: seq<nat>, ghost l2: seq<nat>) returns (next: nat)
      requires Lists() && Shape(prev) && Listing({entry}) && AllSpaced(size, chunks)
      requires chunks == l1 + ([entry] + l2) && IsFree(size, entry) && 0 < n < size[entry].granules
      modifies this`size, this`prev, this`fwd, this`bwd, this`top, this`chunks
      ensures Lists() && Shape(prev) && Listing({next}) && AllSpaced(size, chunks)
      ensures next in chunks && IsFree(size, next) && next !in bin && next < |fwd| && bwd[next] == NIL
      ensures entry in chunks && entry < |size| && size[entry] == Word(n, true)
      ensures top == old(top) && bin == old(bin) && heapSize == old(heapSize) && next != top
      ensures next == entry + n && size[next].granules == old(size[entry].granules) - n
      ensures LiveChunks() == old(LiveChunks())[entry := n]
    {
      hide Good, Tiling, Listed, AllSpaced, Live, BinIndex;
      ghost var rest := Word(size[entry].granules - n, false);
      Place(size, prev, l1, entry, l2, top);
      CarveFree(size, prev, l1, entry, l2, top, n);
      PiecesOf(l1, [entry], l2);
      PiecesOf(l1, [entry, entry + n], l2);
      ListedCarve(l1, entry, l2, top, size, fwd, bwd, bin, n, rest);
      CarvedNow(l1, entry, l2, n);
      next := Split(entry, n);
      chunks := l1 + ([entry, next] + l2);
    }

    lemma CarvedNow(l1: seq<nat>, e: nat, l2: seq<nat>, n: nat)
      requires Shape(prev) && AllSpaced(size, l1 + ([e] + l2)) && chunks == l1 + ([e] + l2)
      requires IsFree(size, e) && 0 < n < size[e].granules && e + n < |size|
      ensures AllSpaced(size[e := Word(n, true)][e + n := Word(size[e].granules - n, false)], l1 + ([e, e + n] + l2))
    {
      var size' := size[e := Word(n, true)][e + n := Word(size[e].granules - n, false)];
      Place(size, prev, l1, e, l2, top);
      SpacedAround(size, l1, e, l2);
      AroundFrame(size, size', l1, l2);
      CarvedSpaced(size', l1, e, e + n, l2);
    }
  
    /** The lists are those of `lists0`, but that `e` has been put first in one. */
    ghost predicate FirstNow(lists0: seq<seq<int>>, e: nat)
      reads this`lists, this`bin
    {
      e in bin && 0 <= bin[e] < |lists0| && lists == lists0[bin[e] := [e] + lists0[bin[e]]]
    }

    method SplitAndPush(entry: nat, n: nat, ghost l1: seq<nat>, ghost l2: seq<nat>)
      requires Lists() && Shape(prev) && Listing({entry}) && AllSpaced(size, chunks)
      requires chunks == l1 + ([entry] + l2) && IsFree(size, entry) && 0 < n < size[entry].granules
      modifies this
      ensures Valid() && entry in chunks && entry < |size| && size[entry] == Word(n, true)
      ensures LiveChunks() == old(LiveChunks())[entry := n] && heapSize == old(heapSize) && maxHeap == old(maxHeap)
      ensures FirstNow(old(lists), entry + n)
    {
      hide Good, Tiling, AllSpaced, Live, BinIndex;
      var next := SplitFree(entry, n, l1, l2);
      if next != top {
        ChunkSmall(next, prev);
        PushFront(BinIndex(GRANULE * size[next].granules), next);
      }
    }

    // ------------------------------------------------------------- merging

    /** A free chunk outside the lists, whose size the next header does not repeat yet. */
    ghost predicate Merging(e: nat, l1: seq<nat>, l2: seq<nat>)
      reads this
    {
      && Lists() && e < |size| && e + size[e].granules < |prev| && Shape(prev[e + size[e].granules := size[e]])
      && Listing({e}) && chunks == l1 + ([e] + l2) && IsFree(size, e) && Around(size, l1, l2)
    }

    /** A free chunk `a`, just unlinked, absorbs the free chunk `b` after it. */
    method Absorb(a: nat, b: nat, ghost l1: seq<nat>, ghost l2: seq<nat>, ghost vp: seq<Word>)
      requires Lists() && b < |size| && Shape(vp) && DifferAt(vp, prev, b, b + size[b].granules)
      requires Listing({a, b}) && chunks == l1 + ([a] + ([b] + l2)) && IsFree(size, a) && IsFree(size, b) &&
               Around(size, l1, l2)
      modifies this`size, this`chunks
      ensures Merging(a, l1, l2) && LiveChunks() == old(LiveChunks())
      ensures LastFree(size, false, l1) == old(LastFree(size, false, l1))
      ensures size[a] == old(Word(size[a].granules + size[b].granules, false))
    {
      hide Good, Tiling, Listed, Around, Live, LastFree, BinIndex;
      ghost var z := b + size[b].granules;
      ghost var w := Word(size[a].granules + size[b].granules, false);
      JoinTwo(size, vp, l1, a, b, l2, top);
      ListedJoin(l1, a, b, l2, top, size, fwd, bwd, bin, w);
      AbsorbAround(a, b, l1, l2, vp, w);
      PiecesOf(l1, [a], l2);
      StaleAt(size[a := w], vp, l1 + ([a] + l2), b, z, w);
      size := size[a := Word(size[a].granules + size[b].granules, false)];
      chunks := l1 + ([a] + l2);
    }

    lemma StaleAt(size': seq<Word>, vp: seq<Word>, l: seq<nat>, b: nat, z: nat, w: Word)
      requires b < |prev| && z < |prev| && DifferAt(vp, prev, b, z) && b !in l && b != top && b != z
      requires Tiling(size', vp[z := w], l, top)
      ensures Tiling(size', prev[z := w], l, top)
    {
      assert prev[z := w][b := vp[b]] == vp[z := w];
      Stale(size', prev[z := w], l, top, b, vp[b]);
    }

    lemma AbsorbAround(a: nat, b: nat, l1: seq<nat>, l2: seq<nat>, vp: seq<Word>, w: Word)
      requires Tiling(size, vp, l1 + ([a] + ([b] + l2)), top) && |size| == |vp| && a < |size|
      requires Lists() && Listed(l1 + ([a] + ([b] + l2)), top, size, fwd, bwd, bin, {a, b}) && IsFree(size, a) &&
               IsFree(size, b)
      ensures Around(size[a := w], l1, l2) == Around(size, l1, l2) &&
              LastFree(size[a := w], false, l1) == LastFree(size, false, l1)
      ensures forall e | e in bin :: 0 <= e < |size| && e != a
      ensures a + size[a].granules == b && a != top && b != top
    {
      JoinTwo(size, vp, l1, a, b, l2, top);
      Place(size, vp, l1, a, [b] + l2, top);
      assert forall h :: h in [b] + l2 <==> h == b || h in l2;
      AroundFrame(size, size[a := w], l1, l2);
    }

    /** The first half of MergeWithNeighbors: a free chunk before this one absorbs it. */
    method MergePrev(entry: nat, ghost l1: seq<nat>, ghost l2: seq<nat>) returns (r: nat, ghost l1': seq<nat>)
      requires Merging(entry, l1, l2)
      modifies this`size, this`fwd, this`bwd, this`bins, this`bitmap, this`lists, this`bin, this`chunks
      ensures Merging(r, l1', l2) && !LastFree(size, false, l1') && LiveChunks() == old(LiveChunks())
      ensures lists == if r == entry then old(lists) else Unlisted(old(lists), r)
      ensures r <= entry && entry + old(size[entry].granules) == r + size[r].granules
    {
      hide Good, Live, BinIndex, Unlisted;
      r, l1' := entry, l1;
      ghost var vp := prev[entry + size[entry].granules := size[entry]];
      Place(size, vp, l1, entry, l2, top);
      if !prev[entry].inUse && prev[entry].granules > 0 {
        r := entry - prev[entry].granules;
        l1' := l1[..|l1| - 1];
        PrevFree(entry, l1, l2, vp);
        ChunkSmall(r, vp);
        ghost var fwd0, bwd0, bin0 := fwd, bwd, bin;
        Remove(r);
        ListedWithout(chunks, top, size, fwd0, bwd0, fwd, bwd, bin0, {entry}, r);
        assert {entry} + {r} == {r, entry};
        Absorb(r, entry, l1', l2, vp);
      }
    }

    /** The top chunk is absorbed, and the merging chunk becomes it. */
    method AbsorbTop(entry: nat, ghost l1: seq<nat>)
      requires Merging(entry, l1, []) && !LastFree(size, false, l1) && top == entry + size[entry].granules
      modifies this`size, this`fwd, this`bwd, this`bins, this`bitmap, this`lists, this`bin, this`top, this`chunks
      ensures top == entry && Lists() && Shape(prev) && Listing({}) && AllSpaced(size, chunks)
      ensures LiveChunks() == old(LiveChunks()) && lists == Unlisted(old(lists), old(top))
      ensures size[entry].granules >= old(size[entry].granules)
    {
      hide Good, Live, BinIndex, Tiled, Spaced, LastFree, Unlisted;
      ghost var vp, w := prev[top := size[entry]], Word(size[entry].granules + size[top].granules, false);
      ghost var fwd0, bwd0, bin0 := fwd, bwd, bin;
      ghost var end := top;
      TopFacts(entry, l1, vp, w);
      ChunkSmall(top, vp);
      Remove(top);
      ListedWithout(chunks, end, size, fwd0, bwd0, fwd, bwd, bin0, {entry}, end);
      assert {entry} + {end} == {entry, end} && bin0 - {end} == bin0;
      ListedJoinTop(l1, entry, end, size, fwd, bwd, bin, w);
      size := size[entry := Word(size[entry].granules + size[top].granules, false)];
      top := entry;
      chunks := l1;
    }

    lemma TopFacts(e: nat, l1: seq<nat>, vp: seq<Word>, w: Word)
      requires Merging(e, l1, []) && !LastFree(size, false, l1) && top == e + size[e].granules
      requires vp == prev[top := size[e]] && w == Word(size[e].granules + size[top].granules, false)
      ensures e < top && top !in chunks && top !in l1 && e !in l1 && top !in bin && top > 0
      ensures Tiling(size[e := w], prev, l1, e) && Live(size[e := w], l1) == Live(size, chunks)
      ensures AllSpaced(size[e := w], l1) && w == Word(|size| - e, false)
      ensures forall x | x in bin :: x != e
    {
      JoinTop(size, vp, l1, e, top);
      Place(size, vp, l1, e, [], top);
      PiecesOf(l1, [e], []);
      AroundFrame(size, size[e := w], l1, []);
      assert vp == prev[top := vp[top]];
      TiledBounds(size[e := w], vp, 0, ZERO, l1, e, vp[e]);
      TiledFrame(size[e := w], vp, size[e := w], prev, 0, ZERO, l1, e, vp[e]);
    }

    /** The second half of MergeWithNeighbors: this chunk absorbs a free one after it, or the top. */
    method MergeNext(entry: nat, ghost l1: seq<nat>, ghost l2: seq<nat>) returns (ghost q: int)
      requires Merging(entry, l1, l2) && !LastFree(size, false, l1)
      modifies this`size, this`prev, this`fwd, this`bwd, this`bins, this`bitmap, this`lists
      modifies this`bin, this`top, this`chunks
      ensures Lists() && Shape(prev) && AllSpaced(size, chunks) && LiveChunks() == old(LiveChunks())
      ensures top <= old(top)
      ensures if entry == top then Listing({}) else Listing({entry}) && entry in chunks && IsFree(size, entry)
      ensures lists == Unlisted(old(lists), q) && (q == NIL || q == entry + old(size[entry].granules))
      ensures entry < |size| && size[entry].granules >= old(size[entry].granules)
    {
      hide Good, Live, BinIndex, Tiled, Spaced, LastFree, Unlisted;
      NothingUnlisted();
      q := NIL;
      ghost var vp := prev[entry + size[entry].granules := size[entry]];
      Place(size, vp, l1, entry, l2, top);
      var next := entry + size[entry].granules;
      if next == top {
        assert l2 == [];
        q := top;
        AbsorbTop(entry, l1);
      } else if !size[next].inUse {
        ghost var r := NextFree(entry, l1, l2, vp);
        ChunkSmall(next, vp);
        ghost var fwd0, bwd0, bin0 := fwd, bwd, bin;
        q := next;
        Remove(next);
        ListedWithout(chunks, top, size, fwd0, bwd0, fwd, bwd, bin0, {entry}, next);
        assert {entry} + {next} == {entry, next};
        Absorb(entry, next, l1, r, vp);
        Settle(entry, l1, r);
      } else {
        Settle(entry, l1, l2);
      }
    }

    lemma NothingUnlisted()
      requires Lists()
      ensures Unlisted(lists, NIL) == lists
    {
      UnlistedIs(lists, bin, NIL);
    }

    /** The header after the merged chunk repeats its size. */
    method Settle(entry: nat, ghost l1: seq<nat>, ghost l2: seq<nat>)
      requires Merging(entry, l1, l2) && !LastFree(size, false, l1) && l2 != [] && !IsFree(size, l2[0])
      modifies this`prev
      ensures Lists() && Shape(prev) && AllSpaced(size, chunks) && Listing({entry}) && entry in chunks &&
              IsFree(size, entry)
      ensures entry != top
    {
      Place(size, prev[entry + size[entry].granules := size[entry]], l1, entry, l2, top);
      SpacedAround(size, l1, entry, l2);
      PiecesOf(l1, [entry], l2);
      var next := entry + size[entry].granules;
      prev := prev[next := size[entry]];
    }

    /** The chunk after a merging one, when it is free. */
    lemma NextFree(e: nat, l1: seq<nat>, l2: seq<nat>, vp: seq<Word>) returns (r: seq<nat>)
      requires Merging(e, l1, l2) && vp == prev[e + size[e].granules := size[e]] && l2 != []
      requires IsFree(size, l2[0])
      ensures l2 == [l2[0]] + r && Around(size, l1, r) && r != [] && !IsFree(size, r[0])
      ensures l2[0] in chunks && l2[0] in bin && l2[0] == e + size[e].granules
    {
      r := l2[1..];
      assert l2 == [l2[0]] + r;
      SpacedJoin(size, false, [l2[0]], r);
      Place(size, vp, l1, e, l2, top);
      PiecesOf(l1, [e], l2);
    }

    method MergeWithNeighbors(entry: nat, ghost l1: seq<nat>, ghost l2: seq<nat>)
      returns (r: nat, ghost p: int, ghost q: int)
      requires Merging(entry, l1, l2)
      modifies this`size, this`prev, this`fwd, this`bwd, this`bins, this`bitmap, this`lists
      modifies this`bin, this`top, this`chunks
      ensures Lists() && Shape(prev) && AllSpaced(size, chunks) && LiveChunks() == old(LiveChunks())
      ensures top <= old(top)
      ensures if r == top then Listing({}) else Listing({r}) && r in chunks && IsFree(size, r)
      ensures lists == Unlisted(Unlisted(old(lists), p), q)
      ensures (p == NIL || p == r) && (q == NIL || q == entry + old(size[entry].granules))
      ensures r < |size| && r <= entry && entry + old(size[entry].granules) <= r + size[r].granules
    {
      hide *;
      ghost var l;
      ListsIn(entry, l1, l2);
      r, l := MergePrev(entry, l1, l2);
      p := if r == entry then NIL else r;
      q := MergeNext(r, l, l2);
    }

    lemma ListsIn(entry: nat, l1: seq<nat>, l2: seq<nat>)
      requires Merging(entry, l1, l2)
      ensures Lists() && Unlisted(lists, NIL) == lists
    {
      NothingUnlisted();
    }

    /** The lists after a chunk was given back: `p` and `q` are no longer in them, being parts of the chunk
        at `h`, and this is first in its list, unless it is the top chunk. */
    ghost predicate Relisted(lists0: seq<seq<int>>, p: int, q: int, h: nat)
      reads this`lists, this`bin, this`top
    {
      var rest := Unlisted(Unlisted(lists0, p), q);
      if h == top then lists == rest else FirstNow(rest, h)
    }

    /** Give back a chunk. As written, a chunk of PMM_THRESHOLD bytes or more is taken for a block
        of the page allocator, and the heap does not change. */
    method FreeChunk(entry: nat) returns (to: Release)
      requires Valid() && entry in LiveChunks()
      modifies this`size, this`prev, this`fwd, this`bwd, this`bins, this`bitmap, this`lists
      modifies this`bin, this`top, this`chunks
      ensures Valid() && top <= old(top) && heapSize == old(heapSize)
      ensures to == if GRANULE * old(LiveChunks())[entry] >= PMM_THRESHOLD then ToPmm else ToHeap
      ensures LiveChunks() == if to == ToHeap then old(LiveChunks()) - {entry} else old(LiveChunks())
      ensures to == ToHeap ==> GivenBack(old(lists), entry, old(size[entry].granules))
      ensures to != ToHeap ==> lists == old(lists)
    {
      hide Unlisted, Relisted;
      if GRANULE * size[entry].granules >= PMM_THRESHOLD {
        return ToPmm;
      }
      to := ToHeap;
      ghost var l1, l2 := SplitAt(chunks, entry);
      StartMerging(entry, l1, l2);
      size := size[entry := Word(size[entry].granules, false)];
      ghost var lists0, n, p, q := lists, size[entry].granules, NIL, NIL;
      var merged;
      merged, p, q := MergeWithNeighbors(entry, l1, l2);
      ghost var rest := lists;
      if merged != top {
        PushMerged(merged);
      }
      IsGivenBack(lists0, rest, entry, n, p, q, merged);
    }

    /** The chunk of `n` granules at `e` is part of a free chunk, or of the top, and the lists are what
        they were but for that and for neighbours that have become part of it. */
    ghost predicate GivenBack(lists0: seq<seq<int>>, e: nat, n: nat)
      reads this`size, this`lists, this`bin, this`top
    {
      exists p: int, q: int, h: nat ::
        Relisted(lists0, p, q, h) && (p == NIL || p == h) && (q == NIL || q == e + n) && Encloses(h, e, n)
    }

    ghost predicate Encloses(h: nat, e: nat, n: nat)
      reads this`size
    {
      h < |size| && h <= e && e + n <= h + size[h].granules
    }

    lemma IsGivenBack(lists0: seq<seq<int>>, rest: seq<seq<int>>, e: nat, n: nat, p: int, q: int, h: nat)
      requires rest == Unlisted(Unlisted(lists0, p), q) && if h == top then lists == rest else FirstNow(rest, h)
      requires (p == NIL || p == h) && (q == NIL || q == e + n) && Encloses(h, e, n)
      ensures GivenBack(lists0, e, n)
    {
      hide Unlisted, FirstNow;
      assert Relisted(lists0, p, q, h);
    }

    /** The last step of Free: the merged chunk goes into its list. */
    method PushMerged(entry: nat)
      requires Lists() && Shape(prev) && AllSpaced(size, chunks) && Listing({entry}) && entry in chunks &&
               IsFree(size, entry)
      requires entry != top
      modifies this`prev, this`fwd, this`bwd, this`bins, this`bitmap, this`lists, this`bin
      ensures Valid() && LiveChunks() == old(LiveChunks()) && FirstNow(old(lists), entry)
    {
      hide Good, Tiled, AllSpaced, Live, BinIndex;
      ghost var l1, l2 := SplitAt(chunks, entry);
      Place(size, prev, l1, entry, l2, top);
      ChunkSmall(entry, prev);
      var next := entry + size[entry].granules;
      assert prev[next := size[entry]] == prev;
      prev := prev[next := size[entry]];
      PushFront(BinIndex(GRANULE * size[entry].granules), entry);
    }

    /** Clearing the in-use flag starts a merge. */
    lemma StartMerging(e: nat, l1: seq<nat>, l2: seq<nat>)
      requires Valid() && chunks == l1 + ([e] + l2) && e < |size| && size[e].inUse
      ensures var size' := size[e := Word(size[e].granules, false)];
        && e + size[e].granules < |prev| && Tiling(size', prev[e + size[e].granules := size'[e]], chunks, top)
        && Live(size', chunks) == LiveChunks() - {e} && Around(size', l1, l2)
        && Listed(chunks, top, size', fwd, bwd, bin, {e}) && e != top && e !in bin
    {
      var size' := size[e := Word(size[e].granules, false)];
      Reflag(size, prev, l1, e, l2, top, false);
      Place(size, prev, l1, e, l2, top);
      SpacedAround(size, l1, e, l2);
      AroundFrame(size, size', l1, l2);
    }

    // ---------------------------------------------------- growing, starting

    /** The size of the top chunk, in bytes. */
    function TopSize(): nat
      reads this`size, this`top, this`topOdd
    {
      if top < |size| then GRANULE * size[top].granules + topOdd else 0
    }

    /** The top chunk is free, is made of whole granules and ends where the heap does. */
    predicate TopFits()
      reads this`size, this`top, this`topOdd, this`heapSize
    {
      top < |size| && topOdd == 0 && !size[top].inUse && GRANULE * top + TopSize() == heapSize
    }

    /** Double the heap; the new memory goes to the top chunk. As written, growth that the limit
        clamps adds more to the top chunk than the heap got, or an odd number of bytes. */
    method GrowHeap(memInUse: nat)
      requires Valid()
      modifies this`size, this`prev, this`fwd, this`bwd, this`heapSize, this`topOdd
      ensures top < old(|size|) <= |size| && LiveChunks() == old(LiveChunks())
      ensures (heapSize, TopSize()) == old(GrowStep(heapSize, TopSize(), maxHeap, memInUse))
      ensures TopFits() <==> memInUse >= maxHeap || 2 * old(heapSize) <= maxHeap
      ensures Valid() <==> TopFits() && heapSize <= BITMAP_LIMIT
      ensures Laid()
      ensures forall h | 0 <= h < old(|size|) && h != top :: size[h] == old(size[h])
    {
      hide Good, Tiling, AllSpaced, Live, Listed, BinIndex, KHeap.Lists;
      ghost var h0, g0 := heapSize, TopSize();
      StepExact(h0, g0, maxHeap, memInUse);
      if memInUse < maxHeap {
        heapSize := if heapSize * 2 > maxHeap then maxHeap else heapSize * 2;
        Extend();
        TopFitsExact(h0, g0);
        hide TopFits;
        Fitting();
      }
    }

    lemma TopFitsExact(h0: nat, g0: nat)
      requires top < |size| && topOdd < GRANULE && (size[top].inUse <==> TopSize() % 2 == 1) && GRANULE * top + g0 == h0
      ensures TopFits() <==> TopSize() % GRANULE == 0 && TopSize() - g0 == heapSize - h0
    {
    }

    /** A heap whose top chunk fits is valid, if it is not too large. */
    lemma Fitting()
      requires Laid() && AllSpaced(size, chunks) && |size| >= heapSize / GRANULE
      requires TopFits() ==> |size| == heapSize / GRANULE
      ensures Valid() <==> TopFits() && heapSize <= BITMAP_LIMIT
    {
      hide Good, Tiling, AllSpaced, Listed, BinIndex, KHeap.Lists;
    }

    /** The top chunk gets the half of the heap. Its size word is a number of bytes, of which the
        lowest bit says that a chunk is in use. */
    method Extend()
      requires Lists() && Tiling(size, prev, chunks, top) && AllSpaced(size, chunks) && Listing({})
      requires top < |size| == |prev| == |fwd| == |bwd| && topOdd == 0
      modifies this`size, this`prev, this`fwd, this`bwd, this`topOdd
      ensures |size| == |prev| == |fwd| == |bwd| == Max(heapSize / GRANULE, |old(size)|)
      ensures top < |size| && TopSize() == GRANULE * old(size)[top].granules + heapSize / 2
      ensures topOdd < GRANULE && (size[top].inUse <==> TopSize() % 2 == 1)
      ensures forall h | 0 <= h < |old(size)| && h != top :: size[h] == old(size)[h]
      ensures Lists() && Tiling(size, prev, chunks, top) && AllSpaced(size, chunks) && Listing({})
      ensures LiveChunks() == old(LiveChunks())
    {
      hide Good, Tiling, AllSpaced, Live, Listed, BinIndex;
      ghost var size0, prev0 := size, prev;
      var more := Max(heapSize / GRANULE, |size|) - |size|;
      GrowGood(fwd, bwd, seq(more, _ => NIL), bins, lists, bin);
      size := size + seq(more, _ => ZERO);
      prev := prev + seq(more, _ => ZERO);
      fwd := fwd + seq(more, _ => NIL);
      bwd := bwd + seq(more, _ => NIL);
      var bytes := GRANULE * size[top].granules + heapSize / 2;
      size := size[top := Word(bytes / GRANULE, bytes % 2 == 1)];
      topOdd := bytes % GRANULE;
      Grown(size0, prev0, old(fwd), old(bwd), size, prev);
    }

    lemma Grown(size0: seq<Word>, prev0: seq<Word>, fwd0: seq<int>, bwd0: seq<int>, size': seq<Word>, prev': seq<Word>)
      requires Tiling(size0, prev0, chunks, top) && top < |size0| == |prev0| <= |size'| == |prev'|
      requires forall h | 0 <= h < |size0| :: prev'[h] == prev0[h] && (h != top ==> size'[h] == size0[h])
      requires AllSpaced(size0, chunks) && Listed(chunks, top, size0, fwd0, bwd0, bin, {})
      requires |fwd0| == |bwd0| == |size0| && fwd0 <= fwd && bwd0 <= bwd
      ensures Tiling(size', prev', chunks, top) && Live(size', chunks) == Live(size0, chunks)
      ensures AllSpaced(size', chunks) && Listed(chunks, top, size', fwd, bwd, bin, {})
      ensures forall e | e in bin :: 0 <= e < |size0| && e != top
    {
      TiledBounds(size0, prev0, 0, ZERO, chunks, top, prev0[top]);
      TiledFrame(size0, prev0, size', prev', 0, ZERO, chunks, top, prev0[top]);
      SpacedFrame(size0, size', false, chunks);
    }

    /** Init: one chunk, the top, over the whole heap. */
    constructor (initialSize: nat, maxHeapSize: nat)
      requires 0 < initialSize <= BITMAP_LIMIT
      ensures Valid() && LiveChunks() == map[] && chunks == [] && top == 0 && bin == map[]
      ensures heapSize % GRANULE == 0 && heapSize - GRANULE < initialSize <= heapSize && maxHeap == maxHeapSize
    {
      var n := (initialSize + GRANULE - 1) / GRANULE;
      maxHeap := maxHeapSize;
      bitmap := {};
      heapSize := GRANULE * n;
      top, topOdd := 0, 0;
      size := seq(n, i => if i == 0 then Word(n, false) else ZERO);
      prev := seq(n, _ => ZERO);
      fwd := seq(n, _ => NIL);
      bwd := seq(n, _ => NIL);
      bins := seq(NUM_BINS, _ => NIL);
      chunks, lists, bin := [], seq(NUM_BINS, _ => []), map[];
    }

    // ------------------------------------------------------------ the check

    /** The heap's own consistency check. It complains of a heap that the limit has clamped, if there
        is a chunk below the top and the sizes do not add up, and never of anything else. */
    method Verify() returns (report: Report)
      requires Laid()
      ensures report == if top == 0 || GRANULE * top + TopSize() == heapSize then Silent else WrongSum
    {
      hide Good, Listed, AllSpaced, BinIndex;
      if top == 0 {
        return Silent;
      }
      var chunk: nat, before: int, sum: nat := 0, NIL, 0;
      ghost var done: seq<nat>, rest, w := [], chunks, ZERO;
      SomeChunk();
      while true
        invariant chunks == done + rest && rest != [] && sum == GRANULE * chunk
        invariant Tiled(size, prev, chunk, w, rest, top, prev[top])
        invariant if before == NIL then done == [] else 0 <= before < |size| && size[before] == w
        decreases rest
      {
        assert rest[0] == chunk && chunk in chunks;
        TiledBounds(size, prev, chunk, w, rest, top, prev[top]);
        LinksAgree(chunk);
        sum := sum + GRANULE * size[chunk].granules;
        if chunk > top {
          return PastTop;
        }
        if before != NIL && prev[chunk] != size[before] {
          return WrongPrevSize;
        }
        if bwd[chunk] != NIL && fwd[bwd[chunk]] != NIL && fwd[bwd[chunk]] == fwd[fwd[bwd[chunk]]] {
          return LoopInList;
        }
        if bwd[chunk] != NIL && fwd[chunk] != NIL && fwd[bwd[chunk]] == bwd[chunk] {
          return LoopInList;
        }
        before := chunk;
        w := size[chunk];
        chunk := chunk + size[chunk].granules;
        done, rest := done + [rest[0]], rest[1..];
        if chunk == top {
          break;
        }
      }
      if fwd[top] != NIL || bwd[top] != NIL {
        return TopListed;
      }
      sum := sum + TopSize();
      if sum != heapSize {
        return WrongSum;
      }
      return Silent;
    }

    lemma SomeChunk()
      requires Laid() && top != 0
      ensures chunks != []
    {
    }

    /** A chunk's links lead to chunks that link back, and never to itself. */
    lemma LinksAgree(h: nat)
      requires Laid() && h in chunks
      ensures h < |fwd| && NIL <= fwd[h] < |fwd| && NIL <= bwd[h] < |fwd| && fwd[h] != h
      ensures bwd[h] != NIL ==> fwd[bwd[h]] == h && bwd[h] != h
      ensures fwd[top] == NIL && bwd[top] == NIL
    {
      TiledBounds(size, prev, 0, ZERO, chunks, top, prev[top]);
      if h in bin {
        Neighbours(fwd, bwd, bins, lists, bin, h, bin[h]);
        var l := lists[bin[h]];
        assert Chain(fwd, bwd, NIL, bins[bin[h]], l);
        ChainLinks(fwd, bwd, NIL, bins[bin[h]], l, h);
        ChainMirror(fwd, bwd, NIL, bins[bin[h]], l, h);
      }
    }

    // ------------------------------------------------- the public operations

    /** A heap request can be met: some listed chunk is larger, or the top chunk is, perhaps after
        doublings that the limits allow. `use` says how much memory is in use at each growth. */
    ghost predicate CanServe(n: nat, use: seq<nat>)
      reads this
    {
      !NoneFits(n) || Growable(heapSize, TopSize(), GRANULE * n, maxHeap, use)
    }

    /** Grow until the top chunk is larger than the request. This stops without having got there when
        the heap is no longer well formed, or when nothing is known any more of the memory in use. */
    method GrowFor(n: nat, use: seq<nat>) returns (ok: bool)
      requires Valid()
      modifies this`size, this`prev, this`fwd, this`bwd, this`heapSize, this`topOdd
      ensures ok == old(Growable(heapSize, TopSize(), GRANULE * n, maxHeap, use))
      ensures ok ==> Valid() && n < size[top].granules && heapSize >= old(heapSize)
      ensures Laid() && LiveChunks() == old(LiveChunks()) &&
              (GRANULE * n < old(TopSize()) ==> heapSize == old(heapSize))
    {
      hide Good, Tiling, AllSpaced, Live, Listed, BinIndex, KHeap.Lists;
      ghost var h0, g0 := heapSize, TopSize();
      var i := 0;
      assert use[0..] == use;
      while GRANULE * n >= TopSize()
        invariant i <= |use| && Valid() && LiveChunks() == old(LiveChunks()) && heapSize >= h0
        invariant Growable(heapSize, TopSize(), GRANULE * n, maxHeap, use[i..]) ==
                  Growable(h0, g0, GRANULE * n, maxHeap, use)
        invariant GRANULE * n < g0 ==> heapSize == h0 && TopSize() == g0
        decreases |use| - i
      {
        if i == |use| {
          return false;
        }
        assert use[i..][1..] == use[i + 1..];
        GrowHeap(use[i]);
        if !TopFits() || heapSize > BITMAP_LIMIT {
          return false;
        }
        i := i + 1;
      }
      ok := true;
    }

    /** Take a listed chunk; only requests of 1024 bytes or more split it. */
    method TakeListed(entry: nat, n: nat, ghost l1: seq<nat>, ghost l2: seq<nat>)
      requires Lists() && Shape(prev) && Listing({entry}) && AllSpaced(size, chunks)
      requires chunks == l1 + ([entry] + l2) && IsFree(size, entry) && 0 < n < size[entry].granules
      modifies this
      ensures Valid() && entry in LiveChunks() && maxHeap == old(maxHeap)
      ensures LiveChunks() == old(LiveChunks())[entry := if GRANULE * n >= 1024 then n else old(size[entry].granules)]
      ensures if GRANULE * n >= 1024 then FirstNow(old(lists), entry + n) else lists == old(lists)
    {
      var entrySize := size[entry].granules;
      if GRANULE * n >= 1024 && entrySize > n {
        SplitAndPush(entry, n, l1, l2);
      } else {
        MarkInUse(entry, l1, l2);
      }
    }

    /** An unlinked chunk goes into use as it is, and the header after it says so. */
    method MarkInUse(entry: nat, ghost l1: seq<nat>, ghost l2: seq<nat>)
      requires Lists() && Shape(prev) && Listing({entry}) && AllSpaced(size, chunks)
      requires chunks == l1 + ([entry] + l2) && IsFree(size, entry)
      modifies this`size, this`prev
      ensures Valid() && LiveChunks() == old(LiveChunks())[entry := old(size[entry].granules)]
    {
      hide Good, Tiled, Live, BinIndex;
      Reflag(size, prev, l1, entry, l2, top, true);
      Place(size, prev, l1, entry, l2, top);
      SpacedAround(size, l1, entry, l2);
      ghost var size' := size[entry := Word(size[entry].granules, true)];
      AroundFrame(size, size', l1, l2);
      SpacedAround(size', l1, entry, l2);
      var next := entry + size[entry].granules;
      size := size[entry := Word(size[entry].granules, true)];
      prev := prev[next := size[entry]];
    }

    /** `n` granules were taken from the start of the top chunk. */
    ghost predicate FromTop(entry: nat, n: nat, top0: nat, topSize0: nat, bin0: map<int, int>, heapSize0: nat)
      reads this
    {
      && entry == top0 && top == top0 + n && bin == bin0 && heapSize >= heapSize0
      && (GRANULE * n < topSize0 ==> heapSize == heapSize0)
      && entry in LiveChunks() && LiveChunks()[entry] == n
    }

    /** A listed chunk of the highest class that there is, larger than `n` granules, and the first such in
        its list. */
    ghost predicate FirstOfHighest(entry: int, n: nat)
      reads this`size, this`bin, this`lists
    {
      HighestClass(entry) && exists b :: 0 <= b < |lists| && FirstLarger(lists[b], entry, n)
    }

    /** A chunk for `n` granules. */
    method AllocateChunk(n: nat, use: seq<nat>) returns (ok: bool, entry: nat)
      requires Valid() && 0 < n && GRANULE * n < PMM_THRESHOLD
      modifies this
      ensures ok == old(CanServe(n, use))
      ensures !ok ==> Laid() && LiveChunks() == old(LiveChunks()) && lists == old(lists)
      ensures maxHeap == old(maxHeap)
      ensures ok ==>
        && Valid() && entry !in old(LiveChunks()) && entry in LiveChunks()
        && LiveChunks() == old(LiveChunks())[entry := LiveChunks()[entry]]
        && LiveChunks()[entry] >= n && (LiveChunks()[entry] == n || GRANULE * n < 1024)
      ensures ok && old(NoneFits(n)) ==> FromTop(entry, n, old(top), old(TopSize()), old(bin), old(heapSize))
      ensures ok && !old(NoneFits(n)) ==>
        && entry in old(bin) && 0 <= entry < old(|size|)
        && LiveChunks()[entry] == (if GRANULE * n < 1024 then old(size[entry].granules) else n)
        && old(FirstOfHighest(entry, n))
        && if GRANULE * n < 1024 then lists == Unlisted(old(lists), entry)
           else FirstNow(Unlisted(old(lists), entry), entry + n)
      ensures old(NoneFits(n)) ==> lists == old(lists)
    {
      hide *;
      Served(n, use);
      var found;
      ghost var l1, l2;
      found, l1, l2 := Unlist(n);
      if found != NIL {
        ok, entry := true, found;
        TakeListed(entry, n, l1, l2);
      } else {
        ok, entry := TakeGrown(n, use);
      }
    }

    lemma Served(n: nat, use: seq<nat>)
      ensures CanServe(n, use) <==> !NoneFits(n) || Growable(heapSize, TopSize(), GRANULE * n, maxHeap, use)
    {
    }

    /** Finds and unlinks a chunk in a valid heap. */
    method Unlist(n: nat) returns (found: int, ghost l1: seq<nat>, ghost l2: seq<nat>)
      requires Valid() && 0 < n && GRANULE * n < PMM_THRESHOLD
      modifies this`fwd, this`bwd, this`bins, this`bitmap, this`lists, this`bin
      ensures found == NIL <==> old(NoneFits(n))
      ensures found == NIL ==> Valid() && lists == old(lists) && bin == old(bin) && LiveChunks() == old(LiveChunks())
      ensures found != NIL ==>
        && 0 <= found < |size| && found in old(bin) && found !in LiveChunks() && n < size[found].granules
        && Lists() && Shape(prev) && Listing({found}) && AllSpaced(size, chunks) && IsFree(size, found)
        && chunks == l1 + ([found as nat] + l2)
        && old(FirstOfHighest(found, n)) && lists == Unlisted(old(lists), found) && LiveChunks() == old(LiveChunks())
    {
      hide FirstOfHighest, Unlisted, NoneFits, Good, Tiling, AllSpaced, BinIndex;
      ValidBounded();
      BinBound(GRANULE * n);
      ghost var fwd0, bwd0, bin0 := fwd, bwd, bin;
      found := FindEntry(n);
      l1, l2 := [], [];
      if found != NIL {
        ListedWithout(chunks, top, size, fwd0, bwd0, fwd, bwd, bin0, {}, found);
        assert {} + {found as nat} == {found as nat};
        l1, l2 := SplitAt(chunks, found);
      }
    }

    /** A chunk from the top, which may have to grow first. */
    method TakeGrown(n: nat, use: seq<nat>) returns (ok: bool, entry: nat)
      requires Valid() && 0 < n
      modifies this`size, this`prev, this`fwd, this`bwd, this`heapSize, this`topOdd, this`top, this`chunks
      ensures ok == old(Growable(heapSize, TopSize(), GRANULE * n, maxHeap, use))
      ensures !ok ==> Laid() && LiveChunks() == old(LiveChunks())
      ensures ok ==>
        && Valid() && FromTop(entry, n, old(top), old(TopSize()), old(bin), old(heapSize))
        && entry !in old(LiveChunks()) && LiveChunks() == old(LiveChunks())[entry := n]
    {
      hide Good, Tiling, AllSpaced, Live, Listed, BinIndex, KHeap.Lists;
      entry := 0;
      ok := GrowFor(n, use);
      if ok {
        NewChunk();
        entry := TakeTop(n);
      }
    }

    lemma NewChunk()
      requires Valid()
      ensures top !in LiveChunks()
    {
      TiledBounds(size, prev, 0, ZERO, chunks, top, prev[top]);
    }

    /** Gives out memory. A request that the heap cannot meet, even by growing, is not served; all others
        leave the heap as it must be. */
    method Allocate(bytes: nat, use: seq<nat>) returns (r: Allocation)
      requires Valid()
      modifies this
      ensures r == Null <==> bytes == 0
      ensures r.FromPmm? <==> bytes > 0 && GRANULE * Granules(bytes) >= PMM_THRESHOLD
      ensures r.FromPmm? ==> r.bytes == GRANULE * Granules(bytes)
      ensures r.Unserved? <==>
                bytes > 0 && GRANULE * Granules(bytes) < PMM_THRESHOLD && !old(CanServe(Granules(bytes), use))
      ensures Laid() && (!r.Unserved? ==> Valid()) && maxHeap == old(maxHeap)
      ensures !r.InHeap? ==> LiveChunks() == old(LiveChunks())
      ensures r.InHeap? ==>
        && r.chunk !in old(LiveChunks()) && r.chunk in LiveChunks()
        && LiveChunks() == old(LiveChunks())[r.chunk := LiveChunks()[r.chunk]]
        && GRANULE * LiveChunks()[r.chunk] >= bytes + HEADER
        && (LiveChunks()[r.chunk] == Granules(bytes) || GRANULE * Granules(bytes) < 1024)
      ensures r.InHeap? && old(NoneFits(Granules(bytes))) ==>
        FromTop(r.chunk, Granules(bytes), old(top), old(TopSize()), old(bin), old(heapSize))
      ensures r.InHeap? && !old(NoneFits(Granules(bytes))) ==>
        && r.chunk in old(bin) && r.chunk < old(|size|)
        && LiveChunks()[r.chunk] == (if GRANULE * Granules(bytes) < 1024 then old(size[r.chunk].granules)
                                     else Granules(bytes))
        && old(FirstOfHighest(r.chunk, Granules(bytes)))
        && if GRANULE * Granules(bytes) < 1024 then lists == Unlisted(old(lists), r.chunk)
           else FirstNow(Unlisted(old(lists), r.chunk), r.chunk + Granules(bytes))
      ensures !r.InHeap? || old(NoneFits(Granules(bytes))) ==> lists == old(lists)
    {
      hide *;
      Sound();
      if bytes == 0 {
        return Null;
      }
      var before := Verify();
      assert before == Silent;
      var n := Granules(bytes);
      if GRANULE * n >= PMM_THRESHOLD {
        return FromPmm(GRANULE * n);
      }
      var ok, entry := AllocateChunk(n, use);
      if !ok {
        return Unserved;
      }
      Sound();
      Enough(bytes);
      var after := Verify();
      assert after == Silent;
      return InHeap(entry);
    }

    lemma Sound()
      requires Valid()
      ensures Laid() && GRANULE * top + TopSize() == heapSize
    {
      hide Lists, Tiling, AllSpaced, Listing;
    }

    lemma Enough(bytes: nat)
      ensures bytes > 0 ==> GRANULE * Granules(bytes) >= bytes + HEADER
    {
    }

    method Free(a: Allocation) returns (to: Release)
      requires Valid() && !a.Unserved? && (a.InHeap? ==> a.chunk in LiveChunks())
      modifies this
      ensures Valid() && top <= old(top) && heapSize == old(heapSize)
      ensures to == match a
        case Null => Ignored
        case FromPmm(_) => ToPmm
        case InHeap(c) => if GRANULE * old(LiveChunks())[c] >= PMM_THRESHOLD then ToPmm else ToHeap
      ensures LiveChunks() == if to == ToHeap then old(LiveChunks()) - {a.chunk} else old(LiveChunks())
      ensures if to == ToHeap then a.InHeap? && GivenBack(old(lists), a.chunk, old(LiveChunks())[a.chunk])
              else lists == old(lists)
    {
      hide GivenBack;
      match a
      case Null => to := Ignored;
      case FromPmm(_) => to := ToPmm;
      case InHeap(c) => to := FreeChunk(c);
      var report := Verify();
      assert report == Silent;
    }

    /** Whatever a user writes into an allocation's payload, which no header shares, the heap
        stays valid. */
    method UserWrite(h: nat, x: nat, s: Word, p: Word, f: int, b: int)
      requires Valid() && h in LiveChunks() && h < x < h + LiveChunks()[h]
      modifies this`size, this`prev, this`fwd, this`bwd
      ensures Valid() && LiveChunks() == old(LiveChunks()) && x < |size| && size[x] == s
    {
      hide Good, Tiled, Spaced, LastFree;
      NotAHeader(h, x);
      WriteUnlisted(fwd, bwd, bins, lists, bin, x, f, b);
      TiledFrame(size, prev, size[x := s], prev[x := p], 0, ZERO, chunks, top, prev[top]);
      SpacedFrame(size, size[x := s], false, chunks);
      size := size[x := s];
      prev := prev[x := p];
      fwd := fwd[x := f];
      bwd := bwd[x := b];
    }

    /** A request smaller than the top chunk can be met. */
    lemma Roomy(n: nat)
      requires Valid() && GRANULE * (top + n) < heapSize
      ensures CanServe(n, []) && (bin == map[] ==> NoneFits(n))
    {
      hide Lists, Listing;
    }

    lemma Fits(e: nat, n: nat)
      requires Valid() && e in bin && e < |size| && n < size[e].granules
      ensures CanServe(n, []) && !NoneFits(n)
    {
      hide Lists, Listing;
    }

    lemma TopAfter(h: nat)
      requires Valid() && h in LiveChunks()
      ensures h < top && h + LiveChunks()[h] <= top
    {
      TiledBounds(size, prev, 0, ZERO, chunks, top, prev[top]);
    }

    /** A chunk in use before the top, and nothing else: the rest is one free chunk. */
    lemma OneGap(h: nat)
      requires Valid() && 0 < h < top && LiveChunks() == map[h := top - h]
      ensures 0 < |size| && size[0].granules == h && 0 in bin && forall e | e in bin :: e == 0
    {
      OneFree(size, prev, chunks, top, h);
    }

    lemma NotAHeader(h: nat, x: nat)
      requires Valid() && h in LiveChunks() && h < x < h + LiveChunks()[h]
      ensures x < |size| && x != top && x !in chunks
    {
      TiledBounds(size, prev, 0, ZERO, chunks, top, prev[top]);
      if x in chunks {
        TiledApart(size, prev, 0, ZERO, chunks, top, prev[top], h, x);
      }
    }

    /** Payloads of different allocations do not overlap, and none reaches the top chunk. */
    lemma PayloadsDisjoint(h: nat, k: nat)
      requires Valid() && h in LiveChunks() && k in LiveChunks() && h < k
      ensures h + LiveChunks()[h] <= k && k + LiveChunks()[k] <= top
    {
      TiledBounds(size, prev, 0, ZERO, chunks, top, prev[top]);
      TiledApart(size, prev, 0, ZERO, chunks, top, prev[top], h, k);
    }

    /** The chunk before a merging one, when it is free. */
    lemma PrevFree(e: nat, l1: seq<nat>, l2: seq<nat>, vp: seq<Word>)
      requires Merging(e, l1, l2) && vp == prev[e + size[e].granules := size[e]] && l1 != []
      requires var p := l1[|l1| - 1]; p < |size| && IsFree(size, p)
      ensures var p, l := l1[|l1| - 1], l1[..|l1| - 1];
        && l1 + ([e] + l2) == l + ([p] + ([e] + l2)) && Around(size, l, l2) && !LastFree(size, false, l)
        && p in chunks && p in bin
    {
      var p, l := l1[|l1| - 1], l1[..|l1| - 1];
      assert l1 == l + [p];
      SpacedJoin(size, false, l, [p]);
      PiecesOf(l, [p], [e] + l2);
      Place(size, vp, l1, e, l2, top);
      assert p in l1;
    }

    /** A chunk below the top is small enough for the bitmap. */
    lemma ChunkSmall(h: nat, vp: seq<Word>)
      requires Shape(vp) && (h in chunks || (h == top && top > 0))
      ensures h < |size| && BinIndex(GRANULE * size[h].granules) < 64
    {
      TiledBounds(size, vp, 0, ZERO, chunks, top, vp[top]);
      BinBound(GRANULE * size[h].granules);
    }
  }

  /** A small request keeps all of the listed chunk it finds, so that giving it back may be taken for
      giving a block back to the page allocator. Here two neighbours of 8 KiB are freed, and the 16
      KiB that they make are given out for a request of 32 bytes; the heap never gets them back. */
  method FreedBySize() returns (heap: KHeap, small: Allocation, to: Release)
    ensures heap.Valid() && fresh(heap)
    ensures small.InHeap? && Granules(32) == 2 && heap.LiveChunks() == map[512 := 2][small.chunk := 512]
    ensures to == ToPmm
  {
    hide KHeap.Valid, KHeap.Lists, KHeap.Shape, KHeap.Listing, KHeap.LiveChunks, KHeap.FirstOfHighest, KHeap.GivenBack,
         KHeap.FirstNow, KHeap.CanServe;
    heap := new KHeap(19200, 19200);
    assert Granules(8160) == 256 && Granules(32) == 2;
    heap.Roomy(256);
    var first := heap.Allocate(8160, []);
    heap.Roomy(256);
    var second := heap.Allocate(8160, []);
    heap.Roomy(2);
    var guard := heap.Allocate(32, []);
    assert heap.LiveChunks() == map[0 := 256, 256 := 256, 512 := 2];
    to := heap.Free(first);
    to := heap.Free(second);
    assert heap.LiveChunks() == map[512 := 2];
    heap.TopAfter(512);
    heap.OneGap(512);
    heap.Fits(0, 2);
    small := heap.Allocate(32, []);
    to := heap.Free(small);
  }

  /** A heap of 1 MiB with a limit just short of 2 MiB. Growing it makes the top chunk reach 16 bytes
      beyond the heap, of which the check complains. */
  method GrownToLimit() returns (heap: KHeap, report: Report)
    ensures heap.heapSize == 0x1F_FFE0 && GRANULE * heap.top + heap.TopSize() == heap.heapSize + 16
    ensures !heap.Valid() && report == WrongSum
  {
    hide KHeap.Lists, KHeap.Listing, KHeap.LiveChunks, KHeap.FirstOfHighest, KHeap.FirstNow;
    heap := new KHeap(0x10_0000, 0x1F_FFE0);
    assert Granules(32) == 2;
    heap.Roomy(2);
    var some := heap.Allocate(32, []);
    heap.Sound();
    heap.GrowHeap(0);
    report := heap.Verify();
  }
}
