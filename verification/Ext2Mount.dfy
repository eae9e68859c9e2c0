/** Inode numbers and the bitmaps they are allocated from, one bitmap to a block group. */
module Ext2Mount {
  import BlockMap

  const WORD: nat := 64

  /** One plus the index of the lowest set bit, or 0 if there is none. */
  function FindFirstSet(w: seq<bool>): (r: nat)
    ensures r <= |w| && (forall k | 0 <= k < r - 1 :: !w[k])
    ensures r > 0 ==> w[r - 1]
    ensures r == 0 ==> forall k | 0 <= k < |w| :: !w[k]
  {
    if w == [] then 0
    else if w[0] then 1
    else
      var r := FindFirstSet(w[1..]);
      assert forall k | 0 < k < |w| :: w[k] == w[1..][k - 1];
      if r == 0 then 0 else r + 1
  }

  function Word(b: seq<bool>, j: nat): (w: seq<bool>)
    requires WORD * j + WORD <= |b|
    ensures |w| == WORD && forall k | 0 <= k < WORD :: w[k] == b[WORD * j + k]
  {
    b[WORD * j..WORD * j + WORD]
  }

  predicate Full(w: seq<bool>) {
    forall k | 0 <= k < |w| :: w[k]
  }

  /** A group has an inode left, by its count and by its bitmap, which can be read. */
  predicate Usable(count: nat, readable: bool, bits: seq<bool>) {
    count > 0 && readable && !Full(bits)
  }

  /** The lowest clear bit of the bitmap of group `g`; inode 1 is not to be had. */
  ghost predicate Lowest(bits: seq<bool>, g: nat, b: nat) {
    && b < |bits| && !bits[b] && (g, b) != (0, 0)
    && forall k | 0 <= k < b && (g, k) != (0, 0) :: bits[k]
  }

  /** Of the first word of the bitmap, only the first bit is clear. */
  predicate OnlyFirst(bits: seq<bool>) {
    |bits| >= WORD && !bits[0] && forall k | 1 <= k < WORD :: bits[k]
  }

  /** The bit of inode number `n` is set. */
  predicate Taken(bitmaps: seq<seq<bool>>, perGroup: nat, n: nat)
    requires perGroup > 0
  {
    n > 0 && var g, b := (n - 1) / perGroup, (n - 1) % perGroup; g < |bitmaps| && b < |bitmaps[g]| && bitmaps[g][b]
  }

  /** Setting the bit of a number, or clearing it, concerns that number alone. */
  lemma OneBit(bitmaps: seq<seq<bool>>, perGroup: nat, ino: nat, on: bool)
    requires perGroup > 0 && ino > 0
    requires var g, b := (ino - 1) / perGroup, (ino - 1) % perGroup; g < |bitmaps| && b < |bitmaps[g]|
    ensures var g, b := (ino - 1) / perGroup, (ino - 1) % perGroup;
            var bitmaps' := bitmaps[g := bitmaps[g][b := on]];
            forall n: nat :: Taken(bitmaps', perGroup, n) <==> if n == ino then on else Taken(bitmaps, perGroup, n)
  {
    var g, b := (ino - 1) / perGroup, (ino - 1) % perGroup;
    var bitmaps' := bitmaps[g := bitmaps[g][b := on]];
    forall n: nat
      ensures Taken(bitmaps', perGroup, n) <==> if n == ino then on else Taken(bitmaps, perGroup, n)
    {
      if n > 0 && n != ino {
        Split(n - 1, perGroup);
        Split(ino - 1, perGroup);
      }
    }
  }

  lemma Split(n: nat, d: nat)
    requires d > 0
    ensures 0 <= n / d && 0 <= n % d < d && n == (n / d) * d + n % d
  {
  }

  class Ext2Mount {
    const inodesPerGroup: nat
    /** The number of words of a bitmap. */
    const words: nat
    var bitmaps: seq<seq<bool>>
    var freeInodes: seq<nat>

    /** A bitmap has a bit for every inode of its group; what bits it has beyond that are set. */
    predicate Valid()
      reads this
    {
      && 0 < inodesPerGroup <= WORD * words && |bitmaps| == |freeInodes|
      && (forall g | 0 <= g < |bitmaps| :: |bitmaps[g]| == WORD * words)
      && (forall g, b | 0 <= g < |bitmaps| && inodesPerGroup <= b < WORD * words :: bitmaps[g][b])
    }

    constructor (inodesPerGroup: nat, words: nat, bitmaps: seq<seq<bool>>, freeInodes: seq<nat>)
      requires 0 < inodesPerGroup <= WORD * words && |bitmaps| == |freeInodes|
      requires forall g | 0 <= g < |bitmaps| :: |bitmaps[g]| == WORD * words
      requires forall g, b | 0 <= g < |bitmaps| && inodesPerGroup <= b < WORD * words :: bitmaps[g][b]
      ensures Valid() && this.bitmaps == bitmaps && this.freeInodes == freeInodes
      ensures this.inodesPerGroup == inodesPerGroup
    {
      this.inodesPerGroup, this.words := inodesPerGroup, words;
      this.bitmaps, this.freeInodes := bitmaps, freeInodes;
    }

    /** Inode number `n` has been given out. */
    predicate InUse(n: nat)
      reads this
    {
      inodesPerGroup > 0 && Taken(bitmaps, inodesPerGroup, n)
    }

    /** Takes the lowest clear bit of the first group that has an inode left, or nothing. As written,
        it gives out inode 0, and changes no bit, if that is the bit of inode 1 and the other bits of
        its word are set. */
    method AllocINode(readable: seq<bool>) returns (ino: int)
      requires Valid() && |readable| == |bitmaps|
      modifies this`bitmaps, this`freeInodes
      ensures Valid() && -1 <= ino
      ensures ino == -1 <==> forall g | 0 <= g < |readable| :: !old(Usable(freeInodes[g], readable[g], bitmaps[g]))
      ensures ino == -1 ==> bitmaps == old(bitmaps) && freeInodes == old(freeInodes)
      ensures ino == 0 <==>
                |readable| > 0 && old(Usable(freeInodes[0], readable[0], bitmaps[0])) && old(OnlyFirst(bitmaps[0]))
      ensures ino == 0 ==>
                |freeInodes| > 0 && bitmaps == old(bitmaps) && old(freeInodes[0]) == freeInodes[0] + 1 &&
                freeInodes == old(freeInodes)[0 := freeInodes[0]]
      ensures ino > 0 ==>
                var g, b := (ino - 1) / inodesPerGroup, (ino - 1) % inodesPerGroup;
                && g < |readable| && old(Usable(freeInodes[g], readable[g], bitmaps[g]))
                && (forall h | 0 <= h < g :: !old(Usable(freeInodes[h], readable[h], bitmaps[h])))
                && Lowest(old(bitmaps)[g], g, b) && bitmaps == old(bitmaps)[g := old(bitmaps)[g][b := true]]
                && freeInodes == old(freeInodes)[g := old(freeInodes)[g] - 1]
      ensures ino > 0 ==> !old(InUse(ino)) && forall n: nat :: InUse(n) <==> old(InUse(n)) || n == ino
    {
      hide Full, Lowest, OnlyFirst, Taken;
      ino := -1;
      var i := 0;
      while i < |bitmaps| && ino == -1
        invariant i <= |bitmaps| && ino == -1
        invariant bitmaps == old(bitmaps) && freeInodes == old(freeInodes)
        invariant forall g | 0 <= g < i :: !Usable(freeInodes[g], readable[g], bitmaps[g])
      {
        if freeInodes[i] > 0 && readable[i] {
          var j := FirstWord(i);
          if j < words {
            ghost var b;
            ino, b := Take(i, j);
            if ino > 0 {
              Number(i, b, inodesPerGroup);
              NotTaken(old(bitmaps)[i], i, b);
              OneBit(old(bitmaps), inodesPerGroup, ino, true);
            }
            assert Usable(old(freeInodes)[i], readable[i], old(bitmaps)[i]);
            return;
          }
        }
        i := i + 1;
      }
    }

    /** The first word of a group's bitmap that has a clear bit. */
    method FirstWord(i: nat) returns (j: nat)
      requires Valid() && i < |bitmaps|
      ensures j <= words && forall k | 0 <= k < WORD * j :: bitmaps[i][k]
      ensures j == words <==> Full(bitmaps[i])
      ensures j < words ==> !Full(Word(bitmaps[i], j))
    {
      j := 0;
      while j < words
        invariant j <= words && forall k | 0 <= k < WORD * j :: bitmaps[i][k]
      {
        var w := Word(bitmaps[i], j);
        if !Full(w) {
          var k :| 0 <= k < WORD && !w[k];
          assert !bitmaps[i][WORD * j + k];
          return;
        }
        forall k | WORD * j <= k < WORD * (j + 1)
          ensures bitmaps[i][k]
        {
          assert w[k - WORD * j];
        }
        j := j + 1;
      }
    }

    /** Takes the lowest clear bit of a word. */
    method Take(i: nat, j: nat) returns (ino: nat, ghost b: nat)
      requires Valid() && i < |bitmaps| && j < words && freeInodes[i] > 0
      requires (forall k | 0 <= k < WORD * j :: bitmaps[i][k]) && !Full(Word(bitmaps[i], j))
      modifies this`bitmaps, this`freeInodes
      ensures Valid() && freeInodes == old(freeInodes)[i := old(freeInodes)[i] - 1]
      ensures ino == 0 <==> i == 0 && OnlyFirst(old(bitmaps)[i])
      ensures ino == 0 ==> bitmaps == old(bitmaps)
      ensures ino > 0 ==>
                && b < inodesPerGroup && ino == i * inodesPerGroup + b + 1 && Lowest(old(bitmaps)[i], i, b)
                && bitmaps == old(bitmaps)[i := old(bitmaps)[i][b := true]]
    {
      hide Full, Lowest, OnlyFirst;
      var w := Word(bitmaps[i], j);
      var free := seq(WORD, k requires 0 <= k < |w| => !w[k] && !(i == 0 && j == 0 && k == 0));
      var unset := FindFirstSet(free);
      ino := i * inodesPerGroup + WORD * j + unset;
      freeInodes := freeInodes[i := freeInodes[i] - 1];
      b := 0;
      if unset > 0 {
        b := WORD * j + (unset - 1);
        TakenBit(i, bitmaps[i], j, w, free, unset);
        var bit := WORD * j + (unset - 1);
        bitmaps := bitmaps[i := bitmaps[i][bit := true]];
      } else {
        NoBit(i, bitmaps[i], j, w, free);
      }
    }

    lemma TakenBit(i: nat, bits: seq<bool>, j: nat, w: seq<bool>, free: seq<bool>, unset: nat)
      requires |bits| == WORD * words && j < words && w == Word(bits, j)
      requires (forall k | 0 <= k < WORD * j :: bits[k]) && forall b | inodesPerGroup <= b < WORD * words :: bits[b]
      requires |free| == WORD && forall k | 0 <= k < WORD :: free[k] == (!w[k] && !(i == 0 && j == 0 && k == 0))
      requires unset == FindFirstSet(free) > 0
      ensures Lowest(bits, i, WORD * j + (unset - 1)) && WORD * j + (unset - 1) < inodesPerGroup
      ensures !(i == 0 && OnlyFirst(bits))
    {
      var b := WORD * j + (unset - 1);
      forall k | 0 <= k < b && (i, k) != (0, 0)
        ensures bits[k]
      {
        if k >= WORD * j {
          assert !free[k - WORD * j];
        }
      }
      assert !bits[b];
    }

    lemma NoBit(i: nat, bits: seq<bool>, j: nat, w: seq<bool>, free: seq<bool>)
      requires |bits| == WORD * words && j < words && w == Word(bits, j) && !Full(w)
      requires |free| == WORD && forall k | 0 <= k < WORD :: free[k] == (!w[k] && !(i == 0 && j == 0 && k == 0))
      requires FindFirstSet(free) == 0
      ensures i == 0 && j == 0 && OnlyFirst(bits)
    {
      var k :| 0 <= k < WORD && !w[k];
      assert !free[k];
      assert forall k | 1 <= k < WORD :: !free[k] && w[k] == bits[k];
    }

    /** The bit of an inode number is that of its group and its place there. */
    lemma Number(g: nat, b: nat, n: nat)
      requires b < n
      ensures (g * n + b) / n == g && (g * n + b) % n == b
    {
      BlockMap.Quotient(g * n + b, g, n, b);
    }

    lemma NotTaken(bits: seq<bool>, i: nat, b: nat)
      requires Lowest(bits, i, b)
      ensures b < |bits| && !bits[b]
      ensures forall bitmaps: seq<seq<bool>>, n | inodesPerGroup > 0 && i < |bitmaps| && bitmaps[i] == bits
                && n > 0 && (n - 1) / inodesPerGroup == i && (n - 1) % inodesPerGroup == b ::
                !Taken(bitmaps, inodesPerGroup, n)
    {
    }

    /** Clears the bit of an inode; the count of its group stays as it is. */
    method DeleteINode(ino: nat)
      requires Valid() && ino > 0 && (ino - 1) / inodesPerGroup < |bitmaps|
      modifies this`bitmaps
      ensures Valid() && forall n: nat :: InUse(n) <==> old(InUse(n)) && n != ino
      ensures var g, b := (ino - 1) / inodesPerGroup, (ino - 1) % inodesPerGroup;
              && 0 <= g < |old(bitmaps)| && 0 <= b < |old(bitmaps)[g]|
              && bitmaps == old(bitmaps)[g := old(bitmaps)[g][b := false]]
    {
      hide Taken;
      var g, b := (ino - 1) / inodesPerGroup, (ino - 1) % inodesPerGroup;
      Split(ino - 1, inodesPerGroup);
      OneBit(bitmaps, inodesPerGroup, ino, false);
      bitmaps := bitmaps[g := bitmaps[g][b := false]];
    }

    /** An inode that is given out and given back leaves the bitmap as it was. But its group's count is
        one less: here it is 0 then, and nothing is given out any more. */
    method GivenBack() returns (first: int, second: int)
      requires Valid() && |bitmaps| == 1 && freeInodes == [1] && !Full(bitmaps[0]) && !OnlyFirst(bitmaps[0])
      modifies this`bitmaps, this`freeInodes
      ensures first > 0 && second == -1 && bitmaps == old(bitmaps) && !Full(bitmaps[0])
    {
      hide Full, OnlyFirst;
      first := AllocINode([true]);
      assert Usable(old(freeInodes)[0], [true][0], old(bitmaps)[0]);
      DeleteINode(first);
      assert bitmaps[0] == old(bitmaps)[0];
      second := AllocINode([true]);
    }
  }
}
