/** Looking up the blocks of an ext2 file, many at a time. */
module Ext2VNode {
  import opened Extents
  import opened BlockMap

  /** How a walk ends: with what was asked for; because a pointer was null or the file cannot be that
      long; by reading past the end of a table; or never, a table that cannot be read being tried again
      and again. */
  datatype Outcome = Done | Failed | Overrun | Stuck

  /** The `n` blocks a table leads to from the `c`th on are all there. */
  ghost predicate AllThere(disk: Disk, p: nat, level: nat, table: seq<nat>, c: nat, n: nat)
    requires p > 0
  {
    forall x: nat | c <= x < c + n :: Lookup(disk, p, level, table, x).Some?
  }

  /** They are those of `l`. */
  ghost predicate Are(disk: Disk, p: nat, level: nat, table: seq<nat>, c: nat, l: seq<nat>)
    requires p > 0
  {
    forall i: nat | i < |l| :: Lookup(disk, p, level, table, c + i) == Some(l[i])
  }

  /** A walk of this table comes to an end and finds what it looks for. */
  ghost predicate Walks(disk: Disk, p: nat, level: nat, table: seq<nat>, c: nat, len: nat)
    requires p > 0 && c < Pow(p, level + 1)
  {
    var s := Walk(p, level, c, len);
    s.Some? && AllThere(disk, p, level, table, c, s.value)
  }

  /** Blocks found through a table of the next level. */
  lemma Descend(disk: Disk, p: nat, level: nat, table: seq<nat>, c: nat, i: nat)
    requires p > 0 && level > 0 && c / Pow(p, level) < |table| && c % Pow(p, level) + i < Pow(p, level)
    ensures var q := Pow(p, level);
            var t := Table(disk, table[c / q]);
            Lookup(disk, p, level, table, c + i) == if t.None? then None
              else Lookup(disk, p, level - 1, t.value, c % q + i)
  {
    Inside(c, Pow(p, level), c / Pow(p, level) + 1, i);
  }

  class Ext2VNode {
    const ptrs: nat
    var inode: seq<nat>
    var disk: Disk

    ghost predicate Valid()
      reads this
    {
      ptrs > 0 && |inode| == 15 && forall k | k in disk :: |disk[k]| == ptrs
    }

    constructor (ptrs: nat, inode: seq<nat>, disk: Disk)
      requires ptrs > 0 && |inode| == 15 && forall k | k in disk :: |disk[k]| == ptrs
      ensures Valid() && this.ptrs == ptrs && this.inode == inode && this.disk == disk
    {
      this.ptrs, this.inode, this.disk := ptrs, inode, disk;
    }

    /** The number of blocks that a table of this level leads to. */
    method PtrsPerIndirectBlock(level: nat) returns (n: nat)
      ensures n == Pow(ptrs, level + 1)
    {
      n := ptrs;
      var i := 0;
      while i < level
        invariant i <= level && n == Pow(ptrs, i + 1)
      {
        n := n * ptrs;
        i := i + 1;
      }
    }

    method ReadBlock(k: nat) returns (r: Option<seq<nat>>)
      requires Valid()
      ensures r == Table(disk, k) && (r.Some? ==> |r.value| == ptrs)
    {
      r := if k == 0 || k !in disk then None else Some(disk[k]);
    }

    /** Lists blocks from the `blockNo`th of a table on: perhaps not all `len` of them, but some. */
    method GetFromTable(parent: seq<nat>, blockNo: nat, len: nat, extents0: seq<Extent>, level: nat)
      returns (outcome: Outcome, read: nat, extents: seq<Extent>)
      requires Valid() && |parent| == ptrs && blockNo < Pow(ptrs, level + 1) && Canonical(extents0)
      ensures Canonical(extents)
      ensures outcome == Done <==> Walks(disk, ptrs, level, parent, blockNo, len)
      ensures outcome == Done ==>
                && Walk(ptrs, level, blockNo, len) == Some(read) && |Flatten(extents)| == |Flatten(extents0)| + read
                && Flatten(extents)[..|Flatten(extents0)|] == Flatten(extents0)
                && Are(disk, ptrs, level, parent, blockNo, Flatten(extents)[|Flatten(extents0)|..])
      decreases level, 1
    {
      if level == 0 {
        outcome, read, extents := GetFromLeaf(parent, blockNo, len, extents0);
      } else {
        outcome, read, extents := GetFromTables(parent, blockNo, len, extents0, level);
      }
    }

    method GetFromTables(parent: seq<nat>, blockNo: nat, len: nat, extents0: seq<Extent>, level: nat)
      returns (outcome: Outcome, read: nat, extents: seq<Extent>)
      requires Valid() && |parent| == ptrs && blockNo < Pow(ptrs, level + 1) && Canonical(extents0) && level > 0
      ensures Canonical(extents)
      ensures outcome == Done <==> Walks(disk, ptrs, level, parent, blockNo, len)
      ensures outcome == Done ==>
                && Walk(ptrs, level, blockNo, len) == Some(read) && |Flatten(extents)| == |Flatten(extents0)| + read
                && Flatten(extents)[..|Flatten(extents0)|] == Flatten(extents0)
                && Are(disk, ptrs, level, parent, blockNo, Flatten(extents)[|Flatten(extents0)|..])
      decreases level, 0
    {
      hide Lookup, Walk, Loop, Pow, Walks, AllThere, Are, Canonical, Flatten, Table;
      var ptrsInChild := PtrsPerIndirectBlock(level - 1);
      LoopFirst(level, parent, blockNo, len);
      extents, read := extents0, 0;
      var c: nat, rest: nat := blockNo, len;
      ghost var l: seq<nat> := [];
      while read < rest
        invariant c == blockNo + read && rest + read == len && c <= Pow(ptrs, level + 1) && Canonical(extents)
        invariant Loop(ptrs, level, c, rest, read) == Walk(ptrs, level, blockNo, len)
        invariant Flatten(extents) == Flatten(extents0) + l && |l| == read && Are(disk, ptrs, level, parent, blockNo, l)
        decreases rest
      {
        LoopStep(level, c, rest, read);
        Natural(c, ptrsInChild);
        if c / ptrsInChild >= |parent| {
          PastTables(level, parent, blockNo, len);
          return Overrun, read, extents;
        }
        var buff := ReadBlock(parent[c / ptrsInChild]);
        if buff.None? {
          NoTable(level, parent, blockNo, len, c, rest, read, c / ptrsInChild);
          return Stuck, read, extents;
        }
        var sub;
        ghost var before := extents;
        outcome, sub, extents := GetFromTable(buff.value, c % ptrsInChild, Min(ptrsInChild, rest), extents, level - 1);
        if outcome != Done {
          SubFails(level, parent, buff.value, blockNo, len, c, rest, read);
          return outcome, read, extents;
        }
        ghost var more := Flatten(extents)[|Flatten(before)|..];
        SubRead(level, parent, buff.value, c, rest, read, sub);
        Pieces(Flatten(extents0), l, Flatten(extents));
        SubAre(level, parent, buff.value, blockNo, l, c, more);
        l := l + more;
        c, rest, read := c + sub, rest - sub, read + sub;
      }
      outcome := Done;
      AreThere(level, parent, blockNo, l);
      LoopLast(level, parent, blockNo, len, c, rest, read);
      assert Flatten(extents)[..|Flatten(extents0)|] == Flatten(extents0);
      assert Flatten(extents)[|Flatten(extents0)|..] == l;
    }

    lemma Pieces(a: seq<nat>, b: seq<nat>, c: seq<nat>)
      requires |a + b| <= |c| && c[..|a + b|] == a + b
      ensures c == a + (b + c[|a + b|..])
    {
    }

    /** What was found through one child is what the table leads to. */
    lemma SubAre(level: nat, table: seq<nat>, child: seq<nat>, c0: nat, l: seq<nat>, c: nat, more: seq<nat>)
      requires Valid() && level > 0 && c == c0 + |l| && Are(disk, ptrs, level, table, c0, l)
      requires var q := Pow(ptrs, level);
               && c / q < |table| && Table(disk, table[c / q]) == Some(child) && c % q + |more| <= q
               && Are(disk, ptrs, level - 1, child, c % q, more)
      ensures Are(disk, ptrs, level, table, c0, l + more)
    {
      hide Lookup, Pow;
      forall i: nat | i < |l + more|
        ensures Lookup(disk, ptrs, level, table, c0 + i) == Some((l + more)[i])
      {
        if i >= |l| {
          Descend(disk, ptrs, level, table, c, i - |l|);
          assert c0 + i == c + (i - |l|);
        }
      }
    }

    /** If the walk of a child fails, so does that of the table. */
    lemma SubFails(level: nat, table: seq<nat>, child: seq<nat>, c0: nat, len: nat, c: nat, rest: nat, read: nat)
      requires Valid() && level > 0 && c0 < Pow(ptrs, level + 1) && c == c0 + read && c <= Pow(ptrs, level + 1)
      requires read < rest && Loop(ptrs, level, c, rest, read) == Walk(ptrs, level, c0, len)
      requires var q := Pow(ptrs, level);
               && c / q < |table| == ptrs && Table(disk, table[c / q]) == Some(child)
               && !Walks(disk, ptrs, level - 1, child, c % q, Min(q, rest))
      ensures !Walks(disk, ptrs, level, table, c0, len)
    {
      var q := Pow(ptrs, level);
      var s := Walk(ptrs, level - 1, c % q, Min(q, rest));
      LoopStep(level, c, rest, read);
      hide Walk, Loop, Pow;
      if s.Some? && Walk(ptrs, level, c0, len).Some? {
        var x: nat :| c % q <= x < c % q + s.value && Lookup(disk, ptrs, level - 1, child, x).None?;
        hide Lookup;
        Descend(disk, ptrs, level, table, c, x - c % q);
        assert Lookup(disk, ptrs, level, table, c + (x - c % q)).None?;
      }
    }

    lemma LoopStep(level: nat, c: nat, rest: nat, read: nat)
      requires ptrs > 0 && level > 0 && c <= Pow(ptrs, level + 1) && read < rest
      ensures var q := Pow(ptrs, level);
              q > 0 && (c / q >= ptrs ==> Loop(ptrs, level, c, rest, read).None?)
      ensures var q := Pow(ptrs, level);
              c / q < ptrs ==>
                var s, r := Walk(ptrs, level - 1, c % q, Min(q, rest)), Loop(ptrs, level, c, rest, read);
                && (s.None? ==> r.None?)
                && (s.Some? ==>
                  && c % q + s.value <= q && 0 < s.value <= rest && c + s.value <= Pow(ptrs, level + 1)
                  && r == Loop(ptrs, level, c + s.value, rest - s.value, read + s.value)
                  && (r.Some? ==> read + s.value <= r.value))
    {
      var q := Pow(ptrs, level);
      Natural(c, q);
      if c / q < ptrs {
        var s := Walk(ptrs, level - 1, c % q, Min(q, rest));
        if s.Some? {
          Inside(c, q, ptrs, s.value);
        }
        hide Walk, Pow;
      }
    }

    lemma LoopFirst(level: nat, table: seq<nat>, c: nat, len: nat)
      requires Valid() && level > 0 && c < Pow(ptrs, level + 1)
      ensures Loop(ptrs, level, c, len, 0) == Walk(ptrs, level, c, len)
      ensures Are(disk, ptrs, level, table, c, [])
    {
    }

    lemma LoopLast(level: nat, table: seq<nat>, c0: nat, len: nat, c: nat, rest: nat, read: nat)
      requires Valid() && level > 0 && c0 < Pow(ptrs, level + 1) && c <= Pow(ptrs, level + 1) && read >= rest
      requires Loop(ptrs, level, c, rest, read) == Walk(ptrs, level, c0, len)
      requires AllThere(disk, ptrs, level, table, c0, read)
      ensures Walk(ptrs, level, c0, len) == Some(read) && Walks(disk, ptrs, level, table, c0, len)
    {
    }

    lemma PastTables(level: nat, table: seq<nat>, c0: nat, len: nat)
      requires Valid() && c0 < Pow(ptrs, level + 1) && Walk(ptrs, level, c0, len).None?
      ensures !Walks(disk, ptrs, level, table, c0, len)
    {
    }

    lemma NoTable(level: nat, table: seq<nat>, c0: nat, len: nat, c: nat, rest: nat, read: nat, d: nat)
      requires Valid() && level > 0 && c0 < Pow(ptrs, level + 1) && c == c0 + read && c <= Pow(ptrs, level + 1)
      requires read < rest && Loop(ptrs, level, c, rest, read) == Walk(ptrs, level, c0, len)
      requires d == c / Pow(ptrs, level) && d < |table| == ptrs && Table(disk, table[d]).None?
      ensures !Walks(disk, ptrs, level, table, c0, len)
    {
      LoopStep(level, c, rest, read);
      hide Walk, Loop, Pow;
      Descend(disk, ptrs, level, table, c, 0);
      assert Lookup(disk, ptrs, level, table, c).None?;
    }

    lemma SubRead(level: nat, table: seq<nat>, child: seq<nat>, c: nat, rest: nat, read: nat, sub: nat)
      requires Valid() && level > 0 && c <= Pow(ptrs, level + 1) && read < rest && c / Pow(ptrs, level) < ptrs
      requires Walk(ptrs, level - 1, c % Pow(ptrs, level), Min(Pow(ptrs, level), rest)) == Some(sub)
      ensures c % Pow(ptrs, level) + sub <= Pow(ptrs, level) && 0 < sub <= rest
    {
      LoopStep(level, c, rest, read);
    }

    method GetFromLeaf(parent: seq<nat>, blockNo: nat, len: nat, extents0: seq<Extent>)
      returns (outcome: Outcome, read: nat, extents: seq<Extent>)
      requires Valid() && |parent| == ptrs && blockNo < Pow(ptrs, 1) && Canonical(extents0)
      ensures Canonical(extents)
      ensures outcome == Done <==> Walks(disk, ptrs, 0, parent, blockNo, len)
      ensures outcome == Done ==>
                && Walk(ptrs, 0, blockNo, len) == Some(read) && |Flatten(extents)| == |Flatten(extents0)| + read
                && Flatten(extents)[..|Flatten(extents0)|] == Flatten(extents0)
                && Are(disk, ptrs, 0, parent, blockNo, Flatten(extents)[|Flatten(extents0)|..])
    {
      extents, read := extents0, 0;
      ghost var l: seq<nat> := [];
      while read < len
        invariant read <= len && blockNo + read <= ptrs && Canonical(extents)
        invariant Flatten(extents) == Flatten(extents0) + l && |l| == read && Are(disk, ptrs, 0, parent, blockNo, l)
      {
        if blockNo + read >= |parent| {
          return Overrun, read, extents;
        }
        if parent[blockNo + read] == 0 {
          assert Lookup(disk, ptrs, 0, parent, blockNo + read) == None;
          return Failed, read, extents;
        }
        extents := AddToExtentList(extents, parent[blockNo + read]);
        l := l + [parent[blockNo + read]];
        read := read + 1;
      }
      outcome := Done;
      AreThere(0, parent, blockNo, l);
    }

    lemma AreThere(level: nat, table: seq<nat>, c: nat, l: seq<nat>)
      requires Valid() && Are(disk, ptrs, level, table, c, l)
      ensures AllThere(disk, ptrs, level, table, c, |l|)
    {
      forall x: nat | c <= x < c + |l|
        ensures Lookup(disk, ptrs, level, table, x).Some?
      {
        assert Lookup(disk, ptrs, level, table, c + (x - c)) == Some(l[x - c]);
      }
    }

    /** The blocks of the file from `start` on are all there. */
    ghost predicate Mapped(start: nat, len: nat)
      reads this
      requires Valid()
    {
      forall n: nat | start <= n < start + len :: BlockOf(disk, ptrs, inode, n).Some?
    }

    /** Blocks of the file from `start` on are those of `l`. */
    ghost predicate Lists(start: nat, l: seq<nat>)
      reads this
      requires Valid()
    {
      forall i: nat | i < |l| :: BlockOf(disk, ptrs, inode, start + i) == Some(l[i])
    }

    /** Lists the `len` blocks from `blockNo0` on as extents. That ends well if and only if they are all
        there and the walk stays inside the tables, which depends on no pointer; the extents are then
        those of the blocks looked up one at a time. */
    method GetExtents(blockNo0: nat, len: nat) returns (outcome: Outcome, extents: seq<Extent>)
      requires Valid()
      ensures outcome == Done <==> InBounds(ptrs, blockNo0, len) && Mapped(blockNo0, len)
      ensures outcome == Done ==>
                Canonical(extents) && |Flatten(extents)| == len && Lists(blockNo0, Flatten(extents))
    {
      hide Walk, Lookup, BlockOf, Pow, Flatten, Canonical, Level, First, InBounds, Are, Walks, Lists, Mapped;
      extents := [];
      NoneAsked(blockNo0);
      NoExtents();
      var blockNo: nat, rem: nat, parentInd: int, parent: seq<nat> := blockNo0, len, -1, [];
      while rem > 0
        invariant blockNo + rem == blockNo0 + len && blockNo >= blockNo0 && Canonical(extents)
        invariant InBounds(ptrs, blockNo0, len) == InBounds(ptrs, blockNo, rem)
        invariant |Flatten(extents)| == blockNo - blockNo0 && Lists(blockNo0, Flatten(extents))
        invariant parentInd >= 0 ==> Table(disk, parentInd) == Some(parent)
        decreases rem
      {
        Range(blockNo, rem);
        ghost var l := Flatten(extents);
        if blockNo < DIRECT {
          extents := AddToExtentList(extents, inode[blockNo]);
          DirectListed(blockNo);
          ListsMore(blockNo0, l, [inode[blockNo]]);
          assert Flatten(extents) == l + [inode[blockNo]];
          blockNo, rem := blockNo + 1, rem - 1;
        } else {
          var found, level, childInd := FindLevel(blockNo);
          if !found {
            NotMapped(blockNo0, len, blockNo);
            return Failed, extents;
          }
          if parentInd != inode[DIRECT + level] {
            parentInd := inode[DIRECT + level];
            var table := ReadBlock(parentInd);
            if table.None? {
              NotMapped(blockNo0, len, blockNo);
              return Failed, extents;
            }
            parent := table.value;
          }
          var ptrsInChild := PtrsPerIndirectBlock(level);
          var read;
          outcome, read, extents := GetFromTable(parent, childInd, Min(ptrsInChild, rem), extents, level);
          if outcome != Done {
            WalkFails(blockNo0, len, blockNo, rem, level, parent);
            return outcome, extents;
          }
          ghost var more := Flatten(extents)[|l|..];
          assert Flatten(extents) == l + more;
          Found(blockNo, level, parent, more);
          ListsMore(blockNo0, l, more);
          blockNo, rem := blockNo + read, rem - read;
        }
      }
      outcome := Done;
      AllMapped(blockNo0, Flatten(extents));
    }

    /** One block: in the inode, or in a table that the inode leads to, perhaps by way of others. It is
        found just when all these pointers are there, and the last is not null. */
    method GetBlock(blockNo: nat) returns (outcome: Outcome, block: nat)
      requires Valid()
      ensures outcome == Done <==> BlockOf(disk, ptrs, inode, blockNo).Some?
      ensures outcome == Done ==> BlockOf(disk, ptrs, inode, blockNo) == Some(block)
      ensures blockNo < 12 ==> outcome == Done && block == inode[blockNo]
      ensures 12 <= blockNo < 12 + ptrs ==>
                var c, a := blockNo - 12, inode[12];
                && (outcome == Done <==> Readable(disk, a) && disk[a][c] != 0)
                && (outcome == Done ==> block == disk[a][c])
      ensures 12 + ptrs <= blockNo < 12 + ptrs + ptrs * ptrs ==>
                var c, a := blockNo - 12 - ptrs, inode[13];
                && 0 <= c / ptrs < ptrs
                && (outcome == Done <==>
                     Readable(disk, a) && Readable(disk, disk[a][c / ptrs]) && disk[disk[a][c / ptrs]][c % ptrs] != 0)
                && (outcome == Done ==> block == disk[disk[a][c / ptrs]][c % ptrs])
      ensures 12 + ptrs + ptrs * ptrs <= blockNo < 12 + ptrs + ptrs * ptrs + ptrs * (ptrs * ptrs) ==>
                var c, a := blockNo - 12 - ptrs - ptrs * ptrs, inode[14];
                && 0 <= c / (ptrs * ptrs) < ptrs && 0 <= c / ptrs % ptrs < ptrs
                && (outcome == Done <==>
                     && Readable(disk, a) && Readable(disk, disk[a][c / (ptrs * ptrs)])
                     && Readable(disk, disk[disk[a][c / (ptrs * ptrs)]][c / ptrs % ptrs])
                     && disk[disk[disk[a][c / (ptrs * ptrs)]][c / ptrs % ptrs]][c % ptrs] != 0)
                && (outcome == Done ==> block == disk[disk[disk[a][c / (ptrs * ptrs)]][c / ptrs % ptrs]][c % ptrs])
      ensures blockNo >= 12 + ptrs + ptrs * ptrs + ptrs * (ptrs * ptrs) ==> outcome != Done
    {
      hide InBounds, BlockOf, Flatten;
      BlockOfIs(disk, ptrs, inode, blockNo);
      Range(blockNo, 1);
      if BlockOf(disk, ptrs, inode, blockNo).Some? {
        OneInBounds(ptrs, blockNo);
      }
      var extents;
      outcome, extents := GetExtents(blockNo, 1);
      block := 0;
      if outcome == Done {
        assert BlockOf(disk, ptrs, inode, blockNo + 0) == Some(Flatten(extents)[0]);
        FirstOf(extents);
        block := extents[0].start;
      }
    }

    lemma FirstOf(l: seq<Extent>)
      requires Canonical(l) && |Flatten(l)| == 1
      ensures l != [] && l[0].start == Flatten(l)[0]
    {
      LastBlock(l);
      var rest := l[..|l| - 1];
      if rest != [] {
        LastBlock(rest);
      }
    }

    /** Which of the three tables of the inode leads to a block, and as which of its blocks. */
    method FindLevel(blockNo: nat) returns (found: bool, level: nat, childInd: nat)
      requires Valid() && blockNo >= DIRECT
      ensures found <==> Level(ptrs, blockNo).Some?
      ensures found ==> Level(ptrs, blockNo) == Some(level) && level <= 2 && blockNo == First(ptrs, level) + childInd
    {
      found, level, childInd := true, 0, 0;
      if blockNo < DIRECT + ptrs {
        childInd := blockNo - DIRECT;
      } else if blockNo < DIRECT + ptrs + ptrs * ptrs {
        level, childInd := 1, blockNo - (DIRECT + ptrs);
      } else if blockNo < DIRECT + ptrs + ptrs * ptrs + ptrs * (ptrs * ptrs) {
        level, childInd := 2, blockNo - (DIRECT + ptrs + ptrs * ptrs);
      } else {
        found := false;
      }
    }

    lemma NoneAsked(start: nat)
      requires Valid()
      ensures Lists(start, []) && forall n :: InBounds(ptrs, n, 0)
    {
    }

    lemma NotMapped(start: nat, len: nat, n: nat)
      requires Valid() && start <= n < start + len && BlockOf(disk, ptrs, inode, n).None?
      ensures !Mapped(start, len)
    {
    }

    lemma DirectListed(n: nat)
      requires Valid() && n < DIRECT
      ensures Lists(n, [inode[n]])
    {
    }

    lemma NoExtents()
      ensures Canonical([]) && Flatten([]) == []
    {
    }

    /** What the walk does next, by the range its block is in. */
    lemma Range(n: nat, rem: nat)
      requires Valid() && rem > 0
      ensures n < DIRECT ==>
                InBounds(ptrs, n, rem) == InBounds(ptrs, n + 1, rem - 1) &&
                  BlockOf(disk, ptrs, inode, n) == Some(inode[n])
      ensures n >= DIRECT && Level(ptrs, n).None? ==> !InBounds(ptrs, n, rem) && BlockOf(disk, ptrs, inode, n).None?
      ensures n >= DIRECT && Level(ptrs, n).Some? ==>
                var level := Level(ptrs, n).value;
                && level <= 2 && First(ptrs, level) <= n && n - First(ptrs, level) < Pow(ptrs, level + 1)
                && var s := Walk(ptrs, level, n - First(ptrs, level), Min(Pow(ptrs, level + 1), rem));
                && (InBounds(ptrs, n, rem) <==> s.Some? && InBounds(ptrs, n + s.value, rem - s.value))
                && (Table(disk, inode[DIRECT + level]).None? ==> BlockOf(disk, ptrs, inode, n).None?)
    {
      Powers(ptrs);
      hide Walk, Pow;
    }

    lemma ListsMore(start: nat, l: seq<nat>, more: seq<nat>)
      requires Valid() && Lists(start, l) && Lists(start + |l|, more)
      ensures Lists(start, l + more)
    {
      hide BlockOf;
      forall i: nat | i < |l + more|
        ensures BlockOf(disk, ptrs, inode, start + i) == Some((l + more)[i])
      {
        if i >= |l| {
          assert BlockOf(disk, ptrs, inode, start + |l| + (i - |l|)) == Some(more[i - |l|]);
        }
      }
    }

    lemma AllMapped(start: nat, l: seq<nat>)
      requires Valid() && Lists(start, l)
      ensures Mapped(start, |l|)
    {
      hide BlockOf;
      forall n: nat | start <= n < start + |l|
        ensures BlockOf(disk, ptrs, inode, n).Some?
      {
        assert BlockOf(disk, ptrs, inode, start + (n - start)) == Some(l[n - start]);
      }
    }

    /** Blocks looked up in a table are blocks of the file. */
    lemma InTable(n: nat, i: nat, level: nat, table: seq<nat>)
      requires Valid() && n >= DIRECT && Level(ptrs, n) == Some(level) &&
               Table(disk, inode[DIRECT + level]) == Some(table)
      requires n - First(ptrs, level) + i < Pow(ptrs, level + 1)
      ensures BlockOf(disk, ptrs, inode, n + i) == Lookup(disk, ptrs, level, table, n - First(ptrs, level) + i)
    {
      Powers(ptrs);
      hide Lookup, Pow;
    }

    lemma Found(n: nat, level: nat, table: seq<nat>, l: seq<nat>)
      requires Valid() && n >= DIRECT && Level(ptrs, n) == Some(level) &&
               Table(disk, inode[DIRECT + level]) == Some(table)
      requires n - First(ptrs, level) + |l| <= Pow(ptrs, level + 1)
      requires Are(disk, ptrs, level, table, n - First(ptrs, level), l)
      ensures Lists(n, l)
    {
      hide BlockOf, Lookup, Pow;
      forall i: nat | i < |l|
        ensures BlockOf(disk, ptrs, inode, n + i) == Some(l[i])
      {
        InTable(n, i, level, table);
      }
    }

    lemma WalkFails(start: nat, len: nat, n: nat, rem: nat, level: nat, table: seq<nat>)
      requires Valid() && DIRECT <= n && rem > 0 && n + rem == start + len && start <= n
      requires InBounds(ptrs, start, len) == InBounds(ptrs, n, rem)
      requires Level(ptrs, n) == Some(level) && Table(disk, inode[DIRECT + level]) == Some(table)
      requires First(ptrs, level) <= n && n - First(ptrs, level) < Pow(ptrs, level + 1)
      requires !Walks(disk, ptrs, level, table, n - First(ptrs, level), Min(Pow(ptrs, level + 1), rem))
      ensures !(InBounds(ptrs, start, len) && Mapped(start, len))
    {
      hide InBounds, Level, First, BlockOf, Lookup, Pow, Walk;
      Range(n, rem);
      var c := n - First(ptrs, level);
      var s := Walk(ptrs, level, c, Min(Pow(ptrs, level + 1), rem));
      if s.Some? {
        var x: nat :| c <= x < c + s.value && Lookup(disk, ptrs, level, table, x).None?;
        InTable(n, x - c, level, table);
        assert BlockOf(disk, ptrs, inode, n + (x - c)).None?;
      }
    }
  }
}
