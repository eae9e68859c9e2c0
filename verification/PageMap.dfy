/** Page maps: trees of page tables in physical memory, read and changed entry by entry. */
module PageMap {
  import opened PageWalk
  import opened PageTree
  import opened PageEntries

  /** The levels below the root at which a table is missing on the way to `p`. */
  function Missing(m: Memory, t: nat, p: Path): (n: nat)
    ensures n <= 3
  {
    if Walk(m, t, 4, p, 3).None? then 3
    else if Walk(m, t, 4, p, 2).None? then 2
    else if Walk(m, t, 4, p, 1).None? then 1
    else 0
  }

  /** What an address translates to: the last entry on its way, without the flags. */
  function Translation(m: Memory, t: nat, vaddr: nat): nat {
    Addr(Last(m, t, 4, PathOf(vaddr)))
  }

  /** An entry of a table; zero if there is no such table. */
  function In(m: Memory, f: nat, i: nat): nat { if f in m && i < |m[f]| then m[f][i] else 0 }

  /** An entry of the table that entry `e` leads to, if it is present. */
  function Through(m: Memory, e: nat, i: nat): nat { if e % 2 == 1 then In(m, e / 512 * 512, i) else 0 }

  /** The translation, entry by entry. */
  lemma TranslationIs(m: Memory, root: nat, vaddr: nat)
    ensures var e4 := In(m, root, vaddr / 0x80_0000_0000 % 512);
            var e3 := Through(m, e4, vaddr / 0x4000_0000 % 512);
            var e2 := Through(m, e3, vaddr / 0x20_0000 % 512);
            var e1 := Through(m, e2, vaddr / 0x1000 % 512);
            Translation(m, root, vaddr) == e1 / 512 * 512
  {
    var p := PathOf(vaddr);
    EntryThrough(m, root, p, 3);
    EntryThrough(m, root, p, 2);
    EntryThrough(m, root, p, 1);
    LastEntry(m, root, p);
    assert Entry(m, root, p, 4) == In(m, root, p.At(4));
    hide Entry, Walk, Last, Through, In;
  }

  lemma EntryThrough(m: Memory, root: nat, p: Path, k: nat)
    requires 1 <= k <= 3
    ensures Entry(m, root, p, k) == Through(m, Entry(m, root, p, k + 1), p.At(k))
  {
    WalkIn(m, root, 4, p, k + 1);
    assert Walk(m, root, 4, p, k) == match Walk(m, root, 4, p, k + 1)
                                     case None => None
                                     case Some(f) => Next(m, f, p.At(k + 1));
  }

  /** Every walk gets to the table that it got to. */
  ghost predicate SameTables(m: Memory, m': Memory, root: nat) {
    forall q: Path, k: nat | 1 <= k :: Walk(m', root, 4, q, k) == Walk(m, root, 4, q, k)
  }

  /** Whether mapping a page lasts: tables that are made with flags that lack the present bit are not found
      again. */
  predicate Sticks(m: Memory, root: nat, flags: nat, q: Path) {
    Present(flags) || Missing(m, root, q) == 0
  }

  /** The first `n` frames of the pool, or all, are found by entries with these flags. */
  predicate AllLeadTo(pool: seq<nat>, n: nat, flags: nat) {
    forall i | 0 <= i < n && i < |pool| :: LeadsTo(pool[i], flags)
  }

  /** An entry on the way along `p` was made for a frame of the pool, and leads to another one. */
  ghost predicate Misled(m: Memory, root: nat, p: Path, flags: nat, pool: seq<nat>) {
    exists k: nat, g: nat :: 2 <= k <= 4 && g in pool && MisledAt(m, root, p, flags, k, g)
  }

  ghost predicate MisledAt(m: Memory, root: nat, p: Path, flags: nat, k: nat, g: nat) {
    && Walk(m, root, 4, p, k).Some? && !LeadsTo(g, flags)
    && var h := Walk(m, root, 4, p, k).frame; h in m && p.At(k) < |m[h]| && m[h][p.At(k)] == Or(g, flags)
  }

  /** What a walk that makes missing tables has met with: only tables that were there; tables that it
      made; or an entry that does not lead to the table made for it, when `m` was memory. */
  datatype Way = AllFound | Made | Misleading(m: Memory)

  /** The tables in use and the frames to be had are frames, and all different. */
  ghost predicate Sound(mem: Memory, pool: seq<nat>) {
    && Tables(mem) && 0 !in mem && (forall f | f in mem :: f % FRAME_SIZE == 0)
    && (forall x | x in pool :: x != 0 && x % FRAME_SIZE == 0 && x !in mem)
    && (forall i, j | 0 <= i < j < |pool| :: pool[i] != pool[j])
  }

  /** Where a creating walk has got to: table `f` at level `i` on path `p`. Unless it was misled,
      nothing that was mapped has changed. Once it has made a table, that is empty, and so will all
      below it be. */
  ghost predicate Descending(mem: Memory, pool: seq<nat>, m0: Memory, pool0: seq<nat>, root: nat, p: Path, flags: nat,
                             i: nat, f: nat, w: Way)
  {
    && Sound(mem, pool) && 1 <= i <= 4 && f in mem && |pool| <= |pool0| && pool == pool0[|pool0| - |pool|..]
    && (w.AllFound? ==> mem == m0 && pool == pool0 && Walk(mem, root, 4, p, i) == Some(f) && On(m0, root, 4, f))
    && (!w.AllFound? ==>
      Missing(m0, root, p) >= i && mem[f] == Zeros() && f !in m0 && |pool0| - |pool| == Missing(m0, root, p) - i + 1)
    && (if w.Misleading? then f !in w.m && Strayed(mem, m0, pool0, root, p, flags, w.m) else Kept(m0, mem, root))
    && (w.Made? ==>
      if Present(flags) then
        AllLeadTo(pool0, Missing(m0, root, p) - i + 1, flags) && Walk(mem, root, 4, p, i) == Some(f)
      else
        SameTables(m0, mem, root) && !On(mem, root, 4, f))
  }

  /** The walk was misled when memory was `m`, and no table that there was then has changed since. */
  ghost predicate Strayed(mem: Memory, m0: Memory, pool0: seq<nat>, root: nat, p: Path, flags: nat, m: Memory) {
    && (forall x | x in m :: x in mem && mem[x] == m[x]) && (forall x | x in m0 :: x in m)
    && Misled(m, root, p, flags, pool0) && Elsewhere(m0, m, root)
    && Present(flags) && !AllLeadTo(pool0, Missing(m0, root, p), flags)
  }

  /** The allocator ran out on the way. */
  ghost predicate RanOut(mem: Memory, pool: seq<nat>, m0: Memory, pool0: seq<nat>, root: nat, p: Path, flags: nat,
                         w: Way)
  {
    && Sound(mem, pool) && pool == [] && |pool0| < Missing(m0, root, p)
    && if w.Misleading? then Strayed(mem, m0, pool0, root, p, flags, w.m)
       else
         && Kept(m0, mem, root)
         && if Present(flags) then AllLeadTo(pool0, Missing(m0, root, p), flags) else SameTables(m0, mem, root)
  }

  /** Memory and the pool when a table `r` has been made for entry `i` of table `f`, or could not be. */
  ghost predicate MadeFor(m: Memory, pool1: seq<nat>, mem: Memory, pool: seq<nat>, f: nat, i: nat, flags: nat, r: nat) {
    && f in m && i < |m[f]|
    && if pool1 == [] then r == 0 && mem == m && pool == pool1
       else r == pool1[0] && pool == pool1[1..] && mem == Write(m, f, i, Or(r, flags))[r := Zeros()]
  }

  lemma ToFound(m0: Memory, pool0: seq<nat>, root: nat, p: Path, flags: nat, i: nat, f: nat, w0: Way, m: Memory,
                pool1: seq<nat>)
    requires Tree(m0, root, 4) && Descending(m, pool1, m0, pool0, root, p, flags, i, f, w0) && i > 1
    requires p.At(i) < ENTRIES && Present(m[f][p.At(i)]) && !w0.Misleading?
    ensures w0.AllFound? && Descending(m, pool1, m0, pool0, root, p, flags, i - 1, Addr(m[f][p.At(i)]), AllFound)
    ensures Addr(m[f][p.At(i)]) != 0
  {
    FoundChild(m, root, p, i, f);
  }

  lemma Onward(m0: Memory, pool0: seq<nat>, root: nat, p: Path, flags: nat, i: nat, f: nat, w0: Way, m: Memory,
               pool1: seq<nat>, mem: Memory, pool: seq<nat>, r: nat)
    requires Descending(m, pool1, m0, pool0, root, p, flags, i, f, w0) && i > 1 && w0.Misleading?
    requires Sound(mem, pool) && p.At(i) < ENTRIES && MadeFor(m, pool1, mem, pool, f, p.At(i), flags, r)
    ensures if r != 0 then Descending(mem, pool, m0, pool0, root, p, flags, i - 1, r, w0)
            else RanOut(mem, pool, m0, pool0, root, p, flags, w0)
  {
    hide Misled, AllLeadTo, Missing, Elsewhere, Or;
    assert r != 0 ==> r in pool1;
  }

  lemma ToStray(m0: Memory, pool0: seq<nat>, root: nat, p: Path, flags: nat, i: nat, f: nat, w0: Way, m: Memory,
                pool1: seq<nat>, mem: Memory, pool: seq<nat>)
    requires Tree(m0, root, 4) && Descending(m, pool1, m0, pool0, root, p, flags, i, f, w0) && i > 1
    requires !w0.Misleading? && p.At(i) < ENTRIES && !Present(m[f][p.At(i)]) && pool1 != [] && Present(flags)
    requires Sound(mem, pool) && MadeFor(m, pool1, mem, pool, f, p.At(i), flags, pool1[0]) && !LeadsTo(pool1[0], flags)
    ensures pool1[0] != 0
    ensures var w := Misleading(Write(m, f, p.At(i), Or(pool1[0], flags)));
            Descending(mem, pool, m0, pool0, root, p, flags, i - 1, pool1[0], w)
  {
    hide Or, LeadsTo, Tree, Misled, Walk, Missing, On;
    var g := pool1[0];
    assert g in pool1 && g == pool0[|pool0| - |pool1|];
    NowMissing(m0, root, p, i, f, w0, m);
    MisledFrom(m, root, p, i, f, g, flags, pool0);
    ThisLeads(m, root, p, i, f, g, flags, w0, m0);
    assert !AllLeadTo(pool0, Missing(m0, root, p), flags);
  }

  /** Other trees are not touched by writing the entry. */
  lemma ThisLeads(m: Memory, root: nat, p: Path, i: nat, f: nat, g: nat, flags: nat, w0: Way, m0: Memory)
    requires Kept(m0, m, root) && f in m && p.At(i) < |m[f]| && (f in m0 ==> On(m0, root, 4, f))
    ensures var m' := Write(m, f, p.At(i), Or(g, flags));
            Elsewhere(m0, m', root) && (forall x | x in m0 :: x in m') && (forall x | x in m :: x in m')
  {
    hide Or, On, Walk, Last;
  }

  /** A table of which an entry is not present is followed by a missing one. */
  lemma NowMissing(m0: Memory, root: nat, p: Path, i: nat, f: nat, w0: Way, m: Memory)
    requires Tree(m, root, 4) && 2 <= i <= 4 && p.At(i) < ENTRIES && f in m && !Present(m[f][p.At(i)])
    requires if w0.AllFound? then m == m0 && Walk(m, root, 4, p, i) == Some(f) else Missing(m0, root, p) >= i
    ensures Missing(m0, root, p) >= i - 1 && (w0.AllFound? ==> Missing(m0, root, p) == i - 1)
  {
    LastMissing(m0, root, p);
    if w0.AllFound? {
      assert Walk(m, root, 4, p, i - 1) == None;
      assert i <= 3 ==> Walk(m, root, 4, p, i).Some?;
    }
  }

  lemma ToMade(m0: Memory, pool0: seq<nat>, root: nat, p: Path, flags: nat, i: nat, f: nat, w0: Way, m: Memory,
               pool1: seq<nat>, mem: Memory, pool: seq<nat>, r: nat)
    requires Tree(m0, root, 4) && Descending(m, pool1, m0, pool0, root, p, flags, i, f, w0) && i > 1
    requires !w0.Misleading? && p.At(i) < ENTRIES && !Present(m[f][p.At(i)])
    requires pool1 != [] && Present(flags) ==> LeadsTo(pool1[0], flags)
    requires Sound(mem, pool) && MadeFor(m, pool1, mem, pool, f, p.At(i), flags, r)
    ensures if r != 0 then Descending(mem, pool, m0, pool0, root, p, flags, i - 1, r, Made)
            else RanOut(mem, pool, m0, pool0, root, p, flags, Made)
  {
    hide Or, LeadsTo, Tree, Walk, Missing, On, Last;
    NowMissing(m0, root, p, i, f, w0, m);
    if pool1 != [] {
      assert r in pool1 && r == pool0[|pool0| - |pool1|];
      ChildMade(m0, m, root, p, i, f, r, flags);
    }
    assert w0.AllFound? ==> SameTables(m0, m, root);
  }

  lemma ChildMade(m0: Memory, m: Memory, root: nat, p: Path, i: nat, f: nat, g: nat, flags: nat)
    requires Kept(m0, m, root) && 2 <= i <= 4 && p.At(i) < ENTRIES && f in m && !Present(m[f][p.At(i)])
    requires g !in m && g % FRAME_SIZE == 0 && (Present(flags) ==> LeadsTo(g, flags)) &&
             (f in m0 ==> On(m0, root, 4, f))
    requires Walk(m, root, 4, p, i) == Some(f) || (!Present(flags) && !On(m, root, 4, f))
    ensures var m' := Write(m, f, p.At(i), Or(g, flags))[g := Zeros()];
      && Kept(m0, m', root)
      && (if Present(flags) then Walk(m', root, 4, p, i - 1) == Some(g)
          else !On(m', root, 4, g) && (SameTables(m0, m, root) ==> SameTables(m0, m', root)))
  {
    hide Or, LeadsTo, Tree, Walk, On, Last;
    TableLength(m, root, f);
    NewChild(m, root, p, i, f, g, flags);
    KeptStill(m0, m, Write(m, f, p.At(i), Or(g, flags))[g := Zeros()], root, f);
  }

  /** A walk along `p` that took `n` frames has made the entry that path `q` uses at level `k`: they have
      come this way together, and the table after it was missing. An entry that is not present leads to
      no other. */
  predicate NewEntry(m: Memory, root: nat, p: Path, flags: nat, n: nat, q: Path, k: nat)
    requires k > 0
  {
    && Missing(m, root, p) + 1 - n < k <= Missing(m, root, p) + 1 && Agree(p, q, 4, k - 1)
    && (Present(flags) || k == Missing(m, root, p) + 1)
  }

  /** What every entry is after a walk that took `n` frames: new ones lead to those frames, in order, and
      have the flags. */
  ghost predicate EntriesMade(m0: Memory, m: Memory, root: nat, p: Path, flags: nat, pool0: seq<nat>, n: nat) {
    && n <= |pool0| && n <= Missing(m0, root, p)
    && forall q: Path, k: nat | 1 <= k <= 4 ::
         Entry(m, root, q, k) == if NewEntry(m0, root, p, flags, n, q, k)
                                 then Or(pool0[Missing(m0, root, p) + 1 - k], flags) else Entry(m0, root, q, k)
  }

  lemma NoneMade(m0: Memory, root: nat, p: Path, flags: nat, pool0: seq<nat>)
    ensures EntriesMade(m0, m0, root, p, flags, pool0, 0)
  {
    hide Missing, Entry;
  }

  lemma OneMore(m0: Memory, pool0: seq<nat>, root: nat, p: Path, flags: nat, i: nat, f: nat, w0: Way, m: Memory,
                pool1: seq<nat>, mem: Memory, pool: seq<nat>)
    requires Tree(m0, root, 4) && Descending(m, pool1, m0, pool0, root, p, flags, i, f, w0) && i > 1
    requires !w0.Misleading? && p.At(i) < ENTRIES && !Present(m[f][p.At(i)]) && pool1 != []
    requires Present(flags) ==> LeadsTo(pool1[0], flags)
    requires Sound(mem, pool) && MadeFor(m, pool1, mem, pool, f, p.At(i), flags, pool1[0])
    requires EntriesMade(m0, m, root, p, flags, pool0, |pool0| - |pool1|)
    ensures EntriesMade(m0, mem, root, p, flags, pool0, |pool0| - |pool|)
  {
    hide Or, LeadsTo, Tree, Walk, Missing, On, Last, Agree, Entry;
    NowMissing(m0, root, p, i, f, w0, m);
    var g, n := pool1[0], |pool0| - |pool1|;
    assert g in pool1 && g == pool0[n] && Missing(m0, root, p) + 1 - n == i;
    forall q: Path, k: nat | 1 <= k <= 4
      ensures Entry(mem, root, q, k) == if k == i && Agree(p, q, 4, i - 1) && (Present(flags) || w0.AllFound?)
                                        then Or(g, flags) else Entry(m, root, q, k)
    {
      EntryMade(m0, m, root, p, i, f, g, flags, w0, q, k);
    }
  }

  lemma EntryMade(m0: Memory, m: Memory, root: nat, p: Path, i: nat, f: nat, g: nat, flags: nat, w0: Way, q: Path,
                  k: nat)
    requires Tree(m, root, 4) && 2 <= i <= 4 && 1 <= k <= 4 && p.At(i) < ENTRIES && f in m && !Present(m[f][p.At(i)])
    requires g !in m && g % FRAME_SIZE == 0 && (Present(flags) ==> LeadsTo(g, flags))
    requires if Present(flags) || w0.AllFound? then Walk(m, root, 4, p, i) == Some(f) else !On(m, root, 4, f)
    ensures Entry(Write(m, f, p.At(i), Or(g, flags))[g := Zeros()], root, q, k) ==
            if k == i && Agree(p, q, 4, i - 1) && (Present(flags) || w0.AllFound?) then Or(g, flags)
            else Entry(m, root, q, k)
  {
    TableLength(m, root, f);
    OrHalf(g, flags);
    hide Or, Tree, Walk, On, Agree, Entry;
    var m1 := Write(m, f, p.At(i), Or(g, flags));
    if Present(flags) {
      AddEntry(m, root, p, i - 1, f, Or(g, flags), g, q, k);
    } else if w0.AllFound? {
      WriteEntry(m, root, p, i, f, Or(g, flags), q, k);
      WriteTree(m, root, 4, p, i, f, Or(g, flags));
      SameEntry(m1, m1[g := Zeros()], root, q, k);
    } else {
      SameEntry(m, m1[g := Zeros()], root, q, k);
    }
  }

  /** What every entry is once the page's own has been written. */
  lemma MappedEntries(m: Memory, pool: seq<nat>, m0: Memory, pool0: seq<nat>, root: nat, p: Path, flags: nat, f: nat,
                      w: Way, e: nat, q: Path, k: nat)
    requires Tree(m0, root, 4) && Descending(m, pool, m0, pool0, root, p, flags, 1, f, w) && p.ix1 < ENTRIES
    requires !w.Misleading? && EntriesMade(m0, m, root, p, flags, pool0, |pool0| - |pool|) && 1 <= k <= 4
    ensures Entry(Write(m, f, p.ix1, e), root, q, k) ==
            if k == 1 && q == p && Sticks(m0, root, flags, q) then e
            else if NewEntry(m0, root, p, flags, |pool0| - |pool|, q, k)
            then Or(pool0[Missing(m0, root, p) + 1 - k], flags) else Entry(m0, root, q, k)
  {
    hide Or, Tree, Walk, Missing, On, Last, Agree, Entry, NewEntry, EntriesMade, Descending, Sticks;
    EndOfWalk(m, pool, m0, pool0, root, p, flags, f, w);
    AgreeAll(p);
    EntryBefore(m0, m, root, p, flags, pool0, |pool0| - |pool|, q, k);
    if Walk(m, root, 4, p, 1) == Some(f) {
      WriteEntry(m, root, p, 1, f, e, q, k);
    } else {
      SameEntry(m, Write(m, f, p.ix1, e), root, q, k);
    }
  }

  /** Every entry after a page was mapped, or frames ran out: that of the page is `e` if it is found, the
      new ones lead to the frames taken, and all others are what they were. */
  ghost predicate EntriesThen(m0: Memory, m: Memory, root: nat, p: Path, flags: nat, pool0: seq<nat>, n: nat,
                              done: bool, e: nat)
  {
    && n == (if done then Missing(m0, root, p) else |pool0|) && n <= |pool0| && n <= Missing(m0, root, p)
    && forall q: Path, k: nat | 1 <= k <= 4 ::
         Entry(m, root, q, k) == if k == 1 && done && q == p && Sticks(m0, root, flags, q) then e
                                 else if NewEntry(m0, root, p, flags, n, q, k)
                                 then Or(pool0[Missing(m0, root, p) + 1 - k], flags) else Entry(m0, root, q, k)
  }

  lemma DoneEntries(m: Memory, pool: seq<nat>, m0: Memory, pool0: seq<nat>, root: nat, p: Path, flags: nat, f: nat,
                    w: Way, e: nat)
    requires Tree(m0, root, 4) && Descending(m, pool, m0, pool0, root, p, flags, 1, f, w) && p.ix1 < ENTRIES
    requires !w.Misleading? ==> |pool| <= |pool0| && EntriesMade(m0, m, root, p, flags, pool0, |pool0| - |pool|)
    ensures |pool| == |pool0| - Missing(m0, root, p)
    ensures (Present(flags) ==> AllLeadTo(pool0, Missing(m0, root, p), flags)) ==>
            EntriesThen(m0, Write(m, f, p.ix1, e), root, p, flags, pool0, |pool0| - |pool|, true, e)
  {
    hide Or, Tree, Walk, Missing, On, Last, Agree, Entry, LeadsTo, Sticks, Descending, AllLeadTo, EntriesMade, Write;
    Taken(m, pool, m0, pool0, root, p, flags, f, w);
    if !w.Misleading? {
      forall q: Path, k: nat | 1 <= k <= 4
        ensures Entry(Write(m, f, p.ix1, e), root, q, k) ==
                if k == 1 && q == p && Sticks(m0, root, flags, q) then e
                else if NewEntry(m0, root, p, flags, |pool0| - |pool|, q, k)
                then Or(pool0[Missing(m0, root, p) + 1 - k], flags) else Entry(m0, root, q, k)
      {
        MappedEntries(m, pool, m0, pool0, root, p, flags, f, w, e, q, k);
      }
    }
  }

  lemma TooFew(m: Memory, pool: seq<nat>, m0: Memory, pool0: seq<nat>, root: nat, p: Path, flags: nat, w: Way)
    requires RanOut(m, pool, m0, pool0, root, p, flags, w)
    ensures |pool0| < Missing(m0, root, p)
  {
  }

  lemma Taken(m: Memory, pool: seq<nat>, m0: Memory, pool0: seq<nat>, root: nat, p: Path, flags: nat, f: nat, w: Way)
    requires Descending(m, pool, m0, pool0, root, p, flags, 1, f, w)
    ensures |pool| == |pool0| - Missing(m0, root, p) && f in m && |m[f]| == ENTRIES
    ensures w.Misleading? ==> Present(flags) && !AllLeadTo(pool0, Missing(m0, root, p), flags)
  {
    LastMissing(m0, root, p);
    hide Missing, Walk, Kept, Misled, AllLeadTo, On;
  }

  lemma StoppedEntries(m: Memory, pool: seq<nat>, m0: Memory, pool0: seq<nat>, root: nat, p: Path, flags: nat, w: Way,
                       e: nat)
    requires RanOut(m, pool, m0, pool0, root, p, flags, w)
    requires !w.Misleading? ==> |pool| <= |pool0| && EntriesMade(m0, m, root, p, flags, pool0, |pool0| - |pool|)
    ensures (Present(flags) ==> AllLeadTo(pool0, Missing(m0, root, p), flags)) ==>
            EntriesThen(m0, m, root, p, flags, pool0, |pool0|, false, e)
  {
    hide Or, Tree, Walk, Missing, On, Last, Agree, Entry, NewEntry, Misled, LeadsTo, Kept;
  }

  lemma NoEntry(m: Memory, root: nat, p: Path)
    requires Walk(m, root, 4, p, 1) == None
    ensures Entry(m, root, p, 1) == 0
  {
  }

  lemma OneEntry(m: Memory, root: nat, p: Path, f: nat, e: nat)
    requires Tree(m, root, 4) && Walk(m, root, 4, p, 1) == Some(f) && p.ix1 < ENTRIES && f in m && p.ix1 < |m[f]|
    ensures forall q: Path, k: nat | 1 <= k <= 4 ::
              Entry(Write(m, f, p.ix1, e), root, q, k) == if k == 1 && q == p then e else Entry(m, root, q, k)
  {
    hide Tree, Walk, Entry, Agree;
    AgreeAll(p);
    forall q: Path, k: nat | 1 <= k <= 4
      ensures Entry(Write(m, f, p.ix1, e), root, q, k) == if k == 1 && q == p then e else Entry(m, root, q, k)
    {
      WriteEntry(m, root, p, 1, f, e, q, k);
    }
  }

  /** Entries that lead to tables have changed only to lead to frames of the pool, with the flags. */
  ghost predicate OnlyWith(m0: Memory, m: Memory, root: nat, flags: nat, pool: seq<nat>) {
    forall q: Path, k: nat | 2 <= k <= 4 :: WithFlags(Entry(m0, root, q, k), Entry(m, root, q, k), flags, pool)
  }

  ghost predicate WithFlags(e0: nat, e: nat, flags: nat, pool: seq<nat>) {
    e == e0 || exists g :: g in pool && e == Or(g, flags)
  }

  lemma OnlyWithThen(m0: Memory, m: Memory, m': Memory, root: nat, p: Path, flags: nat, pool0: seq<nat>, pool: seq<nat>,
                     n: nat, done: bool, e: nat)
    requires OnlyWith(m0, m, root, flags, pool0) && EntriesThen(m, m', root, p, flags, pool, n, done, e)
    requires forall x | x in pool :: x in pool0
    ensures OnlyWith(m0, m', root, flags, pool0)
  {
    hide Or, Entry, Missing, Sticks, WithFlags, NewEntry;
    forall q: Path, k: nat | 2 <= k <= 4
      ensures WithFlags(Entry(m0, root, q, k), Entry(m', root, q, k), flags, pool0)
    {
      if NewEntry(m, root, p, flags, n, q, k) {
        NewIsWith(m, root, p, flags, pool, pool0, n, q, k, Entry(m0, root, q, k));
      }
    }
  }

  lemma NewIsWith(m: Memory, root: nat, p: Path, flags: nat, pool: seq<nat>, pool0: seq<nat>, n: nat, q: Path, k: nat,
                  e0: nat)
    requires 2 <= k <= 4 && NewEntry(m, root, p, flags, n, q, k) && n <= |pool| && n <= Missing(m, root, p)
    requires forall x | x in pool :: x in pool0
    ensures 0 <= Missing(m, root, p) + 1 - k < |pool|
    ensures WithFlags(e0, Or(pool[Missing(m, root, p) + 1 - k], flags), flags, pool0)
  {
    hide Or, Missing;
    assert pool[Missing(m, root, p) + 1 - k] in pool;
  }

  lemma OnlyWithFirst(m: Memory, root: nat, flags: nat, pool: seq<nat>)
    ensures OnlyWith(m, m, root, flags, pool)
  {
    hide Entry, Or;
  }

  lemma OnlyWithUnmapped(m0: Memory, m: Memory, root: nat, flags: nat, pool: seq<nat>)
    requires forall q: Path, k: nat | 2 <= k <= 4 :: Entry(m, root, q, k) == Entry(m0, root, q, k)
    ensures OnlyWith(m0, m, root, flags, pool)
  {
    hide Entry, Or;
  }

  /** When frames run out, the page has no last table. */
  lemma StillMissing(m0: Memory, m: Memory, root: nat, p: Path, flags: nat, pool0: seq<nat>, e: nat)
    requires Tree(m0, root, 4) && EntriesThen(m0, m, root, p, flags, pool0, |pool0|, false, e)
    requires |pool0| < Missing(m0, root, p)
    ensures Missing(m, root, p) > 0
  {
    var g := Missing(m0, root, p);
    var k := g + 1 - |pool0|;
    LastMissing(m0, root, p);
    LastMissing(m, root, p);
    assert Leads(m0, root, 4, p, k);
    assert Entry(m, root, p, k) == Entry(m0, root, p, k);
    WalkIn(m0, root, 4, p, k);
    assert Walk(m0, root, 4, p, k).Some? ==>
        Walk(m0, root, 4, p, k - 1) == Next(m0, Walk(m0, root, 4, p, k).frame, p.At(k));
    assert Walk(m, root, 4, p, k - 1).Some? ==> Present(Entry(m, root, p, k));
    NoneBelow(m, root, 4, p, k - 1, 1);
  }

  lemma EntryBefore(m0: Memory, m: Memory, root: nat, p: Path, flags: nat, pool0: seq<nat>, n: nat, q: Path, k: nat)
    requires EntriesMade(m0, m, root, p, flags, pool0, n) && 1 <= k <= 4
    ensures NewEntry(m0, root, p, flags, n, q, k) ==> 0 <= Missing(m0, root, p) + 1 - k < |pool0|
    ensures Entry(m, root, q, k) == if NewEntry(m0, root, p, flags, n, q, k)
                                    then Or(pool0[Missing(m0, root, p) + 1 - k], flags) else Entry(m0, root, q, k)
  {
    hide Or, Missing, Agree, Entry;
  }

  lemma EndOfWalk(m: Memory, pool: seq<nat>, m0: Memory, pool0: seq<nat>, root: nat, p: Path, flags: nat, f: nat,
                  w: Way)
    requires Tree(m0, root, 4) && Descending(m, pool, m0, pool0, root, p, flags, 1, f, w) && !w.Misleading?
    ensures Tree(m, root, 4) && f in m && |m[f]| == ENTRIES && p.At(1) == p.ix1 && |pool| <= |pool0|
    ensures if Sticks(m0, root, flags, p) then Walk(m, root, 4, p, 1) == Some(f) else !On(m, root, 4, f)
    ensures Walk(m, root, 4, p, 1) == Some(f) ==> On(m, root, 4, f)
  {
    hide Tree, Walk, Missing, Last;
    LastMissing(m0, root, p);
    TableLength(m, root, f);
  }

  /** What writing the last entry does. */
  lemma Mapped(m: Memory, pool: seq<nat>, m0: Memory, pool0: seq<nat>, root: nat, p: Path, flags: nat, f: nat, w: Way,
               e: nat)
    requires Tree(m0, root, 4) && Descending(m, pool, m0, pool0, root, p, flags, 1, f, w) && p.ix1 < ENTRIES
    ensures var m' := Write(m, f, p.ix1, e);
      && Sound(m', pool) && Elsewhere(m0, m', root) && (!Present(flags) ==> SameTables(m0, m', root))
      && if Present(flags) && !AllLeadTo(pool0, Missing(m0, root, p), flags) then Misled(m', root, p, flags, pool0)
         else
           && Tree(m', root, 4) && OnlyNew(m0, m', root)
           && forall q :: Last(m', root, 4, q) ==
                if q == p && Sticks(m0, root, flags, q) then e else Last(m0, root, 4, q)
  {
    hide Misled, Walk, Missing, Tree, On, Last, LeadsTo;
    var m' := Write(m, f, p.ix1, e);
    LastMissing(m0, root, p);
    AgreeAll(p);
    if w.Misleading? {
      StaysMisled(w.m, m', root, p, flags, pool0);
    } else {
      LastWritten(m, m0, root, p, flags, f, e);
      assert AllLeadTo(pool0, Missing(m0, root, p), flags) || !Present(flags);
    }
  }

  lemma LastWritten(m: Memory, m0: Memory, root: nat, p: Path, flags: nat, f: nat, e: nat)
    requires Kept(m0, m, root) && f in m && p.ix1 < ENTRIES && (f in m0 ==> On(m0, root, 4, f))
    requires Walk(m, root, 4, p, 1) == Some(f) || !On(m, root, 4, f)
    requires Sticks(m0, root, flags, p) <==> Walk(m, root, 4, p, 1) == Some(f)
    requires !Present(flags) ==> SameTables(m0, m, root)
    ensures var m' := Write(m, f, p.ix1, e);
      && Elsewhere(m0, m', root) && (!Present(flags) ==> SameTables(m0, m', root))
      && Tree(m', root, 4) && OnlyNew(m0, m', root)
      && forall q :: Last(m', root, 4, q) == if q == p && Sticks(m0, root, flags, q) then e else Last(m0, root, 4, q)
  {
    hide Tree, Last, Missing, Walk, On;
    TableLength(m, root, f);
    var m' := Write(m, f, p.ix1, e);
    AgreeAll(p);
    if Walk(m, root, 4, p, 1) == Some(f) {
      WriteTree(m, root, 4, p, 1, f, e);
    } else {
      TreeFrame(m, m', root, 4);
    }
  }

  lemma TableLength(m: Memory, root: nat, f: nat)
    requires Tree(m, root, 4) && f in m
    ensures |m[f]| == ENTRIES && Tables(m)
  {
  }

  lemma NotMapped(m: Memory, pool: seq<nat>, m0: Memory, pool0: seq<nat>, root: nat, p: Path, flags: nat, w: Way)
    requires Tree(m0, root, 4) && RanOut(m, pool, m0, pool0, root, p, flags, w)
    ensures Elsewhere(m0, m, root) && (!Present(flags) ==> SameTables(m0, m, root))
    ensures if Present(flags) && !AllLeadTo(pool0, Missing(m0, root, p), flags) then Misled(m, root, p, flags, pool0)
            else
              Tree(m, root, 4) && OnlyNew(m0, m, root) && forall q :: Last(m, root, 4, q) == Last(m0, root, 4, q)
  {
    hide Misled, Walk, Missing;
    if w.Misleading? {
      StaysMisled(w.m, m, root, p, flags, pool0);
    }
  }

  class PhysicalMemory {
    /** The frames handed out, as tables. */
    var mem: Memory
    /** The frames the page allocator has left, in the order it will hand them out. */
    var pool: seq<nat>

    ghost predicate Valid()
      reads this
    {
      Sound(mem, pool)
    }

    /** Hands out a zeroed frame, or null. */
    method AllocateFrame() returns (f: nat)
      requires Valid()
      modifies this
      ensures Valid()
      ensures old(pool) == [] ==> f == 0 && mem == old(mem) && pool == []
      ensures old(pool) != [] ==> f == old(pool)[0] && pool == old(pool)[1..] && mem == old(mem)[f := Zeros()]
    {
      if |pool| == 0 {
        return 0;
      }
      f := pool[0];
      assert f in pool && forall x | x in pool[1..] :: x in pool && x != f;
      pool := pool[1..];
      mem := mem[f := Zeros()];
    }

    /** The last table on the way to `vaddr`, if all of them are there. */
    method GetPage(root: nat, vaddr: nat) returns (r: Found)
      requires Valid() && Tree(mem, root, 4)
      ensures r == Walk(mem, root, 4, PathOf(vaddr), 1)
    {
      ghost var p := PathOf(vaddr);
      var table, i := root, 4;
      while i > 1
        invariant 1 <= i <= 4 && Walk(mem, root, 4, p, i) == Some(table)
      {
        WalkIn(mem, root, 4, p, i);
        assert Leads(mem, root, 4, p, i);
        var e := mem[table][VAddrIndex(vaddr, i)];
        if !Present(e) {
          assert Walk(mem, root, 4, p, i - 1) == None;
          NoneBelow(mem, root, 4, p, i - 1, 1);
          return None;
        }
        table, i := Addr(e), i - 1;
      }
      return Some(table);
    }

    /** What an address translates to, by the entries of four tables, one after another: zero if one of
        the tables is not there. */
    method VAddrToPAddr(root: nat, vaddr: nat) returns (paddr: nat)
      requires Valid() && Tree(mem, root, 4)
      ensures paddr == Translation(mem, root, vaddr)
      ensures var e4 := In(mem, root, vaddr / 0x80_0000_0000 % 512);
              var e3 := Through(mem, e4, vaddr / 0x4000_0000 % 512);
              var e2 := Through(mem, e3, vaddr / 0x20_0000 % 512);
              var e1 := Through(mem, e2, vaddr / 0x1000 % 512);
              paddr == e1 / 512 * 512
    {
      TranslationIs(mem, root, vaddr);
      var table := GetPage(root, vaddr);
      if table.None? {
        return 0;
      }
      WalkIn(mem, root, 4, PathOf(vaddr), 1);
      return Addr(mem[table.frame][VAddrIndex(vaddr, 1)]);
    }

    /** Clears the entry of one page; false if there is none. */
    method Unmap(root: nat, vaddr: nat) returns (r: bool)
      requires Valid() && Tree(mem, root, 4)
      modifies this`mem
      ensures Valid() && Tree(mem, root, 4) && mem.Keys == old(mem.Keys)
      ensures r == (Missing(old(mem), root, PathOf(vaddr)) == 0)
      ensures forall q :: Last(mem, root, 4, q) == if q == PathOf(vaddr) then 0 else Last(old(mem), root, 4, q)
      ensures Elsewhere(old(mem), mem, root) && OnlyNew(old(mem), mem, root)
      ensures forall q :: Missing(mem, root, q) == Missing(old(mem), root, q)
      ensures forall q: Path, k: nat | 1 <= k <= 4 ::
                Entry(mem, root, q, k) ==
                if k == 1 && q == PathOf(vaddr) then 0 else Entry(old(mem), root, q, k)
    {
      ghost var p := PathOf(vaddr);
      LastMissing(mem, root, p);
      var table := GetPage(root, vaddr);
      if table.None? {
        NoEntry(mem, root, p);
        return false;
      }
      WalkIn(mem, root, 4, p, 1);
      WriteTree(mem, root, 4, p, 1, table.frame, 0);
      AgreeAll(p);
      OneEntry(mem, root, p, table.frame, 0);
      assert On(mem, root, 4, table.frame);
      hide Tree, Agree, Entry;
      var entries: Table := mem[table.frame][VAddrIndex(vaddr, 1) := 0];
      mem := mem[table.frame := entries];
      return true;
    }

    /** The table that entry `i` of table `f` leads to, made if need be; null if it cannot be. */
    method GetOrCreatePageTable(f: nat, i: nat, flags: nat) returns (r: nat)
      requires Valid() && f in mem && i < ENTRIES
      modifies this
      ensures Valid()
      ensures Present(old(mem)[f][i]) ==> r == Addr(old(mem)[f][i]) && mem == old(mem) && pool == old(pool)
      ensures !Present(old(mem)[f][i]) && old(pool) == [] ==> r == 0 && mem == old(mem) && pool == old(pool)
      ensures !Present(old(mem)[f][i]) && old(pool) != [] ==>
                && r == old(pool)[0] && pool == old(pool)[1..]
                && mem == Write(old(mem), f, i, Or(r, flags))[r := Zeros()]
    {
      if Present(mem[f][i]) {
        return Addr(mem[f][i]);
      }
      r := AllocateFrame();
      if r == 0 {
        return;
      }
      var table: Table := mem[f][i := Or(r, flags)];
      mem := mem[f := table];
      assert mem == Write(old(mem), f, i, Or(r, flags))[r := Zeros()];
    }

    /** One level down. */
    method Descend(ghost m0: Memory, ghost pool0: seq<nat>, root: nat, ghost p: Path, flags: nat, i: nat, f: nat,
                   index: nat, ghost w0: Way)
      returns (r: nat, ghost w: Way)
      requires Tree(m0, root, 4) && Descending(mem, pool, m0, pool0, root, p, flags, i, f, w0) && i > 1
      requires index == p.At(i) < ENTRIES
      requires !w0.Misleading? ==> EntriesMade(m0, mem, root, p, flags, pool0, |pool0| - |pool|)
      modifies this
      ensures |pool| <= |pool0| && (!w.Misleading? ==> EntriesMade(m0, mem, root, p, flags, pool0, |pool0| - |pool|))
      ensures if r != 0 then Descending(mem, pool, m0, pool0, root, p, flags, i - 1, r, w)
              else RanOut(mem, pool, m0, pool0, root, p, flags, w)
    {
      hide Tree, Kept, On, Missing, Walk, Or, Misled, Elsewhere, OnlyNew, AllLeadTo, SameTables, LeadsTo, Strayed;
      hide EntriesMade;
      ghost var m, pool1, first := mem, pool, if pool == [] then 0 else pool[0];
      r := GetOrCreatePageTable(f, index, flags);
      if w0.Misleading? {
        w := w0;
        Onward(m0, pool0, root, p, flags, i, f, w0, m, pool1, mem, pool, r);
      } else if Present(m[f][index]) {
        w := AllFound;
        ToFound(m0, pool0, root, p, flags, i, f, w0, m, pool1);
      } else if r != 0 && Present(flags) && !LeadsTo(first, flags) {
        w := Misleading(Write(m, f, index, Or(first, flags)));
        ToStray(m0, pool0, root, p, flags, i, f, w0, m, pool1, mem, pool);
      } else {
        w := Made;
        if r != 0 {
          OneMore(m0, pool0, root, p, flags, i, f, w0, m, pool1, mem, pool);
        }
        ToMade(m0, pool0, root, p, flags, i, f, w0, m, pool1, mem, pool, r);
      }
    }

    lemma Begin(root: nat, p: Path, flags: nat)
      requires Valid() && Tree(mem, root, 4)
      ensures root != 0 && Descending(mem, pool, mem, pool, root, p, flags, 4, root, AllFound)
      ensures EntriesMade(mem, mem, root, p, flags, pool, 0)
    {
      NoneMade(mem, root, p, flags, pool);
      assert Walk(mem, root, 4, p, 4) == Some(root) && On(mem, root, 4, root);
      hide Walk, On, Missing, EntriesMade;
    }

    /** The last table on the way to `vaddr`; missing tables are made. Null if the allocator runs
        out. */
    method CreatePage(root: nat, vaddr: nat, flags: nat) returns (table: nat, ghost w: Way)
      requires Valid() && Tree(mem, root, 4)
      modifies this
      ensures table == 0 <==> |old(pool)| < Missing(old(mem), root, PathOf(vaddr))
      ensures if table != 0 then Descending(mem, pool, old(mem), old(pool), root, PathOf(vaddr), flags, 1, table, w)
              else RanOut(mem, pool, old(mem), old(pool), root, PathOf(vaddr), flags, w)
      ensures |pool| <= |old(pool)|
      ensures !w.Misleading? ==>
                EntriesMade(old(mem), mem, root, PathOf(vaddr), flags, old(pool), |old(pool)| - |pool|)
    {
      hide *;
      ghost var p, m0, pool0 := PathOf(vaddr), mem, pool;
      Begin(root, p, flags);
      table, w := root, AllFound;
      var i := 4;
      while i > 1
        invariant |pool| <= |pool0| && 1 <= i
        invariant !w.Misleading? ==> EntriesMade(m0, mem, root, p, flags, pool0, |pool0| - |pool|)
        invariant table != 0 && Descending(mem, pool, m0, pool0, root, p, flags, i, table, w)
      {
        table, w := Descend(m0, pool0, root, p, flags, i, table, VAddrIndex(vaddr, i), w);
        if table == 0 {
          TooFew(mem, pool, m0, pool0, root, p, flags, w);
          return;
        }
        i := i - 1;
      }
      Taken(mem, pool, m0, pool0, root, p, flags, table, w);
    }

    /** Maps a page. It fails exactly when the allocator has fewer frames left than tables are missing,
        and then nothing is mapped differently. If the flags are not those of a present page, tables
        that had to be made are not found again, and the page stays unmapped. If they are, but some of
        them are address bits that the frame of a new table lacks, its entry leads elsewhere. */
    method Map(root: nat, paddr: nat, vaddr: nat, flags: nat) returns (r: bool)
      requires Valid() && Tree(mem, root, 4)
      modifies this
      ensures Valid() && Elsewhere(old(mem), mem, root)
      ensures |pool| <= |old(pool)| && pool == old(pool)[|old(pool)| - |pool|..]
      ensures r == (|old(pool)| >= Missing(old(mem), root, PathOf(vaddr)))
      ensures if Present(flags) && !AllLeadTo(old(pool), Missing(old(mem), root, PathOf(vaddr)), flags) then
                Misled(mem, root, PathOf(vaddr), flags, old(pool))
              else
                && Tree(mem, root, 4) && OnlyNew(old(mem), mem, root)
                && EntriesThen(old(mem), mem, root, PathOf(vaddr), flags, old(pool), |old(pool)| - |pool|, r,
                               Or(paddr, flags))
                && (!r ==> Missing(mem, root, PathOf(vaddr)) > 0)
                && forall q :: Last(mem, root, 4, q) ==
                     if r && q == PathOf(vaddr) && Sticks(old(mem), root, flags, q) then Or(paddr, flags)
                     else Last(old(mem), root, 4, q)
      ensures !Present(flags) ==> SameTables(old(mem), mem, root)
      ensures |pool| == if r then |old(pool)| - Missing(old(mem), root, PathOf(vaddr)) else 0
    {
      hide EntriesMade, EntriesThen;
      hide Or, Tree, Misled, Walk, Missing, On, Kept, Last, Strayed, AllLeadTo, SameTables, LeadsTo, Sticks;
      hide Elsewhere, OnlyNew, PathOf;
      ghost var m0, pool0, w := mem, pool, AllFound;
      var table;
      table, w := CreatePage(root, vaddr, flags);
      ghost var m := mem;
      r := table != 0;
      if r {
        var entries: Table := mem[table][VAddrIndex(vaddr, 1) := Or(paddr, flags)];
        mem := mem[table := entries];
        Mapped(m, pool, m0, pool0, root, PathOf(vaddr), flags, table, w, Or(paddr, flags));
        DoneEntries(m, pool, m0, pool0, root, PathOf(vaddr), flags, table, w, Or(paddr, flags));
      } else {
        NotMapped(m, pool, m0, pool0, root, PathOf(vaddr), flags, w);
        StoppedEntries(m, pool, m0, pool0, root, PathOf(vaddr), flags, w, Or(paddr, flags));
        if EntriesThen(m0, m, root, PathOf(vaddr), flags, pool0, |pool0|, false, Or(paddr, flags)) {
          StillMissing(m0, m, root, PathOf(vaddr), flags, pool0, Or(paddr, flags));
        }
      }
    }

    /** Maps the frames from `base` up to `bound` at an offset, page by page, until all are mapped or
        the allocator runs out; `n` pages are, and the next one lacks a table if there are more. */
    method MapRange(root: nat, base: nat, bound: nat, offset: nat, flags: nat) returns (r: bool, ghost n: nat)
      requires Valid() && Tree(mem, root, 4) && (Present(flags) ==> AllLeadTo(pool, |pool|, flags))
      modifies this
      ensures Valid() && Tree(mem, root, 4) && Elsewhere(old(mem), mem, root) && OnlyNew(old(mem), mem, root)
      ensures (r <==> base + n * FRAME_SIZE >= bound) && (n > 0 ==> base + (n - 1) * FRAME_SIZE < bound)
      ensures forall q :: Last(mem, root, 4, q) ==
                RangeLast(old(mem), root, base, n, offset, flags, q, Last(old(mem), root, 4, q))
      ensures !r ==> pool == [] && Missing(mem, root, PathOf(Add64(base + n * FRAME_SIZE, offset))) > 0
      ensures OnlyWith(old(mem), mem, root, flags, old(pool))
    {
      hide Tree, Elsewhere, OnlyNew, Last, Or, PathOf, RangeLast, SameTables, Missing, Sound, AllLeadTo;
      hide OnlyWith, EntriesThen, Add64;
      ghost var pool0 := pool;
      OnlyWithFirst(mem, root, flags, pool);
      ghost var m0 := mem;
      var addr := base;
      RangeNone(m0, root, base, offset, flags);
      ElsewhereAtFirst(m0, root);
      n := 0;
      while addr < bound
        invariant Valid() && Tree(mem, root, 4) && Elsewhere(m0, mem, root) && OnlyNew(m0, mem, root)
        invariant addr == base + n * FRAME_SIZE && (n > 0 ==> base + (n - 1) * FRAME_SIZE < bound)
        invariant if Present(flags) then AllLeadTo(pool, |pool|, flags) else SameTables(m0, mem, root)
        invariant OnlyWith(m0, mem, root, flags, pool0) && forall x | x in pool :: x in pool0
        invariant forall q :: Last(mem, root, 4, q) ==
                    RangeLast(m0, root, base, n, offset, flags, q, Last(m0, root, 4, q))
      {
        ghost var m, pool1 := mem, pool;
        LeadOn(pool1, Missing(m, root, PathOf(Add64(addr, offset))), flags);
        r := Map(root, addr, Add64(addr, offset), flags);
        ElsewhereThen(m0, m, mem, root);
        OnlyWithThen(m0, m, mem, root, PathOf(Add64(addr, offset)), flags, pool0, pool1, |pool1| - |pool|, r,
                     Or(addr, flags));
        FewerLead(pool1, pool, flags);
        SameThen(m0, m, mem, root);
        if !r {
          return;
        }
        StickStill(m0, m, root, flags);
        RangeMore(m0, m, mem, root, base, n, offset, flags);
        addr, n := addr + FRAME_SIZE, n + 1;
      }
      r := true;
    }

    /** Moves a page: what `vaddr` was mapped to is mapped at `newVaddr` instead, if the flags do not
        lead the entry of a new table elsewhere. */
    method Remap(root: nat, vaddr: nat, newVaddr: nat, flags: nat) returns (r: bool)
      requires Valid() && Tree(mem, root, 4)
      modifies this
      ensures Valid() && Elsewhere(old(mem), mem, root)
      ensures r == (Missing(old(mem), root, PathOf(vaddr)) == 0 &&
                    |old(pool)| >= Missing(old(mem), root, PathOf(newVaddr)))
      ensures if Present(flags) && !AllLeadTo(old(pool), Missing(old(mem), root, PathOf(newVaddr)), flags) then
                Misled(mem, root, PathOf(newVaddr), flags, old(pool))
              else
                && Tree(mem, root, 4) && OnlyNew(old(mem), mem, root)
                && forall q :: Last(mem, root, 4, q) ==
                     if q == PathOf(newVaddr) && |old(pool)| >= Missing(old(mem), root, q) &&
                       Sticks(old(mem), root, flags, q)
                     then Or(Translation(old(mem), root, vaddr), flags)
                     else if q == PathOf(vaddr) then 0
                     else Last(old(mem), root, 4, q)
      ensures (Present(flags) ==> AllLeadTo(old(pool), Missing(old(mem), root, PathOf(newVaddr)), flags)) ==>
                OnlyWith(old(mem), mem, root, flags, old(pool))
    {
      hide Tree, Elsewhere, OnlyNew, Last, Or, PathOf, SameTables, Missing, Sound, AllLeadTo, Misled;
      hide OnlyWith, EntriesThen, Entry;
      ghost var m0, pool0 := mem, pool;
      var paddr := VAddrToPAddr(root, vaddr);
      var unmapped := Unmap(root, vaddr);
      ghost var m := mem;
      OnlyWithUnmapped(m0, m, root, flags, pool);
      var mapped := Map(root, paddr, newVaddr, flags);
      ElsewhereThen(m0, m, mem, root);
      if EntriesThen(m, mem, root, PathOf(newVaddr), flags, pool0, |pool0| - |pool|, mapped, Or(paddr, flags)) {
        OnlyWithThen(m0, m, mem, root, PathOf(newVaddr), flags, pool0, pool0, |pool0| - |pool|, mapped,
                     Or(paddr, flags));
      }
      return unmapped && mapped;
    }

    // -------------------------------------------------------- whole page maps

    method FreeFrame(f: nat)
      requires Valid() && f in mem
      modifies this
      ensures Valid() && mem == old(mem) - {f} && pool == [f] + old(pool)
    {
      pool := [f] + pool;
      mem := mem - {f};
    }

    /** Gives every frame of a tree back to the allocator, once, and no other frame. */
    method DeepFree(table: nat, level: nat)
      requires Valid() && Tree(mem, table, level)
      modifies this
      decreases level
      ensures Valid()
      ensures forall f :: f in mem <==> f in old(mem) && !On(old(mem), table, level, f)
      ensures forall f | f in mem :: mem[f] == old(mem)[f]
      ensures forall f :: f in pool <==> f in old(pool) || On(old(mem), table, level, f)
    {
      hide Tree, On, Child, Next, Freed;
      ghost var m0 := mem;
      FreedNone(m0, table, level);
      if level > 1 {
        var i := 0;
        while i < ENTRIES
          invariant i <= ENTRIES && Valid() && Freeing(m0, table, level, i, mem)
          invariant forall f :: f in pool <==> f in old(pool) || Freed(m0, table, level, i, f)
        {
          var e := mem[table][i];
          if Present(e) {
            FreeNext(m0, table, level, i, mem, Addr(e), level - 1);
            DeepFree(Addr(e), level - 1);
          }
          FreedMore(m0, table, level, i, Addr(e), level - 1);
          i := i + 1;
        }
      }
      FreedAll(m0, table, level);
      FreeFrame(table);
    }

    /** Copies a tree of tables into new frames, below the empty table `copy`. If the frames run out,
        frame 0 is taken for a table wherever one is missing. */
    method DeepCopy(table: nat, copy: nat, level: nat) returns (ok: bool)
      requires Valid() && Tree(mem, table, level)
      requires copy in mem && mem[copy] == Zeros() && !On(mem, table, level, copy)
      modifies this
      decreases level, 1
      ensures Valid() && CopyKeeps(old(mem), mem, copy)
      ensures ok <==> |old(pool)| >= Below(old(mem), table, level)
      ensures ok ==> Tree(mem, copy, level) && CopyNew(old(mem), mem, copy, level)
      ensures ok ==> forall p :: Last(mem, copy, level, p) == Last(old(mem), table, level, p)
      ensures if ok then |pool| == |old(pool)| - Below(old(mem), table, level)
              else pool == [] && Dangles(mem, old(mem), copy, level)
      ensures Alike(old(mem), table, mem, copy, level)
    {
      hide Tree, On, Last, BelowFirst, DanglesAt, AlikeAt;
      ghost var m0, n0 := mem, |pool|;
      TreeTables(m0, table, level);
      ok := true;
      if level == 1 {
        CopyLast(m0, table, copy);
        mem := mem[copy := mem[table]];
        assert Alike(m0, table, mem, copy, level);
        return;
      }
      CopyNone(m0, table, copy, level);
      CountedNone(m0, mem, pool, table, copy, level);
      AlikeNone(m0, table, copy, level);
      hide Alike, AlikeFirst;
      var i := 0;
      while i < ENTRIES
        invariant i <= ENTRIES && Valid() && CopyKeeps(m0, mem, copy)
        invariant ok ==> Copied(m0, mem, table, copy, level, i)
        invariant Counted(m0, n0, mem, pool, table, copy, level, i, ok) && AlikeFirst(m0, table, mem, copy, level, i)
      {
        TableKept(m0, mem, table, copy, level);
        var e := mem[table][i];
        if Present(e) {
          ok := CopyEntry(m0, n0, table, copy, level, i, e, ok);
        } else {
          if ok {
            CopiedMore(m0, mem, table, copy, level, i);
          }
          CountedMore(m0, n0, mem, pool, table, copy, level, i, ok);
          AlikeMore(m0, table, mem, copy, level, i);
        }
        i := i + 1;
      }
      if ok {
        CopiedAll(m0, mem, table, copy, level);
      }
      CountedAll(m0, n0, mem, pool, table, copy, level, ok);
      AlikeAll(m0, table, mem, copy, level);
    }

    /** Copies what hangs below one entry. What is copied into frame 0 changes no other table, as no more
        frames are to be had then. */
    method CopyEntry(ghost m0: Memory, ghost n0: nat, ghost table: nat, copy: nat, level: nat, i: nat, e: nat,
                     ghost so: bool)
      returns (ok: bool)
      requires Valid() && CopyKeeps(m0, mem, copy) && Tree(m0, table, level) && copy in m0 && i < ENTRIES && level >= 2
      requires (so ==> Copied(m0, mem, table, copy, level, i)) && Counted(m0, n0, mem, pool, table, copy, level, i, so)
      requires table in m0 && |m0[table]| == ENTRIES && e == m0[table][i] && Present(e)
      requires AlikeFirst(m0, table, mem, copy, level, i)
      modifies this
      decreases level, 0
      ensures Valid() && CopyKeeps(m0, mem, copy)
      ensures ok ==> Copied(m0, mem, table, copy, level, i + 1)
      ensures Counted(m0, n0, mem, pool, table, copy, level, i + 1, ok)
      ensures AlikeFirst(m0, table, mem, copy, level, i + 1)
    {
      hide Tree, On, Last, Or, Child, Copied, Below, Dangles, CopyNew, Present, Alike, AlikeFirst;
      var flags := e % 512;
      ghost var m, n := mem, |pool|;
      var frame := AllocateFrame();
      var entries: Table := mem[copy][i := Or(frame, flags)];
      mem := mem[copy := entries];
      ghost var m1 := mem;
      if frame == 0 {
        NullEntry(m0, n0, m, m1, table, copy, level, i, e, so);
        AlikeNull(m0, table, m, m1, copy, level, i, e);
        return false;
      }
      EntryBegun(m0, m, m1, table, copy, level, i, e, frame);
      CopySource(m0, m, m1, table, copy, level, i, e, frame, Addr(e), level - 1);
      CopyTarget(m0, m, m1, table, copy, level, i, e, frame);
      ok := DeepCopy(Addr(e), frame, level - 1);
      if ok {
        CopyDone(m0, m, m1, mem, table, copy, level, i, e, frame, Addr(e), level - 1);
      }
      CountedDone(m0, n0, n, m, m1, mem, pool, table, copy, level, i, e, frame, ok);
      KeptOn(m0, m, m1, mem, copy, frame);
      AlikeDone(m0, m, m1, mem, table, copy, level, i, e, frame);
    }

    /** Makes a page map that maps what another one does and shares no table with it, if there are frames
        enough. */
    method Copy(root: nat) returns (copy: nat)
      requires Valid() && Tree(mem, root, 4)
      modifies this
      ensures Valid() && Tree(mem, root, 4) && forall q :: Last(mem, root, 4, q) == Last(old(mem), root, 4, q)
      ensures copy !in old(mem) && (copy == 0 <==> old(pool) == [])
      ensures |old(pool)| > Below(old(mem), root, 4) ==>
                && Tree(mem, copy, 4) && (forall q :: Last(mem, copy, 4, q) == Last(mem, root, 4, q))
                && Disjoint(mem, root, copy, 4)
      ensures 0 < |old(pool)| <= Below(old(mem), root, 4) ==> Dangles(mem, old(mem), copy, 4)
      ensures copy != 0 ==> Alike(old(mem), root, mem, copy, 4)
    {
      hide DanglesAt, Below, AlikeAt, Alike;
      ghost var m0 := mem;
      copy := AllocateFrame();
      if copy == 0 {
        return;
      }
      ghost var m := mem;
      TreeFrame(m0, m, root, 4);
      NotOn(m0, root, copy);
      BelowFrame(m0, m, root, 4);
      var ok := DeepCopy(root, copy, 4);
      CopyApart(m0, m, mem, root, copy);
      AlikeFrom(m0, m, root, mem, copy, 4);
      if !ok {
        DanglesFewer(mem, m0, m, copy, 4);
      }
    }
  }

  /** Table `f` hangs below one of the first `n` entries. */
  ghost predicate Freed(m: Memory, t: nat, top: nat, n: nat, f: nat) {
    exists j: nat, c: nat :: j < n && Child(m, t, top, j, c) && On(m, c, top - 1, f)
  }

  /** What hangs below the first `n` entries is gone, and the rest is as it was. */
  ghost predicate Freeing(m: Memory, t: nat, top: nat, n: nat, m': Memory) {
    && t in m && t in m' && m'[t] == m[t]
    && (forall f :: f in m' <==> f in m && !Freed(m, t, top, n, f))
    && (forall f | f in m' && f in m :: m'[f] == m[f])
  }

  /** The tables of other trees are as they were. */
  ghost predicate Elsewhere(m: Memory, m': Memory, root: nat) {
    forall f | f in m && !On(m, root, 4, f) :: f in m' && m'[f] == m[f]
  }

  lemma AgreeAll(p: Path)
    ensures forall q :: Agree(p, q, 4, 0) <==> p == q
  {
    forall q: Path
      ensures Agree(p, q, 4, 0) <==> p == q
    {
      assert Agree(p, q, 4, 0) <==> p.At(1) == q.At(1) && Agree(p, q, 4, 1);
      assert Agree(p, q, 4, 1) <==> p.At(2) == q.At(2) && Agree(p, q, 4, 2);
      assert Agree(p, q, 4, 2) <==> p.At(3) == q.At(3) && Agree(p, q, 4, 3);
      assert Agree(p, q, 4, 3) <==> p.At(4) == q.At(4);
    }
  }

  lemma LastMissing(m: Memory, t: nat, p: Path)
    ensures Missing(m, t, p) == 0 <==> Walk(m, t, 4, p, 1).Some?
    ensures forall k | 1 <= k <= 3 :: Walk(m, t, 4, p, k).None? <==> k <= Missing(m, t, p)
  {
    if Walk(m, t, 4, p, 3).None? {
      NoneBelow(m, t, 4, p, 3, 2);
      NoneBelow(m, t, 4, p, 3, 1);
    } else if Walk(m, t, 4, p, 2).None? {
      NoneBelow(m, t, 4, p, 2, 1);
    }
  }

  /** Everything is mapped as it was, and other trees are untouched. */
  ghost predicate Kept(m: Memory, m': Memory, root: nat) {
    && Tree(m', root, 4) && (forall q :: Last(m', root, 4, q) == Last(m, root, 4, q))
    && Elsewhere(m, m', root) && OnlyNew(m, m', root)
  }

  /** Going down to a table that is there. */
  lemma FoundChild(m: Memory, root: nat, p: Path, i: nat, f: nat)
    requires Tree(m, root, 4) && 2 <= i <= 4 && Walk(m, root, 4, p, i) == Some(f) && p.At(i) < ENTRIES && f in m
    requires Present(m[f][p.At(i)])
    ensures var g := Addr(m[f][p.At(i)]); g in m && Walk(m, root, 4, p, i - 1) == Some(g) && On(m, root, 4, g)
  {
    assert Leads(m, root, 4, p, i);
    assert Walk(m, root, 4, p, i - 1) == Some(Addr(m[f][p.At(i)]));
  }

  /** An entry that has just been made does not lead to its table. */
  lemma MisledFrom(m: Memory, root: nat, p: Path, i: nat, f: nat, g: nat, flags: nat, pool: seq<nat>)
    requires Tree(m, root, 4) && 2 <= i <= 4 && Walk(m, root, 4, p, i) == Some(f) && f in m && p.At(i) < ENTRIES
    requires g in pool && !LeadsTo(g, flags)
    ensures Misled(Write(m, f, p.At(i), Or(g, flags)), root, p, flags, pool)
  {
    OwnWalk(m, root, 4, p, i, f, p.At(i), Or(g, flags), i);
    assert MisledAt(Write(m, f, p.At(i), Or(g, flags)), root, p, flags, i, g);
  }

  lemma StaysMisled(m: Memory, m': Memory, root: nat, p: Path, flags: nat, pool: seq<nat>)
    requires Misled(m, root, p, flags, pool) && forall x | x in m :: x in m' && m'[x] == m[x]
    ensures Misled(m', root, p, flags, pool)
  {
    var k: nat, g: nat :| 2 <= k <= 4 && g in pool && MisledAt(m, root, p, flags, k, g);
    WalkStays(m, m', root, 4, p, k);
    assert MisledAt(m', root, p, flags, k, g);
  }

  /** Going down to a new table, which is on the tree only if the flags make its entry present. */
  lemma NewChild(m: Memory, root: nat, p: Path, i: nat, f: nat, g: nat, flags: nat)
    requires Tree(m, root, 4) && 2 <= i <= 4 && p.At(i) < ENTRIES && f in m && !Present(m[f][p.At(i)])
    requires g !in m && g % FRAME_SIZE == 0 && (Present(flags) ==> LeadsTo(g, flags))
    requires Walk(m, root, 4, p, i) == Some(f) || (!Present(flags) && !On(m, root, 4, f))
    ensures var m' := Write(m, f, p.At(i), Or(g, flags))[g := Zeros()];
      && Tree(m', root, 4) && (forall q :: Last(m', root, 4, q) == Last(m, root, 4, q))
      && (if Present(flags) then Walk(m', root, 4, p, i - 1) == Some(g)
          else !On(m', root, 4, g) && SameTables(m, m', root))
      && (forall x :: On(m', root, 4, x) ==> On(m, root, 4, x) || x == g)
  {
    var e := Or(g, flags);
    var m1 := Write(m, f, p.At(i), e);
    OrHalf(g, flags);
    hide Or;
    if Present(flags) {
      AddTree(m, root, 4, p, i - 1, f, e, g);
    } else {
      if Walk(m, root, 4, p, i) == Some(f) {
        WriteTree(m, root, 4, p, i, f, e);
      } else {
        TreeFrame(m, m1, root, 4);
      }
      NotOn(m1, root, g);
      TreeFrame(m1, m1[g := Zeros()], root, 4);
    }
  }

  lemma NotOn(m: Memory, root: nat, g: nat)
    requires g !in m
    ensures !On(m, root, 4, g)
  {
    if On(m, root, 4, g) {
      var p: Path, k: nat :| 1 <= k <= 4 && Walk(m, root, 4, p, k) == Some(g);
      WalkIn(m, root, 4, p, k);
    }
  }

  lemma KeptStill(m0: Memory, m: Memory, m': Memory, root: nat, f: nat)
    requires Kept(m0, m, root) && Tree(m', root, 4) && (forall q :: Last(m', root, 4, q) == Last(m, root, 4, q))
    requires (forall x | x in m :: x in m' && (x != f ==> m'[x] == m[x])) && (f in m0 ==> On(m0, root, 4, f))
    requires forall x :: On(m', root, 4, x) ==> On(m, root, 4, x) || x !in m
    ensures Kept(m0, m', root)
  {
  }

  /** Tables that were there and were not of this tree still are not. */
  ghost predicate OnlyNew(m: Memory, m': Memory, root: nat) {
    (forall f | f in m :: f in m') && (forall f | f in m && On(m', root, 4, f) :: On(m, root, 4, f))
  }

  // ----------------------------------------------------------------- addresses

  /** What mapping a page does to the translation of every address: that page translates to what its
      entry leads to, which is the frame if the flags are in the lowest nine bits, and no other page's
      translation changes. */
  lemma MapTranslates(m: Memory, m': Memory, root: nat, paddr: nat, vaddr: nat, flags: nat)
    requires forall q :: Last(m', root, 4, q) == if q == PathOf(vaddr) then Or(paddr, flags) else Last(m, root, 4, q)
    ensures forall w: nat :: Translation(m', root, w) ==
              if Page(w) == Page(vaddr) then Addr(Or(paddr, flags)) else Translation(m, root, w)
    ensures paddr % FRAME_SIZE == 0 && flags < ENTRIES ==> Addr(Or(paddr, flags)) == paddr
  {
    if paddr % FRAME_SIZE == 0 && flags < ENTRIES {
      EntryFor(paddr, flags);
    }
    hide Or, Addr, PathOf, Page, Last;
    forall w: nat
      ensures Translation(m', root, w) ==
              if Page(w) == Page(vaddr) then Addr(Or(paddr, flags)) else Translation(m, root, w)
    {
      SamePage(w, vaddr);
    }
  }

  /** What mapping a page does to the rights of every page: that page's are the flags', as far as the
      tables that were there already grant them; all others are what they were. */
  lemma MapGrants(m0: Memory, m: Memory, root: nat, p: Path, paddr: nat, flags: nat, pool0: seq<nat>, n: nat, q: Path,
                  b: nat)
    requires EntriesThen(m0, m, root, p, flags, pool0, n, true, Or(paddr, flags)) && Present(flags)
    requires paddr % FRAME_SIZE == 0 && (forall x | x in pool0 :: x % FRAME_SIZE == 0) && b < 12
    ensures Grants(m, root, q, b) <==>
            if q == p then
              Bit(flags, b) && forall k | Missing(m0, root, p) + 2 <= k <= 4 :: Bit(Entry(m0, root, p, k), b)
            else Grants(m0, root, q, b)
  {
    hide Or, Walk, Bit;
    var g := Missing(m0, root, p);
    FlagBits(paddr, flags, b);
    forall x | x in pool0
      ensures Bit(Or(x, flags), b) <==> Bit(flags, b)
    {
      FlagBits(x, flags, b);
    }
    if q == p {
      AllAgree(p);
      assert Entry(m, root, p, 1) == Or(paddr, flags) && forall k | 2 <= k <= 4 ::
          Entry(m, root, p, k) == if k <= g + 1 then Or(pool0[g + 1 - k], flags) else Entry(m0, root, p, k);
      assert forall k | 1 <= k <= 4 :: Bit(Entry(m, root, p, k), b) <==>
          if k <= g + 1 then Bit(flags, b) else Bit(Entry(m0, root, p, k), b);
      assert Grants(m, root, p, b) ==> Bit(Entry(m, root, p, 1), b);
      assert forall k | g + 2 <= k <= 4 :: Bit(Entry(m0, root, p, k), b) <==> Bit(Entry(m, root, p, k), b);
    } else if k :| 1 <= k <= 4 && NewEntry(m0, root, p, flags, n, q, k) {
      NoGrant(m0, m, root, p, flags, pool0, n, Or(paddr, flags), q, k, b);
    } else {
      assert forall k | 1 <= k <= 4 :: Entry(m, root, q, k) == Entry(m0, root, q, k);
    }
  }

  /** A page whose way is that of the mapped one through a table that was missing was not there, and
      still is not. */
  lemma NoGrant(m0: Memory, m: Memory, root: nat, p: Path, flags: nat, pool0: seq<nat>, n: nat, e: nat, q: Path, k: nat,
                b: nat)
    requires EntriesThen(m0, m, root, p, flags, pool0, n, true, e) && q != p
    requires 1 <= k <= 4 && NewEntry(m0, root, p, flags, n, q, k)
    ensures !Grants(m0, root, q, b) && !Grants(m, root, q, b)
  {
    LastMissing(m0, root, p);
    AgreeWalk(m0, root, 4, p, q, k - 1);
    NoneBelow(m0, root, 4, q, k - 1, 1);
    hide Or, Walk, Half, Missing;
    HalfOfZero(b);
    assert Entry(m0, root, q, 1) == 0 && Entry(m, root, q, 1) == 0;
    hide Entry;
    assert !Bit(Entry(m0, root, q, 1), b) && !Bit(Entry(m, root, q, 1), b);
  }

  lemma AllAgree(p: Path)
    ensures forall k | 0 <= k <= 4 :: Agree(p, p, 4, k)
  {
    forall k | 0 <= k <= 4
      ensures Agree(p, p, 4, k)
    {
      AgreeSame(p, 4, k);
    }
  }

  /** Addition of two 64-bit numbers, the carry being lost. */
  function Add64(a: nat, b: nat): (r: nat)
    ensures a + b < 0x1_0000_0000_0000_0000 ==> r == a + b
    ensures 0x1_0000_0000_0000_0000 <= a + b < 0x2_0000_0000_0000_0000 ==> r == a + b - 0x1_0000_0000_0000_0000
  {
    (a + b) % 0x1_0000_0000_0000_0000
  }

  /** The last entry for `q` after the first `n` pages from `base` were mapped at an offset, when `m` was
      memory; `e` is what it was before. */
  function RangeLast(m: Memory, root: nat, base: nat, n: nat, offset: nat, flags: nat, q: Path, e: nat): nat {
    if n == 0 then e
    else
      var addr := base + (n - 1) * FRAME_SIZE;
      if PathOf(Add64(addr, offset)) == q && Sticks(m, root, flags, q) then Or(addr, flags)
      else RangeLast(m, root, base, n - 1, offset, flags, q, e)
  }

  /** The pages of a range within the 48-bit address space are all different. */
  lemma PagesApart(base: nat, offset: nat, x: nat, y: nat)
    requires x < y < x + 0x10_0000_0000
    ensures PathOf(Add64(base + x * FRAME_SIZE, offset)) != PathOf(Add64(base + y * FRAME_SIZE, offset))
  {
    var v, w := Add64(base + x * FRAME_SIZE, offset), Add64(base + y * FRAME_SIZE, offset);
    SamePage(v, w);
    PageOf(base + offset, x);
    PageOf(base + offset, y);
    hide PathOf, Page;
    assert base + x * FRAME_SIZE + offset == base + offset + x * FRAME_SIZE;
    assert base + y * FRAME_SIZE + offset == base + offset + y * FRAME_SIZE;
    if Page(v) == Page(w) {
      var a := (base + offset) / FRAME_SIZE;
      ModApart(a + x, a + y);
    }
  }

  lemma ModApart(a: nat, b: nat)
    requires a < b < a + 0x10_0000_0000
    ensures a % 0x10_0000_0000 != b % 0x10_0000_0000
  {
  }

  lemma PageOf(start: nat, x: nat)
    ensures Page((start + x * FRAME_SIZE) % 0x1_0000_0000_0000_0000) == (start / FRAME_SIZE + x) % 0x10_0000_0000
  {
    var s := start + x * FRAME_SIZE;
    var v, k := s % 0x1_0000_0000_0000_0000, s / 0x1_0000_0000_0000_0000;
    Remainder(v);
    assert s / FRAME_SIZE == start / FRAME_SIZE + x;
    assert s == k * 0x1_0000_0000_0000_0000 + v;
    assert s / FRAME_SIZE == k * 0x10_0000_0000_0000 + v / FRAME_SIZE;
    ModMore(v / FRAME_SIZE, k);
  }

  lemma ModMore(a: nat, k: nat)
    ensures (k * 0x10_0000_0000_0000 + a) % 0x10_0000_0000 == a % 0x10_0000_0000
  {
    var q, r := a / 0x10_0000_0000, a % 0x10_0000_0000;
    assert k * 0x10_0000_0000_0000 + a == (k * 0x1_0000 + q) * 0x10_0000_0000 + r;
  }

  /** Each page of a mapped range has the entry for its own frame, if the mapping sticks, and every other
      address keeps its entry. */
  lemma {:induction false} RangePointwise(m: Memory, root: nat, base: nat, n: nat, offset: nat, flags: nat, q: Path,
                                          e: nat)
    requires n <= 0x10_0000_0000
    ensures forall x: nat | x < n :: q == PathOf(Add64(base + x * FRAME_SIZE, offset)) ==>
              RangeLast(m, root, base, n, offset, flags, q, e) ==
              if Sticks(m, root, flags, q) then Or(base + x * FRAME_SIZE, flags) else e
    ensures (forall x: nat | x < n :: q != PathOf(Add64(base + x * FRAME_SIZE, offset))) ==>
            RangeLast(m, root, base, n, offset, flags, q, e) == e
  {
    hide Or, PathOf, Missing;
    if n > 0 {
      RangePointwise(m, root, base, n - 1, offset, flags, q, e);
      if !Sticks(m, root, flags, q) {
        RangeLoose(m, root, base, n, offset, flags, q, e);
      }
      forall x: nat | x < n - 1
        ensures PathOf(Add64(base + x * FRAME_SIZE, offset)) != PathOf(Add64(base + (n - 1) * FRAME_SIZE, offset))
      {
        PagesApart(base, offset, x, n - 1);
      }
    }
  }

  lemma {:induction false} RangeLoose(m: Memory, root: nat, base: nat, n: nat, offset: nat, flags: nat, q: Path, e: nat)
    requires !Sticks(m, root, flags, q)
    ensures RangeLast(m, root, base, n, offset, flags, q, e) == e
  {
    if n > 0 {
      RangeLoose(m, root, base, n - 1, offset, flags, q, e);
    }
  }

  /** Changing one tree leaves every tree that shares no table with it as it was. */
  lemma OtherTree(m: Memory, m': Memory, root: nat, other: nat)
    requires Tree(m, other, 4) && Tables(m') && Elsewhere(m, m', root) && OnlyNew(m, m', root)
    requires forall f :: !(On(m, root, 4, f) && On(m, other, 4, f))
    ensures Tree(m', other, 4) && forall q :: Last(m', other, 4, q) == Last(m, other, 4, q)
    ensures forall f :: !(On(m', root, 4, f) && On(m', other, 4, f))
  {
    TreeFrame(m, m', other, 4);
    forall f
      ensures !(On(m', root, 4, f) && On(m', other, 4, f))
    {
      if On(m', other, 4, f) && f !in m {
        NotOn(m, other, f);
      }
    }
  }

  lemma ElsewhereThen(m: Memory, m': Memory, m'': Memory, root: nat)
    requires Elsewhere(m, m', root) && OnlyNew(m, m', root) && Elsewhere(m', m'', root)
    ensures Elsewhere(m, m'', root) && (OnlyNew(m', m'', root) ==> OnlyNew(m, m'', root))
  {
  }

  lemma ElsewhereAtFirst(m: Memory, root: nat)
    ensures Elsewhere(m, m, root) && OnlyNew(m, m, root)
  {
  }

  lemma RangeNone(m: Memory, root: nat, base: nat, offset: nat, flags: nat)
    ensures forall q :: Last(m, root, 4, q) == RangeLast(m, root, base, 0, offset, flags, q, Last(m, root, 4, q))
    ensures SameTables(m, m, root)
  {
  }

  lemma RangeMore(m0: Memory, m: Memory, m': Memory, root: nat, base: nat, n: nat, offset: nat, flags: nat)
    requires forall q :: Last(m, root, 4, q) == RangeLast(m0, root, base, n, offset, flags, q, Last(m0, root, 4, q))
    requires forall q :: Last(m', root, 4, q) ==
               if q == PathOf(Add64(base + n * FRAME_SIZE, offset)) && Sticks(m0, root, flags, q)
               then Or(base + n * FRAME_SIZE, flags)
               else Last(m, root, 4, q)
    ensures forall q :: Last(m', root, 4, q) ==
              RangeLast(m0, root, base, n + 1, offset, flags, q, Last(m0, root, 4, q))
  {
    hide Or, PathOf, Last, Missing, Sticks;
  }

  lemma LeadOn(pool: seq<nat>, n: nat, flags: nat)
    ensures AllLeadTo(pool, |pool|, flags) ==> AllLeadTo(pool, n, flags)
  {
  }

  lemma FewerLead(pool: seq<nat>, pool': seq<nat>, flags: nat)
    requires |pool'| <= |pool| && pool' == pool[|pool| - |pool'|..]
    ensures AllLeadTo(pool, |pool|, flags) ==> AllLeadTo(pool', |pool'|, flags)
  {
    hide LeadsTo;
  }

  lemma SameThen(m: Memory, m': Memory, m'': Memory, root: nat)
    ensures SameTables(m, m', root) && SameTables(m', m'', root) ==> SameTables(m, m'', root)
  {
    hide Walk;
  }

  lemma StickStill(m0: Memory, m: Memory, root: nat, flags: nat)
    requires Present(flags) || SameTables(m0, m, root)
    ensures forall q :: Sticks(m, root, flags, q) == Sticks(m0, root, flags, q)
  {
    hide Walk;
  }

  lemma FreedMore(m: Memory, t: nat, top: nat, i: nat, c: nat, h: nat)
    requires Tree(m, t, top) && 2 <= top && i < ENTRIES && c == Addr(m[t][i]) && h == top - 1
    ensures forall f :: Freed(m, t, top, i + 1, f) <==> Freed(m, t, top, i, f) || (Present(m[t][i]) && On(m, c, h, f))
  {
    if Present(m[t][i]) {
      EntryLeads(m, t, top, i);
    }
    forall f
      ensures Freed(m, t, top, i + 1, f) <==> Freed(m, t, top, i, f) || (Present(m[t][i]) && On(m, c, h, f))
    {
      if Freed(m, t, top, i + 1, f) {
        var j: nat, d: nat :| j < i + 1 && Child(m, t, top, j, d) && On(m, d, top - 1, f);
      }
    }
  }

  /** The next subtree is whole, whatever was freed before it. */
  lemma FreeNext(m: Memory, t: nat, top: nat, i: nat, m': Memory, c: nat, h: nat)
    requires Tree(m, t, top) && top >= 2 && i < ENTRIES && Freeing(m, t, top, i, m') && Tables(m') && Present(m[t][i])
    requires c == Addr(m[t][i]) && h == top - 1
    ensures Next(m, t, i) == Some(c) && Tree(m', c, h)
    ensures (forall f :: On(m', c, h, f) <==> On(m, c, h, f)) && !On(m, c, h, t)
  {
    EntryLeads(m, t, top, i);
    assert Next(m, t, i) == Some(c);
    hide Tree, On, Child, Next, Freed, Freeing;
    ChildTree(m, t, top, i, c, h);
    FreeKeeps(m, t, top, i, m', c, h);
    TreeFrame(m, m', c, h);
  }

  lemma FreeKeeps(m: Memory, t: nat, top: nat, i: nat, m': Memory, c: nat, h: nat)
    requires Tree(m, t, top) && Freeing(m, t, top, i, m') && Child(m, t, top, i, c) && h == top - 1
    ensures forall f | f in m && On(m, c, h, f) :: f in m' && m'[f] == m[f]
  {
    hide Tree, On, Child;
    forall f | f in m && On(m, c, h, f)
      ensures f in m' && m'[f] == m[f]
    {
      if Freed(m, t, top, i, f) {
        var j: nat, d: nat :| j < i && Child(m, t, top, j, d) && On(m, d, top - 1, f);
        ChildrenApart(m, t, top, i, c, j, d, h);
      }
    }
  }

  /** A present entry of the root of a tree leads to a table. */
  lemma EntryLeads(m: Memory, t: nat, top: nat, i: nat)
    requires Tree(m, t, top) && top >= 2 && i < ENTRIES && Present(m[t][i])
    ensures Child(m, t, top, i, Addr(m[t][i]))
  {
    var p := Path(0, 0, 0, 0).With(top, i);
    WithAt(Path(0, 0, 0, 0), top, i, top);
    assert Walk(m, t, top, p, top) == Some(t) && Leads(m, t, top, p, top);
  }

  /** A tree is its root and what hangs below all entries. */
  lemma FreedAll(m: Memory, t: nat, top: nat)
    requires Tree(m, t, top)
    ensures forall f :: On(m, t, top, f) <==> f == t || (top > 1 && Freed(m, t, top, ENTRIES, f))
    ensures !(top > 1 && Freed(m, t, top, ENTRIES, t))
  {
    forall f
      ensures On(m, t, top, f) <==> f == t || (top > 1 && Freed(m, t, top, ENTRIES, f))
    {
      OnParts(m, t, top, f);
      if i: nat, c: nat :| Child(m, t, top, i, c) && On(m, c, top - 1, f) {
        assert i < ENTRIES;
      }
    }
    if top > 1 && Freed(m, t, top, ENTRIES, t) {
      var j: nat, c: nat :| j < ENTRIES && Child(m, t, top, j, c) && On(m, c, top - 1, t);
      ChildTree(m, t, top, j, c, top - 1);
    }
  }

  lemma FreedNone(m: Memory, t: nat, top: nat)
    ensures forall f :: !Freed(m, t, top, 0, f)
    ensures Tree(m, t, top) ==> t in m && |m[t]| == ENTRIES && 1 <= top <= 4
  {
  }

  // --------------------------------------------------------------------- copies

  /** All tables but `copy` are as they were. */
  ghost predicate CopyKeeps(m: Memory, m': Memory, copy: nat) {
    copy in m' && forall f | f in m && f != copy :: f in m' && m'[f] == m[f]
  }

  /** The tables of the copy, but its root, are new. */
  ghost predicate CopyNew(m: Memory, m': Memory, copy: nat, level: nat) {
    forall f | f in m && On(m', copy, level, f) :: f == copy
  }

  /** The first `n` entries of table `table`, and what hangs below them, have been copied. */
  ghost predicate Copied(m0: Memory, m: Memory, table: nat, copy: nat, level: nat, n: nat) {
    && Tree(m0, table, level) && copy in m0 && !On(m0, table, level, copy)
    && Tree(m, copy, level) && CopyKeeps(m0, m, copy) && CopyNew(m0, m, copy, level)
    && (forall j | n <= j < ENTRIES :: j < |m[copy]| && m[copy][j] == 0)
    && (forall p: Path :: Last(m, copy, level, p) == if p.At(level) < n then Last(m0, table, level, p) else 0)
  }

  lemma TreeTables(m: Memory, t: nat, top: nat)
    requires Tree(m, t, top)
    ensures t in m && |m[t]| == ENTRIES && 1 <= top <= 4 && On(m, t, top, t)
  {
    assert Walk(m, t, top, Path(0, 0, 0, 0), top) == Some(t);
  }

  lemma CopyLast(m: Memory, table: nat, copy: nat)
    requires Tree(m, table, 1) && copy in m && Tables(m)
    ensures var m' := m[copy := m[table]];
      && Tables(m') && Tree(m', copy, 1) && CopyNew(m, m', copy, 1)
      && forall p :: Last(m', copy, 1, p) == Last(m, table, 1, p)
  {
    LeafAlone(m[copy := m[table]], copy);
  }

  lemma CopyNone(m: Memory, table: nat, copy: nat, level: nat)
    requires Tree(m, table, level) && copy in m && m[copy] == Zeros() && !On(m, table, level, copy)
    ensures Copied(m, m, table, copy, level, 0)
  {
    EmptyAlone(m, copy, level);
  }

  lemma TableKept(m0: Memory, m: Memory, table: nat, copy: nat, level: nat)
    requires Tree(m0, table, level) && !On(m0, table, level, copy) && CopyKeeps(m0, m, copy)
    ensures table in m && table in m0 && m[table] == m0[table] && table != copy
  {
    TreeTables(m0, table, level);
  }

  /** An entry that leads nowhere is not copied. */
  lemma CopiedMore(m0: Memory, m: Memory, table: nat, copy: nat, level: nat, i: nat)
    requires Copied(m0, m, table, copy, level, i) && i < ENTRIES && level >= 2 && table in m0 && i < |m0[table]| &&
             !Present(m0[table][i])
    ensures Copied(m0, m, table, copy, level, i + 1)
  {
    forall p: Path | p.At(level) == i
      ensures Last(m0, table, level, p) == 0
    {
      assert Walk(m0, table, level, p, level) == Some(table);
      assert Walk(m0, table, level, p, level - 1) == None;
      NoneBelow(m0, table, level, p, level - 1, 1);
    }
  }

  lemma CopiedAll(m0: Memory, m: Memory, table: nat, copy: nat, level: nat)
    requires Copied(m0, m, table, copy, level, ENTRIES) && level >= 2
    ensures forall p :: Last(m, copy, level, p) == Last(m0, table, level, p)
  {
    forall p: Path
      ensures Last(m, copy, level, p) == Last(m0, table, level, p)
    {
      if p.At(level) >= ENTRIES {
        assert Walk(m0, table, level, p, level) == Some(table);
        assert Walk(m0, table, level, p, level - 1) == None;
        NoneBelow(m0, table, level, p, level - 1, 1);
      }
    }
  }

  /** The state when an entry for a new frame has been made. */
  ghost predicate Copying(m0: Memory, m: Memory, m1: Memory, table: nat, copy: nat, level: nat, i: nat, e: nat,
                          frame: nat) {
    && Copied(m0, m, table, copy, level, i) && i < ENTRIES && level >= 2
    && table in m0 && i < |m0[table]| && e == m0[table][i] && Present(e)
    && frame !in m && frame % FRAME_SIZE == 0 && Tables(m)
    && copy in m && i < |m[copy]| && m1 == Write(m, copy, i, Or(frame, e % 512))[frame := Zeros()]
  }

  /** What is to be copied there is still what it was. */
  lemma CopySource(m0: Memory, m: Memory, m1: Memory, table: nat, copy: nat, level: nat, i: nat, e: nat, frame: nat,
                   c: nat, h: nat)
    requires Copying(m0, m, m1, table, copy, level, i, e, frame) && c == Addr(e) && h == level - 1
    ensures Child(m0, table, level, i, c) && Tree(m1, c, h) && !On(m1, c, h, frame)
    ensures forall p :: Last(m1, c, h, p) == Last(m0, c, h, p)
    ensures forall p: Path | p.At(level) == i :: Last(m0, table, level, p) == Last(m0, c, h, p)
  {
    EntryLeads(m0, table, level, i);
    ChildTree(m0, table, level, i, c, h);
    TreeFrame(m0, m1, c, h);
    if On(m1, c, h, frame) {
      var p: Path, k: nat :| 1 <= k <= h && Walk(m0, c, h, p, k) == Some(frame);
      WalkIn(m0, c, h, p, k);
    }
    forall p: Path | p.At(level) == i
      ensures Last(m0, table, level, p) == Last(m0, c, h, p)
    {
      LastChild(m0, table, level, c, p);
    }
  }

  /** The new frame is an empty table of the copy. */
  lemma CopyTarget(m0: Memory, m: Memory, m1: Memory, table: nat, copy: nat, level: nat, i: nat, e: nat, frame: nat)
    requires Copying(m0, m, m1, table, copy, level, i, e, frame)
    ensures Tree(m1, copy, level) && Child(m1, copy, level, i, frame) && CopyKeeps(m0, m1, copy) &&
            CopyNew(m0, m1, copy, level)
    ensures forall p :: Last(m1, copy, level, p) == Last(m, copy, level, p)
  {
    EntryFor(frame, e % 512);
    assert Present(e % 512);
    hide Or, Addr, Present;
    CopyHang(m, m1, copy, level, i, Or(frame, e % 512), frame);
    hide Tree, On, Last, Child;
  }

  lemma CopyHang(m: Memory, m1: Memory, copy: nat, level: nat, i: nat, e: nat, frame: nat)
    requires Tree(m, copy, level) && level >= 2 && i < ENTRIES && copy in m && i < |m[copy]| && m[copy][i] == 0
    requires frame !in m && Present(e) && Addr(e) == frame && m1 == Write(m, copy, i, e)[frame := Zeros()]
    ensures Tree(m1, copy, level) && Child(m1, copy, level, i, frame)
    ensures forall p :: Last(m1, copy, level, p) == Last(m, copy, level, p)
    ensures forall f :: On(m1, copy, level, f) ==> On(m, copy, level, f) || f == frame
  {
    var p := Path(0, 0, 0, 0).With(level, i);
    WithAt(Path(0, 0, 0, 0), level, i, level);
    assert Walk(m, copy, level, p, level) == Some(copy);
    AddTree(m, copy, level, p, level - 1, copy, e, frame);
  }

  /** The copy has one more entry. */
  lemma CopyDone(m0: Memory, m: Memory, m1: Memory, m2: Memory, table: nat, copy: nat, level: nat, i: nat, e: nat,
                 frame: nat, c: nat, h: nat)
    requires Copying(m0, m, m1, table, copy, level, i, e, frame) && c == Addr(e) && h == level - 1 && Tables(m2)
    requires CopyKeeps(m1, m2, frame) && Tree(m2, frame, h) && CopyNew(m1, m2, frame, h)
    requires forall p :: Last(m2, frame, h, p) == Last(m1, c, h, p)
    ensures Copied(m0, m2, table, copy, level, i + 1)
  {
    CopySource(m0, m, m1, table, copy, level, i, e, frame, c, h);
    CopyTarget(m0, m, m1, table, copy, level, i, e, frame);
    hide Tree, On, Last, Child, Or;
    GraftTree(m1, m2, copy, level, i, frame, h);
  }

  // Counting the tables that a copy needs.

  /** The number of tables below `t`, at level `level`. */
  ghost function Below(m: Memory, t: nat, level: nat): nat
    decreases level, ENTRIES + 2
  {
    if level <= 1 then 0 else BelowFirst(m, t, level, ENTRIES)
  }

  /** Those below its first `n` entries. */
  ghost function BelowFirst(m: Memory, t: nat, level: nat, n: nat): nat
    requires level >= 2 && n <= ENTRIES
    decreases level, n + 1
  {
    if n == 0 then 0 else BelowFirst(m, t, level, n - 1) + BelowAt(m, t, level, n - 1)
  }

  ghost function BelowAt(m: Memory, t: nat, level: nat, i: nat): nat
    requires level >= 2
    decreases level, 0
  {
    match Next(m, t, i)
    case None => 0
    case Some(c) => 1 + Below(m, c, level - 1)
  }

  lemma {:induction false} BelowFrame(m: Memory, m': Memory, t: nat, level: nat)
    requires Tree(m, t, level) && Tables(m')
    requires forall f | f in m && On(m, t, level, f) :: f in m' && m'[f] == m[f]
    ensures Below(m', t, level) == Below(m, t, level)
    decreases level, ENTRIES + 1
  {
    TreeTables(m, t, level);
    if level > 1 {
      BelowFirstFrame(m, m', t, level, ENTRIES);
    }
  }

  lemma {:induction false} BelowFirstFrame(m: Memory, m': Memory, t: nat, level: nat, n: nat)
    requires Tree(m, t, level) && Tables(m') && level >= 2 && n <= ENTRIES
    requires forall f | f in m && On(m, t, level, f) :: f in m' && m'[f] == m[f]
    ensures BelowFirst(m', t, level, n) == BelowFirst(m, t, level, n)
    decreases level, n
  {
    hide Tree, On, Below;
    if n > 0 {
      BelowFirstFrame(m, m', t, level, n - 1);
      TreeTables(m, t, level);
      if Present(m[t][n - 1]) {
        EntryLeads(m, t, level, n - 1);
        var c := Addr(m[t][n - 1]);
        ChildTree(m, t, level, n - 1, c, level - 1);
        TreeTables(m, c, level - 1);
        BelowFrame(m, m', c, level - 1);
      }
    }
  }

  /** Some entry among the new tables below `t` leads to frame 0. */
  ghost predicate Dangles(m: Memory, m0: Memory, t: nat, level: nat)
    decreases level, 1
  {
    exists i: nat :: DanglesAt(m, m0, t, level, i)
  }

  ghost predicate DanglesAt(m: Memory, m0: Memory, t: nat, level: nat, i: nat)
    decreases level, 0
  {
    && level >= 2 && t in m && i < |m[t]| && Present(m[t][i])
    && var c := Addr(m[t][i]); c == 0 || (c !in m0 && Dangles(m, m0, c, level - 1))
  }

  lemma {:induction false} DanglesFewer(m: Memory, m0: Memory, m1: Memory, t: nat, level: nat)
    requires Dangles(m, m1, t, level) && forall f | f in m0 :: f in m1
    ensures Dangles(m, m0, t, level)
    decreases level
  {
    var i: nat :| DanglesAt(m, m1, t, level, i);
    if Addr(m[t][i]) != 0 {
      DanglesFewer(m, m0, m1, Addr(m[t][i]), level - 1);
    }
    assert DanglesAt(m, m0, t, level, i);
  }

  lemma {:induction false} DanglesStill(m: Memory, m': Memory, m0: Memory, t: nat, level: nat, i: nat)
    requires DanglesAt(m, m0, t, level, i) && t in m' && i < |m'[t]| && m'[t][i] == m[t][i]
    requires forall f | f in m && f !in m0 :: f in m' && m'[f] == m[f]
    ensures DanglesAt(m', m0, t, level, i)
    decreases level
  {
    var c := Addr(m[t][i]);
    if c != 0 {
      var k: nat :| DanglesAt(m, m0, c, level - 1, k);
      DanglesStill(m, m', m0, c, level - 1, k);
    }
  }

  // What a copy has in common with the original.

  /** The tables of the copy have entries where those of the original have present ones, with the same
      flags; these lead to new tables, or to frame 0. The last tables are the same. */
  ghost predicate Alike(m0: Memory, t: nat, m: Memory, copy: nat, level: nat)
    decreases level, 1
  {
    && t in m0 && copy in m && |m0[t]| == |m[copy]| == ENTRIES
    && if level <= 1 then m[copy] == m0[t] else forall i: nat | i < ENTRIES :: AlikeAt(m0, t, m, copy, level, i)
  }

  ghost predicate AlikeAt(m0: Memory, t: nat, m: Memory, copy: nat, level: nat, i: nat)
    decreases level, 0
  {
    && level >= 2 && t in m0 && copy in m && i < |m0[t]| && i < |m[copy]|
    && var e, c := m0[t][i], m[copy][i];
       if !Present(e) then c == 0
       else c % 512 == e % 512 && (Addr(c) == 0 || (Addr(c) !in m0 && Alike(m0, Addr(e), m, Addr(c), level - 1)))
  }

  /** The first `n` entries are alike, and there are no others yet. */
  ghost predicate AlikeFirst(m0: Memory, t: nat, m: Memory, copy: nat, level: nat, n: nat) {
    && level >= 2 && n <= ENTRIES && t in m0 && copy in m && |m0[t]| == |m[copy]| == ENTRIES
    && (forall i: nat | i < n :: AlikeAt(m0, t, m, copy, level, i))
    && (forall i | n <= i < ENTRIES :: m[copy][i] == 0)
  }

  lemma AlikeNone(m: Memory, t: nat, copy: nat, level: nat)
    requires level >= 2 && t in m && copy in m && |m[t]| == ENTRIES && m[copy] == Zeros()
    ensures AlikeFirst(m, t, m, copy, level, 0)
  {
  }

  lemma AlikeMore(m0: Memory, t: nat, m: Memory, copy: nat, level: nat, n: nat)
    requires AlikeFirst(m0, t, m, copy, level, n) && n < ENTRIES && !Present(m0[t][n])
    ensures AlikeFirst(m0, t, m, copy, level, n + 1)
  {
  }

  lemma AlikeAll(m0: Memory, t: nat, m: Memory, copy: nat, level: nat)
    requires AlikeFirst(m0, t, m, copy, level, ENTRIES)
    ensures Alike(m0, t, m, copy, level)
  {
  }

  lemma {:induction false} AlikeStill(m0: Memory, t: nat, m: Memory, m': Memory, copy: nat, level: nat)
    requires Alike(m0, t, m, copy, level) && copy in m' && m'[copy] == m[copy]
    requires forall f | f in m && f !in m0 :: f in m' && m'[f] == m[f]
    ensures Alike(m0, t, m', copy, level)
    decreases level
  {
    if level > 1 {
      forall i: nat | i < ENTRIES
        ensures AlikeAt(m0, t, m', copy, level, i)
      {
        assert AlikeAt(m0, t, m, copy, level, i);
        AlikeAtStill(m0, t, m, m', copy, level, i);
      }
    }
  }

  lemma {:induction false} AlikeAtStill(m0: Memory, t: nat, m: Memory, m': Memory, copy: nat, level: nat, i: nat)
    requires AlikeAt(m0, t, m, copy, level, i) && copy in m' && i < |m'[copy]| && m'[copy][i] == m[copy][i]
    requires forall f | f in m && f !in m0 :: f in m' && m'[f] == m[f]
    ensures AlikeAt(m0, t, m', copy, level, i)
    decreases level, 0
  {
    var e, c := m0[t][i], m[copy][i];
    if Present(e) && Addr(c) != 0 {
      AlikeStill(m0, Addr(e), m, m', Addr(c), level - 1);
    }
  }

  /** The original as it was before some other tables changed. */
  lemma {:induction false} AlikeFrom(m0: Memory, m1: Memory, t: nat, m: Memory, copy: nat, level: nat)
    requires Alike(m1, t, m, copy, level) && Tree(m0, t, level) && forall f | f in m0 :: f in m1
    requires forall f | f in m0 && On(m0, t, level, f) :: m1[f] == m0[f]
    ensures Alike(m0, t, m, copy, level)
    decreases level
  {
    TreeTables(m0, t, level);
    if level > 1 {
      forall i: nat | i < ENTRIES
        ensures AlikeAt(m0, t, m, copy, level, i)
      {
        assert AlikeAt(m1, t, m, copy, level, i);
        var e, c := m0[t][i], m[copy][i];
        if Present(e) && Addr(c) != 0 {
          EntryLeads(m0, t, level, i);
          ChildTree(m0, t, level, i, Addr(e), level - 1);
          hide Tree, On;
          AlikeFrom(m0, m1, Addr(e), m, Addr(c), level - 1);
        }
      }
    }
  }

  lemma AlikeNull(m0: Memory, t: nat, m: Memory, m1: Memory, copy: nat, level: nat, i: nat, e: nat)
    requires AlikeFirst(m0, t, m, copy, level, i) && i < ENTRIES && e == m0[t][i] && Present(e) && copy in m0
    requires m1 == Write(m, copy, i, Or(0, e % 512))
    ensures AlikeFirst(m0, t, m1, copy, level, i + 1)
  {
    forall j: nat | j < i
      ensures AlikeAt(m0, t, m1, copy, level, j)
    {
      AlikeAtStill(m0, t, m, m1, copy, level, j);
    }
  }

  lemma AlikeDone(m0: Memory, m: Memory, m1: Memory, m2: Memory, table: nat, copy: nat, level: nat, i: nat, e: nat,
                  frame: nat)
    requires Copying(m0, m, m1, table, copy, level, i, e, frame) && CopyKeeps(m1, m2, frame)
    requires AlikeFirst(m0, table, m, copy, level, i) && Alike(m1, Addr(e), m2, frame, level - 1)
    ensures AlikeFirst(m0, table, m2, copy, level, i + 1)
  {
    EntryLeads(m0, table, level, i);
    ChildTree(m0, table, level, i, Addr(e), level - 1);
    EntrySum(frame, e % 512);
    hide Tree, On, Last, Or, Alike, Child;
    AlikeFrom(m0, m1, Addr(e), m2, frame, level - 1);
    assert AlikeAt(m0, table, m2, copy, level, i);
    forall j: nat | j < i
      ensures AlikeAt(m0, table, m2, copy, level, j)
    {
      AlikeAtStill(m0, table, m, m2, copy, level, j);
    }
  }

  /** How many frames were to be had at first, and whether they have been enough for the first `i`
      entries. */
  ghost predicate Counted(m0: Memory, n0: nat, m: Memory, pool: seq<nat>, table: nat, copy: nat, level: nat, i: nat,
                          ok: bool) {
    && level >= 2 && i <= ENTRIES
    && if ok then |pool| + BelowFirst(m0, table, level, i) == n0
       else pool == [] && n0 < BelowFirst(m0, table, level, i) &&
            exists j: nat :: j < i && DanglesAt(m, m0, copy, level, j)
  }

  lemma BelowNext(m: Memory, t: nat, level: nat, i: nat)
    requires level >= 2 && i < ENTRIES
    ensures BelowFirst(m, t, level, i + 1) == BelowFirst(m, t, level, i) + BelowAt(m, t, level, i)
  {
  }

  lemma CountedNone(m0: Memory, m: Memory, pool: seq<nat>, table: nat, copy: nat, level: nat)
    requires level >= 2
    ensures Counted(m0, |pool|, m, pool, table, copy, level, 0, true)
  {
  }

  lemma CountedMore(m0: Memory, n0: nat, m: Memory, pool: seq<nat>, table: nat, copy: nat, level: nat, i: nat, ok: bool)
    requires Counted(m0, n0, m, pool, table, copy, level, i, ok) && i < ENTRIES
    requires table in m0 && i < |m0[table]| && !Present(m0[table][i])
    ensures Counted(m0, n0, m, pool, table, copy, level, i + 1, ok)
  {
    BelowNext(m0, table, level, i);
    hide DanglesAt, Below, BelowFirst;
  }

  lemma CountedAll(m0: Memory, n0: nat, m: Memory, pool: seq<nat>, table: nat, copy: nat, level: nat, ok: bool)
    requires Counted(m0, n0, m, pool, table, copy, level, ENTRIES, ok)
    ensures ok <==> n0 >= Below(m0, table, level)
    ensures if ok then |pool| == n0 - Below(m0, table, level) else pool == [] && Dangles(m, m0, copy, level)
  {
    hide DanglesAt, BelowFirst;
  }

  lemma NullEntry(m0: Memory, n0: nat, m: Memory, m1: Memory, table: nat, copy: nat, level: nat, i: nat, e: nat,
                  so: bool)
    requires Counted(m0, n0, m, [], table, copy, level, i, so) && i < ENTRIES && Tree(m0, table, level)
    requires table in m0 && i < |m0[table]| && e == m0[table][i] && Present(e)
    requires copy in m && copy in m0 && i < |m[copy]| && m1 == Write(m, copy, i, Or(0, e % 512))
    ensures Counted(m0, n0, m1, [], table, copy, level, i + 1, false)
  {
    EntryLeads(m0, table, level, i);
    BelowNext(m0, table, level, i);
    hide Tree, Or, Below, BelowFirst, DanglesAt, Dangles, Addr, Present;
    if so {
      NullLeads(m, m1, m0, copy, level, i, e);
    } else {
      var j: nat :| j < i && DanglesAt(m, m0, copy, level, j);
      DanglesStill(m, m1, m0, copy, level, j);
    }
  }

  lemma NullLeads(m: Memory, m1: Memory, m0: Memory, copy: nat, level: nat, i: nat, e: nat)
    requires copy in m && i < |m[copy]| && m1 == Write(m, copy, i, Or(0, e % 512)) && Present(e) && level >= 2
    ensures DanglesAt(m1, m0, copy, level, i)
  {
    EntryFor(0, e % 512);
    hide Or;
  }

  lemma EntryBegun(m0: Memory, m: Memory, m1: Memory, table: nat, copy: nat, level: nat, i: nat, e: nat, frame: nat)
    requires Copied(m0, m, table, copy, level, i) && i < ENTRIES && level >= 2
    requires table in m0 && i < |m0[table]| && e == m0[table][i] && Present(e)
    requires frame !in m && frame % FRAME_SIZE == 0 && Tables(m)
    requires copy in m && i < |m[copy]| && m1 == Write(m[frame := Zeros()], copy, i, Or(frame, e % 512))
    ensures Copying(m0, m, m1, table, copy, level, i, e, frame)
  {
    hide Copied, Or;
    assert m1 == Write(m, copy, i, Or(frame, e % 512))[frame := Zeros()];
  }

  lemma CountedDone(m0: Memory, n0: nat, n: nat, m: Memory, m1: Memory, m2: Memory, pool: seq<nat>, table: nat,
                    copy: nat, level: nat, i: nat, e: nat, frame: nat, ok: bool)
    requires Copying(m0, m, m1, table, copy, level, i, e, frame) && n > 0 && n + BelowFirst(m0, table, level, i) == n0
    requires CopyKeeps(m1, m2, frame) && Tables(m1)
    requires ok <==> n - 1 >= Below(m1, Addr(e), level - 1)
    requires if ok then |pool| == n - 1 - Below(m1, Addr(e), level - 1)
             else pool == [] && Dangles(m2, m1, frame, level - 1)
    ensures Counted(m0, n0, m2, pool, table, copy, level, i + 1, ok)
  {
    BelowEntry(m0, m, m1, table, copy, level, i, e, frame);
    BelowNext(m0, table, level, i);
    if !ok {
      DanglesNow(m0, m, m1, m2, table, copy, level, i, e, frame);
    }
    hide Copying, Below, Dangles, DanglesAt, BelowFirst, BelowAt, CopyKeeps;
  }

  lemma BelowEntry(m0: Memory, m: Memory, m1: Memory, table: nat, copy: nat, level: nat, i: nat, e: nat, frame: nat)
    requires Copying(m0, m, m1, table, copy, level, i, e, frame) && Tables(m1)
    ensures BelowAt(m0, table, level, i) == 1 + Below(m1, Addr(e), level - 1)
  {
    EntryLeads(m0, table, level, i);
    var c, h := Addr(e), level - 1;
    ChildTree(m0, table, level, i, c, h);
    hide Tree, On, Last, Or, Below;
    BelowFrame(m0, m1, c, h);
  }

  lemma DanglesNow(m0: Memory, m: Memory, m1: Memory, m2: Memory, table: nat, copy: nat, level: nat, i: nat, e: nat,
                   frame: nat)
    requires Copying(m0, m, m1, table, copy, level, i, e, frame) && CopyKeeps(m1, m2, frame)
    requires Dangles(m2, m1, frame, level - 1)
    ensures DanglesAt(m2, m0, copy, level, i)
  {
    EntryFor(frame, e % 512);
    hide Tree, On, Last, Or, Dangles;
    DanglesFewer(m2, m0, m1, frame, level - 1);
  }

  lemma KeptOn(m0: Memory, m: Memory, m1: Memory, m2: Memory, copy: nat, frame: nat)
    requires CopyKeeps(m0, m, copy) && CopyKeeps(m1, m2, frame) && copy in m0 && frame !in m && copy in m1
    requires forall f | f in m && f != copy :: f in m1 && m1[f] == m[f]
    ensures CopyKeeps(m0, m2, copy)
  {
  }

  /** The original is untouched by copying, and shares no table with the copy. */
  lemma CopyApart(m0: Memory, m: Memory, m': Memory, root: nat, copy: nat)
    requires Tree(m0, root, 4) && copy !in m0 && m == m0[copy := Zeros()] && CopyKeeps(m, m', copy) && Tables(m')
    ensures Tree(m', root, 4) && forall q :: Last(m', root, 4, q) == Last(m0, root, 4, q)
    ensures CopyNew(m, m', copy, 4) ==> Disjoint(m', root, copy, 4)
  {
    TreeFrame(m0, m', root, 4);
    forall f | CopyNew(m, m', copy, 4)
      ensures !(On(m', root, 4, f) && On(m', copy, 4, f))
    {
      if On(m', root, 4, f) {
        NotOn(m0, root, copy);
        if f !in m0 {
          NotOn(m0, root, f);
        }
      }
    }
  }
}
