/** Four-level page tables: walks through them, and what writing one entry does to every walk. */
module PageWalk {
  type Table = seq<nat>
  /** The frames in use, by physical address, and what they hold. */
  type Memory = map<nat, Table>

  const ENTRIES: nat := 512
  const FRAME_SIZE: nat := 0x1000

  datatype Found = None | Some(frame: nat)

  // ----------------------------------------------------------------- addresses

  /** The indices an address has at levels 1 to 4. */
  datatype Path = Path(ix1: nat, ix2: nat, ix3: nat, ix4: nat) {
    function At(level: nat): nat {
      if level == 1 then ix1 else if level == 2 then ix2 else if level == 3 then ix3 else ix4
    }

    function With(level: nat, i: nat): Path {
      if level == 1 then this.(ix1 := i)
      else if level == 2 then this.(ix2 := i)
      else if level == 3 then this.(ix3 := i)
      else this.(ix4 := i)
    }
  }

  /** The index of an address in the table at a level: nine bits of it, those of level 1 just above the
      offset in a page and those of each other level above the ones of the level below. */
  function VAddrIndex(vaddr: nat, level: nat): (i: nat)
    ensures i < ENTRIES
  {
    if level == 1 then vaddr / 0x1000 % 512
    else if level == 2 then vaddr / 0x20_0000 % 512
    else if level == 3 then vaddr / 0x4000_0000 % 512
    else vaddr / 0x80_0000_0000 % 512
  }

  function PathOf(vaddr: nat): (p: Path)
    ensures forall k | 1 <= k <= 4 :: p.At(k) == VAddrIndex(vaddr, k)
  {
    Path(VAddrIndex(vaddr, 1), VAddrIndex(vaddr, 2), VAddrIndex(vaddr, 3), VAddrIndex(vaddr, 4))
  }

  /** The page of an address: bits 12 to 47. */
  function Page(vaddr: nat): nat { vaddr % 0x1_0000_0000_0000 / 0x1000 }

  /** The four indices of nine bits are together the page. */
  lemma SamePage(v: nat, w: nat)
    ensures PathOf(v) == PathOf(w) <==> Page(v) == Page(w)
  {
    Digits(v);
    Digits(w);
    hide VAddrIndex, Page;
    SameDigits(PathOf(v), PathOf(w));
  }

  /** The number whose digits to the base 512 are the indices. */
  function Number(p: Path): nat { p.ix1 + 512 * (p.ix2 + 512 * (p.ix3 + 512 * p.ix4)) }

  lemma Digit(a: nat, r: nat, b: nat, s: nat)
    requires a < 512 && b < 512 && a + 512 * r == b + 512 * s
    ensures a == b && r == s
  {
  }

  lemma SameDigits(p: Path, q: Path)
    requires p.ix1 < 512 && p.ix2 < 512 && p.ix3 < 512 && p.ix4 < 512
    requires q.ix1 < 512 && q.ix2 < 512 && q.ix3 < 512 && q.ix4 < 512
    ensures p == q <==> Number(p) == Number(q)
  {
    if Number(p) == Number(q) {
      Digit(p.ix1, p.ix2 + 512 * (p.ix3 + 512 * p.ix4), q.ix1, q.ix2 + 512 * (q.ix3 + 512 * q.ix4));
      Digit(p.ix2, p.ix3 + 512 * p.ix4, q.ix2, q.ix3 + 512 * q.ix4);
      Digit(p.ix3, p.ix4, q.ix3, q.ix4);
    }
  }

  lemma Digits(v: nat)
    ensures Page(v) == Number(PathOf(v))
    ensures forall k | 1 <= k <= 4 :: PathOf(v).At(k) < 512
  {
    Quotients(v);
    Remainder(v);
    Base512(v / 0x1000);
  }

  lemma Base512(p: nat)
    ensures p % 0x10_0000_0000 ==
            p % 512 + 512 * (p / 512 % 512 + 512 * (p / 512 / 512 % 512 + 512 * (p / 512 / 512 / 512 % 512)))
  {
    var p1 := p / 512;
    var p2 := p1 / 512;
    var p3 := p2 / 512;
    var e, f := p3 / 512, p3 % 512;
    var low := p % 512 + 512 * (p1 % 512 + 512 * (p2 % 512 + 512 * f));
    assert p3 == 512 * e + f;
    assert p2 == 512 * p3 + p2 % 512;
    assert p1 == 512 * p2 + p1 % 512;
    assert p == 512 * p1 + p % 512;
    assert p == 0x10_0000_0000 * e + low;
    assert 0 <= low < 0x10_0000_0000;
    Remaining(p, e, low);
  }

  lemma Remaining(p: nat, e: nat, low: nat)
    requires p == 0x10_0000_0000 * e + low && low < 0x10_0000_0000
    ensures p % 0x10_0000_0000 == low
  {
  }

  lemma Quotients(v: nat)
    ensures v / 0x20_0000 == v / 0x1000 / 512
    ensures v / 0x4000_0000 == v / 0x1000 / 512 / 512
    ensures v / 0x80_0000_0000 == v / 0x1000 / 512 / 512 / 512
  {
    var q, r := v / 0x20_0000, v % 0x20_0000;
    assert v / 0x1000 == 512 * q + r / 0x1000;
    var q', r' := v / 0x4000_0000, v % 0x4000_0000;
    assert v / 0x20_0000 == 512 * q' + r' / 0x20_0000;
    var q'', r'' := v / 0x80_0000_0000, v % 0x80_0000_0000;
    assert v / 0x4000_0000 == 512 * q'' + r'' / 0x4000_0000;
  }

  lemma Remainder(v: nat)
    ensures Page(v) == v / 0x1000 % 0x10_0000_0000
  {
    var q, r := v / 0x1_0000_0000_0000, v % 0x1_0000_0000_0000;
    assert v / 0x1000 == 0x10_0000_0000 * q + r / 0x1000;
  }

  // ------------------------------------------------------------------- entries

  /** `a | b`. */
  function Or(a: nat, b: nat): nat {
    if a == 0 then b
    else if b == 0 then a
    else 2 * Or(a / 2, b / 2) + (if a % 2 == 1 || b % 2 == 1 then 1 else 0)
  }

  predicate Present(e: nat) { e % 2 == 1 }

  /** `e & TAB_ADDR_MASK`: all but the lowest nine bits. */
  function Addr(e: nat): nat { e / 512 * 512 }

  lemma {:induction false} OrHalf(a: nat, b: nat)
    ensures Or(a, b) / 2 == Or(a / 2, b / 2) && (Present(Or(a, b)) <==> Present(a) || Present(b))
  {
  }

  function Half(x: nat, k: nat): nat {
    if k == 0 then x else Half(x / 2, k - 1)
  }

  lemma {:induction false} OrHalves(a: nat, b: nat, k: nat)
    ensures Half(Or(a, b), k) == Or(Half(a, k), Half(b, k))
  {
    if k > 0 {
      OrHalf(a, b);
      OrHalves(a / 2, b / 2, k - 1);
    }
  }

  lemma NineHalves(x: nat)
    ensures Half(x, 9) == x / 512
  {
    ThreeHalves(x, 9);
    ThreeHalves(x / 8, 6);
    ThreeHalves(x / 64, 3);
  }

  lemma ThreeHalves(x: nat, k: nat)
    requires k >= 3
    ensures Half(x, k) == Half(x / 8, k - 3) && x / 8 / 8 == x / 64 && x / 64 / 8 == x / 512
  {
    assert Half(x, k) == Half(x / 2, k - 1) == Half(x / 2 / 2, k - 2) == Half(x / 2 / 2 / 2, k - 3);
  }

  /** The address bits of an entry are put together from those of its parts. */
  lemma OrAddr(a: nat, b: nat)
    ensures Addr(Or(a, b)) == 512 * Or(a / 512, b / 512)
  {
    hide Or;
    OrHalves(a, b, 9);
    NineHalves(a);
    NineHalves(b);
    NineHalves(Or(a, b));
  }

  /** An entry for a frame, with flags in the lowest nine bits, leads to the frame. */
  lemma EntryFor(frame: nat, flags: nat)
    requires frame % FRAME_SIZE == 0 && flags < ENTRIES
    ensures Addr(Or(frame, flags)) == frame && (Present(Or(frame, flags)) <==> Present(flags))
  {
    OrAddr(frame, flags);
    OrHalf(frame, flags);
    assert flags / 512 == 0 && Or(frame / 512, 0) == frame / 512;
    hide Or;
  }

  /** It leads to every frame if and only if the flags are in the lowest nine bits. */
  lemma FlagsExact(flags: nat)
    ensures (forall frame: nat :: LeadsTo(frame, flags)) <==> flags < ENTRIES
  {
    if flags < ENTRIES {
      forall frame: nat
        ensures LeadsTo(frame, flags)
      {
        if frame % FRAME_SIZE == 0 {
          EntryFor(frame, flags);
        }
      }
    } else {
      assert !LeadsTo(0, flags);
    }
  }

  predicate LeadsTo(frame: nat, flags: nat) {
    frame % FRAME_SIZE == 0 ==> Addr(Or(frame, flags)) == frame
  }

  // --------------------------------------------------------------------- walks

  ghost predicate Tables(m: Memory) {
    forall f | f in m :: |m[f]| == ENTRIES
  }

  /** The table a present entry leads to. */
  function Next(m: Memory, f: nat, i: nat): Found {
    if f in m && i < |m[f]| && Present(m[f][i]) && Addr(m[f][i]) in m then Some(Addr(m[f][i])) else None
  }

  /** The table at level `k` on path `p`, starting from table `t` at level `top`. */
  function Walk(m: Memory, t: nat, top: nat, p: Path, k: nat): Found
    decreases top - k
  {
    if k >= top then (if t in m then Some(t) else None)
    else
      match Walk(m, t, top, p, k + 1)
      case None => None
      case Some(f) => Next(m, f, p.At(k + 1))
  }

  /** The last entry on a path; zero if some table is missing. */
  function Last(m: Memory, t: nat, top: nat, p: Path): nat {
    match Walk(m, t, top, p, 1)
    case None => 0
    case Some(f) => if f in m && p.ix1 < |m[f]| then m[f][p.ix1] else 0
  }

  /** Two paths are the same from level `top` down to the table at level `k`. */
  predicate Agree(p: Path, q: Path, top: nat, k: nat)
    decreases top - k
  {
    k < top ==> p.At(k + 1) == q.At(k + 1) && Agree(p, q, top, k + 1)
  }

  /** Two walks that reach one table are the same walk. */
  ghost predicate Unshared(m: Memory, t: nat, top: nat, p: Path, q: Path, k: nat, l: nat) {
    Walk(m, t, top, p, k).Some? && Walk(m, t, top, p, k) == Walk(m, t, top, q, l) ==> k == l && Agree(p, q, top, k)
  }

  /** A present entry of the table at level `k` leads to a table. */
  ghost predicate Leads(m: Memory, t: nat, top: nat, p: Path, k: nat) {
    var w := Walk(m, t, top, p, k);
    w.Some? && w.frame in m && p.At(k) < |m[w.frame]| && Present(m[w.frame][p.At(k)]) ==> Addr(m[w.frame][p.At(k)]) in m
  }

  /** The tables below `t` form a tree. */
  ghost predicate Tree(m: Memory, t: nat, top: nat) {
    && 1 <= top <= 4 && t in m && Tables(m)
    && (forall p: Path, q: Path, k: nat, l: nat | 1 <= k <= top && 1 <= l <= top :: Unshared(m, t, top, p, q, k, l))
    && (forall p: Path, k: nat | 2 <= k <= top :: Leads(m, t, top, p, k))
  }

  /** Table `f` is one of those below `t`. */
  ghost predicate On(m: Memory, t: nat, top: nat, f: nat) {
    exists p: Path, k: nat :: 1 <= k <= top && Walk(m, t, top, p, k) == Some(f)
  }

  lemma {:induction false} WalkIn(m: Memory, t: nat, top: nat, p: Path, k: nat)
    ensures Walk(m, t, top, p, k).Some? ==> Walk(m, t, top, p, k).frame in m
    decreases top - k
  {
  }

  lemma {:induction false} AgreeWalk(m: Memory, t: nat, top: nat, p: Path, q: Path, k: nat)
    requires Agree(p, q, top, k)
    ensures Walk(m, t, top, p, k) == Walk(m, t, top, q, k)
    decreases top - k
  {
    if k < top {
      AgreeWalk(m, t, top, p, q, k + 1);
    }
  }

  lemma {:induction false} AgreeSame(p: Path, top: nat, k: nat)
    ensures Agree(p, p, top, k)
    decreases top - k
  {
    if k < top {
      AgreeSame(p, top, k + 1);
    }
  }

  lemma {:induction false} AgreeMore(p: Path, q: Path, top: nat, k: nat, l: nat)
    requires Agree(p, q, top, k) && k <= l
    ensures Agree(p, q, top, l)
    decreases top - k
  {
    if k < l && k < top {
      AgreeMore(p, q, top, k + 1, l);
    }
  }

  /** Memory that keeps every table below `t`, and adds none that an entry could lead to, keeps
      every walk. */
  lemma {:induction false} WalkFrame(m: Memory, m': Memory, t: nat, top: nat, p: Path, k: nat)
    requires Tree(m, t, top) && 1 <= k
    requires forall f | f in m && On(m, t, top, f) :: f in m' && m'[f] == m[f]
    ensures Walk(m', t, top, p, k) == Walk(m, t, top, p, k)
    decreases top - k
  {
    if k >= top {
      assert Walk(m, t, top, p, top) == Some(t);
      assert On(m, t, top, t);
    } else {
      WalkFrame(m, m', t, top, p, k + 1);
      WalkIn(m, t, top, p, k + 1);
      var w := Walk(m, t, top, p, k + 1);
      if w.Some? {
        assert On(m, t, top, w.frame);
        assert Leads(m, t, top, p, k + 1);
        var n := Next(m, w.frame, p.At(k + 1));
        if n.Some? {
          assert Walk(m, t, top, p, k) == n;
          assert On(m, t, top, n.frame);
        }
      }
    }
  }

  /** Memory that keeps every table below `t` keeps the tree and what it maps. */
  lemma TreeFrame(m: Memory, m': Memory, t: nat, top: nat)
    requires Tree(m, t, top) && Tables(m')
    requires forall f | f in m && On(m, t, top, f) :: f in m' && m'[f] == m[f]
    ensures Tree(m', t, top)
    ensures forall p :: Last(m', t, top, p) == Last(m, t, top, p)
    ensures forall f :: On(m', t, top, f) <==> On(m, t, top, f)
    ensures forall p: Path, k: nat | 1 <= k :: Walk(m', t, top, p, k) == Walk(m, t, top, p, k)
  {
    forall p: Path, k: nat | 1 <= k
      ensures Walk(m', t, top, p, k) == Walk(m, t, top, p, k)
    {
      WalkFrame(m, m', t, top, p, k);
    }
    SameWalks(m, m', t, top);
    forall p: Path, k: nat | 2 <= k <= top
      ensures Leads(m', t, top, p, k)
    {
      KeptAt(m, m', t, top, p, k);
      KeptAt(m, m', t, top, p, k - 1);
      assert Leads(m, t, top, p, k);
    }
    forall p: Path
      ensures Last(m', t, top, p) == Last(m, t, top, p)
    {
      KeptAt(m, m', t, top, p, 1);
    }
  }

  lemma KeptAt(m: Memory, m': Memory, t: nat, top: nat, p: Path, k: nat)
    requires 1 <= k <= top && forall f | f in m && On(m, t, top, f) :: f in m' && m'[f] == m[f]
    ensures Walk(m, t, top, p, k).Some? ==>
              var f := Walk(m, t, top, p, k).frame; f in m && f in m' && m'[f] == m[f]
  {
    WalkIn(m, t, top, p, k);
    if Walk(m, t, top, p, k).Some? {
      assert On(m, t, top, Walk(m, t, top, p, k).frame);
    }
  }

  /** Walks that stay the same share no more tables than before. */
  lemma SameWalks(m: Memory, m': Memory, t: nat, top: nat)
    requires Tree(m, t, top)
    requires forall p: Path, k: nat | 1 <= k :: Walk(m', t, top, p, k) == Walk(m, t, top, p, k)
    ensures forall p: Path, q: Path, k: nat, l: nat | 1 <= k <= top && 1 <= l <= top :: Unshared(m', t, top, p, q, k, l)
    ensures forall f :: On(m', t, top, f) <==> On(m, t, top, f)
    ensures t in m'
  {
    forall p: Path, q: Path, k: nat, l: nat | 1 <= k <= top && 1 <= l <= top
      ensures Unshared(m', t, top, p, q, k, l)
    {
      assert Unshared(m, t, top, p, q, k, l);
    }
    var p: Path := Path(0, 0, 0, 0);
    assert Walk(m', t, top, p, top) == Walk(m, t, top, p, top);
  }

  // ------------------------------------------------------------ writing an entry

  function Write(m: Memory, f: nat, i: nat, e: nat): Memory
    requires f in m && i < |m[f]|
  {
    var table: Table := m[f][i := e];
    m[f := table]
  }

  /** Writing an entry does not change the walk to its table. */
  lemma {:induction false} OwnWalk(m: Memory, t: nat, top: nat, p: Path, k: nat, f: nat, i: nat, e: nat, l: nat)
    requires Tree(m, t, top) && 1 <= k <= l && Walk(m, t, top, p, k) == Some(f) && f in m && i < |m[f]|
    ensures Walk(Write(m, f, i, e), t, top, p, l) == Walk(m, t, top, p, l)
    decreases top - l
  {
    if l < top {
      OwnWalk(m, t, top, p, k, f, i, e, l + 1);
      assert Unshared(m, t, top, p, p, k, l + 1);
    }
  }

  /** Memory that keeps all tables keeps every walk that gets somewhere. */
  lemma {:induction false} WalkStays(m: Memory, m': Memory, t: nat, top: nat, p: Path, k: nat)
    requires (forall f | f in m :: f in m' && m'[f] == m[f]) && Walk(m, t, top, p, k).Some?
    ensures Walk(m', t, top, p, k) == Walk(m, t, top, p, k)
    decreases top - k
  {
    if k < top {
      WalkStays(m, m', t, top, p, k + 1);
    }
  }

  /** Writing an entry of a last table, or an entry that leads nowhere before and after, changes no
      walk. */
  lemma {:induction false} WriteWalk(m: Memory, t: nat, top: nat, p: Path, k: nat, f: nat, e: nat, q: Path, l: nat)
    requires Tree(m, t, top) && 1 <= k <= top && 1 <= l && Walk(m, t, top, p, k) == Some(f) && p.At(k) < ENTRIES &&
             f in m
    requires k == 1 || (!Present(m[f][p.At(k)]) && !Present(e))
    ensures Walk(Write(m, f, p.At(k), e), t, top, q, l) == Walk(m, t, top, q, l)
    decreases top - l
  {
    hide Addr, Agree, Leads;
    if l < top {
      WriteWalk(m, t, top, p, k, f, e, q, l + 1);
      assert Unshared(m, t, top, p, q, k, l + 1);
    }
  }

  /** It changes the last entry of one path at most. */
  lemma WriteTree(m: Memory, t: nat, top: nat, p: Path, k: nat, f: nat, e: nat)
    requires Tree(m, t, top) && 1 <= k <= top && Walk(m, t, top, p, k) == Some(f) && p.At(k) < ENTRIES && f in m
    requires k == 1 || (!Present(m[f][p.At(k)]) && !Present(e))
    ensures var m' := Write(m, f, p.At(k), e);
      && Tree(m', t, top)
      && (forall q :: Last(m', t, top, q) == if k == 1 && Agree(p, q, top, 0) then e else Last(m, t, top, q))
      && (forall g :: On(m', t, top, g) <==> On(m, t, top, g))
      && (forall q: Path, l: nat | 1 <= l :: Walk(m', t, top, q, l) == Walk(m, t, top, q, l))
  {
    var m' := Write(m, f, p.At(k), e);
    forall q: Path, l: nat | 1 <= l
      ensures Walk(m', t, top, q, l) == Walk(m, t, top, q, l)
    {
      WriteWalk(m, t, top, p, k, f, e, q, l);
    }
    SameWalks(m, m', t, top);
    forall q: Path, l: nat | 2 <= l <= top
      ensures Leads(m', t, top, q, l)
    {
      assert Leads(m, t, top, q, l) && Unshared(m, t, top, p, q, k, l);
    }
    forall q: Path
      ensures Last(m', t, top, q) == if k == 1 && Agree(p, q, top, 0) then e else Last(m, t, top, q)
    {
      assert Unshared(m, t, top, p, q, k, 1);
      WalkIn(m, t, top, q, 1);
      if Agree(p, q, top, 0) {
        AgreeMore(p, q, top, 0, 1);
        AgreeWalk(m, t, top, p, q, 1);
      }
    }
  }

  // ------------------------------------------------------------- adding a table

  function Zeros(): Table { seq(ENTRIES, _ => 0) }

  /** The walk on path `q` to level `l`, after a table `g` was hung at level `k` on path `p`. */
  function Added(m: Memory, t: nat, top: nat, p: Path, k: nat, g: nat, q: Path, l: nat): Found {
    if l <= k && Agree(p, q, top, k) then (if l == k then Some(g) else None) else Walk(m, t, top, q, l)
  }

  /** An entry that led nowhere, in the table at level `k + 1`, is made to lead to an empty table. */
  ghost predicate Adding(m: Memory, t: nat, top: nat, p: Path, k: nat, f: nat, e: nat, g: nat) {
    && Tree(m, t, top) && 1 <= k < top && Walk(m, t, top, p, k + 1) == Some(f) && p.At(k + 1) < ENTRIES && f in m
    && !Present(m[f][p.At(k + 1)]) && Present(e) && Addr(e) == g && g !in m
  }

  lemma {:induction false} AddWalk(m: Memory, t: nat, top: nat, p: Path, k: nat, f: nat, e: nat, g: nat, q: Path,
                                   l: nat)
    requires Adding(m, t, top, p, k, f, e, g) && 1 <= l
    ensures Walk(Write(m, f, p.At(k + 1), e)[g := Zeros()], t, top, q, l) == Added(m, t, top, p, k, g, q, l)
    decreases top - l
  {
    var m' := Write(m, f, p.At(k + 1), e)[g := Zeros()];
    if l < top {
      AddWalk(m, t, top, p, k, f, e, g, q, l + 1);
      WalkIn(m, t, top, q, l + 1);
      assert Unshared(m, t, top, p, q, k + 1, l + 1);
      if Agree(p, q, top, k + 1) {
        AgreeWalk(m, t, top, p, q, k + 1);
      }
      AddStep(m, m', t, top, p, k, f, g, q, l);
    }
  }

  /** One step of a walk, given the step before. */
  lemma AddStep(m: Memory, m': Memory, t: nat, top: nat, p: Path, k: nat, f: nat, g: nat, q: Path, l: nat)
    requires Tree(m, t, top) && 1 <= k < top && 1 <= l < top && f in m && g !in m && p.At(k + 1) < ENTRIES &&
             Walk(m, t, top, p, k + 1) == Some(f)
    requires !Present(m[f][p.At(k + 1)])
    requires f in m' && g in m' && m'[g] == Zeros() && (forall x | x in m && x != f :: x in m' && m'[x] == m[x]) &&
             (forall x | x in m' :: x in m || x == g)
    requires |m'[f]| == ENTRIES && Present(m'[f][p.At(k + 1)]) && Addr(m'[f][p.At(k + 1)]) == g
    requires forall i | 0 <= i < ENTRIES && i != p.At(k + 1) :: m'[f][i] == m[f][i]
    requires Walk(m', t, top, q, l + 1) == Added(m, t, top, p, k, g, q, l + 1)
    requires Unshared(m, t, top, p, q, k + 1, l + 1)
    requires Agree(p, q, top, k + 1) ==> Walk(m, t, top, q, k + 1) == Some(f)
    requires Walk(m, t, top, q, l + 1).Some? ==> Walk(m, t, top, q, l + 1).frame in m
    ensures Walk(m', t, top, q, l) == Added(m, t, top, p, k, g, q, l)
  {
    assert Leads(m, t, top, q, l + 1);
    if Agree(p, q, top, k) {
      assert Agree(p, q, top, k + 1) && p.At(k + 1) == q.At(k + 1);
      if l < k {
        assert forall i | 0 <= i < ENTRIES :: !Present(Zeros()[i]);
      }
    } else {
      assert Walk(m', t, top, q, l + 1) == Walk(m, t, top, q, l + 1);
      if Walk(m, t, top, q, l + 1) == Some(f) {
        assert l == k && q.At(k + 1) != p.At(k + 1);
      }
    }
  }

  lemma AddedTwice(m: Memory, m': Memory, t: nat, top: nat, p: Path, k: nat, f: nat, e: nat, g: nat, q: Path, r: Path,
                   l: nat, n: nat)
    requires Adding(m, t, top, p, k, f, e, g) && 1 <= l <= top && 1 <= n <= top
    requires Walk(m', t, top, q, l) == Added(m, t, top, p, k, g, q, l)
    requires Walk(m', t, top, r, n) == Added(m, t, top, p, k, g, r, n)
    ensures Unshared(m', t, top, q, r, l, n)
  {
    assert Unshared(m, t, top, q, r, l, n);
    WalkIn(m, t, top, q, l);
    WalkIn(m, t, top, r, n);
    if Agree(p, q, top, k) && Agree(p, r, top, k) {
      AgreeVia(q, p, r, top, k);
    }
  }

  lemma {:induction false} AgreeVia(q: Path, p: Path, r: Path, top: nat, k: nat)
    requires Agree(p, q, top, k) && Agree(p, r, top, k)
    ensures Agree(q, r, top, k)
    decreases top - k
  {
    if k < top {
      AgreeVia(q, p, r, top, k + 1);
    }
  }

  /** Hanging an empty table where there was none keeps the tree and what it maps. */
  lemma AddTree(m: Memory, t: nat, top: nat, p: Path, k: nat, f: nat, e: nat, g: nat)
    requires Adding(m, t, top, p, k, f, e, g)
    ensures var m' := Write(m, f, p.At(k + 1), e)[g := Zeros()];
      && Tree(m', t, top) && Walk(m', t, top, p, k) == Some(g)
      && (forall q :: Last(m', t, top, q) == Last(m, t, top, q))
      && (forall x :: On(m', t, top, x) ==> On(m, t, top, x) || x == g)
  {
    var m' := Write(m, f, p.At(k + 1), e)[g := Zeros()];
    forall q: Path, l: nat | 1 <= l
      ensures Walk(m', t, top, q, l) == Added(m, t, top, p, k, g, q, l)
    {
      AddWalk(m, t, top, p, k, f, e, g, q, l);
    }
    AgreeSame(p, top, k);
    assert Walk(m', t, top, p, k) == Some(g);
    assert Walk(m', t, top, p, top) == Added(m, t, top, p, k, g, p, top);
    forall q: Path, r: Path, l: nat, n: nat | 1 <= l <= top && 1 <= n <= top
      ensures Unshared(m', t, top, q, r, l, n)
    {
      AddedTwice(m, m', t, top, p, k, f, e, g, q, r, l, n);
    }
    forall q: Path, l: nat | 2 <= l <= top
      ensures Leads(m', t, top, q, l)
    {
      assert Leads(m, t, top, q, l);
      AddedLeads(m, m', t, top, p, k, f, e, g, q, l);
    }
    forall q: Path
      ensures Last(m', t, top, q) == Last(m, t, top, q)
    {
      AddedLast(m, m', t, top, p, k, f, e, g, q);
    }
  }

  lemma AddedLeads(m: Memory, m': Memory, t: nat, top: nat, p: Path, k: nat, f: nat, e: nat, g: nat, q: Path, l: nat)
    requires Adding(m, t, top, p, k, f, e, g) && m' == Write(m, f, p.At(k + 1), e)[g := Zeros()] && 2 <= l <= top
    requires Walk(m', t, top, q, l) == Added(m, t, top, p, k, g, q, l) && Leads(m, t, top, q, l)
    ensures Leads(m', t, top, q, l)
  {
    hide Agree;
    WalkIn(m, t, top, q, l);
  }

  lemma AddedLast(m: Memory, m': Memory, t: nat, top: nat, p: Path, k: nat, f: nat, e: nat, g: nat, q: Path)
    requires Adding(m, t, top, p, k, f, e, g) && m' == Write(m, f, p.At(k + 1), e)[g := Zeros()]
    requires Walk(m', t, top, q, 1) == Added(m, t, top, p, k, g, q, 1)
    ensures Last(m', t, top, q) == Last(m, t, top, q)
  {
    WalkIn(m, t, top, q, 1);
    assert Unshared(m, t, top, p, q, k + 1, 1);
    if Agree(p, q, top, k) {
      AgreeWalk(m, t, top, p, q, k + 1);
      assert Walk(m, t, top, q, k) == None;
      NoneBelow(m, t, top, q, k, 1);
    }
  }

  /** Below a missing table there is none. */
  lemma {:induction false} NoneBelow(m: Memory, t: nat, top: nat, q: Path, k: nat, l: nat)
    requires l <= k < top && Walk(m, t, top, q, k) == None
    ensures Walk(m, t, top, q, l) == None
    decreases k - l
  {
    if l < k {
      NoneBelow(m, t, top, q, k, l + 1);
    }
  }
}
