/** The trees of page tables below the entries of a table. */
module PageTree {
  import opened PageWalk

  /** Entry `i` of table `t`, at level `top`, leads to table `c`. */
  ghost predicate Child(m: Memory, t: nat, top: nat, i: nat, c: nat) {
    2 <= top <= 4 && Next(m, t, i) == Some(c)
  }

  lemma WithAt(p: Path, level: nat, i: nat, k: nat)
    requires 1 <= level <= 4 && 1 <= k <= 4
    ensures p.With(level, i).At(k) == if k == level then i else p.At(k)
  {
  }

  /** A walk through an entry goes on from the table it leads to. */
  lemma {:induction false} WalkChild(m: Memory, t: nat, top: nat, c: nat, p: Path, l: nat)
    requires Child(m, t, top, p.At(top), c) && 1 <= l < top
    ensures Walk(m, t, top, p, l) == Walk(m, c, top - 1, p, l)
    decreases top - l
  {
    if l < top - 1 {
      WalkChild(m, t, top, c, p, l + 1);
    } else {
      assert Walk(m, t, top, p, top) == Some(t);
    }
  }

  lemma LastChild(m: Memory, t: nat, top: nat, c: nat, p: Path)
    requires Child(m, t, top, p.At(top), c)
    ensures Last(m, t, top, p) == Last(m, c, top - 1, p)
  {
    WalkChild(m, t, top, c, p, 1);
  }

  /** The walk in a child does not depend on the index in its parent. */
  lemma {:induction false} WalkWith(m: Memory, c: nat, top: nat, p: Path, i: nat, l: nat)
    requires 1 <= top <= 3 && 1 <= l
    ensures Walk(m, c, top, p.With(top + 1, i), l) == Walk(m, c, top, p, l)
    decreases top - l
  {
    if l < top {
      WalkWith(m, c, top, p, i, l + 1);
      WithAt(p, top + 1, i, l + 1);
    }
  }

  lemma {:induction false} AgreeWith(p: Path, q: Path, top: nat, i: nat, k: nat)
    requires 2 <= top <= 4
    requires Agree(p.With(top, i), q.With(top, i), top, k)
    ensures Agree(p, q, top - 1, k)
    decreases top - k
  {
    if k < top - 1 {
      AgreeWith(p, q, top, i, k + 1);
      WithAt(p, top, i, k + 1);
      WithAt(q, top, i, k + 1);
    }
  }

  /** A child's walks are its parent's walks through it. */
  lemma ChildWalk(m: Memory, t: nat, top: nat, i: nat, c: nat, p: Path, l: nat)
    requires Child(m, t, top, i, c) && 1 <= l < top
    ensures Walk(m, t, top, p.With(top, i), l) == Walk(m, c, top - 1, p, l)
  {
    WithAt(p, top, i, top);
    WalkChild(m, t, top, c, p.With(top, i), l);
    WalkWith(m, c, top - 1, p, i, l);
  }

  /** What hangs below an entry is a tree, and does not contain the table itself. */
  lemma ChildTree(m: Memory, t: nat, top: nat, i: nat, c: nat, h: nat)
    requires Tree(m, t, top) && Child(m, t, top, i, c) && h == top - 1
    ensures Tree(m, c, h) && !On(m, c, h, t)
    ensures forall f :: On(m, c, h, f) ==> On(m, t, top, f)
  {
    forall p: Path, q: Path, k: nat, l: nat | 1 <= k <= h && 1 <= l <= h
      ensures Unshared(m, c, h, p, q, k, l)
    {
      ChildWalk(m, t, top, i, c, p, k);
      ChildWalk(m, t, top, i, c, q, l);
      assert Unshared(m, t, top, p.With(top, i), q.With(top, i), k, l);
      if Agree(p.With(top, i), q.With(top, i), top, k) {
        AgreeWith(p, q, top, i, k);
      }
    }
    forall p: Path, k: nat | 2 <= k <= h
      ensures Leads(m, c, h, p, k)
    {
      ChildWalk(m, t, top, i, c, p, k);
      WithAt(p, top, i, k);
      assert Leads(m, t, top, p.With(top, i), k);
    }
    forall f | On(m, c, h, f)
      ensures On(m, t, top, f) && f != t
    {
      var _, _ := OnChild(m, t, top, i, c, f);
    }
  }

  lemma OnChild(m: Memory, t: nat, top: nat, i: nat, c: nat, f: nat) returns (p: Path, k: nat)
    requires Tree(m, t, top) && Child(m, t, top, i, c) && On(m, c, top - 1, f)
    ensures 1 <= k < top && p.At(top) == i && Walk(m, t, top, p, k) == Some(f) && f != t && On(m, t, top, f)
  {
    var q: Path, l: nat :| 1 <= l <= top - 1 && Walk(m, c, top - 1, q, l) == Some(f);
    ChildWalk(m, t, top, i, c, q, l);
    WithAt(q, top, i, top);
    p, k := q.With(top, i), l;
    assert Walk(m, t, top, p, top) == Some(t);
    assert Unshared(m, t, top, p, p, k, top);
  }

  /** Two trees share no table. */
  ghost predicate Disjoint(m: Memory, c: nat, d: nat, h: nat) {
    forall f :: !(On(m, c, h, f) && On(m, d, h, f))
  }

  /** What hangs below different entries is different. */
  lemma ChildrenApart(m: Memory, t: nat, top: nat, i: nat, c: nat, j: nat, d: nat, h: nat)
    requires Tree(m, t, top) && Child(m, t, top, i, c) && Child(m, t, top, j, d) && i != j && h == top - 1
    ensures Disjoint(m, c, d, h)
  {
    forall f
      ensures !(On(m, c, h, f) && On(m, d, h, f))
    {
      if On(m, c, h, f) && On(m, d, h, f) {
        var p, k := OnChild(m, t, top, i, c, f);
        var q, l := OnChild(m, t, top, j, d, f);
        assert Unshared(m, t, top, p, q, k, l);
        AgreeMore(p, q, top, k, h);
      }
    }
  }

  /** A table of a tree is its root, or hangs below one of the root's entries. */
  lemma OnParts(m: Memory, t: nat, top: nat, f: nat)
    requires Tree(m, t, top)
    ensures On(m, t, top, f) <==> f == t || exists i: nat, c: nat :: Child(m, t, top, i, c) && On(m, c, top - 1, f)
  {
    if On(m, t, top, f) {
      var p: Path, k: nat :| 1 <= k <= top && Walk(m, t, top, p, k) == Some(f);
      if k < top {
        SomeAbove(m, t, top, p, k, top - 1);
        var c := Walk(m, t, top, p, top - 1).frame;
        assert Walk(m, t, top, p, top) == Some(t);
        assert Child(m, t, top, p.At(top), c);
        WalkChild(m, t, top, c, p, k);
        assert On(m, c, top - 1, f);
      }
    }
    if i: nat, c: nat :| Child(m, t, top, i, c) && On(m, c, top - 1, f) {
      var _, _ := OnChild(m, t, top, i, c, f);
    }
    assert Walk(m, t, top, Path(0, 0, 0, 0), top) == Some(t);
  }

  /** Above a table there are tables. */
  lemma {:induction false} SomeAbove(m: Memory, t: nat, top: nat, p: Path, k: nat, l: nat)
    requires Walk(m, t, top, p, k).Some? && k <= l
    ensures Walk(m, t, top, p, l).Some?
    decreases l - k
  {
    if k < l && k < top {
      SomeAbove(m, t, top, p, k + 1, l);
    }
  }

  // ------------------------------------------------------------ replacing a child

  lemma {:induction false} AgreeUp(p: Path, q: Path, top: nat, k: nat)
    requires 1 <= top && k < top && p.At(top) == q.At(top) && Agree(p, q, top - 1, k)
    ensures Agree(p, q, top, k)
    decreases top - k
  {
    if k < top - 1 {
      AgreeUp(p, q, top, k + 1);
    } else {
      assert Agree(p, q, top, top);
    }
  }

  /** The table at `g`, which was empty, has become the root of a tree of new tables. */
  ghost predicate Grafting(m: Memory, m': Memory, t: nat, top: nat, i: nat, g: nat, h: nat) {
    && Tree(m, t, top) && Child(m, t, top, i, g) && h == top - 1 && Tables(m') && Tree(m', g, h) && t != g
    && (forall f | f in m :: f in m' && (f != g ==> m'[f] == m[f]))
    && (forall f | f in m && On(m', g, h, f) :: f == g)
  }

  function Grafted(m: Memory, m': Memory, t: nat, top: nat, i: nat, g: nat, h: nat, p: Path, l: nat): Found {
    if p.At(top) == i && l < top then Walk(m', g, h, p, l) else Walk(m, t, top, p, l)
  }

  /** Table `g` is reached through its own entry only. */
  lemma OnlyThrough(m: Memory, t: nat, top: nat, i: nat, g: nat, p: Path, l: nat)
    requires Tree(m, t, top) && Child(m, t, top, i, g) && t != g && 1 <= l <= top && Walk(m, t, top, p, l) == Some(g)
    ensures l == top - 1 && p.At(top) == i
  {
    var q := p.With(top, i);
    WithAt(p, top, i, top);
    assert Walk(m, t, top, q, top) == Some(t);
    assert Walk(m, t, top, q, top - 1) == Some(g);
    assert Unshared(m, t, top, q, p, top - 1, l);
    assert Agree(q, p, top, top - 1) ==> q.At(top) == p.At(top);
  }

  lemma {:induction false} GraftWalk(m: Memory, m': Memory, t: nat, top: nat, i: nat, g: nat, h: nat, p: Path, l: nat)
    requires Grafting(m, m', t, top, i, g, h) && 1 <= l <= top
    ensures Walk(m', t, top, p, l) == Grafted(m, m', t, top, i, g, h, p, l)
    decreases top - l
  {
    if l == top {
    } else if p.At(top) == i {
      assert Child(m', t, top, i, g);
      WalkChild(m', t, top, g, p, l);
    } else {
      GraftWalk(m, m', t, top, i, g, h, p, l + 1);
      var w := Walk(m, t, top, p, l + 1);
      if w.Some? {
        WalkIn(m, t, top, p, l + 1);
        if w.frame == g {
          OnlyThrough(m, t, top, i, g, p, l + 1);
        }
        assert Leads(m, t, top, p, l + 1);
      }
    }
  }

  lemma GraftUnshared(m: Memory, m': Memory, t: nat, top: nat, i: nat, g: nat, h: nat, p: Path, q: Path, k: nat, l: nat)
    requires Grafting(m, m', t, top, i, g, h) && 1 <= k <= top && 1 <= l <= top
    requires Walk(m', t, top, p, k) == Grafted(m, m', t, top, i, g, h, p, k)
    requires Walk(m', t, top, q, l) == Grafted(m, m', t, top, i, g, h, q, l)
    ensures Unshared(m', t, top, p, q, k, l)
  {
    var w := Walk(m', t, top, p, k);
    if w.Some? && w == Walk(m', t, top, q, l) {
      var a, b := p.At(top) == i && k < top, q.At(top) == i && l < top;
      WalkIn(m, t, top, p, k);
      WalkIn(m, t, top, q, l);
      if a && b {
        assert Unshared(m', g, h, p, q, k, l);
        AgreeUp(p, q, top, k);
      } else if !a && !b {
        assert Unshared(m, t, top, p, q, k, l);
      } else if a {
        assert On(m', g, h, w.frame);
        OnlyThrough(m, t, top, i, g, q, l);
      } else {
        assert On(m', g, h, w.frame);
        OnlyThrough(m, t, top, i, g, p, k);
      }
    }
  }

  lemma GraftLeads(m: Memory, m': Memory, t: nat, top: nat, i: nat, g: nat, h: nat, p: Path, k: nat)
    requires Grafting(m, m', t, top, i, g, h) && 2 <= k <= top
    requires Walk(m', t, top, p, k) == Grafted(m, m', t, top, i, g, h, p, k)
    ensures Leads(m', t, top, p, k)
  {
    if p.At(top) == i && k < top {
      assert Leads(m', g, h, p, k);
    } else {
      assert Leads(m, t, top, p, k);
      WalkIn(m, t, top, p, k);
      if Walk(m, t, top, p, k) == Some(g) {
        OnlyThrough(m, t, top, i, g, p, k);
      }
    }
  }

  /** The whole is a tree then, and maps through that entry what the new tree maps. */
  lemma GraftTree(m: Memory, m': Memory, t: nat, top: nat, i: nat, g: nat, h: nat)
    requires Grafting(m, m', t, top, i, g, h)
    ensures Tree(m', t, top)
    ensures forall p :: Last(m', t, top, p) == if p.At(top) == i then Last(m', g, h, p) else Last(m, t, top, p)
    ensures forall f :: On(m', t, top, f) ==> On(m, t, top, f) || On(m', g, h, f)
  {
    forall p: Path, l: nat | 1 <= l <= top
      ensures Walk(m', t, top, p, l) == Grafted(m, m', t, top, i, g, h, p, l)
    {
      GraftWalk(m, m', t, top, i, g, h, p, l);
    }
    forall p: Path, q: Path, k: nat, l: nat | 1 <= k <= top && 1 <= l <= top
      ensures Unshared(m', t, top, p, q, k, l)
    {
      GraftUnshared(m, m', t, top, i, g, h, p, q, k, l);
    }
    forall p: Path, k: nat | 2 <= k <= top
      ensures Leads(m', t, top, p, k)
    {
      GraftLeads(m, m', t, top, i, g, h, p, k);
    }
    forall p: Path
      ensures Last(m', t, top, p) == if p.At(top) == i then Last(m', g, h, p) else Last(m, t, top, p)
    {
      GraftLast(m, m', t, top, i, g, h, p);
    }
    GraftOn(m, m', t, top, i, g, h);
  }

  lemma GraftLast(m: Memory, m': Memory, t: nat, top: nat, i: nat, g: nat, h: nat, p: Path)
    requires Grafting(m, m', t, top, i, g, h)
    ensures Last(m', t, top, p) == if p.At(top) == i then Last(m', g, h, p) else Last(m, t, top, p)
  {
    GraftWalk(m, m', t, top, i, g, h, p, 1);
    if p.At(top) != i {
      WalkIn(m, t, top, p, 1);
      if Walk(m, t, top, p, 1) == Some(g) {
        OnlyThrough(m, t, top, i, g, p, 1);
      }
    }
  }

  lemma GraftOn(m: Memory, m': Memory, t: nat, top: nat, i: nat, g: nat, h: nat)
    requires Grafting(m, m', t, top, i, g, h)
    ensures forall f :: On(m', t, top, f) ==> On(m, t, top, f) || On(m', g, h, f)
  {
    forall f | On(m', t, top, f)
      ensures On(m, t, top, f) || On(m', g, h, f)
    {
      var p: Path, l: nat :| 1 <= l <= top && Walk(m', t, top, p, l) == Some(f);
      GraftWalk(m, m', t, top, i, g, h, p, l);
    }
  }

  // ----------------------------------------------------------------- small trees

  /** A table of last level is a tree by itself. */
  lemma LeafAlone(m: Memory, t: nat)
    requires t in m && Tables(m)
    ensures Tree(m, t, 1) && forall f :: On(m, t, 1, f) ==> f == t
  {
    forall p: Path, q: Path, k: nat, l: nat | 1 <= k <= 1 && 1 <= l <= 1
      ensures Unshared(m, t, 1, p, q, k, l)
    {
    }
  }

  /** An empty table is a tree by itself, and maps nothing. */
  lemma EmptyAlone(m: Memory, t: nat, top: nat)
    requires 1 <= top <= 4 && t in m && Tables(m) && m[t] == Zeros()
    ensures Tree(m, t, top) && (forall f :: On(m, t, top, f) ==> f == t) && forall p :: Last(m, t, top, p) == 0
  {
    forall p: Path, k: nat | 1 <= k < top
      ensures Walk(m, t, top, p, k) == None
    {
      EmptyWalk(m, t, top, p, k);
    }
    forall p: Path, q: Path, k: nat, l: nat | 1 <= k <= top && 1 <= l <= top
      ensures Unshared(m, t, top, p, q, k, l)
    {
    }
  }

  lemma {:induction false} EmptyWalk(m: Memory, t: nat, top: nat, p: Path, k: nat)
    requires t in m && m[t] == Zeros() && k < top
    ensures Walk(m, t, top, p, k) == None
    decreases top - k
  {
    if k + 1 < top {
      EmptyWalk(m, t, top, p, k + 1);
    }
  }
}
