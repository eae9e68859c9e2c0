/** The repair steps of a red-black tree as functions on a focused tree, and why
    each keeps the order of the entries and the red-black rules. */
module RbFix {
  import opened RbShape

  // ------------------------------------------------------------- insertion

  /** During the repair after an insertion: the only broken rule, if any, is that the
      red focus hangs below a red parent. */
  ghost predicate DoubleRedAtMost<V>(c: Ctx<V>, t: Tree<V>, n: nat) {
    t.Node? && (t.color == Red || c.Top?) && Ok(t, n) && CtxOk(c, n)
  }

  ghost predicate DoubleRed<V>(c: Ctx<V>, t: Tree<V>, n: nat) {
    DoubleRedAtMost(c, t, n) && CtxColor(c) == Red
  }

  /** Red uncle: parent and uncle black, grandparent red and in focus. */
  function UncleRed<V>(c: Ctx<V>, t: Tree<V>): Tree<V>
    requires c.Frame? && c.up.Frame? && c.up.sib.Node?
  {
    Close(c.up.(color := Red, sib := c.up.sib.(color := Black)), Close(c.(color := Black), t))
  }

  /** Black uncle, bent path: the parent is rotated below the focus and becomes the focus. */
  function Straightened<V>(c: Ctx<V>, t: Tree<V>): Tree<V>
    requires c.Frame? && t.Node?
  {
    Rotated(Invert(c.dir), Close(c, t))
  }

  /** Black uncle, straight path: the parent turns black and takes the grandparent's place. */
  function UncleBlack<V>(c: Ctx<V>, t: Tree<V>): Tree<V>
    requires c.Frame? && c.up.Frame?
  {
    Rotated(Invert(c.up.dir), Close(c.up.(color := Red), Close(c.(color := Black), t)))
  }

  lemma RotatedInOrder<V>(dir: Dir, t: Tree<V>)
    requires t.Node? && Child(Invert(dir), t).Node?
    ensures InOrder(Rotated(dir, t)) == InOrder(t)
  {
  }

  lemma UncleRedKeeps<V>(c: Ctx<V>, t: Tree<V>, n: nat)
    requires DoubleRed(c, t, n) && TreeColor(c.up.sib) == Red
    ensures DoubleRedAtMost(c.up.up, UncleRed(c, t), n + 1)
    ensures InOrder(Plug(c.up.up, UncleRed(c, t))) == InOrder(Plug(c, t))
  {
    assert CtxOk(c.up, n) && CtxOk(c.up.up, n + 1);
    assert Ok(Close(c.(color := Black), t), n + 1) && Ok(c.up.sib.(color := Black), n + 1);
    InOrderPlug(c.up.up, UncleRed(c, t));
    InOrderPlug(c.up.up, Close(c.up, Close(c, t)));
  }

  lemma StraightenedKeeps<V>(c: Ctx<V>, t: Tree<V>, n: nat)
    requires DoubleRed(c, t, n) && TreeColor(c.up.sib) == Black && c.dir != c.up.dir
    ensures var s := Straightened(c, t);
      && Child(Invert(c.dir), s).Node?
      && DoubleRed(Down(Invert(c.dir), c.up, s), Child(Invert(c.dir), s), n)
      && InOrder(Plug(c.up, s)) == InOrder(Plug(c, t))
  {
    RotatedInOrder(Invert(c.dir), Close(c, t));
    InOrderPlug(c.up, Straightened(c, t));
    InOrderPlug(c.up, Close(c, t));
  }

  lemma UncleBlackKeeps<V>(c: Ctx<V>, t: Tree<V>, n: nat)
    requires DoubleRed(c, t, n) && TreeColor(c.up.sib) == Black && c.dir == c.up.dir
    ensures var s := UncleBlack(c, t);
      && Child(c.dir, s) == t && s.ref == c.ref && s.color == Black
      && DoubleRedAtMost(Down(c.dir, c.up.up, s), t, n)
      && InOrder(Plug(c.up.up, s)) == InOrder(Plug(c, t))
  {
    assert CtxOk(c.up, n) && CtxOk(c.up.up, n + 1);
    assert Ok(Child(Invert(c.dir), UncleBlack(c, t)), n);
    RotatedInOrder(Invert(c.up.dir), Close(c.up.(color := Red), Close(c.(color := Black), t)));
    InOrderPlug(c.up.up, UncleBlack(c, t));
    InOrderPlug(c.up.up, Close(c.up, Close(c, t)));
  }

  /** Once the parent is black, painting the root black gives a red-black tree. */
  lemma {:induction false} DoubleRedGone<V>(c: Ctx<V>, t: Tree<V>, n: nat)
    requires DoubleRedAtMost(c, t, n) && CtxColor(c) == Black
    ensures var whole := Plug(c, t);
      && whole.Node? && RedBlack(whole.(color := Black))
      && InOrder(whole.(color := Black)) == InOrder(whole)
  {
    InOrderPlug(c, t);
    if c.Top? {
      assert Ok(t.(color := Black), if t.color == Red then n + 1 else n);
    } else {
      PlugOk(c, t, n);
      assert InOrder(Plug(c, t)) != [];
    }
  }
  // -------------------------------------------------------------- deletion

  /** `v`, the node about to be unlinked, is nowhere around the focus. */
  ghost predicate Clean<V>(c: Ctx<V>, v: RbNode<V>) {
    c.Frame? ==> c.ref != v && Without(c.sib, v) == c.sib && Clean(c.up, v)
  }

  /** During the repair before a deletion: with `v` taken out, the focused subtree has one black
      node too few on every path, unless its root is red and can be painted black. */
  ghost predicate OneShort<V>(c: Ctx<V>, t: Tree<V>, v: RbNode<V>, n: nat) {
    && t.Node? && Clean(c, v) && CtxOk(c, n + 1)
    && (t.color == Black ==> Ok(Without(t, v), n))
    && (t.color == Red ==> t.ref != v && Ok(Without(t.left, v), n) && Ok(Without(t.right, v), n))
  }

  /** The tree that unlinking `v` will leave. */
  function Pruned<V>(c: Ctx<V>, t: Tree<V>, v: RbNode<V>): Tree<V> {
    Plug(c, Without(t, v))
  }

  function Inner<V>(c: Ctx<V>): Tree<V>
    requires c.Frame? && c.sib.Node?
  {
    Child(c.dir, c.sib)
  }

  function Outer<V>(c: Ctx<V>): Tree<V>
    requires c.Frame? && c.sib.Node?
  {
    Child(Invert(c.dir), c.sib)
  }

  /** Case 1, a black sibling with black children: the sibling turns red, the parent is in focus. */
  function SiblingToRed<V>(c: Ctx<V>, t: Tree<V>): Tree<V>
    requires c.Frame? && c.sib.Node?
  {
    Close(c.(sib := c.sib.(color := Red)), t)
  }

  /** Case 2, only the inner nephew is red: it is rotated over the sibling. */
  function InnerUp<V>(c: Ctx<V>): Ctx<V>
    requires c.Frame? && c.sib.Node? && Inner(c).Node?
  {
    c.(sib := Rotated(Invert(c.dir), WithChild(c.dir, c.sib.(color := Red), Inner(c).(color := Black))))
  }

  /** Case 3, the outer nephew is red: the sibling takes the parent's place and colour. */
  function SiblingUp<V>(c: Ctx<V>, t: Tree<V>): Tree<V>
    requires c.Frame? && c.sib.Node? && Outer(c).Node?
  {
    var s := WithChild(Invert(c.dir), c.sib.(color := c.color), Outer(c).(color := Black));
    Rotated(c.dir, Close(c.(color := Black, sib := s), t))
  }

  /** Case 4, a red sibling: it is rotated over the parent, which turns red. */
  function RedSiblingUp<V>(c: Ctx<V>, t: Tree<V>): Tree<V>
    requires c.Frame? && c.sib.Node?
  {
    Rotated(c.dir, Close(c.(color := Red, sib := c.sib.(color := Black)), t))
  }

  function RedSiblingCtx<V>(c: Ctx<V>): Ctx<V>
    requires c.Frame? && c.sib.Node?
  {
    c.(color := Red, sib := Inner(c), up := Frame(c.dir, c.sib.ref, Black, c.sib.key, c.sib.val, Outer(c), c.up))
  }

  /** How much repair is left: case 4 lowers the focus, but only to meet a red parent. */
  function RepairLeft<V>(c: Ctx<V>, t: Tree<V>): nat {
    if c.Top? || TreeColor(t) == Red then 0
    else
      var step :=
        if c.sib.Nil? then 3 else if c.sib.color == Red then 4
        else if TreeColor(Outer(c)) == Red then 1 else if TreeColor(Inner(c)) == Red then 2 else 3;
      if c.color == Red then step else 5 * Depth(c) + step
  }

  /** What every turn of the repair finds. */
  ghost predicate Unfinished<V>(c: Ctx<V>, t: Tree<V>, v: RbNode<V>, n: nat) {
    OneShort(c, t, v, n) && t.color == Black && c.Frame?
  }

  lemma SiblingExists<V>(c: Ctx<V>, t: Tree<V>, v: RbNode<V>, n: nat)
    requires Unfinished(c, t, v, n)
    ensures c.sib.Node?
  {
  }

  lemma SiblingToRedKeeps<V>(c: Ctx<V>, t: Tree<V>, v: RbNode<V>, n: nat)
    requires Unfinished(c, t, v, n) && c.sib.Node? && c.sib.color == Black
    requires TreeColor(Inner(c)) == Black && TreeColor(Outer(c)) == Black
    ensures OneShort(c.up, SiblingToRed(c, t), v, if c.color == Black then n + 1 else n)
    ensures InOrder(Pruned(c.up, SiblingToRed(c, t), v)) == InOrder(Pruned(c, t, v))
    ensures RepairLeft(c.up, SiblingToRed(c, t)) < RepairLeft(c, t)
  {
    assert Ok(c.sib, n + 1);
    var s := c.sib.(color := Red);
    assert Without(s, v) == s && Ok(s, n);
    assert Without(SiblingToRed(c, t), v) == Close(c.(sib := s), Without(t, v));
    InOrderPlug(c.up, Close(c, Without(t, v)));
    InOrderPlug(c.up, Close(c.(sib := s), Without(t, v)));
  }

  lemma InnerUpKeeps<V>(c: Ctx<V>, t: Tree<V>, v: RbNode<V>, n: nat)
    requires Unfinished(c, t, v, n) && c.sib.Node? && c.sib.color == Black
    requires TreeColor(Inner(c)) == Red && TreeColor(Outer(c)) == Black
    ensures Unfinished(InnerUp(c), t, v, n)
    ensures InOrder(Pruned(InnerUp(c), t, v)) == InOrder(Pruned(c, t, v))
    ensures RepairLeft(InnerUp(c), t) < RepairLeft(c, t)
  {
    var s := WithChild(c.dir, c.sib.(color := Red), Inner(c).(color := Black));
    assert Without(c.sib, v) == c.sib && Without(Inner(c), v) == Inner(c) && Without(Outer(c), v) == Outer(c);
    assert Ok(c.sib, n + 1) && Ok(Inner(c), n) && Ok(Outer(c), n);
    assert Ok(Child(Invert(c.dir), InnerUp(c).sib), n) && Ok(Child(c.dir, InnerUp(c).sib), n);
    RotatedInOrder(Invert(c.dir), s);
    assert InOrder(InnerUp(c).sib) == InOrder(c.sib);
    InOrderPlug(c.up, Close(c, Without(t, v)));
    InOrderPlug(c.up, Close(InnerUp(c), Without(t, v)));
  }

  /** Case 3 restores every rule at once. */
  lemma SiblingUpOk<V>(c: Ctx<V>, w: Tree<V>, n: nat)
    requires c.Frame? && CtxOk(c, n + 1) && Ok(w, n)
    requires c.sib.Node? && c.sib.color == Black && TreeColor(Outer(c)) == Red
    requires TreeColor(w) == Black
    ensures Ok(SiblingUp(c, w), if c.color == Black then n + 2 else n + 1)
    ensures InOrder(SiblingUp(c, w)) == InOrder(Close(c, w))
  {
    assert Ok(c.sib, n + 1) && Ok(Inner(c), n) && Ok(Outer(c), n);
    var s := SiblingUp(c, w);
    assert Ok(Outer(c).(color := Black), n + 1);
    assert Ok(Child(c.dir, s), n + 1);
    var near := WithChild(Invert(c.dir), c.sib.(color := c.color), Outer(c).(color := Black));
    RotatedInOrder(c.dir, Close(c.(color := Black, sib := near), w));
    assert InOrder(near) == InOrder(c.sib);
  }

  lemma SiblingUpEnds<V>(c: Ctx<V>, t: Tree<V>, v: RbNode<V>, n: nat)
    requires Unfinished(c, t, v, n) && c.sib.Node? && c.sib.color == Black && TreeColor(Outer(c)) == Red
    ensures var s := SiblingUp(c, t);
      && RedBlack(Pruned(c.up, s, v)) && Clean(c.up, v)
      && InOrder(Pruned(c.up, s, v)) == InOrder(Pruned(c, t, v))
  {
    assert Without(c.sib, v) == c.sib && Without(Inner(c), v) == Inner(c) && Without(Outer(c), v) == Outer(c);
    var w := Without(t, v);
    assert Without(SiblingUp(c, t), v) == SiblingUp(c, w);
    SiblingUpOk(c, w, n);
    InOrderPlug(c.up, Close(c, w));
    InOrderPlug(c.up, SiblingUp(c, w));
    PlugOk(c.up, SiblingUp(c, w), if c.color == Black then n + 2 else n + 1);
  }

  lemma RedSiblingUpKeeps<V>(c: Ctx<V>, t: Tree<V>, v: RbNode<V>, n: nat)
    requires Unfinished(c, t, v, n) && c.sib.Node? && c.sib.color == Red
    ensures Unfinished(RedSiblingCtx(c), t, v, n)
    ensures Close(RedSiblingCtx(c).up, Close(RedSiblingCtx(c), t)) == RedSiblingUp(c, t)
    ensures InOrder(Pruned(RedSiblingCtx(c), t, v)) == InOrder(Pruned(c, t, v))
    ensures RepairLeft(RedSiblingCtx(c), t) < RepairLeft(c, t)
  {
    assert c.color == Black && CtxOk(c.up, n + 2);
    assert Without(c.sib, v) == c.sib && Without(Inner(c), v) == Inner(c) && Without(Outer(c), v) == Outer(c);
    var c', w := RedSiblingCtx(c), Without(t, v);
    assert CtxOk(c'.up, n + 1);
    InOrderPlug(c.up, Close(c, w));
    InOrderPlug(c.up, RedSiblingUp(c, w));
    assert Plug(c', w) == Plug(c.up, RedSiblingUp(c, w)) by {
      assert Plug(c', w) == Plug(c'.up, Close(c', w));
    }
    RotatedInOrder(c.dir, Close(c.(color := Red, sib := c.sib.(color := Black)), w));
  }

  lemma {:induction false} WithoutPlug<V>(c: Ctx<V>, t: Tree<V>, v: RbNode<V>)
    requires Clean(c, v)
    ensures Without(Plug(c, t), v) == Pruned(c, t, v)
    decreases c
  {
    if c.Frame? {
      WithoutPlug(c.up, Close(c, t), v);
    }
  }

  /** With every rule restored, the focus may as well be the whole tree. */
  lemma WholeAgain<V>(c: Ctx<V>, t: Tree<V>, v: RbNode<V>) returns (n: nat)
    requires Clean(c, v) && t.Node? && t.ref != v && RedBlack(Pruned(c, t, v))
    ensures Plug(c, t).Node? && Plug(c, t).ref != v
    ensures OneShort(Top, Plug(c, t), v, n) && Pruned(Top, Plug(c, t), v) == Pruned(c, t, v)
  {
    WithoutPlug(c, t, v);
    n :| Ok(Pruned(c, t, v), n);
    PlugRoot(c, t, v);
  }

  lemma {:induction false} PlugRoot<V>(c: Ctx<V>, t: Tree<V>, v: RbNode<V>)
    requires t.Node? && t.ref != v && Clean(c, v)
    ensures Plug(c, t).Node? && Plug(c, t).ref != v
    decreases c
  {
    if c.Frame? {
      PlugRoot(c.up, Close(c, t), v);
    }
  }

  /** At the end of the repair, painting the focus black leaves only `v` to be unlinked. */
  lemma OneShortGone<V>(c: Ctx<V>, t: Tree<V>, v: RbNode<V>, n: nat)
    requires OneShort(c, t, v, n) && (c.Top? || t.color == Red)
    ensures RedBlack(Without(Plug(c, t.(color := Black)), v))
    ensures InOrder(Without(Plug(c, t.(color := Black)), v)) == InOrder(Pruned(c, t, v))
  {
    var t' := t.(color := Black);
    WithoutPlug(c, t', v);
    InOrderPlug(c, Without(t, v));
    InOrderPlug(c, Without(t', v));
    if t.color == Red {
      PlugOk(c, Without(t', v), n + 1);
    } else {
      PlugOk(c, Without(t', v), n);
    }
  }
}
