/** When linked nodes in memory represent a tree, or a tree with a focus, stated
    over a snapshot of the nodes' fields; and what a write does to it. */
module RbHeap {
  import opened RbShape
  import opened RbFix

  /** The fields of one node. */
  datatype Cell<V> = Cell(color: Color, key: int, val: V,
                          left: RbNode?<V>, right: RbNode?<V>, parent: RbNode?<V>)

  type Mem<V> = map<RbNode<V>, Cell<V>>

  ghost function Fields<V>(n: RbNode<V>): Cell<V>
    reads n
  {
    Cell(n.color, n.key, n.val, n.left, n.right, n.parent)
  }

  ghost function Snap<V>(nodes: set<RbNode<V>>): Mem<V>
    reads nodes
  {
    assert var w := map n | n in nodes :: Fields(n); Shows(nodes, w);
    var m: Mem<V> :| Shows(nodes, m);
    m
  }

  /** `m` is what the fields of `nodes` hold. */
  ghost predicate Shows<V>(nodes: set<RbNode<V>>, m: Mem<V>)
    reads nodes
  {
    m.Keys == nodes && forall n | n in nodes :: m[n] == Fields(n)
  }

  ghost function Refs<V>(t: Tree<V>): set<RbNode<V>> {
    if t.Nil? then {} else {t.ref} + Refs(t.left) + Refs(t.right)
  }

  ghost function CtxRefs<V>(c: Ctx<V>): set<RbNode<V>> {
    if c.Top? then {} else {c.ref} + Refs(c.sib) + CtxRefs(c.up)
  }

  /** No node occurs twice in `t`. */
  ghost predicate Distinct<V>(t: Tree<V>) {
    t.Node? ==>
      && t.ref !in Refs(t.left) && t.ref !in Refs(t.right) && Refs(t.left) !! Refs(t.right)
      && Distinct(t.left) && Distinct(t.right)
  }

  ghost predicate CtxDistinct<V>(c: Ctx<V>) {
    c.Frame? ==>
      && c.ref !in Refs(c.sib) && c.ref !in CtxRefs(c.up) && Refs(c.sib) !! CtxRefs(c.up)
      && Distinct(c.sib) && CtxDistinct(c.up)
  }

  /** The nodes of `t`, hanging below `parent`, are linked exactly as `t` says. */
  ghost predicate Linked<V>(m: Mem<V>, t: Tree<V>, parent: RbNode?<V>) {
    t.Node? ==>
      && t.ref in m
      && m[t.ref] == Cell(t.color, t.key, t.val, Root(t.left), Root(t.right), parent)
      && Linked(m, t.left, t.ref) && Linked(m, t.right, t.ref)
  }

  /** The nodes around the focus are linked as `c` says, with `focus` in the hole. */
  ghost predicate CtxLinked<V>(m: Mem<V>, c: Ctx<V>, focus: RbNode?<V>) {
    c.Frame? ==>
      && c.ref in m
      && m[c.ref] == Cell(c.color, c.key, c.val,
                          if c.dir == Left then focus else Root(c.sib),
                          if c.dir == Left then Root(c.sib) else focus,
                          Parent(c.up))
      && Linked(m, c.sib, c.ref) && CtxLinked(m, c.up, c.ref)
  }

  ghost predicate Apart<V>(c: Ctx<V>, t: Tree<V>) {
    Distinct(t) && CtxDistinct(c) && Refs(t) !! CtxRefs(c)
  }

  /** Memory holds `t`, focused in `c`, with no node used twice. */
  ghost predicate At<V>(m: Mem<V>, c: Ctx<V>, t: Tree<V>) {
    Apart(c, t) && Linked(m, t, Parent(c)) && CtxLinked(m, c, Root(t))
  }

  /** The node the program's root pointer must name. */
  ghost function RootRef<V>(c: Ctx<V>, focus: RbNode?<V>): RbNode?<V> {
    if c.Top? then focus else RootRef(c.up, c.ref)
  }

  /** Moving the focus to the parent, or back down, changes nothing in memory. */
  lemma AtClose<V>(m: Mem<V>, c: Ctx<V>, t: Tree<V>)
    requires c.Frame?
    ensures At(m, c, t) <==> At(m, c.up, Close(c, t))
    ensures Refs(Close(c, t)) == {c.ref} + Refs(t) + Refs(c.sib)
  {
    assert Refs(Close(c, t)) == {c.ref} + Refs(t) + Refs(c.sib);
  }

  lemma {:induction false} AtPlug<V>(m: Mem<V>, c: Ctx<V>, t: Tree<V>)
    ensures At(m, c, t) <==> At(m, Top, Plug(c, t))
    ensures Refs(Plug(c, t)) == CtxRefs(c) + Refs(t)
    ensures RootRef(c, Root(t)) == Root(Plug(c, t))
    decreases c
  {
    if c.Frame? {
      AtClose(m, c, t);
      AtPlug(m, c.up, Close(c, t));
    }
  }

  ghost predicate Agree<V>(m: Mem<V>, m': Mem<V>, nodes: set<RbNode<V>>) {
    forall n | n in nodes && n in m :: n in m' && m'[n] == m[n]
  }

  /** Writes elsewhere leave a tree linked. */
  lemma {:induction false} LinkedFrame<V>(m: Mem<V>, m': Mem<V>, t: Tree<V>, parent: RbNode?<V>)
    requires Linked(m, t, parent) && Agree(m, m', Refs(t))
    ensures Linked(m', t, parent)
  {
    if t.Node? {
      LinkedFrame(m, m', t.left, t.ref);
      LinkedFrame(m, m', t.right, t.ref);
    }
  }

  lemma {:induction false} CtxLinkedFrame<V>(m: Mem<V>, m': Mem<V>, c: Ctx<V>, focus: RbNode?<V>)
    requires CtxLinked(m, c, focus) && Agree(m, m', CtxRefs(c))
    ensures CtxLinked(m', c, focus)
    decreases c
  {
    if c.Frame? {
      LinkedFrame(m, m', c.sib, c.ref);
      CtxLinkedFrame(m, m', c.up, c.ref);
    }
  }

  /** A parent whose child pointer `was` now names `n`. */
  function Redirected<V>(cell: Cell<V>, was: RbNode<V>, n: RbNode?<V>): Cell<V> {
    if cell.left == was then cell.(left := n) else cell.(right := n)
  }

  lemma LinkedSetParent<V>(m: Mem<V>, m': Mem<V>, t: Tree<V>, parent: RbNode?<V>, parent': RbNode?<V>)
    requires Distinct(t) && Linked(m, t, parent)
    requires t.Node? ==> t.ref in m' && m'[t.ref] == m[t.ref].(parent := parent')
    requires Agree(m, m', if t.Node? then Refs(t) - {t.ref} else {})
    ensures Linked(m', t, parent')
  {
    if t.Node? {
      LinkedFrame(m, m', t.left, t.ref);
      LinkedFrame(m, m', t.right, t.ref);
    }
  }

  lemma CtxLinkedSetChild<V>(m: Mem<V>, m': Mem<V>, c: Ctx<V>, was: RbNode<V>, n: RbNode?<V>)
    requires CtxDistinct(c) && CtxLinked(m, c, was) && was !in CtxRefs(c)
    requires c.Frame? ==> c.ref in m' && m'[c.ref] == Redirected(m[c.ref], was, n)
    requires Agree(m, m', if c.Frame? then CtxRefs(c) - {c.ref} else {})
    ensures CtxLinked(m', c, n)
  {
    if c.Frame? {
      assert c.sib.Node? ==> c.sib.ref in Refs(c.sib);
      LinkedFrame(m, m', c.sib, c.ref);
      CtxLinkedFrame(m, m', c.up, c.ref);
    }
  }

  // ------------------------------------------------------------- rotation

  lemma RotatedRefs<V>(dir: Dir, t: Tree<V>)
    requires Distinct(t) && t.Node? && Child(Invert(dir), t).Node?
    ensures Distinct(Rotated(dir, t)) && Refs(Rotated(dir, t)) == Refs(t)
  {
    if dir == Left {
      assert Distinct(t.right);
      assert Refs(t.(right := t.right.left)) == {t.ref} + Refs(t.left) + Refs(t.right.left);
    } else {
      assert Distinct(t.left);
      assert Refs(t.(left := t.left.right)) == {t.ref} + Refs(t.left.right) + Refs(t.right);
    }
  }

  /** From `m` to `m'` a rotation of `x` over `y` wrote those two nodes, moved the inner
      grandchild `b` below `x`, and redirected the parent `p` from `x` to `y`. */
  ghost predicate Rewired<V>(m: Mem<V>, m': Mem<V>, x: RbNode<V>, y: RbNode<V>, b: RbNode?<V>, p: RbNode?<V>) {
    && (forall n | n in m && n != x && n != y && n != b && n != p :: n in m' && m'[n] == m[n])
    && (b != null && b in m ==> b in m' && m'[b] == m[b].(parent := x))
    && (p != null && p in m ==> p in m' && m'[p] == Redirected(m[p], x, y))
  }

  lemma RewiredElsewhere<V>(m: Mem<V>, m': Mem<V>, x: RbNode<V>, y: RbNode<V>, b: RbNode?<V>, p: RbNode?<V>,
                            nodes: set<RbNode<V>>)
    requires Rewired(m, m', x, y, b, p)
    requires x !in nodes && y !in nodes && (b != null ==> b !in nodes) && (p != null ==> p !in nodes)
    ensures Agree(m, m', nodes)
  {
  }

  /** The four pieces around a rotation: `a` and `d` stay below `x` and `y`, `b` moves
      from `y` to `x`, and the context now holds `y`. */
  lemma RewiredPieces<V>(m: Mem<V>, m': Mem<V>, c: Ctx<V>, x: RbNode<V>, y: RbNode<V>, a: Tree<V>, b: Tree<V>,
                         d: Tree<V>)
    requires Rewired(m, m', x, y, Root(b), Parent(c))
    requires Linked(m, a, x) && Linked(m, b, y) && Linked(m, d, y) && CtxLinked(m, c, x)
    requires Distinct(b) && CtxDistinct(c)
    requires Outside(x, c, a, b, d) && Outside(y, c, a, b, d)
    requires b.Node? ==> b.ref !in Refs(a) + Refs(d) + CtxRefs(c)
    requires c.Frame? ==> c.ref !in Refs(a) + Refs(b) + Refs(d)
    ensures Linked(m', a, x) && Linked(m', b, x) && Linked(m', d, y) && CtxLinked(m', c, y)
  {
    RewiredElsewhere(m, m', x, y, Root(b), Parent(c), Refs(a));
    RewiredElsewhere(m, m', x, y, Root(b), Parent(c), Refs(d));
    RewiredElsewhere(m, m', x, y, Root(b), Parent(c), if b.Node? then Refs(b) - {b.ref} else {});
    RewiredElsewhere(m, m', x, y, Root(b), Parent(c), if c.Frame? then CtxRefs(c) - {c.ref} else {});
    LinkedFrame(m, m', a, x);
    LinkedFrame(m, m', d, y);
    LinkedSetParent(m, m', b, y, x);
    CtxLinkedSetChild(m, m', c, x, y);
  }

  ghost predicate Outside<V>(n: RbNode<V>, c: Ctx<V>, a: Tree<V>, b: Tree<V>, d: Tree<V>) {
    n !in CtxRefs(c) && n !in Refs(a) && n !in Refs(b) && n !in Refs(d)
  }

  /** The nodes a left rotation touches, all different. */
  lemma RotateLeftNodes<V>(m: Mem<V>, c: Ctx<V>, t: Tree<V>)
    requires At(m, c, t) && t.Node? && t.right.Node?
    ensures var x, y, b, p := t.ref, t.right.ref, Root(t.right.left), Parent(c);
      && x in m && m[x].right == y && m[x].parent == p && y in m && m[y].left == b
      && x != y && b != x && b != y && p != x && p != y && (p == b ==> p == null)
      && (b != null ==> b in m)
      && (p != null ==> p in m && m[p].left != m[p].right && (m[p].left == x || m[p].right == x))
  {
    assert Distinct(t.right) && Linked(m, t.right, t.ref) && Linked(m, t.right.left, t.right.ref);
    assert t.right.left.Node? ==> t.right.left.ref in Refs(t.right.left);
    assert c.Frame? ==> c.ref in CtxRefs(c);
    assert c.Frame? && c.sib.Node? ==> c.sib.ref in Refs(c.sib);
  }

  lemma RotateLeftAt<V>(m: Mem<V>, m': Mem<V>, c: Ctx<V>, t: Tree<V>)
    requires At(m, c, t) && t.Node? && t.right.Node?
    requires t.ref in m && t.right.ref in m && t.ref in m' && t.right.ref in m'
    requires var x, y := t.ref, t.right.ref;
      && m'[x] == m[x].(right := m[y].left, parent := y)
      && m'[y] == m[y].(left := x, parent := m[x].parent)
      && Rewired(m, m', x, y, m[y].left, m[x].parent)
    ensures At(m', c, Rotated(Left, t))
  {
    var x, y, b := t.ref, t.right.ref, t.right.left;
    assert Distinct(t.right) && Linked(m, t.right, x);
    assert b.Node? ==> b.ref in Refs(b);
    assert c.Frame? ==> c.ref in CtxRefs(c);
    RewiredPieces(m, m', c, x, y, t.left, b, t.right.right);
    RotatedRefs(Left, t);
    assert Linked(m', t.(right := b), y);
  }

  /** The nodes a right rotation touches, all different. */
  lemma RotateRightNodes<V>(m: Mem<V>, c: Ctx<V>, t: Tree<V>)
    requires At(m, c, t) && t.Node? && t.left.Node?
    ensures var x, y, b, p := t.ref, t.left.ref, Root(t.left.right), Parent(c);
      && x in m && m[x].left == y && m[x].parent == p && y in m && m[y].right == b
      && x != y && b != x && b != y && p != x && p != y && (p == b ==> p == null)
      && (b != null ==> b in m)
      && (p != null ==> p in m && m[p].left != m[p].right && (m[p].left == x || m[p].right == x))
  {
    assert Distinct(t.left) && Linked(m, t.left, t.ref) && Linked(m, t.left.right, t.left.ref);
    assert t.left.right.Node? ==> t.left.right.ref in Refs(t.left.right);
    assert c.Frame? ==> c.ref in CtxRefs(c);
    assert c.Frame? && c.sib.Node? ==> c.sib.ref in Refs(c.sib);
  }

  lemma RotateRightAt<V>(m: Mem<V>, m': Mem<V>, c: Ctx<V>, t: Tree<V>)
    requires At(m, c, t) && t.Node? && t.left.Node?
    requires t.ref in m && t.left.ref in m && t.ref in m' && t.left.ref in m'
    requires var x, y := t.ref, t.left.ref;
      && m'[x] == m[x].(left := m[y].right, parent := y)
      && m'[y] == m[y].(right := x, parent := m[x].parent)
      && Rewired(m, m', x, y, m[y].right, m[x].parent)
    ensures At(m', c, Rotated(Right, t))
  {
    var x, y, b := t.ref, t.left.ref, t.left.right;
    assert Distinct(t.left) && Linked(m, t.left, x);
    assert b.Node? ==> b.ref in Refs(b);
    assert c.Frame? ==> c.ref in CtxRefs(c);
    RewiredPieces(m, m', c, x, y, t.right, b, t.left.left);
    RotatedRefs(Right, t);
    assert Linked(m', t.(left := b), y);
  }
  // ------------------------------------------------------------ recolouring

  /** From `m` to `m'` only the colour of `n` was written. */
  ghost predicate Painted<V>(m: Mem<V>, m': Mem<V>, n: RbNode<V>, color: Color) {
    && n in m && n in m' && m'[n] == m[n].(color := color)
    && forall k | k in m && k != n :: k in m' && m'[k] == m[k]
  }

  lemma PaintedElsewhere<V>(m: Mem<V>, m': Mem<V>, n: RbNode<V>, color: Color, s: set<RbNode<V>>)
    requires Painted(m, m', n, color) && n !in s
    ensures Agree(m, m', s)
  {
  }

  lemma PaintFocus<V>(m: Mem<V>, m': Mem<V>, c: Ctx<V>, t: Tree<V>, color: Color)
    requires At(m, c, t) && t.Node? && Painted(m, m', t.ref, color)
    ensures At(m', c, t.(color := color))
  {
    PaintedElsewhere(m, m', t.ref, color, Refs(t.left));
    PaintedElsewhere(m, m', t.ref, color, Refs(t.right));
    PaintedElsewhere(m, m', t.ref, color, CtxRefs(c));
    LinkedFrame(m, m', t.left, t.ref);
    LinkedFrame(m, m', t.right, t.ref);
    CtxLinkedFrame(m, m', c, t.ref);
  }

  lemma PaintParent<V>(m: Mem<V>, m': Mem<V>, c: Ctx<V>, t: Tree<V>, color: Color)
    requires At(m, c, t) && c.Frame? && Painted(m, m', c.ref, color)
    ensures At(m', c.(color := color), t)
  {
    AtClose(m, c, t);
    PaintFocus(m, m', c.up, Close(c, t), color);
    AtClose(m', c.(color := color), t);
  }

  lemma PaintSibling<V>(m: Mem<V>, m': Mem<V>, c: Ctx<V>, t: Tree<V>, color: Color)
    requires At(m, c, t) && c.Frame? && c.sib.Node? && Painted(m, m', c.sib.ref, color)
    ensures At(m', c.(sib := c.sib.(color := color)), t)
  {
    var c' := c.(sib := c.sib.(color := color));
    Refocus(Left, c, t);
    Refocus(Left, c', t);
    AtClose(m, c, t);
    AtClose(m, Across(c, t), c.sib);
    PaintFocus(m, m', Across(c, t), c.sib, color);
    AtClose(m', Across(c, t), c'.sib);
    AtClose(m', c', t);
  }

  lemma PaintChild<V>(m: Mem<V>, m': Mem<V>, dir: Dir, c: Ctx<V>, t: Tree<V>, color: Color)
    requires At(m, c, t) && t.Node? && Child(dir, t).Node? && Painted(m, m', Child(dir, t).ref, color)
    ensures var child := Child(dir, t).(color := color);
      At(m', c, WithChild(dir, t, child))
  {
    var child := Child(dir, t).(color := color);
    Refocus(dir, c, t);
    AtClose(m, Down(dir, c, t), Child(dir, t));
    PaintFocus(m, m', Down(dir, c, t), Child(dir, t), color);
    AtClose(m', Down(dir, c, t), child);
  }
  lemma PaintNephew<V>(m: Mem<V>, m': Mem<V>, dir: Dir, c: Ctx<V>, t: Tree<V>, color: Color)
    requires At(m, c, t) && c.Frame? && c.sib.Node? && Child(dir, c.sib).Node?
    requires Painted(m, m', Child(dir, c.sib).ref, color)
    ensures At(m', c.(sib := WithChild(dir, c.sib, Child(dir, c.sib).(color := color))), t)
  {
    var c' := c.(sib := WithChild(dir, c.sib, Child(dir, c.sib).(color := color)));
    Refocus(Left, c, t);
    Refocus(Left, c', t);
    AtClose(m, c, t);
    AtClose(m, Across(c, t), c.sib);
    PaintChild(m, m', dir, Across(c, t), c.sib, color);
    AtClose(m', Across(c, t), c'.sib);
    AtClose(m', c', t);
  }

  // ----------------------------------------------------------- navigation

  /** What the fields near the focus say about its parent and sibling. */
  lemma Nearby<V>(m: Mem<V>, c: Ctx<V>, t: Tree<V>)
    requires At(m, c, t) && t.Node?
    ensures t.ref in m && m[t.ref].parent == Parent(c) && m[t.ref].color == t.color
    ensures m[t.ref].key == t.key && m[t.ref].val == t.val
    ensures m[t.ref].left == Root(t.left) && m[t.ref].right == Root(t.right)
    ensures t.left.Node? ==> t.left.ref in m && m[t.left.ref].color == t.left.color
    ensures t.right.Node? ==> t.right.ref in m && m[t.right.ref].color == t.right.color
    ensures c.Frame? ==>
      && c.ref in m && c.ref != t.ref && Root(c.sib) != t.ref && Root(c.sib) != c.ref
      && m[c.ref].color == c.color && m[c.ref].parent == Parent(c.up)
      && (if c.dir == Left then m[c.ref].left == t.ref && m[c.ref].right == Root(c.sib)
          else m[c.ref].right == t.ref && m[c.ref].left == Root(c.sib))
      && (c.sib.Node? ==> c.sib.ref in m && m[c.sib.ref].color == c.sib.color)
  {
    assert Linked(m, t.left, t.ref) && Linked(m, t.right, t.ref);
  }
  // --------------------------------------------------------- hanging a leaf

  /** From `m` to `m'` a new red leaf `n` was hung below `p`, which had no child in direction `dir`. */
  ghost predicate Hung<V>(m: Mem<V>, m': Mem<V>, dir: Dir, p: RbNode<V>, n: RbNode<V>, key: int, val: V) {
    && p in m && p in m' && m'[p] == (if dir == Left then m[p].(left := n) else m[p].(right := n))
    && n !in m && n in m' && m'[n] == Cell(Red, key, val, null, null, p)
    && forall k | k in m && k != p :: k in m' && m'[k] == m[k]
  }

  lemma HungElsewhere<V>(m: Mem<V>, m': Mem<V>, dir: Dir, p: RbNode<V>, n: RbNode<V>, key: int, val: V,
                         s: set<RbNode<V>>)
    requires Hung(m, m', dir, p, n, key, val) && p !in s
    ensures Agree(m, m', s)
  {
  }

  lemma {:induction false} RefsInMem<V>(m: Mem<V>, t: Tree<V>, parent: RbNode?<V>)
    requires Linked(m, t, parent)
    ensures Refs(t) <= m.Keys
  {
    if t.Node? {
      RefsInMem(m, t.left, t.ref);
      RefsInMem(m, t.right, t.ref);
    }
  }

  lemma {:induction false} CtxRefsInMem<V>(m: Mem<V>, c: Ctx<V>, focus: RbNode?<V>)
    requires CtxLinked(m, c, focus)
    ensures CtxRefs(c) <= m.Keys
    decreases c
  {
    if c.Frame? {
      RefsInMem(m, c.sib, c.ref);
      CtxRefsInMem(m, c.up, c.ref);
    }
  }

  lemma HangLeaf<V>(m: Mem<V>, m': Mem<V>, dir: Dir, c: Ctx<V>, t: Tree<V>, n: RbNode<V>, key: int, val: V)
    requires At(m, c, t) && t.Node? && Child(dir, t) == Nil
    requires Hung(m, m', dir, t.ref, n, key, val)
    ensures At(m', Down(dir, c, t), Node(n, Red, Nil, key, val, Nil))
    ensures Plug(Down(dir, c, t), Nil) == Plug(c, t)
  {
    RefsInMem(m, t, Parent(c));
    CtxRefsInMem(m, c, t.ref);
    HungElsewhere(m, m', dir, t.ref, n, key, val, Refs(Child(Invert(dir), t)));
    HungElsewhere(m, m', dir, t.ref, n, key, val, CtxRefs(c));
    LinkedFrame(m, m', Child(Invert(dir), t), t.ref);
    CtxLinkedFrame(m, m', c, t.ref);
    Refocus(dir, c, t);
  }
  // ------------------------------------------------------------- unlinking

  lemma {:induction false} WithoutAbsent<V>(t: Tree<V>, v: RbNode<V>)
    requires v !in Refs(t)
    ensures Without(t, v) == t
  {
    if t.Node? {
      WithoutAbsent(t.left, v);
      WithoutAbsent(t.right, v);
    }
  }

  lemma {:induction false} CleanApart<V>(c: Ctx<V>, v: RbNode<V>)
    requires v !in CtxRefs(c)
    ensures Clean(c, v)
    decreases c
  {
    if c.Frame? {
      WithoutAbsent(c.sib, v);
      CleanApart(c.up, v);
    }
  }

  /** The place of a node in a tree. */
  lemma {:induction false} Locate<V>(c: Ctx<V>, t: Tree<V>, v: RbNode<V>) returns (c': Ctx<V>, t': Tree<V>)
    requires v in Refs(t)
    ensures t'.Node? && t'.ref == v && Plug(c', t') == Plug(c, t)
    decreases t
  {
    if t.ref == v {
      c', t' := c, t;
    } else {
      var dir := if v in Refs(t.left) then Left else Right;
      Refocus(dir, c, t);
      c', t' := Locate(Down(dir, c, t), Child(dir, t), v);
    }
  }

  /** Cutting the link from the parent leaves the tree without the subtree. */
  lemma Unlink<V>(m: Mem<V>, m': Mem<V>, c: Ctx<V>, t: Tree<V>)
    requires At(m, c, t) && t.Node? && c.Frame?
    requires c.ref in m && c.ref in m' && m'[c.ref] == Redirected(m[c.ref], t.ref, null)
    requires forall k | k in m && k != c.ref && k !in Refs(t) :: k in m' && m'[k] == m[k]
    ensures At(m', c, Nil) && Without(Plug(c, t), t.ref) == Plug(c, Nil)
  {
    assert Agree(m, m', CtxRefs(c) - {c.ref});
    CtxLinkedSetChild(m, m', c, t.ref, null);
    CleanApart(c, t.ref);
    WithoutPlug(c, t, t.ref);
  }
  // ---------------------------------------------------------- transplanting

  /** From `m` to `m'` only the key and the value of `n` were written. */
  ghost predicate Rekeyed<V>(m: Mem<V>, m': Mem<V>, n: RbNode<V>, key: int, val: V) {
    && n in m && n in m' && m'[n] == m[n].(key := key, val := val)
    && forall k | k in m && k != n :: k in m' && m'[k] == m[k]
  }

  lemma RekeyedElsewhere<V>(m: Mem<V>, m': Mem<V>, n: RbNode<V>, key: int, val: V, s: set<RbNode<V>>)
    requires Rekeyed(m, m', n, key, val) && n !in s
    ensures Agree(m, m', s)
  {
  }

  lemma RekeyFocus<V>(m: Mem<V>, m': Mem<V>, c: Ctx<V>, t: Tree<V>, key: int, val: V)
    requires At(m, c, t) && t.Node? && Rekeyed(m, m', t.ref, key, val)
    ensures At(m', c, t.(key := key, val := val))
  {
    RekeyedElsewhere(m, m', t.ref, key, val, Refs(t.left));
    RekeyedElsewhere(m, m', t.ref, key, val, Refs(t.right));
    RekeyedElsewhere(m, m', t.ref, key, val, CtxRefs(c));
    LinkedFrame(m, m', t.left, t.ref);
    LinkedFrame(m, m', t.right, t.ref);
    CtxLinkedFrame(m, m', c, t.ref);
  }
}
