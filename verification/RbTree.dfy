/** The red-black tree of ds/rb_tree.h: linked nodes with parent pointers,
    updated in place. */
module RbTree {
  import opened RbShape
  import opened RbHeap
  import opened RbFix
  import opened RbDelete
  import opened Powers

  class RbTree<V> {
    var root: RbNode?<V>
    var numKeys: nat
    ghost var nodes: set<RbNode<V>>  // everything allocated for this tree
    ghost var tree: Tree<V>          // what the links stand for

    method RotateLeft(node: RbNode<V>)
      requires node.right != null && node.right != node && node in nodes && node.right in nodes
      requires var b, p := node.right.left, node.parent;
        && b != node && b != node.right && p != node && p != node.right && (p == b ==> p == null)
        && (b != null ==> b in nodes)
        && (p != null ==> p in nodes && p.left != p.right && (p.left == node || p.right == node))
      modifies this`root, nodes
      ensures root == if old(node.parent) == null then old(node.right) else old(root)
      ensures var x, y, m, m' := node, old(node.right), old(Snap(nodes)), Snap(nodes);
        && m'[x] == m[x].(right := m[y].left, parent := y)
        && m'[y] == m[y].(left := x, parent := m[x].parent)
        && Rewired(m, m', x, y, m[y].left, m[x].parent)
    {
      var newPar := node.right;
      node.right := newPar.left;
      if node.right != null {
        node.right.parent := node;
      }
      newPar.parent := node.parent;
      if node.parent == null {
        root := newPar;
      } else if node.parent.left == node {
        node.parent.left := newPar;
      } else {
        node.parent.right := newPar;
      }
      newPar.left := node;
      node.parent := newPar;
    }

    method RotateRight(node: RbNode<V>)
      requires node.left != null && node.left != node && node in nodes && node.left in nodes
      requires var b, p := node.left.right, node.parent;
        && b != node && b != node.left && p != node && p != node.left && (p == b ==> p == null)
        && (b != null ==> b in nodes)
        && (p != null ==> p in nodes && p.left != p.right && (p.left == node || p.right == node))
      modifies this`root, nodes
      ensures root == if old(node.parent) == null then old(node.left) else old(root)
      ensures var x, y, m, m' := node, old(node.left), old(Snap(nodes)), Snap(nodes);
        && m'[x] == m[x].(left := m[y].right, parent := y)
        && m'[y] == m[y].(right := x, parent := m[x].parent)
        && Rewired(m, m', x, y, m[y].right, m[x].parent)
    {
      var newPar := node.left;
      node.left := newPar.right;
      if node.left != null {
        node.left.parent := node;
      }
      newPar.parent := node.parent;
      if node.parent == null {
        root := newPar;
      } else if node.parent.right == node {
        node.parent.right := newPar;
      } else {
        node.parent.left := newPar;
      }
      newPar.right := node;
      node.parent := newPar;
    }

    /** Turn the subtree `t`, found in the context `c`, about its root. */
    method Rotate(dir: Dir, node: RbNode<V>, ghost c: Ctx<V>, ghost t: Tree<V>)
      requires At(Snap(nodes), c, t) && root == RootRef(c, node)
      requires t.Node? && t.ref == node && Child(Invert(dir), t).Node?
      modifies this`root, nodes
      ensures At(Snap(nodes), c, Rotated(dir, t)) && root == RootRef(c, Root(Rotated(dir, t)))
    {
      ghost var m := Snap(nodes);
      if dir == Left {
        RotateLeftNodes(m, c, t);
        RotateLeft(node);
        RotateLeftAt(m, Snap(nodes), c, t);
      } else {
        RotateRightNodes(m, c, t);
        RotateRight(node);
        RotateRightAt(m, Snap(nodes), c, t);
      }
    }
  
    method Paint(node: RbNode<V>, color: Color)
      requires node in nodes
      modifies node`color
      ensures Painted(old(Snap(nodes)), Snap(nodes), node, color)
    {
      node.color := color;
    }

    /** `node` is the root of the subtree `t`, whose surroundings are `c`. */
    ghost predicate Focused(node: RbNode<V>, c: Ctx<V>, t: Tree<V>)
      reads this, nodes
    {
      At(Snap(nodes), c, t) && t.Node? && t.ref == node && root == RootRef(c, node)
    }

    /** The focus and its grandparent, read off the links. */
    lemma UncleFound(node: RbNode<V>, c: Ctx<V>, t: Tree<V>)
      requires At(Snap(nodes), c, t) && t.Node? && t.ref == node && c.Frame? && c.up.Frame?
      ensures node in nodes && node.parent == c.ref && c.ref in nodes && c.ref.parent == c.up.ref && c.up.ref in nodes
      ensures node.GetUncle() == Root(c.up.sib) && node.GetDir() == c.dir && c.ref.GetDir() == c.up.dir
      ensures c.up.sib.Node? ==> c.up.sib.ref in nodes && c.up.sib.ref.color == c.up.sib.color
      ensures node.Straight() == (c.dir == c.up.dir)
      ensures RootRef(c.up.up, c.up.ref) == RootRef(c, node)
    {
      Nearby(Snap(nodes), c, t);
      AtClose(Snap(nodes), c, t);
      Nearby(Snap(nodes), c.up, Close(c, t));
      assert RootRef(c.up, c.ref) == RootRef(c, node);
    }

    /** Case 1 of the insertion repair. */
    method RecolourUncle(node: RbNode<V>, uncle: RbNode<V>, ghost c: Ctx<V>, ghost t: Tree<V>, ghost n: nat)
      returns (problem: RbNode<V>, ghost t': Tree<V>)
      requires Focused(node, c, t) && DoubleRed(c, t, n) && TreeColor(c.up.sib) == Red && uncle == c.up.sib.ref
      modifies nodes
      ensures Focused(problem, c.up.up, t') && DoubleRedAtMost(c.up.up, t', n + 1)
      ensures InOrder(Plug(c.up.up, t')) == InOrder(Plug(c, t))
    {
      hide Linked, CtxLinked, Distinct, CtxDistinct;
      UncleRedKeeps(c, t, n);
      t' := UncleRed(c, t);
      UncleFound(node, c, t);
      ghost var m0 := Snap(nodes);
      Paint(node.parent, Black);
      ghost var m1, c1 := Snap(nodes), c.(color := Black);
      PaintParent(m0, m1, c, t, Black);
      AtClose(m1, c1, t);
      Paint(uncle, Black);
      ghost var m2, t2, c2 := Snap(nodes), Close(c1, t), c.up.(sib := c.up.sib.(color := Black));
      PaintSibling(m1, m2, c.up, t2, Black);
      AtClose(m2, c1.(up := c2), t);
      UncleFound(node, c1.(up := c2), t);
      Paint(node.parent.parent, Red);
      problem := node.parent.parent;
      PaintParent(m2, Snap(nodes), c2, t2, Red);
      AtClose(Snap(nodes), c2.(color := Red), t2);
    }

    /** Case 2: the bent path is straightened, and the old parent becomes the problem. */
    method Straighten(node: RbNode<V>, ghost c: Ctx<V>, ghost t: Tree<V>, ghost n: nat)
      returns (problem: RbNode<V>, ghost c': Ctx<V>, ghost t': Tree<V>)
      requires Focused(node, c, t) && DoubleRed(c, t, n) && TreeColor(c.up.sib) == Black && c.dir != c.up.dir
      modifies this`root, nodes
      ensures Focused(problem, c', t') && DoubleRed(c', t', n)
      ensures TreeColor(c'.up.sib) == Black && c'.dir == c'.up.dir && Depth(c') == Depth(c)
      ensures InOrder(Plug(c', t')) == InOrder(Plug(c, t))
    {
      UncleFound(node, c, t);
      StraightenedKeeps(c, t, n);
      AtClose(Snap(nodes), c, t);
      var oppDir := Invert(node.GetDir());
      problem := node.parent;
      Rotate(oppDir, problem, c.up, Close(c, t));
      ghost var s := Straightened(c, t);
      c', t' := Down(oppDir, c.up, s), Child(oppDir, s);
      Refocus(oppDir, c.up, s);
      AtClose(Snap(nodes), c', t');
    }

    /** Case 3, which ends the repair: the parent turns black and is rotated up. */
    method LiftParent(node: RbNode<V>, ghost c: Ctx<V>, ghost t: Tree<V>, ghost n: nat) returns (ghost c': Ctx<V>)
      requires Focused(node, c, t) && DoubleRed(c, t, n) && TreeColor(c.up.sib) == Black && c.dir == c.up.dir
      modifies this`root, nodes
      ensures Focused(node, c', t) && DoubleRedAtMost(c', t, n)
      ensures InOrder(Plug(c', t)) == InOrder(Plug(c, t)) && Depth(c') < Depth(c)
    {
      hide Linked, CtxLinked, Distinct, CtxDistinct;
      UncleBlackKeeps(c, t, n);
      UncleFound(node, c, t);
      var parentDir := node.parent.GetDir();
      ghost var m0, c1 := Snap(nodes), c.(color := Black);
      Paint(node.parent, Black);
      PaintParent(m0, Snap(nodes), c, t, Black);
      AtClose(Snap(nodes), c1, t);
      UncleFound(node, c1, t);
      ghost var m1, t1, c2 := Snap(nodes), Close(c1, t), c.up.(color := Red);
      Paint(node.parent.parent, Red);
      PaintParent(m1, Snap(nodes), c.up, t1, Red);
      AtClose(Snap(nodes), c2, t1);
      AtClose(Snap(nodes), c1.(up := c2), t);
      UncleFound(node, c1.(up := c2), t);
      Rotate(Invert(parentDir), node.parent.parent, c.up.up, Close(c2, t1));
      Refocus(c.dir, c.up.up, UncleBlack(c, t));
      c' := Down(c.dir, c.up.up, UncleBlack(c, t));
      AtClose(Snap(nodes), c', t);
    }

    /** One turn of the insertion repair, entered with a red parent. */
    method RepairInsert(node: RbNode<V>, ghost c: Ctx<V>, ghost t: Tree<V>, ghost n: nat)
      returns (problem: RbNode<V>, ghost c': Ctx<V>, ghost t': Tree<V>, ghost n': nat)
      requires Focused(node, c, t) && DoubleRed(c, t, n)
      modifies this`root, nodes
      ensures Focused(problem, c', t') && DoubleRedAtMost(c', t', n')
      ensures InOrder(Plug(c', t')) == InOrder(Plug(c, t)) && Depth(c') < Depth(c)
    {
      UncleFound(node, c, t);
      var uncle := node.GetUncle();
      var uncleColor := if uncle != null then uncle.color else Black;
      if uncleColor == Red {
        problem, t' := RecolourUncle(node, uncle, c, t, n);
        c', n' := c.up.up, n + 1;
      } else {
        problem, c', t', n' := node, c, t, n;
        if !node.Straight() {
          problem, c', t' := Straighten(problem, c', t', n);
        }
        c' := LiftParent(problem, c', t', n);
      }
    }

    /** Painting the root, once the focus shows no other broken rule. */
    method PaintRoot(ghost c: Ctx<V>, ghost t: Tree<V>, ghost n: nat)
      requires At(Snap(nodes), c, t) && root == RootRef(c, Root(t))
      requires DoubleRedAtMost(c, t, n) && CtxColor(c) == Black
      modifies nodes
      ensures var whole := Plug(c, t);
        && whole.Node? && At(Snap(nodes), Top, whole.(color := Black)) && root == whole.ref
        && RedBlack(whole.(color := Black)) && InOrder(whole.(color := Black)) == InOrder(whole)
    {
      DoubleRedGone(c, t, n);
      AtPlug(Snap(nodes), c, t);
      ghost var m := Snap(nodes);
      Paint(root, Black);
      PaintFocus(m, Snap(nodes), Top, Plug(c, t), Black);
    }

    method PostInsertFix(newNode: RbNode<V>, ghost c0: Ctx<V>, ghost t0: Tree<V>, ghost n0: nat)
      returns (ghost whole: Tree<V>)
      requires Focused(newNode, c0, t0) && DoubleRedAtMost(c0, t0, n0)
      modifies this`root, nodes
      ensures At(Snap(nodes), Top, whole) && root == Root(whole)
      ensures RedBlack(whole) && InOrder(whole) == InOrder(Plug(c0, t0))
    {
      var problem: RbNode<V> := newNode;
      ghost var c, t, n := c0, t0, n0;
      Nearby(Snap(nodes), c, t);
      while problem.parent != null && problem.parent.color == Red
        invariant Focused(problem, c, t)
        invariant DoubleRedAtMost(c, t, n) && InOrder(Plug(c, t)) == InOrder(Plug(c0, t0))
        invariant problem.parent == Parent(c) && (c.Frame? ==> c.ref in nodes && c.ref.color == c.color)
        decreases Depth(c)
      {
        problem, c, t, n := RepairInsert(problem, c, t, n);
        Nearby(Snap(nodes), c, t);
      }
      PaintRoot(c, t, n);
      whole := Plug(c, t);
      whole := whole.(color := Black);
    }
  
    /** Makes a node and stores it in the empty child slot of `node`. */
    method Hang(dir: Dir, node: RbNode<V>, key: int, val: V, ghost c: Ctx<V>, ghost t: Tree<V>)
      returns (leaf: RbNode<V>)
      requires Focused(node, c, t) && Child(dir, t) == Nil
      modifies this`nodes, node
      ensures fresh(leaf) && nodes == old(nodes) + {leaf}
      ensures Focused(leaf, Down(dir, c, t), Node(leaf, Red, Nil, key, val, Nil))
      ensures Plug(Down(dir, c, t), Nil) == Plug(c, t)
    {
      ghost var m := Snap(nodes);
      leaf := new RbNode(key, val, Red, node);
      if dir == Left {
        node.left := leaf;
      } else {
        node.right := leaf;
      }
      nodes := nodes + {leaf};
      HangLeaf(m, Snap(nodes), dir, c, t, leaf, key, val);
    }

    /** Search-tree insertion below `node`; no node is returned when the key is there already. */
    method BstInsert(node: RbNode<V>, key: int, val: V, ghost c: Ctx<V>, ghost t: Tree<V>)
      returns (newNode: RbNode?<V>, ghost c': Ctx<V>, ghost t': Tree<V>)
      requires Focused(node, c, t) && Between(c, key)
      modifies this`nodes, nodes
      ensures if newNode == null then
                && nodes == old(nodes) && Snap(nodes) == old(Snap(nodes))
                && t'.Node? && t'.key == key && Plug(c', t') == Plug(c, t)
              else
                && fresh(newNode) && nodes == old(nodes) + {newNode}
                && Focused(newNode, c', t') && t' == Node(newNode, Red, Nil, key, val, Nil)
                && Plug(c', Nil) == Plug(c, t) && Between(c', key)
      decreases t
    {
      Nearby(Snap(nodes), c, t);
      if key < node.key {
        newNode, c', t' := BstInsertBelow(Left, node, key, val, c, t);
      } else if key > node.key {
        newNode, c', t' := BstInsertBelow(Right, node, key, val, c, t);
      } else {
        newNode, c', t' := null, c, t;
      }
    }

    /** The two mirrored arms of BstInsert. */
    method BstInsertBelow(dir: Dir, node: RbNode<V>, key: int, val: V, ghost c: Ctx<V>, ghost t: Tree<V>)
      returns (newNode: RbNode?<V>, ghost c': Ctx<V>, ghost t': Tree<V>)
      requires Focused(node, c, t) && Between(Down(dir, c, t), key)
      modifies this`nodes, nodes
      ensures if newNode == null then
                && nodes == old(nodes) && Snap(nodes) == old(Snap(nodes))
                && t'.Node? && t'.key == key && Plug(c', t') == Plug(c, t)
              else
                && fresh(newNode) && nodes == old(nodes) + {newNode}
                && Focused(newNode, c', t') && t' == Node(newNode, Red, Nil, key, val, Nil)
                && Plug(c', Nil) == Plug(c, t) && Between(c', key)
      decreases t, 0
    {
      Nearby(Snap(nodes), c, t);
      Refocus(dir, c, t);
      var child := node.GetChild(dir);
      if child != null {
        AtClose(Snap(nodes), Down(dir, c, t), Child(dir, t));
        newNode, c', t' := BstInsert(child, key, val, Down(dir, c, t), Child(dir, t));
      } else {
        newNode := Hang(dir, node, key, val, c, t);
        c', t' := Down(dir, c, t), Node(newNode, Red, Nil, key, val, Nil);
      }
    }

    // ------------------------------------------------- repair before a deletion

    /** The sibling and the nephews, read off the links. */
    lemma SiblingFound(node: RbNode<V>, c: Ctx<V>, t: Tree<V>)
      requires Focused(node, c, t) && c.Frame? && c.sib.Node?
      ensures node in nodes && node.parent == c.ref && c.ref in nodes && c.ref.color == c.color &&
              node.GetDir() == c.dir
      ensures node.GetSibling() == c.sib.ref && c.sib.ref in nodes && c.sib.ref.color == c.sib.color
      ensures c.sib.ref.parent == c.ref && c.sib.ref.GetDir() == Invert(c.dir)
      ensures node.GetNephew(false) == Root(Inner(c)) && node.GetNephew(true) == Root(Outer(c))
      ensures Inner(c).Node? ==> Inner(c).ref in nodes && Inner(c).ref.color == Inner(c).color
      ensures Outer(c).Node? ==> Outer(c).ref in nodes && Outer(c).ref.color == Outer(c).color
    {
      Nearby(Snap(nodes), c, t);
      Refocus(c.dir, c, t);
      AtClose(Snap(nodes), c, t);
      AtClose(Snap(nodes), Across(c, t), c.sib);
      Nearby(Snap(nodes), Across(c, t), c.sib);
    }

    /** Case 1 of the deletion repair. */
    method SiblingRed(node: RbNode<V>, sibling: RbNode<V>, ghost c: Ctx<V>, ghost t: Tree<V>)
      returns (problem: RbNode<V>)
      requires Focused(node, c, t) && c.Frame? && c.sib.Node? && sibling == c.sib.ref
      modifies nodes
      ensures Focused(problem, c.up, SiblingToRed(c, t))
    {
      SiblingFound(node, c, t);
      ghost var m := Snap(nodes);
      Paint(sibling, Red);
      PaintSibling(m, Snap(nodes), c, t, Red);
      problem := node.parent;
      AtClose(Snap(nodes), c.(sib := c.sib.(color := Red)), t);
    }

    /** Case 2 of the deletion repair. */
    method RaiseInner(node: RbNode<V>, sibling: RbNode<V>, inner: RbNode<V>, ghost c: Ctx<V>, ghost t: Tree<V>)
      requires Focused(node, c, t) && c.Frame? && c.sib.Node? && sibling == c.sib.ref
      requires Inner(c).Node? && inner == Inner(c).ref
      modifies this`root, nodes
      ensures Focused(node, InnerUp(c), t)
    {
      hide Linked, CtxLinked, Distinct, CtxDistinct;
      SiblingFound(node, c, t);
      var dir := sibling.GetDir();
      ghost var a := Across(c, t);
      Refocus(c.dir, c, t);
      AtClose(Snap(nodes), c, t);
      AtClose(Snap(nodes), a, c.sib);
      ghost var m := Snap(nodes);
      Paint(sibling, Red);
      PaintFocus(m, Snap(nodes), a, c.sib, Red);
      m := Snap(nodes);
      Paint(inner, Black);
      ghost var s := WithChild(c.dir, c.sib.(color := Red), Inner(c).(color := Black));
      PaintChild(m, Snap(nodes), c.dir, a, c.sib.(color := Red), Black);
      Rotate(dir, sibling, a, s);
      BackAcross(InnerUp(c), t);
    }

    /** The focus moves from the sibling back to the node. */
    lemma BackAcross(c: Ctx<V>, t: Tree<V>)
      requires c.Frame? && At(Snap(nodes), Across(c, t), c.sib)
      ensures At(Snap(nodes), c, t)
    {
      Refocus(c.dir, c, t);
      AtClose(Snap(nodes), c, t);
      AtClose(Snap(nodes), Across(c, t), c.sib);
    }

    /** Case 3 of the deletion repair. */
    method RaiseSibling(node: RbNode<V>, sibling: RbNode<V>, outer: RbNode<V>, ghost c: Ctx<V>, ghost t: Tree<V>)
      requires Focused(node, c, t) && c.Frame? && c.sib.Node? && sibling == c.sib.ref
      requires Outer(c).Node? && outer == Outer(c).ref
      modifies this`root, nodes
      ensures At(Snap(nodes), c.up, SiblingUp(c, t)) && root == RootRef(c.up, sibling)
    {
      SiblingFound(node, c, t);
      var dir := node.GetDir();
      Recolour3(node, sibling, outer, c, t);
      ghost var s := WithChild(Invert(c.dir), c.sib.(color := c.color), Outer(c).(color := Black));
      ghost var c' := c.(color := Black, sib := s);
      SiblingFound(node, c', t);
      AtClose(Snap(nodes), c', t);
      Rotate(dir, node.parent, c.up, Close(c', t));
    }

    /** The three colour writes of case 3. */
    method Recolour3(node: RbNode<V>, sibling: RbNode<V>, outer: RbNode<V>, ghost c: Ctx<V>, ghost t: Tree<V>)
      requires Focused(node, c, t) && c.Frame? && c.sib.Node? && sibling == c.sib.ref
      requires Outer(c).Node? && outer == Outer(c).ref
      modifies nodes
      ensures Focused(node, c.(color := Black, sib := WithChild(Invert(c.dir), c.sib.(color := c.color),
                                                                Outer(c).(color := Black))), t)
    {
      SiblingFound(node, c, t);
      ghost var m, c1 := Snap(nodes), c.(sib := c.sib.(color := c.color));
      Paint(sibling, node.parent.color);
      PaintSibling(m, Snap(nodes), c, t, c.color);
      SiblingFound(node, c1, t);
      m := Snap(nodes);
      Paint(node.parent, Black);
      PaintParent(m, Snap(nodes), c1, t, Black);
      m := Snap(nodes);
      Paint(outer, Black);
      PaintNephew(m, Snap(nodes), Invert(c.dir), c1.(color := Black), t, Black);
    }

    /** Case 4 of the deletion repair. */
    method RaiseRedSibling(node: RbNode<V>, sibling: RbNode<V>, ghost c: Ctx<V>, ghost t: Tree<V>)
      requires Focused(node, c, t) && c.Frame? && c.sib.Node? && sibling == c.sib.ref
      requires Close(RedSiblingCtx(c).up, Close(RedSiblingCtx(c), t)) == RedSiblingUp(c, t)
      modifies this`root, nodes
      ensures Focused(node, RedSiblingCtx(c), t)
    {
      SiblingFound(node, c, t);
      var dir := node.GetDir();
      ghost var m, c1 := Snap(nodes), c.(sib := c.sib.(color := Black));
      Paint(sibling, Black);
      PaintSibling(m, Snap(nodes), c, t, Black);
      SiblingFound(node, c1, t);
      m := Snap(nodes);
      Paint(node.parent, Red);
      PaintParent(m, Snap(nodes), c1, t, Red);
      ghost var c2 := c1.(color := Red);
      SiblingFound(node, c2, t);
      AtClose(Snap(nodes), c2, t);
      Rotate(dir, node.parent, c.up, Close(c2, t));
      AtClose(Snap(nodes), RedSiblingCtx(c).up, Close(RedSiblingCtx(c), t));
      AtClose(Snap(nodes), RedSiblingCtx(c), t);
    }

    /** One turn of the deletion repair: the four cases. */
    method RepairDelete(node: RbNode<V>, ghost c: Ctx<V>, ghost t: Tree<V>, ghost v: RbNode<V>, ghost n: nat)
      returns (problem: RbNode<V>, ghost c': Ctx<V>, ghost t': Tree<V>, ghost n': nat)
      requires Focused(node, c, t) && Unfinished(c, t, v, n) && v in Refs(t)
      modifies this`root, nodes
      ensures Focused(problem, c', t') && OneShort(c', t', v, n') && (c'.Top? ==> t'.ref != v) && v in Refs(t')
      ensures InOrder(Pruned(c', t', v)) == InOrder(Pruned(c, t, v)) && RepairLeft(c', t') < RepairLeft(c, t)
    {
      SiblingExists(c, t, v, n);
      SiblingFound(node, c, t);
      var sibling := node.GetSibling();
      var inner, outer := node.GetNephew(false), node.GetNephew(true);
      var innerColor := if inner != null then inner.color else Black;
      var outerColor := if outer != null then outer.color else Black;
      problem, c', t', n' := node, c, t, n;
      if sibling.color == Black {
        if innerColor == Black && outerColor == Black {
          SiblingToRedKeeps(c, t, v, n);
          problem := SiblingRed(node, sibling, c, t);
          c', t', n' := c.up, SiblingToRed(c, t), if c.color == Black then n + 1 else n;
        } else if innerColor == Red && outerColor == Black {
          InnerUpKeeps(c, t, v, n);
          RaiseInner(node, sibling, inner, c, t);
          c' := InnerUp(c);
        } else {
          problem, t', n' := EndRepair(node, sibling, outer, c, t, v, n);
          c' := Top;
        }
      } else {
        RedSiblingUpKeeps(c, t, v, n);
        RaiseRedSibling(node, sibling, c, t);
        c' := RedSiblingCtx(c);
      }
    }

    /** Case 3, after which the whole tree is in focus. */
    method EndRepair(node: RbNode<V>, sibling: RbNode<V>, outer: RbNode<V>,
                     ghost c: Ctx<V>, ghost t: Tree<V>, ghost v: RbNode<V>, ghost n: nat)
      returns (problem: RbNode<V>, ghost whole: Tree<V>, ghost n': nat)
      requires Focused(node, c, t) && Unfinished(c, t, v, n) && v in Refs(t)
      requires c.sib.Node? && sibling == c.sib.ref && c.sib.color == Black
      requires Outer(c).Node? && outer == Outer(c).ref && Outer(c).color == Red
      modifies this`root, nodes
      ensures Focused(problem, Top, whole) && OneShort(Top, whole, v, n') && whole.ref != v && v in Refs(whole)
      ensures InOrder(Pruned(Top, whole, v)) == InOrder(Pruned(c, t, v))
    {
      SiblingUpEnds(c, t, v, n);
      RaiseSibling(node, sibling, outer, c, t);
      SiblingUpRefs(c, t);
      whole := Plug(c.up, SiblingUp(c, t));
      n' := WholeAgain(c.up, SiblingUp(c, t), v);
      AtPlug(Snap(nodes), c.up, SiblingUp(c, t));
      problem := root;
    }

    lemma SiblingUpRefs(c: Ctx<V>, t: Tree<V>)
      requires c.Frame? && c.sib.Node? && Outer(c).Node?
      ensures Refs(t) <= Refs(SiblingUp(c, t))
    {
    }

    method PreDeletionFix(node: RbNode<V>, ghost c0: Ctx<V>, ghost t0: Tree<V>) returns (ghost whole: Tree<V>)
      requires Focused(node, c0, t0) && OneShort(c0, t0, node, 0) && t0.color == Black && c0.Frame?
      modifies this`root, nodes
      ensures At(Snap(nodes), Top, whole) && root == Root(whole)
      ensures node in Refs(whole) && root != node
      ensures RedBlack(Without(whole, node)) && InOrder(Without(whole, node)) == InOrder(Pruned(c0, t0, node))
    {
      var problem: RbNode<V> := node;
      ghost var c, t, n := c0, t0, 0;
      Nearby(Snap(nodes), c, t);
      RootIsTop(problem, c, t);
      while problem != root && problem.color == Black
        invariant Focused(problem, c, t) && OneShort(c, t, node, n) && node in Refs(t) && (c.Top? ==> t.ref != node)
        invariant InOrder(Pruned(c, t, node)) == InOrder(Pruned(c0, t0, node))
        invariant (problem == root <==> c.Top?) && problem in nodes && problem.color == t.color
        decreases RepairLeft(c, t)
      {
        problem, c, t, n := RepairDelete(problem, c, t, node, n);
        Nearby(Snap(nodes), c, t);
        RootIsTop(problem, c, t);
      }
      whole := PaintLast(problem, c, t, node, n);
    }

    lemma RootIsTop(node: RbNode<V>, c: Ctx<V>, t: Tree<V>)
      requires Focused(node, c, t)
      ensures node == root <==> c.Top?
    {
      RootRefIn(c, node);
    }

    lemma {:induction false} RootRefIn(c: Ctx<V>, focus: RbNode<V>)
      ensures c.Frame? ==> RootRef(c, focus) in CtxRefs(c)
      decreases c
    {
      if c.Frame? {
        RootRefIn(c.up, c.ref);
      }
    }

    /** Painting the last problem node black. */
    method PaintLast(problem: RbNode<V>, ghost c: Ctx<V>, ghost t: Tree<V>, ghost v: RbNode<V>, ghost n: nat)
      returns (ghost whole: Tree<V>)
      requires Focused(problem, c, t) && OneShort(c, t, v, n) && v in Refs(t) && (c.Top? ==> t.ref != v)
      requires c.Top? || t.color == Red
      modifies nodes
      ensures At(Snap(nodes), Top, whole) && root == Root(whole)
      ensures v in Refs(whole) && root != v
      ensures RedBlack(Without(whole, v)) && InOrder(Without(whole, v)) == InOrder(Pruned(c, t, v))
    {
      OneShortGone(c, t, v, n);
      ghost var m, t' := Snap(nodes), t.(color := Black);
      Nearby(m, c, t);
      Paint(problem, Black);
      PaintFocus(m, Snap(nodes), c, t, Black);
      AtPlug(Snap(nodes), c, t');
      PlugRoot(c, t', v);
      whole := Plug(c, t');
    }

    ghost predicate Valid()
      reads this, nodes
    {
      && At(Snap(nodes), Top, tree) && root == Root(tree)
      && RedBlack(tree) && Sorted(InOrder(tree)) && numKeys >= |InOrder(tree)|
    }

    /** The map the tree stands for. */
    ghost function Model(): map<int, V>
      reads this
    {
      Contents(InOrder(tree))
    }

    constructor ()
      ensures Valid() && Model() == map[] && numKeys == 0 && fresh(nodes)
    {
      root, numKeys, nodes, tree := null, 0, {}, Nil;
      new;
      assert Ok(tree, 0);
    }

    /** The first node of an empty tree. */
    method InsertFirst(key: int, val: V)
      requires Valid() && root == null
      modifies this, nodes
      ensures At(Snap(nodes), Top, tree) && root == Root(tree) && fresh(nodes - old(nodes))
      ensures RedBlack(tree) && InOrder(tree) == [(key, val)] && numKeys == old(numKeys)
    {
      ghost var t := NewRoot(key, val);
      tree := PostInsertFix(root, Top, t, 1);
    }

    method NewRoot(key: int, val: V) returns (ghost t: Tree<V>)
      requires Valid() && root == null
      modifies this`root, this`nodes
      ensures root != null && fresh(root) && nodes == old(nodes) + {root}
      ensures Focused(root, Top, t) && DoubleRedAtMost(Top, t, 1) && InOrder(t) == [(key, val)]
    {
      root := new RbNode(key, val, Black, null);
      nodes := nodes + {root};
      t := Node(root, Black, Nil, key, val, Nil);
      assert InOrder(t) == [(key, val)] && Ok(t, 1) && Linked(Snap(nodes), t, null);
    }

    /** Insertion into a tree that has a root; the new entry goes to the end of the path `c`. */
    method InsertBelow(key: int, val: V) returns (inserted: bool, ghost c: Ctx<V>)
      requires Valid() && root != null
      modifies this, nodes
      ensures fresh(nodes - old(nodes)) && numKeys == old(numKeys)
      ensures if !inserted then
                && key in Model()
                && tree == old(tree) && root == old(root) && nodes == old(nodes) && Snap(nodes) == old(Snap(nodes))
              else
                && At(Snap(nodes), Top, tree) && root == Root(tree) && RedBlack(tree)
                && old(tree) == Plug(c, Nil) && Between(c, key)
                && InOrder(tree) == Before(c) + [(key, val)] + After(c)
    {
      var node;
      ghost var t;
      node, c, t := BstInsert(root, key, val, Top, tree);
      if node == null {
        ContentsPlug(c, t);
        return false, c;
      }
      FixInserted(node, c, t);
      inserted := true;
    }

    /** The repair after a red leaf was hung in the place of a missing child. */
    method FixInserted(node: RbNode<V>, ghost c: Ctx<V>, ghost t: Tree<V>)
      requires Focused(node, c, t) && RedBlack(Plug(c, Nil)) && c.Frame?
      requires t.color == Red && t.left == Nil && t.right == Nil
      modifies this`root, this`tree, nodes
      ensures At(Snap(nodes), Top, tree) && root == Root(tree) && RedBlack(tree)
      ensures InOrder(tree) == Before(c) + [(t.key, t.val)] + After(c)
    {
      ghost var n := SplitOk(c, Nil);
      InOrderPlug(c, t);
      assert InOrder(t) == [(t.key, t.val)];
      tree := PostInsertFix(node, c, t, 0);
    }

    method Insert(key: int, val: V) returns (inserted: bool)
      requires Valid()
      modifies this, nodes
      ensures Valid() && fresh(nodes - old(nodes))
      ensures inserted == (key !in old(Model()))
      ensures Model() == if inserted then old(Model())[key := val] else old(Model())
      ensures !inserted ==>
                tree == old(tree) && root == old(root) && nodes == old(nodes) && Snap(nodes) == old(Snap(nodes))
      ensures numKeys == old(numKeys) + if inserted then 1 else 0
    {
      hide Linked, CtxLinked, Distinct, CtxDistinct;
      ghost var c: Ctx<V> := Top;
      if root != null {
        inserted, c := InsertBelow(key, val);
        if !inserted {
          return false;
        }
      } else {
        InsertFirst(key, val);
      }
      ContentsSplicePlug(c, key, val);
      numKeys := numKeys + 1;
      return true;
    }
  
    // ------------------------------------------------------------ searching

    method Find(node: RbNode<V>, key: int, ghost c: Ctx<V>, ghost t: Tree<V>)
      returns (r: RbNode?<V>, ghost c': Ctx<V>, ghost t': Tree<V>, ghost visited: nat)
      requires Focused(node, c, t) && Between(c, key)
      ensures visited == Visits(t, key)
      ensures Plug(c', t') == Plug(c, t) && Between(c', key)
      ensures if r == null then t' == Nil else Focused(r, c', t') && t'.key == key
      decreases t
    {
      Nearby(Snap(nodes), c, t);
      r, c', t', visited := null, c, t, 0;
      if key < node.key {
        r, c', t', visited := FindBelow(Left, node, key, c, t);
      } else if key > node.key {
        r, c', t', visited := FindBelow(Right, node, key, c, t);
      } else {
        r := node;
      }
      visited := visited + 1;
    }

    /** The two mirrored arms of Find; `visited` nodes are looked at. */
    method FindBelow(dir: Dir, node: RbNode<V>, key: int, ghost c: Ctx<V>, ghost t: Tree<V>)
      returns (r: RbNode?<V>, ghost c': Ctx<V>, ghost t': Tree<V>, ghost visited: nat)
      requires Focused(node, c, t) && Between(Down(dir, c, t), key)
      ensures visited == Visits(Child(dir, t), key)
      ensures Plug(c', t') == Plug(c, t) && Between(c', key)
      ensures if r == null then t' == Nil else Focused(r, c', t') && t'.key == key
      decreases t, 0
    {
      Nearby(Snap(nodes), c, t);
      Refocus(dir, c, t);
      AtClose(Snap(nodes), Down(dir, c, t), Child(dir, t));
      var child := node.GetChild(dir);
      r, c', t', visited := null, Down(dir, c, t), Child(dir, t), 0;
      if child != null {
        r, c', t', visited := Find(child, key, c', t');
      }
    }

    method Min(node: RbNode<V>, ghost c: Ctx<V>, ghost t: Tree<V>) returns (r: RbNode<V>)
      requires Focused(node, c, t)
      ensures r == LastTree(Left, t).ref && r in nodes && r.key == LastTree(Left, t).key &&
              r.val == LastTree(Left, t).val
      decreases t
    {
      Nearby(Snap(nodes), c, t);
      if node.left == null {
        return node;
      }
      Refocus(Left, c, t);
      AtClose(Snap(nodes), Down(Left, c, t), t.left);
      r := Min(node.left, Down(Left, c, t), t.left);
    }

    method Max(node: RbNode<V>, ghost c: Ctx<V>, ghost t: Tree<V>) returns (r: RbNode<V>)
      requires Focused(node, c, t)
      ensures r == LastTree(Right, t).ref && r in nodes && r.key == LastTree(Right, t).key &&
              r.val == LastTree(Right, t).val
      decreases t
    {
      Nearby(Snap(nodes), c, t);
      if node.right == null {
        return node;
      }
      Refocus(Right, c, t);
      AtClose(Snap(nodes), Down(Right, c, t), t.right);
      r := Max(node.right, Down(Right, c, t), t.right);
    }

    /** Reading looks at most at twice the binary logarithm of one more than the number of entries. */
    method Read(key: int) returns (found: bool, val: V, ghost visited: nat)
      requires Valid() && root != null
      ensures Pow2(visited) <= (|InOrder(tree)| + 1) * (|InOrder(tree)| + 1)
      ensures found == (key in Model())
      ensures found ==> val == Model()[key]
    {
      var node;
      ghost var c, t;
      node, c, t, visited := Find(root, key, Top, tree);
      SearchDepth(tree, key);
      if node == null {
        ContentsSplicePlug(c, key, tree.val);
        return false, root.val, visited;
      }
      Nearby(Snap(nodes), c, t);
      ContentsPlug(c, t);
      return true, node.val, visited;
    }

    method Update(key: int, newVal: V) returns (found: bool)
      requires Valid() && root != null
      modifies this`tree, nodes
      ensures Valid() && found == (key in old(Model()))
      ensures Model() == if found then old(Model())[key := newVal] else old(Model())
    {
      hide Linked, CtxLinked, Distinct, CtxDistinct, Ok, Sorted, Contents, Between, InOrder, Visits, Plug, RedBlack;
      var node;
      ghost var c, t;
      ghost var visited;
      node, c, t, visited := Find(root, key, Top, tree);
      PlugTop(tree);
      if node == null {
        FindTreePlug(c, t, key);
        Missing(tree, key);
        return false;
      }
      Nearby(Snap(nodes), c, t);
      ContentsPlug(c, t);
      Revalued(c, t, newVal);
      SetVal(node, newVal, c, t);
      tree := Plug(c, t.(val := newVal));
      return true;
    }

    lemma PlugTop(t: Tree<V>)
      ensures Plug(Top, t) == t && FindTree<V>(Nil, 0) == Nil
    {
    }

    method SetVal(node: RbNode<V>, newVal: V, ghost c: Ctx<V>, ghost t: Tree<V>)
      requires Focused(node, c, t)
      modifies node`val
      ensures At(Snap(nodes), Top, Plug(c, t.(val := newVal))) && root == Root(Plug(c, t.(val := newVal)))
    {
      ghost var m := Snap(nodes);
      Nearby(m, c, t);
      node.val := newVal;
      RekeyFocus(m, Snap(nodes), c, t, t.key, newVal);
      AtPlug(Snap(nodes), c, t.(val := newVal));
    }

    // ------------------------------------------------------------- deletion

    /** A node takes over the key and the value of another one. */
    method CopyEntry(node: RbNode<V>, from: RbNode<V>)
      requires node in nodes
      modifies node`key, node`val
      ensures Rekeyed(old(Snap(nodes)), Snap(nodes), node, old(from.key), old(from.val))
    {
      node.key := from.key;
      node.val := from.val;
    }

    /** Write the donor's key and value over those of the found node; the donor's node is to go. */
    method Transplant(node: RbNode<V>, ghost c: Ctx<V>, ghost t: Tree<V>) returns (victim: RbNode<V>)
      requires Focused(node, c, t)
      modifies nodes
      ensures Focused(victim, DonorCtx(c, t), Donor(t))
    {
      ghost var m := Snap(nodes);
      Nearby(m, c, t);
      victim := node;
      if node.left != null {
        Refocus(Left, c, t);
        AtClose(m, Down(Left, c, t), t.left);
        victim := Max(node.left, Down(Left, c, t), t.left);
        CopyEntry(node, victim);
      } else if node.right != null {
        Refocus(Right, c, t);
        AtClose(m, Down(Right, c, t), t.right);
        victim := Min(node.right, Down(Right, c, t), t.right);
        CopyEntry(node, victim);
      }
      Transplanting(m, c, t);
    }

    lemma Transplanting(m: Mem<V>, c: Ctx<V>, t: Tree<V>)
      requires At(m, c, t) && t.Node? && root == RootRef(c, t.ref)
      requires Rekeyed(m, Snap(nodes), t.ref, Donor(t).key, Donor(t).val)
      ensures Focused(Donor(t).ref, DonorCtx(c, t), Donor(t))
    {
      RekeyFocus(m, Snap(nodes), c, t, Donor(t).key, Donor(t).val);
      DonorPlug(c, t);
      AtPlug(Snap(nodes), c, Transplanted(t));
      AtPlug(Snap(nodes), DonorCtx(c, t), Donor(t));
    }

    /** Search-tree deletion up to the unlinking: the node to unlink, and where it is. */
    method BstDelete(key: int) returns (victim: RbNode?<V>, ghost c: Ctx<V>, ghost t: Tree<V>)
      requires Valid() && root != null
      modifies nodes
      ensures Plug(c, t) == tree && Between(c, key)
      ensures if victim == null then
                t == Nil && Snap(nodes) == old(Snap(nodes))
              else
                t.Node? && t.key == key && Focused(victim, DonorCtx(c, t), Donor(t))
    {
      var node;
      ghost var visited;
      node, c, t, visited := Find(root, key, Top, tree);
      victim := null;
      if node != null {
        victim := Transplant(node, c, t);
      }
    }

    /** Cut the subtree of `victim` off its parent and free it. */
    method Detach(victim: RbNode<V>, ghost whole: Tree<V>)
      requires At(Snap(nodes), Top, whole) && root == Root(whole) && victim in Refs(whole) && root != victim
      modifies this`nodes, nodes
      ensures At(Snap(nodes), Top, Without(whole, victim)) && root == Root(Without(whole, victim))
      ensures nodes < old(nodes) && victim !in nodes
    {
      hide Linked, Distinct, CtxDistinct;
      ghost var c, t := Locate(Top, whole, victim);
      AtPlug(Snap(nodes), c, t);
      Nearby(Snap(nodes), c, t);
      ghost var m := Snap(nodes);
      if victim.GetDir() == Left {
        victim.parent.left := null;
      } else {
        victim.parent.right := null;
      }
      nodes := nodes - Refs(t);
      Unlink(m, Snap(nodes), c, t);
      AtPlug(Snap(nodes), c, Nil);
    }
  
    /** A node in focus, seen from the whole tree. */
    lemma VictimReady(victim: RbNode<V>, c: Ctx<V>, t: Tree<V>)
      requires Focused(victim, c, t) && c.Frame?
      ensures victim in nodes && victim.color == t.color && root != victim && Clean(c, victim)
      ensures At(Snap(nodes), Top, Plug(c, t)) && root == Root(Plug(c, t)) && victim in Refs(Plug(c, t))
      ensures Without(Plug(c, t), victim) == Plug(c, Nil) == Pruned(c, t, victim)
    {
      Nearby(Snap(nodes), c, t);
      AtPlug(Snap(nodes), c, t);
      CleanApart(c, victim);
      WithoutPlug(c, t, victim);
      RootIsTop(victim, c, t);
    }

    /** Unlinking a node that is not the root, after the repair a black one needs. */
    method RemoveVictim(victim: RbNode<V>, ghost c: Ctx<V>, ghost t: Tree<V>)
      requires Focused(victim, c, t) && c.Frame? && (t.left.Nil? || t.right.Nil?)
      requires if t.color == Red then RedBlack(Plug(c, Nil)) else CtxOk(c, 1)
      modifies this`root, this`nodes, this`tree, nodes
      ensures At(Snap(nodes), Top, tree) && root == Root(tree) && nodes < old(nodes)
      ensures RedBlack(tree) && InOrder(tree) == InOrder(Plug(c, Nil))
    {
      hide Linked, CtxLinked, Distinct, CtxDistinct;
      VictimReady(victim, c, t);
      tree := Plug(c, t);
      if victim.color == Black {
        tree := PreDeletionFix(victim, c, t);
      }
      Detach(victim, tree);
      tree := Without(tree, victim);
    }

    /** The second half of Delete: the node to unlink is `victim`. */
    method Unlinked(victim: RbNode<V>, ghost c: Ctx<V>, ghost t: Tree<V>)
      requires Focused(victim, c, t) && (t.left.Nil? || t.right.Nil?) && (c.Top? ==> t.left.Nil? && t.right.Nil?)
      requires t.color == Red ==> c.Frame? && RedBlack(Plug(c, Nil))
      requires t.color == Black && c.Frame? ==> CtxOk(c, 1)
      modifies this`root, this`nodes, this`tree, nodes
      ensures At(Snap(nodes), Top, tree) && root == Root(tree) && nodes <= old(nodes)
      ensures RedBlack(tree) && InOrder(tree) == InOrder(Plug(c, Nil))
    {
      RootIsTop(victim, c, t);
      if victim == root {
        root, tree, nodes := null, Nil, {};
        assert Ok(tree, 0);
      } else {
        RemoveVictim(victim, c, t);
      }
    }

    method Delete(key: int) returns (deleted: bool)
      requires Valid() && root != null
      modifies this, nodes
      ensures Valid() && nodes <= old(nodes)
      ensures deleted == (key in old(Model()))
      ensures Model() == old(Survivors(tree, key))
      ensures numKeys == old(numKeys) - if deleted then 1 else 0
    {
      hide Linked, CtxLinked, Distinct, CtxDistinct, Refs, CtxRefs, Ok, Sorted, Contents;
      var victim;
      ghost var c, t;
      victim, c, t := BstDelete(key);
      FindTreePlug(c, t, key);
      if victim == null {
        Missing(tree, key);
        return false;
      }
      DonorReady(c, t);
      Deleted(c, t);
      DonorAtTop(c, t);
      Unlinked(victim, DonorCtx(c, t), Donor(t));
      numKeys := numKeys - 1;
      return true;
    }
  }
}
