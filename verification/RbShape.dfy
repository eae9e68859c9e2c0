/** The values behind a red-black tree (ds/rb_tree.h): the tree a set of linked
    nodes represents, the same tree with a focus on one subtree, and what it means
    for such a tree to be red-black. */
module RbShape {
  import opened Powers

  datatype Color = Red | Black

  datatype Dir = Left | Right

  function Invert(d: Dir): Dir {
    if d == Left then Right else Left
  }

  /** A node as the program stores it; every field is overwritten in place. */
  class RbNode<V> {
    var key: int
    var val: V
    var color: Color
    var left: RbNode?<V>
    var right: RbNode?<V>
    var parent: RbNode?<V>

    constructor (key: int, val: V, color: Color, parent: RbNode?<V>)
      ensures this.key == key && this.val == val && this.color == color
      ensures this.left == null && this.right == null && this.parent == parent
    {
      this.key, this.val, this.color := key, val, color;
      this.left, this.right, this.parent := null, null, parent;
    }

    function GetDir(): Dir
      requires parent != null
      reads this, parent
    {
      if parent.left == this then Left else Right
    }

    function GetChild(dir: Dir): RbNode?<V>
      reads this
    {
      if dir == Left then left else right
    }

    /** Straight when the steps from the grandparent to this node go the same way. */
    predicate Straight()
      requires parent != null && parent.parent != null
      reads this, parent, parent.parent
    {
      parent.GetDir() == GetDir()
    }

    function GetUncle(): RbNode?<V>
      reads this, parent, if parent == null then null else parent.parent
    {
      if parent == null || parent.parent == null then null
      else if parent.GetDir() == Left then parent.parent.right else parent.parent.left
    }

    function GetSibling(): RbNode?<V>
      reads this, parent
    {
      if parent == null then null else parent.GetChild(Invert(GetDir()))
    }

    /** The sibling's outer child, or its inner one. */
    function GetNephew(outer: bool): RbNode?<V>
      reads this, parent, GetSibling()
    {
      var sibling := GetSibling();
      if sibling == null then null
      else if outer then sibling.GetChild(Invert(GetDir())) else sibling.GetChild(GetDir())
    }
  }

  /** The tree a node represents, each node carrying its reference. */
  datatype Tree<V> =
    | Nil
    | Node(ref: RbNode<V>, color: Color, left: Tree<V>, key: int, val: V, right: Tree<V>)

  /** What surrounds a focused subtree: the path to the root. The focus hangs off
      `ref` in direction `dir`; `sib` is the other child. */
  datatype Ctx<V> =
    | Top
    | Frame(dir: Dir, ref: RbNode<V>, color: Color, key: int, val: V, sib: Tree<V>, up: Ctx<V>)

  function Join<V>(dir: Dir, ref: RbNode<V>, color: Color, near: Tree<V>, key: int, val: V, far: Tree<V>): Tree<V> {
    if dir == Left then Node(ref, color, near, key, val, far) else Node(ref, color, far, key, val, near)
  }

  function Close<V>(c: Ctx<V>, t: Tree<V>): Tree<V>
    requires c.Frame?
  {
    Join(c.dir, c.ref, c.color, t, c.key, c.val, c.sib)
  }

  function Plug<V>(c: Ctx<V>, t: Tree<V>): Tree<V> {
    if c.Top? then t else Plug(c.up, Close(c, t))
  }

  function Root<V>(t: Tree<V>): RbNode?<V> {
    if t.Nil? then null else t.ref
  }

  function Parent<V>(c: Ctx<V>): RbNode?<V> {
    if c.Top? then null else c.ref
  }

  function TreeColor<V>(t: Tree<V>): Color {
    if t.Nil? then Black else t.color
  }

  function CtxColor<V>(c: Ctx<V>): Color {
    if c.Top? then Black else c.color
  }

  function Depth<V>(c: Ctx<V>): nat {
    if c.Top? then 0 else 1 + Depth(c.up)
  }

  // ---------------------------------------------------------------- contents

  function InOrder<V>(t: Tree<V>): seq<(int, V)> {
    if t.Nil? then [] else InOrder(t.left) + [(t.key, t.val)] + InOrder(t.right)
  }

  /** The entries to the left of the focus, and to its right. */
  function Before<V>(c: Ctx<V>): seq<(int, V)> {
    if c.Top? then []
    else if c.dir == Left then Before(c.up)
    else Before(c.up) + (InOrder(c.sib) + [(c.key, c.val)])
  }

  function After<V>(c: Ctx<V>): seq<(int, V)> {
    if c.Top? then []
    else if c.dir == Left then [(c.key, c.val)] + InOrder(c.sib) + After(c.up)
    else After(c.up)
  }

  lemma {:induction false} InOrderPlug<V>(c: Ctx<V>, t: Tree<V>)
    ensures InOrder(Plug(c, t)) == Before(c) + InOrder(t) + After(c)
    decreases c
  {
    if c.Frame? {
      InOrderPlug(c.up, Close(c, t));
    }
  }

  /** Strictly increasing keys: the search-tree order, and no key twice. */
  ghost predicate Sorted<V>(s: seq<(int, V)>) {
    |s| >= 2 ==> s[|s| - 2].0 < s[|s| - 1].0 && Sorted(s[..|s| - 1])
  }

  ghost predicate Ascending<V>(s: seq<(int, V)>) {
    forall i, j | 0 <= i < j < |s| :: s[i].0 < s[j].0
  }

  lemma {:induction false} SortedAscending<V>(s: seq<(int, V)>)
    ensures Sorted(s) <==> Ascending(s)
  {
    if |s| >= 2 {
      var p := s[..|s| - 1];
      SortedAscending(p);
      assert Ascending(s) ==> Ascending(p) by {
        assert forall i | 0 <= i < |p| :: p[i] == s[i];
      }
      assert Sorted(s) ==> Ascending(s) by {
        assert forall i | 0 <= i < |p| :: p[i] == s[i];
        assert p[|p| - 1] == s[|s| - 2];
      }
    }
  }

  /** The path to the focus turned left at larger keys and right at smaller ones. */
  predicate Between<V>(c: Ctx<V>, key: int) {
    c.Frame? ==> (if c.dir == Left then key < c.key else c.key < key) && Between(c.up, key)
  }

  function Contents<V>(s: seq<(int, V)>): map<int, V> {
    if s == [] then map[] else Contents(s[..|s| - 1])[s[|s| - 1].0 := s[|s| - 1].1]
  }

  lemma {:induction false} ContentsAt<V>(s: seq<(int, V)>, i: nat)
    requires Sorted(s) && i < |s|
    ensures s[i].0 in Contents(s) && Contents(s)[s[i].0] == s[i].1
  {
    SortedAscending(s);
    if i < |s| - 1 {
      ContentsAt(s[..|s| - 1], i);
    }
  }

  lemma {:induction false} ContentsKey<V>(s: seq<(int, V)>, k: int) returns (i: nat)
    requires k in Contents(s)
    ensures i < |s| && s[i].0 == k
  {
    if s[|s| - 1].0 == k {
      i := |s| - 1;
    } else {
      i := ContentsKey(s[..|s| - 1], k);
    }
  }

  lemma AscendingCut<V>(a: seq<(int, V)>, mid: seq<(int, V)>, b: seq<(int, V)>)
    requires Ascending(a + mid + b)
    ensures Ascending(a + b) && Ascending(mid)
    ensures forall i, j | 0 <= i < |a + b| && 0 <= j < |mid| :: (a + b)[i].0 != mid[j].0
  {
    var s, r := a + mid + b, a + b;
    assert forall i | 0 <= i < |r| :: r[i] == s[if i < |a| then i else i + |mid|];
    assert forall i | 0 <= i < |mid| :: mid[i] == s[|a| + i];
  }

  lemma {:induction false} ContentsConcat<V>(a: seq<(int, V)>, b: seq<(int, V)>)
    ensures Contents(a + b) == Contents(a) + Contents(b)
  {
    if b == [] {
      assert a + b == a;
    } else {
      ContentsConcat(a, b[..|b| - 1]);
      assert (a + b)[..|a + b| - 1] == a + b[..|b| - 1];
    }
  }

  /** A slice taken out of the entries takes exactly its keys out of the map. */
  lemma ContentsCut<V>(a: seq<(int, V)>, mid: seq<(int, V)>, b: seq<(int, V)>)
    requires Sorted(a + mid + b)
    ensures Sorted(a + b)
    ensures Contents(a + b) == Contents(a + mid + b) - Contents(mid).Keys
  {
    SortedAscending(a + mid + b);
    AscendingCut(a, mid, b);
    SortedAscending(a + b);
    ContentsConcat(a, b);
    ContentsConcat(a + mid, b);
    ContentsConcat(a, mid);
    KeysApart(mid, a + b);
    MapCut(Contents(a), Contents(mid), Contents(b));
  }

  lemma KeysApart<V>(r: seq<(int, V)>, s: seq<(int, V)>)
    requires forall i, j | 0 <= i < |s| && 0 <= j < |r| :: s[i].0 != r[j].0
    ensures Contents(r).Keys !! Contents(s).Keys
  {
    forall k | k in Contents(r)
      ensures k !in Contents(s)
    {
      var j := ContentsKey(r, k);
      if k in Contents(s) {
        var i := ContentsKey(s, k);
        assert false;
      }
    }
  }

  lemma MapCut<V>(a: map<int, V>, mid: map<int, V>, b: map<int, V>)
    requires mid.Keys !! (a + b).Keys
    ensures a + b == a + mid + b - mid.Keys
  {
  }

  ghost predicate Below<V>(s: seq<(int, V)>, key: int) {
    forall i | 0 <= i < |s| :: s[i].0 < key
  }

  ghost predicate Above<V>(s: seq<(int, V)>, key: int) {
    forall i | 0 <= i < |s| :: key < s[i].0
  }

  lemma SortedAround<V>(a: seq<(int, V)>, mid: (int, V), b: seq<(int, V)>)
    requires Sorted(a + [mid] + b)
    ensures Below(a, mid.0) && Above(b, mid.0)
  {
    var s := a + [mid] + b;
    SortedAscending(s);
    forall i | 0 <= i < |a|
      ensures a[i].0 < mid.0
    {
      assert s[i].0 < s[|a|].0;
    }
    forall i | 0 <= i < |b|
      ensures mid.0 < b[i].0
    {
      assert s[|a|].0 < s[|a| + 1 + i].0;
    }
  }

  lemma SortedBetween<V>(a: seq<(int, V)>, mid: (int, V), b: seq<(int, V)>)
    requires Sorted(a + b) && Below(a, mid.0) && Above(b, mid.0)
    ensures Sorted(a + [mid] + b)
  {
    hide Sorted;
    var s, r := a + [mid] + b, a + b;
    SortedAscending(r);
    assert forall i | 0 <= i < |s| :: s[i] == if i < |a| then a[i] else if i == |a| then mid else b[i - |a| - 1];
    assert forall i | 0 <= i < |s| && i != |a| :: s[i] == r[if i < |a| then i else i - 1];
    SortedAscending(s);
  }

  lemma BelowConcat<V>(a: seq<(int, V)>, b: seq<(int, V)>, key: int)
    ensures Below(a + b, key) <==> Below(a, key) && Below(b, key)
    ensures Above(a + b, key) <==> Above(a, key) && Above(b, key)
  {
    assert forall i | 0 <= i < |b| :: b[i] == (a + b)[|a| + i];
    assert forall i | 0 <= i < |a| :: a[i] == (a + b)[i];
  }

  /** An entry spliced in adds exactly its key. */
  lemma ContentsSplice<V>(a: seq<(int, V)>, key: int, val: V, b: seq<(int, V)>)
    requires Sorted(a + b) && Below(a, key) && Above(b, key)
    ensures key !in Contents(a + b) && Sorted(a + [(key, val)] + b)
    ensures Contents(a + [(key, val)] + b) == Contents(a + b)[key := val]
  {
    var s := a + [(key, val)] + b;
    SortedBetween(a, (key, val), b);
    ContentsCut(a, [(key, val)], b);
    assert s[|a|] == (key, val);
    ContentsAt(s, |a|);
    assert Contents([(key, val)]).Keys == {key};
  }

  lemma Regroup<E>(a: seq<E>, b: seq<E>, m: seq<E>, c: seq<E>, d: seq<E>)
    ensures a + (b + m + c) + d == (a + b) + m + (c + d)
  {
  }

  lemma {:induction false} BetweenBounds<V>(c: Ctx<V>, t: Tree<V>, key: int)
    requires Sorted(InOrder(Plug(c, t))) && Between(c, key)
    ensures Below(Before(c), key) && Above(After(c), key)
    decreases c
  {
    if c.Frame? {
      BetweenBounds(c.up, Close(c, t), key);
      InOrderPlug(c.up, Close(c, t));
      Regroup(Before(c.up), InOrder(Close(c, t).left), [(c.key, c.val)], InOrder(Close(c, t).right), After(c.up));
      SortedAround(Before(c.up) + InOrder(Close(c, t).left), (c.key, c.val), InOrder(Close(c, t).right) + After(c.up));
      BelowConcat(Before(c.up), InOrder(Close(c, t).left), c.key);
      BelowConcat(InOrder(Close(c, t).right), After(c.up), c.key);
      FrameBounds(c, key);
    }
  }

  /** One step of the path: the parent and the sibling's entries fall on the far side of `key`. */
  lemma FrameBounds<V>(c: Ctx<V>, key: int)
    requires c.Frame? && Between(c, key) && Below(Before(c.up), key) && Above(After(c.up), key)
    requires if c.dir == Left then Above(InOrder(c.sib), c.key) else Below(InOrder(c.sib), c.key)
    ensures Below(Before(c), key) && Above(After(c), key)
  {
    if c.dir == Left {
      BelowConcat([(c.key, c.val)] + InOrder(c.sib), After(c.up), key);
      BelowConcat([(c.key, c.val)], InOrder(c.sib), key);
    } else {
      BelowConcat(Before(c.up), InOrder(c.sib) + [(c.key, c.val)], key);
      BelowConcat(InOrder(c.sib), [(c.key, c.val)], key);
    }
  }

  /** A key found at the end of its search path is in the map; a new one spliced there is added. */
  lemma ContentsPlug<V>(c: Ctx<V>, t: Tree<V>)
    requires Sorted(InOrder(Plug(c, t))) && t.Node?
    ensures t.key in Contents(InOrder(Plug(c, t))) && Contents(InOrder(Plug(c, t)))[t.key] == t.val
  {
    InOrderPlug(c, t);
    var i := |Before(c)| + |InOrder(t.left)|;
    assert InOrder(Plug(c, t))[i] == (t.key, t.val);
    ContentsAt(InOrder(Plug(c, t)), i);
  }

  lemma ContentsSplicePlug<V>(c: Ctx<V>, key: int, val: V)
    requires Sorted(InOrder(Plug(c, Nil))) && Between(c, key)
    ensures var s, s' := InOrder(Plug(c, Nil)), Before(c) + [(key, val)] + After(c);
      Sorted(s') && key !in Contents(s) && Contents(s') == Contents(s)[key := val] && |s'| == |s| + 1
  {
    InOrderPlug(c, Nil);
    assert InOrder(Plug(c, Nil)) == Before(c) + After(c);
    BetweenBounds(c, Nil, key);
    ContentsSplice(Before(c), key, val, After(c));
  }

  // --------------------------------------------------------- red-black order

  /** Every root-to-leaf path of `t` has `n` black nodes, and no red node has a red child. */
  ghost predicate Ok<V>(t: Tree<V>, n: nat) {
    match t
    case Nil => n == 0
    case Node(_, Black, l, _, _, r) => n > 0 && Ok(l, n - 1) && Ok(r, n - 1)
    case Node(_, Red, l, _, _, r) => TreeColor(l) == Black && TreeColor(r) == Black && Ok(l, n) && Ok(r, n)
  }

  /** A black-rooted subtree of black height `n` at the focus makes the whole tree red-black. */
  ghost predicate CtxOk<V>(c: Ctx<V>, n: nat) {
    match c
    case Top => true
    case Frame(_, _, Black, _, _, sib, up) => Ok(sib, n) && CtxOk(up, n + 1)
    case Frame(_, _, Red, _, _, sib, up) =>
      Ok(sib, n) && TreeColor(sib) == Black && up.Frame? && up.color == Black && CtxOk(up, n)
  }

  ghost predicate RedBlack<V>(t: Tree<V>) {
    TreeColor(t) == Black && exists n: nat :: Ok(t, n)
  }

  /** Plugging a good subtree into a good context gives a red-black tree. */
  lemma {:induction false} PlugOk<V>(c: Ctx<V>, t: Tree<V>, n: nat)
    requires Ok(t, n) && CtxOk(c, n)
    requires TreeColor(t) == Red ==> c.Frame? && c.color == Black
    ensures RedBlack(Plug(c, t))
    decreases c
  {
    if c.Frame? {
      PlugOk(c.up, Close(c, t), if c.color == Black then n + 1 else n);
    }
  }

  /** Conversely, the black heights of a good tree meet at any focus. */
  lemma {:induction false} SplitOk<V>(c: Ctx<V>, t: Tree<V>) returns (n: nat)
    requires RedBlack(Plug(c, t))
    ensures Ok(t, n) && CtxOk(c, n)
    ensures TreeColor(t) == Red ==> c.Frame? && c.color == Black
    decreases c
  {
    if c.Top? {
      n :| Ok(t, n);
    } else {
      n := SplitOk(c.up, Close(c, t));
      if c.color == Black {
        n := n - 1;
      }
    }
  }

  /** Without the subtree whose root is `v`. */
  function Without<V>(t: Tree<V>, v: RbNode<V>): Tree<V> {
    if t.Nil? || t.ref == v then Nil
    else t.(left := Without(t.left, v), right := Without(t.right, v))
  }

  function Child<V>(dir: Dir, t: Tree<V>): Tree<V>
    requires t.Node?
  {
    if dir == Left then t.left else t.right
  }

  function WithChild<V>(dir: Dir, t: Tree<V>, child: Tree<V>): Tree<V>
    requires t.Node?
  {
    if dir == Left then t.(left := child) else t.(right := child)
  }

  /** The subtree after its root is rotated towards `dir`. */
  function Rotated<V>(dir: Dir, t: Tree<V>): Tree<V>
    requires t.Node? && Child(Invert(dir), t).Node?
  {
    if dir == Left then
      t.right.(left := t.(right := t.right.left))
    else
      t.left.(right := t.(left := t.left.right))
  }

  /** Moving the focus to a child, or across to the sibling. */
  function Down<V>(dir: Dir, c: Ctx<V>, t: Tree<V>): Ctx<V>
    requires t.Node?
  {
    Frame(dir, t.ref, t.color, t.key, t.val, Child(Invert(dir), t), c)
  }

  function Across<V>(c: Ctx<V>, t: Tree<V>): Ctx<V>
    requires c.Frame?
  {
    c.(dir := Invert(c.dir), sib := t)
  }

  lemma Refocus<V>(dir: Dir, c: Ctx<V>, t: Tree<V>)
    ensures t.Node? ==> Close(Down(dir, c, t), Child(dir, t)) == t
    ensures c.Frame? ==> Close(Across(c, t), c.sib) == Close(c, t)
  {
  }

  /** Overwriting the value in focus changes the map there only. */
  lemma Revalued<V>(c: Ctx<V>, t: Tree<V>, val: V)
    requires t.Node? && RedBlack(Plug(c, t)) && Sorted(InOrder(Plug(c, t)))
    ensures var s, s' := InOrder(Plug(c, t)), InOrder(Plug(c, t.(val := val)));
      && RedBlack(Plug(c, t.(val := val))) && Sorted(s') && |s'| == |s|
      && Contents(s') == Contents(s)[t.key := val]
  {
    var n := SplitOk(c, t);
    PlugOk(c, t.(val := val), n);
    InOrderPlug(c, t);
    InOrderPlug(c, t.(val := val));
    Regroup(Before(c), InOrder(t.left), [(t.key, t.val)], InOrder(t.right), After(c));
    Regroup(Before(c), InOrder(t.left), [(t.key, val)], InOrder(t.right), After(c));
    Overwrite(Before(c) + InOrder(t.left), t.key, t.val, val, InOrder(t.right) + After(c));
  }

  lemma Overwrite<V>(a: seq<(int, V)>, key: int, val: V, val': V, b: seq<(int, V)>)
    requires Sorted(a + [(key, val)] + b)
    ensures Sorted(a + [(key, val')] + b)
    ensures Contents(a + [(key, val')] + b) == Contents(a + [(key, val)] + b)[key := val']
  {
    SortedAround(a, (key, val), b);
    ContentsCut(a, [(key, val)], b);
    ContentsSplice(a, key, val, b);
    ContentsSplice(a, key, val', b);
  }

  // -------------------------------------------------------------- balance

  function Height<V>(t: Tree<V>): nat {
    if t.Nil? then 0
    else 1 + if Height(t.left) < Height(t.right) then Height(t.right) else Height(t.left)
  }

  lemma {:induction false} BlackHeight<V>(t: Tree<V>, n: nat)
    requires Ok(t, n)
    ensures Pow2(n) <= |InOrder(t)| + 1
    ensures Height(t) <= 2 * n + if TreeColor(t) == Red then 1 else 0
  {
    if t.Node? {
      var k := if t.color == Black then n - 1 else n;
      BlackHeight(t.left, k);
      BlackHeight(t.right, k);
    }
  }

  /** The height is at most twice the binary logarithm of one more than the number of entries. */
  lemma Balanced<V>(t: Tree<V>)
    requires RedBlack(t)
    ensures Pow2(Height(t)) <= (|InOrder(t)| + 1) * (|InOrder(t)| + 1)
  {
    var n: nat :| Ok(t, n);
    var h := Height(t);
    BlackHeight(t, n);
    Pow2Sum(h, 2 * n - h);
    Pow2Sum(n, n);
    AtLeast(Pow2(h), Pow2(2 * n - h));
    Squares(Pow2(n), |InOrder(t)| + 1);
  }

  /** How many nodes a search for `key` looks at. */
  function Visits<V>(t: Tree<V>, key: int): nat {
    if t.Nil? then 0
    else 1 + if key < t.key then Visits(t.left, key) else if key > t.key then Visits(t.right, key) else 0
  }

  lemma {:induction false} VisitsBound<V>(t: Tree<V>, key: int)
    ensures Visits(t, key) <= Height(t)
  {
    if t.Node? {
      VisitsBound(t.left, key);
      VisitsBound(t.right, key);
    }
  }

  /** A search looks at most at twice the binary logarithm of one more than the number of entries. */
  lemma SearchDepth<V>(t: Tree<V>, key: int)
    requires RedBlack(t)
    ensures Pow2(Visits(t, key)) <= (|InOrder(t)| + 1) * (|InOrder(t)| + 1)
  {
    VisitsBound(t, key);
    Pow2Monotone(Visits(t, key), Height(t));
    Balanced(t);
  }

  lemma AtLeast(a: nat, b: nat)
    requires b >= 1
    ensures a <= a * b
  {
  }

  lemma Squares(a: nat, b: nat)
    requires a <= b
    ensures a * a <= b * b
  {
    assert a * a <= a * b <= b * b;
  }
}
