/** Which node a deletion unlinks, and what the map loses with it. */
module RbDelete {
  import opened RbShape
  import opened RbHeap

  /** The subtree a search for `key` ends at. */
  function FindTree<V>(t: Tree<V>, key: int): Tree<V> {
    if t.Nil? then Nil
    else if key < t.key then FindTree(t.left, key)
    else if key > t.key then FindTree(t.right, key)
    else t
  }

  lemma {:induction false} FindTreePlug<V>(c: Ctx<V>, t: Tree<V>, key: int)
    requires Between(c, key)
    ensures FindTree(Plug(c, t), key) == FindTree(t, key)
    decreases c
  {
    if c.Frame? {
      FindTreePlug(c.up, Close(c, t), key);
    }
  }

  /** The smallest (Left) or largest (Right) node of a subtree, and its surroundings. */
  function LastTree<V>(dir: Dir, t: Tree<V>): (r: Tree<V>)
    requires t.Node?
    ensures r.Node? && Child(dir, r).Nil?
  {
    if Child(dir, t).Nil? then t else LastTree(dir, Child(dir, t))
  }

  function LastCtx<V>(dir: Dir, c: Ctx<V>, t: Tree<V>): Ctx<V>
    requires t.Node?
    decreases t
  {
    if Child(dir, t).Nil? then c else LastCtx(dir, Down(dir, c, t), Child(dir, t))
  }

  function Entry<V>(t: Tree<V>): seq<(int, V)>
    requires t.Node?
  {
    [(t.key, t.val)]
  }

  lemma {:induction false} LastPlug<V>(dir: Dir, c: Ctx<V>, t: Tree<V>)
    requires t.Node?
    ensures Plug(LastCtx(dir, c, t), LastTree(dir, t)) == Plug(c, t)
    ensures c.Frame? ==> LastCtx(dir, c, t).Frame?
    decreases t
  {
    if Child(dir, t).Node? {
      Refocus(dir, c, t);
      LastPlug(dir, Down(dir, c, t), Child(dir, t));
    }
  }

  lemma {:induction false} LargestInOrder<V>(c: Ctx<V>, t: Tree<V>)
    requires t.Node?
    ensures var c', t' := LastCtx(Right, c, t), LastTree(Right, t);
      && Before(c') + InOrder(t'.left) + Entry(t') == Before(c) + InOrder(t)
      && After(c') == After(c)
    decreases t
  {
    if t.right.Node? {
      LargestInOrder(Down(Right, c, t), t.right);
      assert Before(Down(Right, c, t)) + InOrder(t.right) == Before(c) + InOrder(t);
    } else {
      assert Before(c) + (InOrder(t.left) + Entry(t) + []) == Before(c) + InOrder(t.left) + Entry(t);
    }
  }

  lemma {:induction false} SmallestInOrder<V>(c: Ctx<V>, t: Tree<V>)
    requires t.Node?
    ensures var c', t' := LastCtx(Left, c, t), LastTree(Left, t);
      && Entry(t') + InOrder(t'.right) + After(c') == InOrder(t) + After(c)
      && Before(c') == Before(c)
    decreases t
  {
    if t.left.Node? {
      SmallestInOrder(Down(Left, c, t), t.left);
      assert InOrder(t.left) + After(Down(Left, c, t)) == InOrder(t) + After(c);
    }
  }

  // ------------------------------------------------------------ the victim

  /** The node that takes over key and value, as BstDelete chooses it. */
  function Donor<V>(t: Tree<V>): (r: Tree<V>)
    requires t.Node?
    ensures r.Node? && (r.left.Nil? || r.right.Nil?)
  {
    if t.left.Node? then LastTree(Right, t.left)
    else if t.right.Node? then LastTree(Left, t.right)
    else t
  }

  function Transplanted<V>(t: Tree<V>): Tree<V>
    requires t.Node?
  {
    t.(key := Donor(t).key, val := Donor(t).val)
  }

  function DonorCtx<V>(c: Ctx<V>, t: Tree<V>): Ctx<V>
    requires t.Node?
  {
    if t.left.Node? then LastCtx(Right, Down(Left, c, Transplanted(t)), t.left)
    else if t.right.Node? then LastCtx(Left, Down(Right, c, Transplanted(t)), t.right)
    else c
  }

  /** Entries of the donor's own subtree, which go away with the donor's node. */
  function Lost<V>(t: Tree<V>): seq<(int, V)> {
    if t.Nil? then [] else InOrder(Donor(t).left) + InOrder(Donor(t).right)
  }

  lemma DonorPlug<V>(c: Ctx<V>, t: Tree<V>)
    requires t.Node?
    ensures Plug(DonorCtx(c, t), Donor(t)) == Plug(c, Transplanted(t))
    ensures c.Frame? || t.left.Node? || t.right.Node? ==> DonorCtx(c, t).Frame?
  {
    Refocus(Left, c, Transplanted(t));
    Refocus(Right, c, Transplanted(t));
    if t.left.Node? {
      LastPlug(Right, Down(Left, c, Transplanted(t)), t.left);
    } else if t.right.Node? {
      LastPlug(Left, Down(Right, c, Transplanted(t)), t.right);
    }
  }

  lemma CutAs<V>(s: seq<(int, V)>, s': seq<(int, V)>, a: seq<(int, V)>, mid: seq<(int, V)>, b: seq<(int, V)>)
    requires Sorted(s) && s == a + mid + b && s' == a + b
    ensures Sorted(s') && |s'| == |s| - |mid| && Contents(s') == Contents(s) - Contents(mid).Keys
  {
    ContentsCut(a, mid, b);
  }

  lemma Assoc<E>(a: seq<E>, m: seq<E>, y: seq<E>, b: seq<E>)
    ensures a + (m + (y + b)) == (a + m) + y + b
    ensures a + (m + b) == (a + m) + b
  {
  }

  lemma MinusBoth<V>(m: map<int, V>, x: set<int>, y: set<int>)
    ensures m - x - y == m - (x + y) == m - (y + x)
  {
  }

  lemma SliceKeys<V>(a: seq<(int, V)>, mid: seq<(int, V)>, b: seq<(int, V)>)
    ensures Contents(mid).Keys <= Contents(a + mid + b).Keys
  {
    ContentsConcat(a + mid, b);
    ContentsConcat(a, mid);
  }

  /** Two slices taken out, around one that stays. */
  lemma CutTwice<V>(s: seq<(int, V)>, s': seq<(int, V)>, a: seq<(int, V)>, x: seq<(int, V)>, m: seq<(int, V)>,
                    y: seq<(int, V)>, b: seq<(int, V)>)
    requires Sorted(s) && s == a + x + (m + (y + b)) && s' == a + (m + b)
    ensures Sorted(s') && |s'| == |s| - |x| - |y|
    ensures Contents(s') == Contents(s) - (Contents(x).Keys + Contents(y).Keys)
    ensures Contents(x).Keys + Contents(y).Keys <= Contents(s).Keys && Contents(x).Keys !! Contents(y).Keys
  {
    var s1 := a + (m + (y + b));
    CutAs(s, s1, a, x, m + (y + b));
    Assoc(a, m, y, b);
    CutAs(s1, s', a + m, y, b);
    SliceKeys(a, x, m + (y + b));
    SliceKeys(a + m, y, b);
    MinusBoth(Contents(s), Contents(x).Keys, Contents(y).Keys);
  }

  lemma DonorAtTop<V>(c: Ctx<V>, t: Tree<V>)
    requires t.Node?
    ensures DonorCtx(c, t).Top? ==> Donor(t).left.Nil? && Donor(t).right.Nil?
  {
    DonorPlug(c, t);
  }

  /** The entries before a deletion and after it: the donor's entry stays, the found entry and
      the donor's other entries go. */
  lemma BordersLeft<V>(c: Ctx<V>, t: Tree<V>) returns (a: seq<(int, V)>, b: seq<(int, V)>)
    requires t.Node? && t.left.Node?
    ensures InOrder(Plug(c, t)) == a + InOrder(Donor(t).left) + (Entry(Donor(t)) + (Entry(t) + b))
    ensures InOrder(Plug(DonorCtx(c, t), Nil)) == a + (Entry(Donor(t)) + b)
  {
    var d, cv := Donor(t), DonorCtx(c, t);
    a, b := Before(cv), InOrder(t.right) + After(c);
    LargestInOrder(Down(Left, c, Transplanted(t)), t.left);
    InOrderPlug(c, t);
    InOrderPlug(cv, Nil);
    Regroup(Before(c), InOrder(t.left), Entry(t), InOrder(t.right), After(c));
    Assoc(a + InOrder(d.left), Entry(d), Entry(t), b);
    assert After(cv) == Entry(d) + b;
  }

  lemma BordersRight<V>(c: Ctx<V>, t: Tree<V>) returns (a: seq<(int, V)>, b: seq<(int, V)>)
    requires t.Node? && t.left.Nil? && t.right.Node?
    ensures InOrder(Plug(c, t)) == a + Entry(t) + (Entry(Donor(t)) + (InOrder(Donor(t).right) + b))
    ensures InOrder(Plug(DonorCtx(c, t), Nil)) == a + (Entry(Donor(t)) + b)
  {
    var d, cv := Donor(t), DonorCtx(c, t);
    a, b := Before(c), After(cv);
    SmallestInOrder(Down(Right, c, Transplanted(t)), t.right);
    InOrderPlug(c, t);
    InOrderPlug(cv, Nil);
    Regroup(Before(c), [], Entry(t), InOrder(t.right), After(c));
    assert Before(c) + [] == Before(c);
    assert Entry(d) + InOrder(d.right) + b == Entry(d) + (InOrder(d.right) + b);
    assert Before(cv) == a + Entry(d);
  }

  /** Going from `s` to `s'` takes `key` out, and the entries `lost`, all of which were there. */
  ghost predicate TookOut<V>(s: seq<(int, V)>, s': seq<(int, V)>, key: int, lost: seq<(int, V)>) {
    && Sorted(s') && |s'| == |s| - 1 - |lost|
    && key in Contents(s) && key !in Contents(lost) && Contents(lost).Keys <= Contents(s).Keys
    && Contents(s') == Contents(s) - ({key} + Contents(lost).Keys)
  }

  lemma TookOutTwo<V>(s: seq<(int, V)>, s': seq<(int, V)>, t: Tree<V>, lost: seq<(int, V)>)
    requires t.Node? && Sorted(s') && |s'| == |s| - 1 - |lost|
    requires Contents(s') == Contents(s) - (Contents(lost).Keys + Contents(Entry(t)).Keys)
    requires Contents(lost).Keys + Contents(Entry(t)).Keys <= Contents(s).Keys
    requires Contents(lost).Keys !! Contents(Entry(t)).Keys
    ensures TookOut(s, s', t.key, lost)
  {
    EntryContents(t);
    assert Contents(lost).Keys + {t.key} == {t.key} + Contents(lost).Keys;
  }

  lemma DeletedLeft<V>(c: Ctx<V>, t: Tree<V>)
    requires t.Node? && t.left.Node? && Sorted(InOrder(Plug(c, t)))
    ensures TookOut(InOrder(Plug(c, t)), InOrder(Plug(DonorCtx(c, t), Nil)), t.key, Lost(t))
  {
    var s, s' := InOrder(Plug(c, t)), InOrder(Plug(DonorCtx(c, t), Nil));
    var a, b := BordersLeft(c, t);
    LostLeft(t);
    CutTwice(s, s', a, Lost(t), Entry(Donor(t)), Entry(t), b);
    TookOutTwo(s, s', t, Lost(t));
  }

  lemma DeletedRight<V>(c: Ctx<V>, t: Tree<V>)
    requires t.Node? && t.left.Nil? && t.right.Node? && Sorted(InOrder(Plug(c, t)))
    ensures TookOut(InOrder(Plug(c, t)), InOrder(Plug(DonorCtx(c, t), Nil)), t.key, Lost(t))
  {
    var s, s' := InOrder(Plug(c, t)), InOrder(Plug(DonorCtx(c, t), Nil));
    var a, b := BordersRight(c, t);
    LostRight(t);
    CutTwice(s, s', a, Entry(t), Entry(Donor(t)), Lost(t), b);
    MinusBoth(Contents(s), Contents(Entry(t)).Keys, Contents(Lost(t)).Keys);
    TookOutTwo(s, s', t, Lost(t));
  }

  lemma DeletedLeaf<V>(c: Ctx<V>, t: Tree<V>)
    requires t.Node? && t.left.Nil? && t.right.Nil? && Sorted(InOrder(Plug(c, t)))
    ensures TookOut(InOrder(Plug(c, t)), InOrder(Plug(DonorCtx(c, t), Nil)), t.key, Lost(t))
  {
    hide Sorted;
    var s, s' := InOrder(Plug(c, t)), InOrder(Plug(DonorCtx(c, t), Nil));
    InOrderPlug(c, t);
    InOrderPlug(c, Nil);
    LostNone(c, t);
    CutAs(s, s', Before(c), Entry(t), After(c));
    SliceKeys(Before(c), Entry(t), After(c));
    TookOutTwo(s, s', t, Lost(t));
  }

  /** Unlinking the donor's node takes the found key out of the map, and with it the
      entries below the donor. */
  lemma Deleted<V>(c: Ctx<V>, t: Tree<V>)
    requires t.Node? && Sorted(InOrder(Plug(c, t)))
    ensures TookOut(InOrder(Plug(c, t)), InOrder(Plug(DonorCtx(c, t), Nil)), t.key, Lost(t))
  {
    if t.left.Node? {
      DeletedLeft(c, t);
    } else if t.right.Node? {
      DeletedRight(c, t);
    } else {
      DeletedLeaf(c, t);
    }
  }

  lemma EntryContents<V>(t: Tree<V>)
    requires t.Node?
    ensures Contents(Entry(t)).Keys == {t.key}
  {
  }

  lemma LostLeft<V>(t: Tree<V>)
    requires t.Node? && t.left.Node?
    ensures Lost(t) == InOrder(Donor(t).left)
  {
  }

  lemma LostRight<V>(t: Tree<V>)
    requires t.Node? && t.left.Nil? && t.right.Node?
    ensures Lost(t) == InOrder(Donor(t).right)
  {
  }

  lemma LostNone<V>(c: Ctx<V>, t: Tree<V>)
    requires t.Node? && t.left.Nil? && t.right.Nil?
    ensures Lost(t) == [] && InOrder(t) == Entry(t) && Before(c) + InOrder(Nil) + After(c) == Before(c) + After(c)
  {
  }

  lemma OkZero<V>(t: Tree<V>)
    requires Ok(t, 0)
    ensures |InOrder(t)| <= 1 && (t.Node? ==> t.color == Red && t.left.Nil? && t.right.Nil?)
  {
    assert t.Node? ==> Ok(t.left, 0) && Ok(t.right, 0);
  }

  /** In a red-black tree the donor has at most one child, a red leaf. */
  lemma {:induction false} LostAtMostOne<V>(t: Tree<V>, n: nat)
    requires t.Node? && Ok(t, n)
    ensures |Lost(t)| <= 1 && (t.left.Nil? ==> Lost(t) == [])
    ensures Donor(t).color == Red ==> Lost(t) == []
  {
    if t.left.Node? {
      var k := LastOk(Right, t.left, if t.color == Black then n - 1 else n);
    } else if t.right.Node? {
      OkZero(t.right);
    }
  }

  lemma {:induction false} LastOk<V>(dir: Dir, t: Tree<V>, n: nat) returns (k: nat)
    requires t.Node? && Ok(t, n)
    ensures var d := LastTree(dir, t);
      Ok(d, k) && (d.color == Red ==> d.left.Nil? && d.right.Nil?)
      && |InOrder(Child(Invert(dir), d))| <= 1
    decreases t
  {
    if Child(dir, t).Node? {
      k := LastOk(dir, Child(dir, t), if t.color == Black then n - 1 else n);
    } else {
      k := n;
      var other := Child(Invert(dir), t);
      if other.Node? {
        OkZero(other);
      }
    }
  }

  /** Taking out a red donor breaks no rule; a black one leaves its place one black node short. */
  lemma DonorReady<V>(c: Ctx<V>, t: Tree<V>)
    requires t.Node? && RedBlack(Plug(c, t))
    ensures var cv, d := DonorCtx(c, t), Donor(t);
      && (d.color == Red ==> cv.Frame? && RedBlack(Plug(cv, Nil)))
      && (d.color == Black && cv.Frame? ==> CtxOk(cv, 1))
  {
    var n := SplitOk(c, t);
    PlugOk(c, Transplanted(t), n);
    DonorPlug(c, t);
    var cv, d := DonorCtx(c, t), Donor(t);
    var k := SplitOk(cv, d);
    if d.color == Red {
      PlugOk(cv, Nil, k);
    }
  }

  /** Deleting `key` also takes away another entry, the left child of the in-order predecessor. */
  predicate LosesNeighbour<V>(t: Tree<V>, key: int) {
    var at := FindTree(t, key);
    at.Node? && at.left.Node? && LastTree(Right, at.left).left.Node?
  }

  /** What deleting `key` leaves of the map. */
  ghost function Survivors<V>(t: Tree<V>, key: int): map<int, V> {
    Contents(InOrder(t)) - ({key} + Contents(Lost(FindTree(t, key))).Keys)
  }

  /** The search for a key, as a path. */
  lemma {:induction false} PathTo<V>(c: Ctx<V>, t: Tree<V>, key: int) returns (c': Ctx<V>)
    requires Between(c, key)
    ensures Plug(c', FindTree(t, key)) == Plug(c, t) && Between(c', key)
    decreases t
  {
    if t.Nil? || t.key == key {
      c' := c;
    } else {
      var dir := if key < t.key then Left else Right;
      Refocus(dir, c, t);
      c' := PathTo(Down(dir, c, t), Child(dir, t), key);
    }
  }

  /** Deletion takes exactly the key out of the map unless the in-order predecessor that replaces
      it has a left child; then exactly that child's entry is lost as well. */
  lemma DeletionExact<V>(t: Tree<V>, key: int)
    requires RedBlack(t) && Sorted(InOrder(t))
    ensures var all := Contents(InOrder(t));
      if LosesNeighbour(t, key) then
        exists other :: other in all && other != key && Survivors(t, key) == all - {key, other}
      else
        Survivors(t, key) == all - {key}
  {
    var at := FindTree(t, key);
    if at.Node? {
      var c := PathTo(Top, t, key);
      FindTreeKey(t, key);
      var n := SplitOk(c, at);
      LostAtMostOne(at, n);
      Deleted(c, at);
      OneLost(Lost(at));
      LostNothing(at);
      if Lost(at) != [] {
        var other := Lost(at)[0].0;
        assert {key} + Contents(Lost(at)).Keys == {key, other};
        assert other in Contents(Lost(at));
      }
    } else {
      Missing(t, key);
    }
  }

  lemma Missing<V>(t: Tree<V>, key: int)
    requires Sorted(InOrder(t)) && FindTree(t, key).Nil?
    ensures key !in Contents(InOrder(t)) && Survivors(t, key) == Contents(InOrder(t))
  {
    hide Sorted;
    var c := PathTo(Top, t, key);
    InOrderPlug(c, Nil);
    BetweenBounds(c, Nil, key);
    var s := InOrder(t);
    assert s == Before(c) + After(c);
    if key in Contents(s) {
      var i := ContentsKey(s, key);
      assert false;
    }
  }

  lemma {:induction false} FindTreeKey<V>(t: Tree<V>, key: int)
    ensures FindTree(t, key).Node? ==> FindTree(t, key).key == key
  {
    if t.Node? && t.key != key {
      FindTreeKey(if key < t.key then t.left else t.right, key);
    }
  }

  lemma OneLost<V>(s: seq<(int, V)>)
    requires |s| <= 1
    ensures Contents(s).Keys == if s == [] then {} else {s[0].0}
  {
  }

  lemma LostNothing<V>(t: Tree<V>)
    requires t.Node? && (t.left.Nil? ==> Lost(t) == [])
    ensures Lost(t) == [] <==> !(t.left.Node? && LastTree(Right, t.left).left.Node?)
  {
    if t.left.Node? {
      LostLeft(t);
    }
  }

  /** A tree four insertions build (4, 2, 6, 1) and one deletion (4) that loses the entry of 1. */
  lemma NeighbourLost<V>(a: RbNode<V>, b: RbNode<V>, c: RbNode<V>, d: RbNode<V>, val: V)
    requires Four(a, b, c, d)
    ensures var t := Sample(a, b, c, d, val);
      && RedBlack(t) && Sorted(InOrder(t)) && At(SampleMemory(a, b, c, d, val), Top, t) && LosesNeighbour(t, 4)
      && 1 in Contents(InOrder(t)) && 1 !in Survivors(t, 4)
  {
    var t := Sample(a, b, c, d, val);
    var l := t.left;
    SampleOk(a, b, c, d, val);
    SampleEntries(a, b, c, d, val);
    SampleLinked(a, b, c, d, val);
    ContentsAt(InOrder(t), 0);
    assert FindTree(t, 4) == t && LastTree(Right, l) == l;
    LostLeft(t);
    assert Lost(t) == [(1, val)];
    OneLost(Lost(t));
  }

  function Sample<V>(a: RbNode<V>, b: RbNode<V>, c: RbNode<V>, d: RbNode<V>, val: V): Tree<V> {
    Node(a, Black, Node(b, Black, Node(d, Red, Nil, 1, val, Nil), 2, val, Nil), 4, val,
         Node(c, Black, Nil, 6, val, Nil))
  }

  ghost function SampleMemory<V>(a: RbNode<V>, b: RbNode<V>, c: RbNode<V>, d: RbNode<V>, val: V): Mem<V> {
    map[a := Cell(Black, 4, val, b, c, null)][b := Cell(Black, 2, val, d, null, a)]
       [c := Cell(Black, 6, val, null, null, a)][d := Cell(Red, 1, val, null, null, b)]
  }

  ghost predicate Four<V>(a: RbNode<V>, b: RbNode<V>, c: RbNode<V>, d: RbNode<V>) {
    a != b && a != c && a != d && b != c && b != d && c != d
  }

  lemma SampleLinked<V>(a: RbNode<V>, b: RbNode<V>, c: RbNode<V>, d: RbNode<V>, val: V)
    requires Four(a, b, c, d)
    ensures At(SampleMemory(a, b, c, d, val), Top, Sample(a, b, c, d, val))
  {
    SampleDistinct(a, b, c, d, val);
    var m, t := SampleMemory(a, b, c, d, val), Sample(a, b, c, d, val);
    assert a in m && b in m && c in m && d in m;
    assert m[d] == Cell(Red, 1, val, null, null, b);
    assert m[c] == Cell(Black, 6, val, null, null, a);
    assert m[b] == Cell(Black, 2, val, d, null, a);
    assert m[a] == Cell(Black, 4, val, b, c, null);
    hide SampleMemory;
    assert Linked(m, t.left.left, b) && Linked(m, t.right, a);
    assert Linked(m, t.left, a);
  }

  lemma SampleDistinct<V>(a: RbNode<V>, b: RbNode<V>, c: RbNode<V>, d: RbNode<V>, val: V)
    requires Four(a, b, c, d)
    ensures Apart(Top, Sample(a, b, c, d, val))
  {
    var t := Sample(a, b, c, d, val);
    assert Refs(t.left.left) == {d} && Refs(t.right) == {c};
    assert Refs(t.left) == {b, d} && Distinct(t.left.left);
  }

  lemma SampleOk<V>(a: RbNode<V>, b: RbNode<V>, c: RbNode<V>, d: RbNode<V>, val: V)
    ensures RedBlack(Sample(a, b, c, d, val))
  {
    var t := Sample(a, b, c, d, val);
    assert Ok(t.left.left, 0);
    assert Ok(t.left, 1) && Ok(t.right, 1);
    assert Ok(t, 2);
  }

  lemma SampleEntries<V>(a: RbNode<V>, b: RbNode<V>, c: RbNode<V>, d: RbNode<V>, val: V)
    ensures InOrder(Sample(a, b, c, d, val)) == [(1, val), (2, val), (4, val), (6, val)]
    ensures Sorted(InOrder(Sample(a, b, c, d, val)))
    ensures InOrder(Sample(a, b, c, d, val).left.left) == [(1, val)]
  {
    var t := Sample(a, b, c, d, val);
    assert InOrder(t.left.left) == [(1, val)];
    assert InOrder(t.left) == [(1, val), (2, val)];
    assert InOrder(t.right) == [(6, val)];
    SortedAscending(InOrder(t));
  }
}
