/** A doubly linked list of entries, stated over a snapshot of their links. */
module LruList {
  import opened HashSlots

  class Entry<K, V> {
    const key: K
    const val: V
    var prev: Entry?<K, V>
    var next: Entry?<K, V>

    constructor (key: K, val: V, next: Entry?<K, V>)
      ensures this.key == key && this.val == val && prev == null && this.next == next
    {
      this.key, this.val, prev, this.next := key, val, null, next;
    }
  }

  datatype Cell<K, V> = Cell(prev: Entry?<K, V>, next: Entry?<K, V>)

  type Mem<K, V> = map<Entry<K, V>, Cell<K, V>>

  ghost function Snap<K, V>(s: set<Entry<K, V>>): Mem<K, V>
    reads s
  {
    assert var w := map e | e in s :: Cell(e.prev, e.next); Shows(s, w);
    var m: Mem<K, V> :| Shows(s, m);
    m
  }

  /** `m` is what the links of `s` are. */
  ghost predicate Shows<K, V>(s: set<Entry<K, V>>, m: Mem<K, V>)
    reads s
  {
    m.Keys == s && forall e | e in s :: m[e] == Cell(e.prev, e.next)
  }

  ghost function Head<K, V>(l: seq<Entry<K, V>>, end: Entry?<K, V>): Entry?<K, V> {
    if l == [] then end else l[0]
  }

  ghost function Last<K, V>(l: seq<Entry<K, V>>, prev: Entry?<K, V>): Entry?<K, V> {
    if l == [] then prev else l[|l| - 1]
  }

  /** The entries of `l` are linked in order, with `prev` before the first and `end` after the last. */
  ghost predicate Linked<K, V>(m: Mem<K, V>, l: seq<Entry<K, V>>, prev: Entry?<K, V>, end: Entry?<K, V>)
    decreases l
  {
    l != [] ==> l[0] in m && m[l[0]] == Cell(prev, Head(l[1..], end)) && Linked(m, l[1..], l[0], end)
  }

  ghost predicate Distinct<T>(l: seq<T>) {
    l != [] ==> l[0] !in l[1..] && Distinct(l[1..])
  }

  lemma {:induction false} LinkedFrame<K, V>(m: Mem<K, V>, m': Mem<K, V>, l: seq<Entry<K, V>>, prev: Entry?<K, V>,
                                             end: Entry?<K, V>)
    requires Linked(m, l, prev, end) && forall e | e in l && e in m :: e in m' && m'[e] == m[e]
    ensures Linked(m', l, prev, end)
    decreases l
  {
    if l != [] {
      LinkedFrame(m, m', l[1..], l[0], end);
    }
  }

  lemma {:induction false} LinkedIn<K, V>(m: Mem<K, V>, l: seq<Entry<K, V>>, prev: Entry?<K, V>, end: Entry?<K, V>)
    requires Linked(m, l, prev, end)
    ensures forall e | e in l :: e in m
    ensures l != [] ==> m[l[0]].prev == prev && m[l[|l| - 1]].next == end
    decreases l
  {
    if l != [] {
      LinkedIn(m, l[1..], l[0], end);
    }
  }

  lemma {:induction false} LinkedConcat<K, V>(m: Mem<K, V>, a: seq<Entry<K, V>>, b: seq<Entry<K, V>>,
                                              prev: Entry?<K, V>, end: Entry?<K, V>)
    ensures Linked(m, a + b, prev, end) <==> Linked(m, a, prev, Head(b, end)) && Linked(m, b, Last(a, prev), end)
    decreases a
  {
    if a == [] {
      assert a + b == b;
    } else {
      assert (a + b)[1..] == a[1..] + b;
      assert Last(a, prev) == Last(a[1..], a[0]);
      LinkedConcat(m, a[1..], b, a[0], end);
    }
  }

  lemma {:induction false} DistinctConcat<T>(a: seq<T>, b: seq<T>)
    ensures Distinct(a + b) <==> Distinct(a) && Distinct(b) && forall x | x in a :: x !in b
    decreases a
  {
    if a == [] {
      assert a + b == b;
    } else {
      assert (a + b)[1..] == a[1..] + b;
      DistinctConcat(a[1..], b);
      assert forall x :: x in a <==> x == a[0] || x in a[1..];
    }
  }

  /** Changing what the first entry points back to. */
  lemma {:induction false} SetPrev<K, V>(m: Mem<K, V>, l: seq<Entry<K, V>>, prev: Entry?<K, V>, end: Entry?<K, V>,
                                         prev': Entry?<K, V>)
    requires Linked(m, l, prev, end) && Distinct(l) && l != []
    ensures l[0] in m && Linked(m[l[0] := Cell(prev', m[l[0]].next)], l, prev', end)
  {
    LinkedFrame(m, m[l[0] := Cell(prev', m[l[0]].next)], l[1..], l[0], end);
  }

  /** Changing what the last entry points on to. */
  lemma {:induction false} SetNext<K, V>(m: Mem<K, V>, l: seq<Entry<K, V>>, prev: Entry?<K, V>, end: Entry?<K, V>,
                                         end': Entry?<K, V>)
    requires Linked(m, l, prev, end) && Distinct(l) && l != []
    ensures var z := l[|l| - 1]; z in m && Linked(m[z := Cell(m[z].prev, end')], l, prev, end')
    decreases l
  {
    var z := l[|l| - 1];
    if |l| > 1 {
      SetNext(m, l[1..], l[0], end, end');
      assert z == l[1..][|l| - 2] && z in l[1..];
    } else {
      assert l[1..] == [];
    }
  }

  lemma {:induction false} SplitAround<T>(l: seq<T>, x: T) returns (a: seq<T>, b: seq<T>)
    requires x in l
    ensures l == a + [x] + b && x !in a
  {
    if l[0] == x {
      a, b := [], l[1..];
    } else {
      a, b := SplitAround(l[1..], x);
      a := [l[0]] + a;
    }
  }

  // ------------------------------------------------------- what the list holds

  /** The keys and values of the entries, in order. */
  function Pairs<K, V>(l: seq<Entry<K, V>>): (p: seq<(K, V)>)
    ensures |p| == |l| && forall i | 0 <= i < |l| :: p[i] == (l[i].key, l[i].val)
  {
    if l == [] then [] else [(l[0].key, l[0].val)] + Pairs(l[1..])
  }

  /** `index` finds exactly the entries of `l`, each by its key. */
  ghost predicate Indexed<K, V>(index: map<K, Entry<K, V>>, l: seq<Entry<K, V>>) {
    && (forall e | e in l :: e.key in index && index[e.key] == e)
    && (forall k | k in index :: index[k] in l && index[k].key == k)
  }

  /** The list runs from the most to the least recently used, going by the time of each key's last
      use; all of it was before `clock`. */
  ghost predicate ByLastUse<K, V>(l: seq<Entry<K, V>>, used: map<K, nat>, clock: nat) {
    && (forall e | e in l :: e.key in used && used[e.key] < clock)
    && (forall i, j | 0 <= i < j < |l| :: l[i].key in used && l[j].key in used && used[l[i].key] > used[l[j].key])
  }

  lemma FrontByLastUse<K, V>(a: seq<Entry<K, V>>, e: Entry<K, V>, b: seq<Entry<K, V>>, used: map<K, nat>, clock: nat)
    requires ByLastUse(a + b, used, clock) && forall x | x in a + b :: x.key != e.key
    ensures ByLastUse([e] + (a + b), used[e.key := clock], clock + 1)
  {
    var l, l' := a + b, [e] + (a + b);
    forall i, j | 0 <= i < j < |l'|
      ensures l'[j] == l[j - 1] && l'[j].key != e.key && (i > 0 ==> l'[i] == l[i - 1] && l'[i].key != e.key)
    {
      assert l[j - 1] in a + b;
      if i > 0 {
        assert l[i - 1] in a + b;
      }
    }
  }

  lemma DropByLastUse<K, V>(a: seq<Entry<K, V>>, e: Entry<K, V>, b: seq<Entry<K, V>>, used: map<K, nat>, clock: nat)
    requires ByLastUse(a + [e] + b, used, clock)
    ensures ByLastUse(a + b, used, clock)
  {
    var l, l' := a + [e] + b, a + b;
    forall i, j | 0 <= i < j < |l'|
      ensures l'[i].key in used && l'[j].key in used && used[l'[i].key] > used[l'[j].key]
    {
      var i', j' := if i < |a| then i else i + 1, if j < |a| then j else j + 1;
      assert l'[i] == l[i'] && l'[j] == l[j'];
    }
    assert forall x | x in l' :: x in l;
  }

  /** Taking the last entry off: the links, */
  lemma LastOffLinks<K, V>(m: Mem<K, V>, r: seq<Entry<K, V>>, z: Entry<K, V>, end: Entry?<K, V>)
    requires Linked(m, r + [z], null, end) && Distinct(r + [z])
    ensures z in m && m[z].prev == Last(r, null) && Distinct(r) && z !in r
    ensures if r == [] then Linked(m, r, null, z) else
              r[|r| - 1] in m && Linked(m[r[|r| - 1] := Cell(m[r[|r| - 1]].prev, null)], r, null, null)
  {
    LinkedConcat(m, r, [z], null, end);
    DistinctConcat(r, [z]);
    if r != [] {
      SetNext(m, r, null, z, null);
    }
  }

  /** the index, */
  lemma LastOffIndex<K, V>(index: map<K, Entry<K, V>>, r: seq<Entry<K, V>>, z: Entry<K, V>)
    requires Indexed(index, r + [z]) && z !in r
    ensures Indexed(index - {z.key}, r)
  {
    assert forall e :: e in r + [z] <==> e in r || e == z;
    forall e | e in r
      ensures e.key != z.key
    {
      assert index[e.key] == e;
    }
  }

  /** and the order of use. */
  lemma LastOffUse<K, V>(r: seq<Entry<K, V>>, z: Entry<K, V>, used: map<K, nat>, clock: nat)
    requires ByLastUse(r + [z], used, clock)
    ensures ByLastUse(r, used, clock)
  {
    assert r + [z] + [] == r + [z];
    assert r + [] == r;
    DropByLastUse(r, z, [], used, clock);
  }

  // ------------------------------------------------------- moving to the front

  /** The pairs of `p` without the first one for `key`. */
  function Drop<K(==), V>(p: seq<(K, V)>, key: K): seq<(K, V)> {
    if p == [] then [] else if p[0].0 == key then p[1..] else [p[0]] + Drop(p[1..], key)
  }

  function Get<K(==), V>(p: seq<(K, V)>, key: K): Slot<K, V> {
    if p == [] then Raw else if p[0].0 == key then Slot.Entry(p[0].0, p[0].1) else Get(p[1..], key)
  }

  /** The pair for `key`, if there is one, moved to the front. */
  function ToFront<K(==), V>(p: seq<(K, V)>, key: K): seq<(K, V)> {
    match Get(p, key)
    case Raw => p
    case Entry(k, v) => [(k, v)] + Drop(p, key)
  }

  lemma {:induction false} GetAround<K, V>(a: seq<Entry<K, V>>, e: Entry<K, V>, b: seq<Entry<K, V>>)
    requires forall x | x in a :: x.key != e.key
    ensures Get(Pairs(a + [e] + b), e.key) == Slot.Entry(e.key, e.val)
    ensures Drop(Pairs(a + [e] + b), e.key) == Pairs(a + b)
    decreases a
  {
    var p := Pairs(a + [e] + b);
    if a == [] {
      assert a + [e] + b == [e] + b && a + b == b;
      assert p[1..] == Pairs(b);
    } else {
      assert (a + [e] + b)[1..] == a[1..] + [e] + b && (a + b)[1..] == a[1..] + b;
      GetAround(a[1..], e, b);
      assert p[1..] == Pairs(a[1..] + [e] + b);
    }
  }

  lemma {:induction false} GetNone<K, V>(l: seq<Entry<K, V>>, key: K)
    requires forall x | x in l :: x.key != key
    ensures Get(Pairs(l), key) == Raw
    decreases l
  {
    if l != [] {
      assert Pairs(l)[1..] == Pairs(l[1..]);
      GetNone(l[1..], key);
    }
  }

  /** Unlinking `e` from the middle or the end, and linking it in at the front. */
  lemma MovedUp<K, V>(m: Mem<K, V>, a: seq<Entry<K, V>>, e: Entry<K, V>, b: seq<Entry<K, V>>,
                      end: Entry?<K, V>) returns (m': Mem<K, V>)
    requires Linked(m, a + [e] + b, null, end) && Distinct(a + [e] + b) && a != []
    ensures Distinct([e] + (a + b)) && Linked(m', [e] + (a + b), null, end)
    ensures var z := a[|a| - 1];
      && z in m && e in m && a[0] in m && (b != [] ==> b[0] in m) && a[0] != e && z != e
      && (b != [] ==> b[0] != e && b[0] != a[0] && b[0] != z)
      && m[e] == Cell(z, Head(b, end))
      && m' == Rerouted(m, a[0], z, e, b)
  {
    var z := a[|a| - 1];
    assert a + [e] + b == a + ([e] + b);
    LinkedConcat(m, a, [e] + b, null, end);
    assert ([e] + b)[1..] == b;
    DistinctConcat(a, [e] + b);
    DistinctConcat(a, b);
    assert ([e] + (a + b))[1..] == a + b;
    SetNext(m, a, null, e, Head(b, end));
    var m1 := m[z := Cell(m[z].prev, Head(b, end))];
    LinkedFrame(m, m1, b, e, end);
    var m2 := m1;
    if b != [] {
      SetPrev(m1, b, e, end, z);
      m2 := m1[b[0] := Cell(z, m1[b[0]].next)];
      LinkedFrame(m1, m2, a, null, Head(b, end));
    }
    LinkedConcat(m2, a, b, null, end);
    assert (a + b)[0] == a[0];
    SetPrev(m2, a + b, null, end, e);
    var m3 := m2[a[0] := Cell(e, m2[a[0]].next)];
    m' := m3[e := Cell(null, a[0])];
    LinkedFrame(m3, m', a + b, e, end);
  }

  /** The links after `e` is moved: from between `z` and `b` to before `first`. */
  ghost function Rerouted<K, V>(m: Mem<K, V>, first: Entry<K, V>, z: Entry<K, V>, e: Entry<K, V>,
                                b: seq<Entry<K, V>>): Mem<K, V>
    requires first in m && z in m && e in m && (b != [] ==> b[0] in m)
  {
    var m1 := m[z := Cell(m[z].prev, m[e].next)];
    var m2 := if b == [] then m1 else m1[b[0] := Cell(z, m1[b[0]].next)];
    m2[first := Cell(e, m2[first].next)][e := Cell(null, first)]
  }

  /** The links after `e` is moved to the front from wherever it is. */
  lemma Brought<K, V>(m: Mem<K, V>, a: seq<Entry<K, V>>, e: Entry<K, V>, b: seq<Entry<K, V>>,
                      end: Entry?<K, V>) returns (m': Mem<K, V>)
    requires Linked(m, a + [e] + b, null, end) && Distinct(a + [e] + b)
    ensures Distinct([e] + (a + b)) && Linked(m', [e] + (a + b), null, end)
    ensures if a == [] then m' == m && e in m && m[e] == Cell(null, Head(b, end)) &&
            (b != [] ==> b[0] in m && m[b[0]].prev == e && b[0] != e)
            else var z := a[|a| - 1];
              && z in m && e in m && a[0] in m && (b != [] ==> b[0] in m) && a[0] != e && z != e &&
                 m[e] == Cell(z, Head(b, end))
              && (b != [] ==> b[0] != e && b[0] != a[0] && b[0] != z)
              && m' == Rerouted(m, a[0], z, e, b)
  {
    if a == [] {
      assert a + [e] + b == [e] + (a + b);
      assert ([e] + (a + b))[1..] == b;
      m' := m;
    } else {
      m' := MovedUp(m, a, e, b, end);
    }
  }

  // The writes of a lookup, one by one. Entries that are pointed to are in memory.

  ghost function PrevsNext<K, V>(m: Mem<K, V>, e: Entry<K, V>): Mem<K, V> {
    if e in m && m[e].prev != null && m[e].prev in m then m[m[e].prev := Cell(m[m[e].prev].prev, m[e].next)] else m
  }

  ghost function NextsPrev<K, V>(m: Mem<K, V>, e: Entry<K, V>, p: Entry?<K, V>): Mem<K, V> {
    if e in m && m[e].next != null && m[e].next in m then m[m[e].next := Cell(p, m[m[e].next].next)] else m
  }

  ghost function Fronted<K, V>(m: Mem<K, V>, e: Entry<K, V>, first: Entry?<K, V>): Mem<K, V> {
    if e in m then m[e := Cell(null, if first == e then m[e].next else first)] else m
  }

  ghost function Relinked<K, V>(m: Mem<K, V>, e: Entry<K, V>, first: Entry?<K, V>): Mem<K, V> {
    if e !in m then m else NextsPrev(Fronted(NextsPrev(PrevsNext(m, e), e, m[e].prev), e, first), e, e)
  }

  lemma RelinkedFront<K, V>(m: Mem<K, V>, a: seq<Entry<K, V>>, e: Entry<K, V>, b: seq<Entry<K, V>>, end: Entry?<K, V>)
    requires Linked(m, a + [e] + b, null, end) && Distinct(a + [e] + b)
    requires end == null || (end !in a + [e] + b)
    ensures Distinct([e] + (a + b)) && Linked(Relinked(m, e, Head(a + [e] + b, end)), [e] + (a + b), null, end)
  {
    var m' := Brought(m, a, e, b, end);
    LinkedIn(m, a + [e] + b, null, end);
    hide Linked, Distinct;
    if a == [] {
      assert (a + [e] + b)[0] == e;
    } else {
      assert (a + [e] + b)[0] == a[0];
    }
    forall x | x in [e] + (a + b)
      ensures x in a + [e] + b
    {
    }
    LinkedFrame(m', Relinked(m, e, Head(a + [e] + b, end)), [e] + (a + b), null, end);
  }

  lemma AroundEntry<K, V>(l: seq<Entry<K, V>>, a: seq<Entry<K, V>>, e: Entry<K, V>, b: seq<Entry<K, V>>)
    requires l == a + [e] + b && Distinct(l) && forall x | x in l && x.key == e.key :: x == e
    ensures Get(Pairs(l), e.key) == Slot.Entry(e.key, e.val) && ToFront(Pairs(l), e.key) == Pairs([e] + (a + b))
    ensures (forall x | x in a + b :: x.key != e.key) && forall x :: x in l <==> x in [e] + (a + b)
  {
    assert l == a + ([e] + b);
    DistinctConcat(a, [e] + b);
    assert ([e] + b)[1..] == b;
    GetAround(a, e, b);
    assert ([e] + (a + b))[1..] == a + b;
  }

  lemma IndexedSame<K, V>(index: map<K, Entry<K, V>>, l: seq<Entry<K, V>>, l': seq<Entry<K, V>>)
    requires Indexed(index, l) && forall x :: x in l <==> x in l'
    ensures Indexed(index, l')
  {
  }

  lemma EndsAround<K, V>(a: seq<Entry<K, V>>, e: Entry<K, V>, b: seq<Entry<K, V>>, end: Entry?<K, V>)
    ensures Head([e] + (a + b), end) == e && |[e] + (a + b)| == |a + [e] + b|
    ensures Last([e] + (a + b), null) == if a + b == [] then e else if b == [] then Last(a, null)
            else Last(a + [e] + b, null)
    ensures b == [] ==> Last(a + [e] + b, null) == e
    ensures forall x :: x in [e] + (a + b) <==> x in a + [e] + b
  {
  }

  /** Linking a new entry in at the front. */
  lemma LinkedFirst<K, V>(m: Mem<K, V>, l: seq<Entry<K, V>>, e: Entry<K, V>, end: Entry?<K, V>)
    requires Linked(m, l, null, end) && Distinct(l) && e !in l
    ensures l != [] ==> l[0] in m
    ensures Distinct([e] + l)
    ensures var m1 := if l == [] then m else m[l[0] := Cell(e, m[l[0]].next)];
            Linked(m1[e := Cell(null, Head(l, end))], [e] + l, null, end)
  {
    assert ([e] + l)[1..] == l;
    if l == [] {
      assert [e] + l == [e];
    } else {
      SetPrev(m, l, null, end, e);
      var m1 := m[l[0] := Cell(e, m[l[0]].next)];
      LinkedFrame(m1, m1[e := Cell(null, Head(l, end))], l, e, end);
    }
  }

  lemma IndexedFirst<K, V>(index: map<K, Entry<K, V>>, l: seq<Entry<K, V>>, e: Entry<K, V>)
    requires Indexed(index, l) && e.key !in index && e !in l
    ensures Indexed(index[e.key := e], [e] + l) && forall x | x in l :: x.key != e.key
  {
  }

  lemma LinkedRest<K, V>(m: Mem<K, V>, l: seq<Entry<K, V>>, e: Entry<K, V>, end: Entry?<K, V>)
    requires Linked(m, [e] + l, null, end)
    ensures Linked(m, l, e, end)
  {
    assert ([e] + l)[1..] == l;
  }

  /** The first entry points back to nothing. */
  lemma LinkedHead<K, V>(m: Mem<K, V>, l: seq<Entry<K, V>>, end: Entry?<K, V>)
    requires Linked(m, l, null, end)
    ensures l != [] ==> l[0] in m && m[l[0]].prev == null
  {
  }

  lemma {:induction false} DistinctAt<T>(l: seq<T>, i: nat, j: nat)
    requires Distinct(l) && i < j < |l|
    ensures l[i] != l[j]
    decreases l
  {
    if i > 0 {
      DistinctAt(l[1..], i - 1, j - 1);
    } else {
      assert l[j] == l[1..][j - 1];
    }
  }

  // ----------------------------------------------------------- the list as a map

  ghost predicate KeysDistinct<K, V>(p: seq<(K, V)>) {
    forall i, j | 0 <= i < j < |p| :: p[i].0 != p[j].0
  }

  /** What the pairs bind; where a key occurs twice, the first pair counts. */
  function Index<K, V>(p: seq<(K, V)>): map<K, V> {
    if p == [] then map[] else Index(p[1..])[p[0].0 := p[0].1]
  }

  lemma {:induction false} IndexGet<K, V>(p: seq<(K, V)>, key: K)
    ensures Get(p, key) == if key in Index(p) then Slot.Entry(key, Index(p)[key]) else Raw
    decreases p
  {
    if p != [] {
      IndexGet(p[1..], key);
    }
  }

  lemma {:induction false} IndexMember<K, V>(p: seq<(K, V)>, k: K) returns (i: nat)
    requires k in Index(p)
    ensures i < |p| && p[i].0 == k
    decreases p
  {
    if p[0].0 == k {
      i := 0;
    } else {
      i := IndexMember(p[1..], k);
      i := i + 1;
    }
  }

  lemma {:induction false} IndexDrop<K, V>(p: seq<(K, V)>, key: K)
    requires KeysDistinct(p)
    ensures Index(Drop(p, key)) == Index(p) - {key}
    decreases p
  {
    if p != [] {
      if p[0].0 != key {
        IndexDrop(p[1..], key);
        assert ([p[0]] + Drop(p[1..], key))[1..] == Drop(p[1..], key);
      } else if key in Index(p[1..]) {
        var _ := IndexMember(p[1..], key);
      }
    }
  }

  /** Moving a pair to the front leaves the bindings as they are. */
  lemma IndexToFront<K, V>(p: seq<(K, V)>, key: K)
    requires KeysDistinct(p)
    ensures Index(ToFront(p, key)) == Index(p)
  {
    IndexGet(p, key);
    if key in Index(p) {
      IndexDrop(p, key);
      assert ([(key, Index(p)[key])] + Drop(p, key))[1..] == Drop(p, key);
    }
  }

  /** Taking the last pair off takes its binding off. */
  lemma {:induction false} IndexDropLast<K, V>(p: seq<(K, V)>)
    requires KeysDistinct(p) && p != []
    ensures var z := p[|p| - 1]; z.0 in Index(p) && Index(p)[z.0] == z.1 && Index(p[..|p| - 1]) == Index(p) - {z.0}
    decreases p
  {
    if |p| > 1 {
      IndexDropLast(p[1..]);
      assert p[1..][..|p| - 2] == p[..|p| - 1][1..];
      assert p[0].0 != p[|p| - 1].0;
    }
  }

  lemma IndexFirst<K, V>(p: seq<(K, V)>, key: K, val: V)
    ensures Index([(key, val)] + p) == Index(p)[key := val]
  {
    assert ([(key, val)] + p)[1..] == p;
  }

  lemma {:induction false} DropSize<K, V>(p: seq<(K, V)>, key: K)
    ensures |Drop(p, key)| == if Get(p, key).Raw? then |p| else |p| - 1
    decreases p
  {
    if p != [] {
      DropSize(p[1..], key);
    }
  }

  lemma IndexPut<K, V>(p: seq<(K, V)>, key: K, val: V)
    requires KeysDistinct(p) && key !in Index(p)
    ensures Get(p, key).Raw? && Index([(key, val)] + p) == Index(p)[key := val]
    ensures |p| > 0 ==>
              var r, z := p[..|p| - 1], p[|p| - 1];
              && z.0 in Index(p) && Index(p)[z.0] == z.1 && Get(r, key).Raw?
              && Index([(key, val)] + r) == (Index(p) - {z.0})[key := val]
  {
    IndexGet(p, key);
    IndexFirst(p, key, val);
    if |p| > 0 {
      IndexDropLast(p);
      IndexGet(p[..|p| - 1], key);
      IndexFirst(p[..|p| - 1], key, val);
    }
  }

  lemma {:induction false} IndexHas<K, V>(p: seq<(K, V)>, i: nat)
    requires i < |p|
    ensures p[i].0 in Index(p)
    decreases p
  {
    if i > 0 {
      IndexHas(p[1..], i - 1);
    }
  }

  /** A pair's binding, when no key occurs twice. */
  lemma {:induction false} IndexAt<K, V>(p: seq<(K, V)>, i: nat)
    requires KeysDistinct(p) && i < |p|
    ensures p[i].0 in Index(p) && Index(p)[p[i].0] == p[i].1
    decreases p
  {
    if i > 0 {
      IndexAt(p[1..], i - 1);
      assert p[0].0 != p[i].0;
    }
  }

  lemma IndexTail<K, V>(p: seq<(K, V)>)
    requires KeysDistinct(p) && p != []
    ensures Index(p[1..]) == Index(p) - {p[0].0} && KeysDistinct(p[1..])
    ensures p[0].0 in Index(p) && Index(p)[p[0].0] == p[0].1
  {
    if p[0].0 in Index(p[1..]) {
      var _ := IndexMember(p[1..], p[0].0);
    }
  }

  function Reverse<T>(s: seq<T>): seq<T> {
    if s == [] then [] else Reverse(s[1..]) + [s[0]]
  }

  lemma {:induction false} ReverseAt<T>(s: seq<T>, i: nat)
    requires i < |s|
    ensures |Reverse(s)| == |s| && Reverse(s)[i] == s[|s| - 1 - i]
    decreases s
  {
    if |s| > 1 {
      ReverseAt(s[1..], if i < |s| - 1 then i else 0);
    }
  }

  /** The order of the pairs does not matter to what they bind. */
  lemma IndexReverse<K, V>(p: seq<(K, V)>)
    requires KeysDistinct(p)
    ensures KeysDistinct(Reverse(p)) && Index(Reverse(p)) == Index(p) && |Reverse(p)| == |p|
  {
    if p == [] {
      return;
    }
    ReverseAt(p, 0);
    var r := Reverse(p);
    forall i, j | 0 <= i < j < |r|
      ensures r[i].0 != r[j].0
    {
      ReverseAt(p, i);
      ReverseAt(p, j);
    }
    forall k | k in Index(p)
      ensures k in Index(r) && Index(r)[k] == Index(p)[k]
    {
      var i := IndexMember(p, k);
      IndexAt(p, i);
      ReverseAt(p, |p| - 1 - i);
      IndexAt(r, |p| - 1 - i);
    }
    forall k | k in Index(r)
      ensures k in Index(p)
    {
      var i := IndexMember(r, k);
      ReverseAt(p, i);
      IndexAt(p, |p| - 1 - i);
    }
  }
}
