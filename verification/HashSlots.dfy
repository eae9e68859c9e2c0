/** The slots of an open-addressing hash map: probing is linear and wraps around, and deleted
    entries leave tombstones. */
module HashSlots {

  const EMPTY: int := -128
  const DELETED: int := -2

  /** A slot of the entry array; it is raw memory until something is stored in it. */
  datatype Slot<K, V> = Raw | Entry(key: K, val: V)

  function H1(hash: nat): nat { hash / 128 }

  function H2(hash: nat): (h: int)
    ensures 0 <= h < 128
  {
    hash % 128
  }

  function Next(c: nat, i: nat): nat
    requires i < c
  {
    (i + 1) % c
  }

  /** How many probes it takes from slot `h` to slot `j`. */
  function Dist(c: nat, h: nat, j: nat): int {
    if j >= h then j - h else j - h + c
  }

  predicate Live(md: seq<int>, i: int) {
    0 <= i < |md| && md[i] != EMPTY && md[i] != DELETED
  }

  /** No slot probed before `i` is empty. */
  ghost predicate Clear(md: seq<int>, h: nat, i: nat) {
    forall j | 0 <= j < |md| && Dist(|md|, h, j) < Dist(|md|, h, i) :: md[j] != EMPTY
  }

  function Home<K>(hash: K -> nat, c: nat, key: K): (h: nat)
    requires c > 0
    ensures h < c
  {
    H1(hash(key)) % c
  }

  /** Every live slot holds an entry, shows its hash, and can be reached from the entry's home. */
  ghost predicate Sound<K, V>(hash: K -> nat, md: seq<int>, sl: seq<Slot<K, V>>) {
    && |md| == |sl| > 0
    && (forall i | 0 <= i < |md| && Live(md, i) ::
          sl[i].Entry? && md[i] == H2(hash(sl[i].key)) && Clear(md, Home(hash, |md|, sl[i].key), i))
  }

  ghost predicate Unique<K, V>(md: seq<int>, sl: seq<Slot<K, V>>)
    requires |md| == |sl|
  {
    forall i, j | Live(md, i) && Live(md, j) && sl[i].Entry? && sl[j].Entry? && sl[i].key == sl[j].key :: i == j
  }

  ghost predicate Has<K, V>(md: seq<int>, sl: seq<Slot<K, V>>, key: K)
    requires |md| == |sl|
  {
    exists i :: Live(md, i) && sl[i].Entry? && sl[i].key == key
  }

  /** The live slots hold exactly the bindings of `m`. */
  ghost predicate Represents<K, V>(md: seq<int>, sl: seq<Slot<K, V>>, m: map<K, V>)
    requires |md| == |sl|
  {
    && (forall i | Live(md, i) && sl[i].Entry? :: sl[i].key in m && m[sl[i].key] == sl[i].val)
    && (forall k | k in m :: Has(md, sl, k))
  }

  /** A tombstone is probed before the slot that holds `key`. */
  ghost predicate Shadowed<K, V>(hash: K -> nat, md: seq<int>, sl: seq<Slot<K, V>>, key: K)
    requires |md| == |sl| > 0
  {
    exists i, j :: Live(md, i) && sl[i].Entry? && sl[i].key == key && 0 <= j < |md| && md[j] == DELETED
                   && Dist(|md|, Home(hash, |md|, key), j) < Dist(|md|, Home(hash, |md|, key), i)
  }

  // ------------------------------------------------------------------ counting

  /** The number of slots that are not empty. */
  function Used(md: seq<int>): (n: nat)
    ensures n <= |md|
  {
    if md == [] then 0 else Used(md[..|md| - 1]) + (if md[|md| - 1] == EMPTY then 0 else 1)
  }

  lemma {:induction false} UsedUpdate(md: seq<int>, i: nat, v: int)
    requires i < |md|
    ensures Used(md[i := v]) == Used(md) - (if md[i] == EMPTY then 0 else 1) + (if v == EMPTY then 0 else 1)
  {
    var n := |md| - 1;
    if i < n {
      UsedUpdate(md[..n], i, v);
      assert md[i := v][..n] == md[..n][i := v];
    } else {
      assert md[i := v][..n] == md[..n];
    }
  }

  lemma {:induction false} SomeEmpty(md: seq<int>) returns (i: nat)
    requires Used(md) < |md|
    ensures i < |md| && md[i] == EMPTY
  {
    if md[|md| - 1] == EMPTY {
      i := |md| - 1;
    } else {
      i := SomeEmpty(md[..|md| - 1]);
    }
  }

  lemma {:induction false} AllEmpty(md: seq<int>)
    requires forall i | 0 <= i < |md| :: md[i] == EMPTY
    ensures Used(md) == 0
  {
    if md != [] {
      AllEmpty(md[..|md| - 1]);
    }
  }

  // ------------------------------------------------------------------- probing

  lemma Wraps(c: nat, i: nat)
    requires i < c
    ensures Next(c, i) == if i + 1 < c then i + 1 else 0
  {
  }

  /** One more probe; it never comes back to where probing began while a slot is empty. */
  lemma Probe(md: seq<int>, h: nat, i: nat)
    requires h < |md| && i < |md| && Used(md) < |md| && md[i] != EMPTY && Clear(md, h, i)
    ensures Next(|md|, i) < |md| && Dist(|md|, h, Next(|md|, i)) == Dist(|md|, h, i) + 1
    ensures Clear(md, h, Next(|md|, i))
    ensures forall j | 0 <= j < |md| && Dist(|md|, h, j) < Dist(|md|, h, Next(|md|, i)) ::
              j == i || Dist(|md|, h, j) < Dist(|md|, h, i)
  {
    Wraps(|md|, i);
    hide Next;
    var e := SomeEmpty(md);
    assert Dist(|md|, h, e) >= Dist(|md|, h, i);
    assert e != i;
  }

  /** Storing an entry at the end of its probe path. */
  lemma Stored<K, V>(hash: K -> nat, md: seq<int>, sl: seq<Slot<K, V>>, i: nat, key: K, val: V)
    requires Sound(hash, md, sl) && i < |md| && !Live(md, i) && Clear(md, Home(hash, |md|, key), i)
    ensures Sound(hash, md[i := H2(hash(key))], sl[i := Entry(key, val)])
  {
    var md', sl' := md[i := H2(hash(key))], sl[i := Entry(key, val)];
    forall j | 0 <= j < |md'| && Live(md', j)
      ensures sl'[j].Entry? && md'[j] == H2(hash(sl'[j].key)) && Clear(md', Home(hash, |md'|, sl'[j].key), j)
    {
      if j != i {
        assert Live(md, j);
      }
    }
  }

  /** Burying an entry leaves every other one reachable. */
  lemma Buried<K, V>(hash: K -> nat, md: seq<int>, sl: seq<Slot<K, V>>, i: nat)
    requires Sound(hash, md, sl) && Live(md, i)
    ensures Sound(hash, md[i := DELETED], sl)
  {
    forall j | 0 <= j < |md| && Live(md[i := DELETED], j)
      ensures sl[j].Entry? && md[j] == H2(hash(sl[j].key)) && Clear(md[i := DELETED], Home(hash, |md|, sl[j].key), j)
    {
      assert Live(md, j);
    }
  }

  /** Every slot probed before `i` is live and holds another key. */
  ghost predicate AllLive<K, V>(md: seq<int>, sl: seq<Slot<K, V>>, h: nat, i: nat, key: K)
    requires |md| == |sl|
  {
    forall j | 0 <= j < |md| && Dist(|md|, h, j) < Dist(|md|, h, i) :: Live(md, j) && sl[j].Entry? && sl[j].key != key
  }

  lemma AllLiveAtHome<K, V>(md: seq<int>, sl: seq<Slot<K, V>>, h: nat, key: K)
    requires |md| == |sl| && h < |md|
    ensures Clear(md, h, h) && AllLive(md, sl, h, h, key)
  {
  }

  lemma ProbeLive<K, V>(hash: K -> nat, md: seq<int>, sl: seq<Slot<K, V>>, h: nat, i: nat, key: K)
    requires Sound(hash, md, sl) && h < |md| && i < |md| && Used(md) < |md| && Live(md, i)
    requires Clear(md, h, i) && AllLive(md, sl, h, i, key)
    requires sl[i].Entry? ==> !(H2(hash(key)) == md[i] && sl[i].key == key)
    ensures Next(|md|, i) < |md| && Dist(|md|, h, Next(|md|, i)) == Dist(|md|, h, i) + 1
    ensures Clear(md, h, Next(|md|, i)) && AllLive(md, sl, h, Next(|md|, i), key)
  {
    Probe(md, h, i);
    hide Next, Used;
  }

  /** If probing for `key` stopped at slot `i`, the first that is not live, then `key` is in the
      map exactly if it is shadowed, and only a tombstone can shadow it. */
  lemma Missed<K, V>(hash: K -> nat, md: seq<int>, sl: seq<Slot<K, V>>, i: nat, key: K)
    requires Sound(hash, md, sl) && i < |md| && !Live(md, i)
    requires AllLive(md, sl, Home(hash, |md|, key), i, key)
    ensures Has(md, sl, key) <==> Shadowed(hash, md, sl, key)
  {
    var h := Home(hash, |md|, key);
    if x :| Live(md, x) && sl[x].Entry? && sl[x].key == key {
      assert Clear(md, h, x);
      assert Dist(|md|, h, i) < Dist(|md|, h, x);
      assert md[i] == DELETED;
    }
  }

  /** If probing for `key` stopped at an empty slot, it is not in the map. */
  lemma Absent<K, V>(hash: K -> nat, md: seq<int>, sl: seq<Slot<K, V>>, i: nat, key: K)
    requires Sound(hash, md, sl) && i < |md| && md[i] == EMPTY && Passed(md, sl, Home(hash, |md|, key), i, key)
    ensures !Has(md, sl, key)
  {
  }

  lemma AtHome<K, V>(md: seq<int>, sl: seq<Slot<K, V>>, h: nat, key: K)
    requires |md| == |sl| && h < |md|
    ensures Clear(md, h, h) && Passed(md, sl, h, h, key)
  {
  }

  lemma Holds<K, V>(md: seq<int>, sl: seq<Slot<K, V>>, i: nat)
    requires |md| == |sl| && Live(md, i) && sl[i].Entry?
    ensures Has(md, sl, sl[i].key)
  {
  }

  /** None of the slots probed before `i` holds `key`. */
  ghost predicate Passed<K, V>(md: seq<int>, sl: seq<Slot<K, V>>, h: nat, i: nat, key: K)
    requires |md| == |sl|
  {
    forall j | Live(md, j) && Dist(|md|, h, j) < Dist(|md|, h, i) :: !(sl[j].Entry? && sl[j].key == key)
  }

  /** Probing past a slot that does not hold `key`. */
  lemma ProbePast<K, V>(hash: K -> nat, md: seq<int>, sl: seq<Slot<K, V>>, h: nat, i: nat, key: K)
    requires Sound(hash, md, sl) && h < |md| && i < |md| && Used(md) < |md| && md[i] != EMPTY
    requires Clear(md, h, i) && Passed(md, sl, h, i, key)
    requires Live(md, i) ==> !(H2(hash(key)) == md[i] && sl[i].Entry? && sl[i].key == key)
    ensures Next(|md|, i) < |md| && Dist(|md|, h, Next(|md|, i)) == Dist(|md|, h, i) + 1
    ensures Clear(md, h, Next(|md|, i)) && Passed(md, sl, h, Next(|md|, i), key)
    ensures forall j | 0 <= j < |md| && Dist(|md|, h, j) < Dist(|md|, h, Next(|md|, i)) ::
              j == i || Dist(|md|, h, j) < Dist(|md|, h, i)
  {
    Probe(md, h, i);
    hide Next, Used;
  }

  /** If probing found `key` before any slot that is not live, and no other slot holds it, then it
      is not shadowed. */
  lemma Found<K, V>(hash: K -> nat, md: seq<int>, sl: seq<Slot<K, V>>, i: nat, key: K)
    requires Sound(hash, md, sl) && Unique(md, sl) && Live(md, i) && sl[i].Entry? && sl[i].key == key
    requires AllLive(md, sl, Home(hash, |md|, key), i, key)
    ensures Has(md, sl, key) && !Shadowed(hash, md, sl, key)
  {
  }

  // --------------------------------------------------------------- the bindings

  lemma Bound<K, V>(md: seq<int>, sl: seq<Slot<K, V>>, m: map<K, V>, i: nat, key: K, val: V, tag: int)
    requires |md| == |sl| && i < |md| && !Live(md, i) && tag != EMPTY && tag != DELETED
    requires Unique(md, sl) && Represents(md, sl, m) && !Has(md, sl, key)
    ensures Unique(md[i := tag], sl[i := Entry(key, val)]) &&
            Represents(md[i := tag], sl[i := Entry(key, val)], m[key := val])
  {
    var md', sl', m' := md[i := tag], sl[i := Entry(key, val)], m[key := val];
    assert forall j | j != i :: Live(md', j) <==> Live(md, j);
    forall k | k in m'
      ensures Has(md', sl', k)
    {
      if k == key {
        assert Live(md', i);
      } else {
        var x :| Live(md, x) && sl[x].Entry? && sl[x].key == k;
        assert Live(md', x);
      }
    }
  }

  lemma Unbound<K, V>(md: seq<int>, sl: seq<Slot<K, V>>, m: map<K, V>, i: nat, key: K)
    requires |md| == |sl| && Live(md, i) && sl[i].Entry? && sl[i].key == key
    requires Unique(md, sl) && Represents(md, sl, m)
    ensures Unique(md[i := DELETED], sl) && Represents(md[i := DELETED], sl, m - {key})
  {
    var md' := md[i := DELETED];
    assert forall j | j != i :: Live(md', j) <==> Live(md, j);
    forall k | k in m - {key}
      ensures Has(md', sl, k)
    {
      var x :| Live(md, x) && sl[x].Entry? && sl[x].key == k;
      assert Live(md', x);
    }
  }

  /** A second entry for a key that is there already. */
  lemma Doubled<K, V>(md: seq<int>, sl: seq<Slot<K, V>>, i: nat, key: K, val: V, tag: int)
    requires |md| == |sl| && i < |md| && !Live(md, i) && tag != EMPTY && tag != DELETED && Has(md, sl, key)
    ensures !Unique(md[i := tag], sl[i := Entry(key, val)])
  {
    var md', sl' := md[i := tag], sl[i := Entry(key, val)];
    var x :| Live(md, x) && sl[x].Entry? && sl[x].key == key;
    assert Live(md', x) && Live(md', i) && sl'[x].key == sl'[i].key;
  }

  // ------------------------------------------------------------------ rehashing

  /** The entries of the first `n` slots of the old table are those of the new one: `to` says where
      each went, and `from` where each came from. */
  ghost predicate Moved<K, V>(md: seq<int>, sl: seq<Slot<K, V>>, n: nat, md': seq<int>, sl': seq<Slot<K, V>>,
                              to: seq<int>, from: seq<int>) {
    && |md| == |sl| && |md'| == |sl'| == |from| && n <= |md| && |to| == n
    && (forall x | 0 <= x < n && Live(md, x) :: Live(md', to[x]) && sl'[to[x]] == sl[x] && from[to[x]] == x)
    && (forall y | 0 <= y < |md'| && Live(md', y) :: 0 <= from[y] < n && Live(md, from[y]) && to[from[y]] == y)
  }

  lemma MovedAll<K, V>(md: seq<int>, sl: seq<Slot<K, V>>, md': seq<int>, sl': seq<Slot<K, V>>, to: seq<int>,
                       from: seq<int>, m: map<K, V>)
    requires Moved(md, sl, |md|, md', sl', to, from)
    ensures Unique(md, sl) <==> Unique(md', sl')
    ensures Represents(md, sl, m) <==> Represents(md', sl', m)
  {
    forall k | k in m
      ensures Has(md, sl, k) <==> Has(md', sl', k)
    {
      if x :| Live(md, x) && sl[x].Entry? && sl[x].key == k {
        assert Live(md', to[x]) && sl'[to[x]].key == k;
      }
      if y :| Live(md', y) && sl'[y].Entry? && sl'[y].key == k {
        assert Live(md, from[y]) && sl[from[y]].key == k;
      }
    }
  }

  lemma MoveOne<K, V>(md: seq<int>, sl: seq<Slot<K, V>>, n: nat, md': seq<int>, sl': seq<Slot<K, V>>, to: seq<int>,
                      from: seq<int>, y: nat)
    requires Moved(md, sl, n, md', sl', to, from) && n < |md| && Live(md, n) && y < |md'| && !Live(md', y)
    ensures Moved(md, sl, n + 1, md'[y := md[n]], sl'[y := sl[n]], to + [y], from[y := n])
  {
    var md1, sl1, to1, from1 := md'[y := md[n]], sl'[y := sl[n]], to + [y], from[y := n];
    assert forall j | j != y :: Live(md1, j) <==> Live(md', j);
    forall x | 0 <= x < n + 1 && Live(md, x)
      ensures Live(md1, to1[x]) && sl1[to1[x]] == sl[x] && from1[to1[x]] == x
    {
      if x < n {
        assert to1[x] == to[x] != y;
      }
    }
  }

  lemma MoveNone<K, V>(md: seq<int>, sl: seq<Slot<K, V>>, n: nat, md': seq<int>, sl': seq<Slot<K, V>>, to: seq<int>,
                       from: seq<int>)
    requires Moved(md, sl, n, md', sl', to, from) && n < |md| && !Live(md, n)
    ensures Moved(md, sl, n + 1, md', sl', to + [-1], from)
  {
    forall x | 0 <= x < n + 1 && Live(md, x)
      ensures x < n && (to + [-1])[x] == to[x]
    {
    }
  }

  /** The part of a table up to a slot. */
  lemma UsedPrefix(md: seq<int>, i: nat)
    requires i < |md|
    ensures Used(md[..i + 1]) == Used(md[..i]) + (if md[i] == EMPTY then 0 else 1)
    ensures Used(md[..i + 1]) <= Used(md)
  {
    assert md[..i + 1][..i] == md[..i];
    UsedMonotone(md, i + 1);
  }

  lemma {:induction false} UsedMonotone(md: seq<int>, i: nat)
    requires i <= |md|
    ensures Used(md[..i]) <= Used(md)
  {
    if i < |md| {
      UsedMonotone(md[..|md| - 1], i);
      assert md[..|md| - 1][..i] == md[..i];
    } else {
      assert md[..i] == md;
    }
  }

  lemma KeyIn<K, V>(md: seq<int>, sl: seq<Slot<K, V>>, m: map<K, V>, key: K)
    requires |md| == |sl| && Represents(md, sl, m)
    ensures key in m <==> Has(md, sl, key)
  {
  }

  lemma FreshTables<K, V>(hash: K -> nat, md: seq<int>, sl: seq<Slot<K, V>>, md': seq<int>, sl': seq<Slot<K, V>>,
                          from: seq<int>)
    requires |md| == |sl| && |md'| == |sl'| == |from| > 0 && forall i | 0 <= i < |md'| :: md'[i] == EMPTY
    ensures Sound(hash, md', sl') && Moved(md, sl, 0, md', sl', [], from) && Used(md') == 0
  {
    AllEmpty(md');
  }

  lemma Tagged<K, V>(hash: K -> nat, md: seq<int>, sl: seq<Slot<K, V>>, i: nat)
    requires Sound(hash, md, sl) && i < |md| && Live(md, i)
    ensures sl[i].Entry? && md[i] == H2(hash(sl[i].key)) && sl[i] == Entry(sl[i].key, sl[i].val)
  {
  }

  /** A key behind a tombstone, which an insertion of that key would store a second time, in a map with
      seven slots of which no more than a third are in use: keys 4 and 5 share a home, 4 was inserted
      before 5, and then deleted. */
  lemma ShadowedExample()
    ensures var hash := (k: int) => 0;
            var md, sl := [DELETED, 0, EMPTY, EMPTY, EMPTY, EMPTY, EMPTY], [Raw, Entry(5, 50), Raw, Raw, Raw, Raw, Raw];
            && Sound(hash, md, sl) && Unique(md, sl) && Represents(md, sl, map[5 := 50])
            && Used(md) == 2 <= |md| / 3 && Shadowed(hash, md, sl, 5)
  {
    var hash := (k: int) => 0;
    var md, sl := [DELETED, 0, EMPTY, EMPTY, EMPTY, EMPTY, EMPTY], [Raw, Entry(5, 50), Raw, Raw, Raw, Raw, Raw];
    assert Live(md, 1) && sl[1].key == 5 && md[0] == DELETED && H2(0) == 0 && Home(hash, 7, 5) == 0;
    assert Has(md, sl, 5);
    assert forall i | Live(md, i) :: i == 1;
    assert Dist(7, 0, 0) < Dist(7, 0, 1);
    assert Used([DELETED]) == 1 && Used([DELETED, 0]) == 2;
    UsedEmpty([DELETED, 0], 5);
    assert [DELETED, 0] + seq(5, _ => EMPTY) == md;
  }

  lemma {:induction false} UsedEmpty(md: seq<int>, n: nat)
    ensures Used(md + seq(n, _ => EMPTY)) == Used(md)
  {
    if n > 0 {
      UsedEmpty(md, n - 1);
      assert (md + seq(n, _ => EMPTY))[..|md| + n - 1] == md + seq(n - 1, _ => EMPTY);
    } else {
      assert md + seq(n, _ => EMPTY) == md;
    }
  }
}
