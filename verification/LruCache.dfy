/** A least-recently-used cache: a hash map from keys to entries, and a list of the entries from
    the most to the least recently used. */
module LruCache {
  import opened HashSlots
  import opened HashMap
  import opened LruList

  function Min(a: nat, b: nat): nat { if a < b then a else b }

  lemma NothingToReverse<T>()
    ensures Reverse<T>([]) == []
  {
  }

  lemma ReverseOneMore<T>(s: seq<T>, i: nat)
    requires i < |s|
    ensures Reverse(s[i..]) == Reverse(s[i + 1..]) + [s[i]]
  {
    assert s[i..][1..] == s[i + 1..];
  }

  lemma LastOne<T>(m: seq<T>)
    ensures m[..|m| - Min(1, |m|)] == if |m| > 0 then m[..|m| - 1] else m
    ensures Reverse(m[|m| - Min(1, |m|)..]) == if |m| > 0 then [m[|m| - 1]] else []
  {
    if |m| > 0 {
      assert m[|m| - 1..] == [m[|m| - 1]];
    }
  }

  class LruCache<K(==), V> {
    var mru: Entry?<K, V>
    var lru: Entry?<K, V>
    var entries: HashMap<K, Entry<K, V>>
    var numEntries: nat
    /** The entries, from the most to the least recently used. */
    ghost var order: seq<Entry<K, V>>
    /** Every entry there has been; those not in `order` are freed. */
    ghost var nodes: set<Entry<K, V>>
    /** The freed entry that is still pointed to: by the last entry, or by `mru` if there is none. */
    ghost var stale: Entry?<K, V>
    /** How often a freed entry has been written to. */
    ghost var freedWrites: nat
    /** The time of the last use of each key, and the present time. */
    ghost var used: map<K, nat>
    ghost var clock: nat

    ghost predicate Valid()
      reads this, nodes, entries, entries.mdata, entries.slots
    {
      entries.Valid() && Indexed(entries.contents, order) && Listed()
    }

    ghost predicate Listed()
      reads this, nodes
    {
      Shape() && Linked(Snap(nodes), order, null, stale) && ByLastUse(order, used, clock)
    }

    ghost predicate Shape()
      reads this
    {
      && numEntries == |order| && Distinct(order) && (forall e | e in order :: e in nodes)
      && lru == Last(order, null) && mru == Head(order, stale)
      && (stale != null ==> stale in nodes && stale !in order)
    }

    /** What the cache holds, most recently used first. */
    ghost function Model(): seq<(K, V)>
      reads this
    {
      Pairs(order)
    }

    constructor (hash: K -> nat)
      ensures Valid() && Model() == [] && stale == null && used == map[] && clock == 0 && freedWrites == 0
      ensures fresh(entries) && fresh(entries.mdata) && fresh(entries.slots) && nodes == {}
    {
      mru, lru := null, null;
      entries := new HashMap<K, Entry<K, V>>(hash, 1);
      numEntries := 0;
      order, nodes, stale, used, clock, freedWrites := [], {}, null, map[], 0, 0;
    }

    /** Takes up to `count` entries off the end, the oldest first, and hands each to the eviction
        handler: `handed` is the sequence of the handler's calls. */
    method Evict(count: nat) returns (i: nat, handed: seq<(K, V)>)
      requires Valid()
      modifies this`lru, this`numEntries, this`order, this`stale, entries`contents, entries.mdata, nodes
      ensures Valid()
      ensures i == Min(count, |old(Model())|)
      ensures Model() == old(Model())[..|old(Model())| - i]
      ensures handed == Reverse(old(Model())[|old(Model())| - i..])
      ensures if i == 0 then stale == old(stale) else stale != null <==> Model() == []
    {
      hide Listed, Indexed, Sound, Unique, Represents, Used, Pairs, Reverse;
      i, handed := 0, [];
      ghost var m, n := Model(), |Model()|;
      assert m[n..] == [] && Reverse(m[n..]) == [] by { NothingToReverse<(K, V)>(); }
      Size();
      while i < count && numEntries > 0
        invariant Valid() && i <= Min(count, n) && numEntries == n - i
        invariant Model() == m[..n - i] && handed == Reverse(m[n - i..])
        invariant if i == 0 then stale == old(stale) else stale != null <==> order == []
      {
        ReverseOneMore(m, n - i - 1);
        var k, v := EvictOne();
        Size();
        handed := handed + [(k, v)];
        i := i + 1;
      }
    }

    /** Evicts everything. */
    method Flush() returns (handed: seq<(K, V)>)
      requires Valid()
      modifies this`lru, this`numEntries, this`order, this`stale, entries`contents, entries.mdata, nodes
      ensures Valid() && Model() == [] && handed == Reverse(old(Model()))
    {
      hide Listed, Indexed, Sound, Unique, Represents, HashSlots.Used, Pairs, Reverse;
      Size();
      assert Model()[|Model()| - Min(numEntries, |Model()|)..] == Model();
      var count;
      count, handed := Evict(numEntries);
    }

    lemma Size()
      requires Valid()
      ensures numEntries == |Model()|
    {
    }

    method EvictOne() returns (k: K, v: V)
      requires Valid() && numEntries > 0
      modifies this`lru, this`numEntries, this`order, this`stale, entries`contents, entries.mdata, nodes
      ensures Valid()
      ensures (k, v) == old(Model())[|old(Model())| - 1] && Model() == old(Model())[..|old(Model())| - 1]
      ensures order == old(order)[..|old(order)| - 1] && stale == if |order| == 0 then old(order)[|old(order)| - 1]
              else null
    {
      LastOut();
      hide Listed, Indexed, Sound, Unique, Represents, Used, Pairs;
      var entry := TakeLast();
      Forget(entry.key);
      k, v := entry.key, entry.val;
    }

    method Forget(key: K)
      requires entries.Valid() && Listed()
      modifies entries`contents, entries.mdata
      ensures entries.Valid() && entries.contents == old(entries.contents) - {key} && Listed()
    {
      hide Listed, Sound, Unique, Represents, Used;
      var _ := entries.Delete(key);
      assert unchanged(this);
      assert unchanged(nodes);
    }

    lemma LastOut()
      requires Listed() && Indexed(entries.contents, order) && numEntries > 0
      ensures order != [] && Indexed(entries.contents - {order[|order| - 1].key}, order[..|order| - 1])
      ensures Pairs(order[..|order| - 1]) == Pairs(order)[..|order| - 1]
    {
      var r, z := order[..|order| - 1], order[|order| - 1];
      assert order == r + [z];
      DistinctConcat(r, [z]);
      LastOffIndex(entries.contents, r, z);
    }

    /** Takes the last entry off the list. */
    method TakeLast() returns (entry: Entry<K, V>)
      requires Listed() && numEntries > 0 && entries.Valid()
      modifies this`lru, this`numEntries, this`order, this`stale, nodes
      ensures Listed() && entry == old(order)[|old(order)| - 1]
      ensures entries.Valid() && entries.contents == old(entries.contents)
      ensures order == old(order)[..|old(order)| - 1] && stale == if |order| == 0 then entry else null
    {
      hide Listed, Sound, Unique, Represents, Used;
      entry := TakeEnd();
      assert unchanged(entries) && unchanged(entries.mdata) && unchanged(entries.slots);
    }

    method TakeEnd() returns (entry: Entry<K, V>)
      requires Listed() && numEntries > 0
      modifies this`lru, this`numEntries, this`order, this`stale, nodes
      ensures Listed() && entry == old(order)[|old(order)| - 1]
      ensures order == old(order)[..|old(order)| - 1] && stale == if |order| == 0 then entry else null
    {
      hide Linked, Distinct, ByLastUse;
      entry := lru;
      ghost var rest, m := order[..|order| - 1], Snap(nodes);
      assert order == rest + [entry];
      LastOffLinks(m, rest, entry, stale);
      LastOffUse(rest, entry, used, clock);
      assert rest != [] ==> mru == rest[0];
      Unlink(rest);
      numEntries := numEntries - 1;
      Shorten(rest, if rest == [] then entry else null);
    }

    /** The links being those of `l`, so is the order. */
    ghost method Shorten(l: seq<Entry<K, V>>, end: Entry?<K, V>)
      requires Linked(Snap(nodes), l, null, end) && ByLastUse(l, used, clock)
      requires numEntries == |l| && Distinct(l) && lru == Last(l, null) && mru == Head(l, end)
      requires (forall e | e in l :: e in nodes) && (end != null ==> end in nodes && end !in l)
      modifies this`order, this`stale
      ensures Listed() && order == l && stale == end
    {
      hide Linked, Distinct, ByLastUse, Head, Last;
      order, stale := l, end;
    }

    method Unlink(ghost rest: seq<Entry<K, V>>)
      requires lru != null && lru.prev == Last(rest, null) && forall e | e in rest :: e in nodes
      modifies this`lru, if rest == [] then {} else {rest[|rest| - 1]}
      ensures lru == Last(rest, null)
      ensures Snap(nodes) == if rest == [] then old(Snap(nodes)) else
                var z := rest[|rest| - 1]; old(Snap(nodes))[z := Cell(old(z.prev), null)]
    {
      lru := lru.prev;
      if lru != null {
        lru.next := null;
      }
    }


    /** No key is in the cache twice. */
    lemma KeysApart(i: nat, j: nat)
      requires Valid() && i < j < |Model()|
      ensures Model()[i].0 != Model()[j].0
    {
      assert order[i] in order && order[j] in order;
      DistinctAt(order, i, j);
    }

    // ----------------------------------------------------------------- lookup

    /** How often looking up `key` writes to a freed entry: the last entry points to the one that
        was the last when the cache was last emptied, and takes it for its neighbour. */
    ghost function Strays(key: K): nat
      reads this
    {
      if stale == null || order == [] || order[|order| - 1].key != key then 0 else if |order| == 1 then 2 else 1
    }

    /** Finds an entry, and makes it the most recently used. It writes to an entry that was freed if
        and only if it finds the last one, and that one still points to a freed one. */
    method Lookup(key: K) returns (r: Slot<K, V>)
      requires Valid()
      modifies this`mru, this`lru, this`order, this`used, this`clock, this`freedWrites, nodes
      ensures Valid() && r == Get(old(Model()), key) && Model() == ToFront(old(Model()), key)
      ensures if r.Raw? then clock == old(clock) && used == old(used)
              else clock == old(clock) + 1 && used == old(used)[key := old(clock)]
      ensures freedWrites == old(freedWrites) + old(Strays(key))
    {
      hide Listed, Indexed, Sound, Unique, Represents, HashSlots.Used, Pairs;
      var found := entries.Lookup(key);
      if found.Raw? {
        NotThere(key);
        NoStray(key);
        return Raw;
      }
      var entry := found.val;
      ghost var a, b := There(key, entry);
      LastStrays(a, entry, b);
      Use(entry, a, b);
      r := Slot.Entry(key, entry.val);
    }

    lemma NoStray(key: K)
      requires Valid() && key !in entries.contents
      ensures Strays(key) == 0
    {
      assert order != [] ==> order[|order| - 1] in order;
    }

    lemma LastStrays(a: seq<Entry<K, V>>, e: Entry<K, V>, b: seq<Entry<K, V>>)
      requires order == a + [e] + b && forall x | x in a + b :: x.key != e.key
      ensures Strays(e.key) == if stale == null || b != [] then 0 else if a == [] then 2 else 1
    {
      assert b != [] ==> order[|order| - 1] in a + b;
    }

    /** Relinks an entry at the front of the list: it is the most recently used. */
    method Use(entry: Entry<K, V>, ghost a: seq<Entry<K, V>>, ghost b: seq<Entry<K, V>>)
      requires Listed() && order == a + [entry] + b && entries.Valid() && forall x | x in a + b :: x.key != entry.key
      modifies this`mru, this`lru, this`order, this`used, this`clock, this`freedWrites, nodes
      ensures Listed() && order == [entry] + (a + b)
      ensures entries.Valid() && entries.contents == old(entries.contents)
      ensures clock == old(clock) + 1 && used == old(used)[entry.key := old(clock)]
      ensures freedWrites == old(freedWrites) + if old(stale) == null || b != [] then 0 else if a == [] then 2 else 1
    {
      hide Listed, Sound, Unique, Represents, HashSlots.Used;
      UseEntry(entry, a, b);
      assert unchanged(entries) && unchanged(entries.mdata) && unchanged(entries.slots);
    }

    method UseEntry(entry: Entry<K, V>, ghost a: seq<Entry<K, V>>, ghost b: seq<Entry<K, V>>)
      requires Listed() && order == a + [entry] + b && forall x | x in a + b :: x.key != entry.key
      modifies this`mru, this`lru, this`order, this`used, this`clock, this`freedWrites, nodes
      ensures Listed() && order == [entry] + (a + b)
      ensures clock == old(clock) + 1 && used == old(used)[entry.key := old(clock)]
      ensures freedWrites == old(freedWrites) + if old(stale) == null || b != [] then 0 else if a == [] then 2 else 1
    {
      hide Linked, Distinct, ByLastUse, Relinked, Head, Last;
      Surroundings(entry, a, b);
      EndsAround(a, entry, b, stale);
      NotLast(a, entry, b);
      RelinkedFront(Snap(nodes), a, entry, b, stale);
      DropByLastUse(a, entry, b, used, clock);
      FrontByLastUse(a, entry, b, used, clock);
      Bring(entry);
      Reorder(entry, [entry] + (a + b));
    }

    /** The links being those of `l`, so is the order. */
    ghost method Reorder(entry: Entry<K, V>, l: seq<Entry<K, V>>)
      requires Linked(Snap(nodes), l, null, stale) && ByLastUse(l, used[entry.key := clock], clock + 1)
      requires numEntries == |l| && Distinct(l) && lru == Last(l, null) && mru == Head(l, stale)
      requires (forall e | e in l :: e in nodes) && (stale != null ==> stale in nodes && stale !in l)
      modifies this`order, this`used, this`clock
      ensures Listed() && order == l && clock == old(clock) + 1 && used == old(used)[entry.key := old(clock)]
    {
      hide Linked, Distinct, ByLastUse, Head, Last;
      order, used, clock := l, used[entry.key := clock], clock + 1;
    }

    lemma NotLast(a: seq<Entry<K, V>>, e: Entry<K, V>, b: seq<Entry<K, V>>)
      requires Shape() && order == a + [e] + b
      ensures b != [] ==> lru != e
      ensures (a == [] ==> Last(a, null) == null) && (a != [] ==> Last(a, null) in a)
      ensures (b == [] ==> Head(b, stale) == stale) && (b != [] ==> Head(b, stale) in b) &&
              mru == Head(order, stale) && mru in order
      ensures (a == [] <==> mru == e) && forall x | x in a + b :: x in order
      ensures Head(b, stale) == null || Head(b, stale) in order <==> stale == null || b != []
    {
      if a != [] {
        DistinctConcat(a, [e] + b);
        assert a + [e] + b == a + ([e] + b);
        assert order[0] in a;
      }
      if b != [] {
        DistinctConcat(a + [e], b);
        assert e in a + [e] && lru in b;
      }
    }

    lemma NotThere(key: K)
      requires Valid() && key !in entries.contents
      ensures Get(Model(), key) == Raw
    {
      GetNone(order, key);
    }

    lemma There(key: K, entry: Entry<K, V>) returns (a: seq<Entry<K, V>>, b: seq<Entry<K, V>>)
      requires Valid() && key in entries.contents && entry == entries.contents[key]
      ensures entry.key == key
      ensures order == a + [entry] + b && Get(Model(), entry.key) == Slot.Entry(entry.key, entry.val)
      ensures ToFront(Model(), entry.key) == Pairs([entry] + (a + b))
      ensures Indexed(entries.contents, [entry] + (a + b)) && forall x | x in a + b :: x.key != entry.key
    {
      a, b := SplitAround(order, entry);
      hide Linked, ByLastUse, Sound, Unique, Represents, HashSlots.Used;
      assert forall x | x in order && x.key == entry.key :: x == entry;
      AroundEntry(order, a, entry, b);
      IndexedSame(entries.contents, order, [entry] + (a + b));
    }

    /** Relinks an entry at the front of the list. */
    method Bring(entry: Entry<K, V>)
      requires entry in nodes && (entry.prev != null ==> entry.prev in nodes) &&
               (entry.next != null ==> entry.next in nodes)
      requires mru != null && mru in nodes && entry.prev != entry && entry.next != entry
      requires entry in order && mru in order && (entry.prev != null ==> entry.prev in order)
      modifies this`mru, this`lru, this`freedWrites, nodes
      ensures mru == entry && lru == if numEntries > 1 && old(lru) == entry then old(entry.prev) else old(lru)
      ensures Snap(nodes) == Relinked(old(Snap(nodes)), entry, old(mru))
      ensures freedWrites == old(freedWrites) + if old(entry.next) == null || old(entry.next) in order then 0
              else if old(mru) == entry then 2 else 1
    {
      hide Snap;
      Look(entry);
      Unhook(entry);
      if numEntries > 1 && lru == entry {
        lru := entry.prev;
      }
      Hook(entry);
    }

    method Unhook(entry: Entry<K, V>)
      requires entry in nodes && (entry.prev != null ==> entry.prev in nodes) &&
               (entry.next != null ==> entry.next in nodes)
      requires entry.prev != entry && entry.next != entry && (entry.prev != null ==> entry.prev in order)
      modifies this`freedWrites, nodes
      ensures entry.prev == old(entry.prev) && entry.next == old(entry.next)
      ensures Snap(nodes) == var m := old(Snap(nodes)); NextsPrev(PrevsNext(m, entry), entry, old(entry.prev))
      ensures freedWrites == old(freedWrites) + if entry.next == null || entry.next in order then 0 else 1
    {
      hide Snap;
      Look(entry);
      ghost var m0 := Snap(nodes);
      if entry.prev != null {
        Look(entry.prev);
        SetNext(entry.prev, entry.next);
      }
      assert Snap(nodes) == PrevsNext(m0, entry);
      Look(entry);
      if entry.next != null {
        Look(entry.next);
        SetPrev(entry.next, entry.prev);
      }
    }

    method Hook(entry: Entry<K, V>)
      requires entry in nodes && (entry.next != null ==> entry.next in nodes)
      requires mru != null && mru in nodes && entry.next != entry && entry in order && mru in order
      modifies this`mru, this`freedWrites, nodes
      ensures mru == entry && Snap(nodes) == NextsPrev(Fronted(old(Snap(nodes)), entry, old(mru)), entry, entry)
      ensures freedWrites == old(freedWrites) +
                             if old(mru) != entry || old(entry.next) == null || old(entry.next) in order then 0 else 1
    {
      hide Snap;
      ghost var m, first := Snap(nodes), mru;
      Look(entry);
      SetPrev(entry, null);
      if mru != entry {
        SetNext(entry, mru);
        mru := entry;
      }
      assert Snap(nodes) == Fronted(m, entry, first);
      Look(entry);
      if entry.next != null {
        Look(entry.next);
        SetPrev(entry.next, entry);
      }
    }

    method SetPrev(e: Entry<K, V>, p: Entry?<K, V>)
      requires e in nodes
      modifies e`prev, this`freedWrites
      ensures e.prev == p && Snap(nodes) == old(Snap(nodes))[e := Cell(p, e.next)]
      ensures freedWrites == old(freedWrites) + if e in order then 0 else 1
    {
      e.prev := p;
      freedWrites := freedWrites + if e in order then 0 else 1;
    }

    method SetNext(e: Entry<K, V>, n: Entry?<K, V>)
      requires e in nodes && e in order
      modifies e`next
      ensures e.next == n && Snap(nodes) == old(Snap(nodes))[e := Cell(e.prev, n)]
    {
      e.next := n;
    }

    lemma Look(e: Entry<K, V>)
      requires e in nodes
      ensures e in Snap(nodes) && Snap(nodes)[e] == Cell(e.prev, e.next)
    {
    }

    lemma Surroundings(entry: Entry<K, V>, a: seq<Entry<K, V>>, b: seq<Entry<K, V>>)
      requires Listed() && order == a + [entry] + b
      ensures entry in nodes && (forall e | e in a + b :: e in nodes && e != entry && e != stale) && entry != stale
      ensures entry.prev == Last(a, null) && entry.next == Head(b, stale)
      ensures forall x | x in a :: x !in b
    {
      assert a + [entry] + b == a + ([entry] + b);
      LinkedConcat(Snap(nodes), a, [entry] + b, null, stale);
      DistinctConcat(a, [entry] + b);
      assert ([entry] + b)[1..] == b;
    }

    // ----------------------------------------------------------------- insert

    /** What is left after making room: all, or all but the least recently used. */
    ghost function Kept(critical: bool): seq<(K, V)>
      reads this
    {
      if critical && |Model()| > 0 then Model()[..|Model()| - 1] else Model()
    }

    /** Whether a freed entry is still pointed to once room has been made. */
    ghost predicate Trails(critical: bool)
      reads this
    {
      if critical && order != [] then |order| == 1 else stale != null
    }

    /** As in a valid cache, but that the first entry points back to `back`. */
    ghost predicate PointsBack(back: Entry?<K, V>)
      reads this, nodes, entries, entries.mdata, entries.slots
    {
      && entries.Valid() && Indexed(entries.contents, order)
      && Shape() && Linked(Snap(nodes), order, back, stale) && ByLastUse(order, used, clock)
    }

    /** Adds an entry as the most recently used, evicting the least recently used first if memory is
        critical; `again` says that the allocator hands out the freed entry that is still pointed to,
        if there is one. That must not be, and neither may the key still be in the cache: refusing it
        leaves the first entry pointing back to the refused one. */
    method Insert(critical: bool, again: bool, key: K, val: V) returns (r: bool, handed: seq<(K, V)>)
      requires Valid()
      modifies this`mru, this`lru, this`numEntries, this`order, this`nodes, this`stale, this`used, this`clock
      modifies this`freedWrites, entries, entries.mdata, entries.slots, nodes
      ensures handed == if critical && |old(Model())| > 0 then [old(Model())[|old(Model())| - 1]] else []
      ensures Valid() <==> Get(old(Kept(critical)), key).Raw? && !(again && old(Trails(critical)))
      ensures Model() == (if r then [(key, val)] else []) + old(Kept(critical))
      ensures Get(old(Kept(critical)), key).Raw? ==>
                r && clock == old(clock) + 1 && used == old(used)[key := old(clock)]
      ensures Get(old(Kept(critical)), key).Entry? && r ==> !entries.OneEach()
      ensures !r ==> Refused(key) && (!(again && old(Trails(critical))) ==> PointsBack(order[0].prev))
      ensures again && old(Trails(critical)) ==> order != [] && order[|order| - 1].next == Newest(r)
      ensures freedWrites == old(freedWrites) +
                             if !again && old(Trails(critical)) && old(Kept(critical)) == [] then 1 else 0
      ensures fresh(nodes - old(nodes)) && (entries.mdata == old(entries.mdata) || fresh(entries.mdata))
      ensures entries.slots == old(entries.slots) || fresh(entries.slots)
    {
      hide Listed, Indexed, Sound, Unique, Represents, HashSlots.Used, Pairs, Reverse, Get, Shadowed;
      hide PointsBack;
      handed := [];
      LastOne(Model());
      if critical {
        var count;
        count, handed := Evict(1);
      }
      r := Add(again, key, val);
    }

    /** There are no entries, but `mru` still points to the last one there was. */
    ghost predicate Dangling()
      reads this
    {
      order == [] && stale != null
    }

    /** The first entry points back to another one for `key`. */
    ghost predicate Refused(key: K)
      reads this, if order == [] then {} else {order[0]}
    {
      order != [] && order[0].prev != null && order[0].prev !in order && order[0].prev.key == key
    }

    /** The entry made last: the first one, or the one it points back to if that was refused. */
    ghost function Newest(accepted: bool): Entry?<K, V>
      reads this, if order == [] then {} else {order[0]}
    {
      if order == [] then null else if accepted then order[0] else order[0].prev
    }

    /** Adds an entry without making room. It writes to an entry that was freed if and only if
        `mru` is dangling, and the new entry is not itself the freed one. A key that is there is
        refused unless a tombstone is probed before it. */
    method Add(again: bool, key: K, val: V) returns (r: bool)
      requires Valid()
      modifies this`mru, this`lru, this`numEntries, this`order, this`nodes, this`stale, this`used, this`clock
      modifies this`freedWrites, entries, entries.mdata, entries.slots, nodes
      ensures Valid() <==> Get(old(Model()), key).Raw? && !(again && old(stale) != null)
      ensures r <==> Get(old(Model()), key).Raw? || old(entries.Shadows(key))
      ensures Model() == (if r then [(key, val)] else []) + old(Model())
      ensures Get(old(Model()), key).Raw? ==> clock == old(clock) + 1 && used == old(used)[key := old(clock)]
      ensures Get(old(Model()), key).Entry? && r ==> !entries.OneEach()
      ensures !r ==> Refused(key) && (!(again && old(stale) != null) ==> PointsBack(order[0].prev))
      ensures again && old(stale) != null ==> order != [] && order[|order| - 1].next == Newest(r)
      ensures freedWrites == old(freedWrites) + if old(Dangling()) && !again then 1 else 0
      ensures fresh(nodes - old(nodes)) && (entries.mdata == old(entries.mdata) || fresh(entries.mdata))
      ensures entries.slots == old(entries.slots) || fresh(entries.slots)
    {
      hide Shape, Linked, Indexed, ByLastUse, Sound, Unique, Represents, HashSlots.Used, Pairs, Get, Listed, Shadowed;
      hide PointsBack;
      StaleIsLast();
      var freed := if lru == null then mru else lru.next;
      if again && freed != null {
        r := AddAgain(key, val);
      } else {
        r := AddNew(key, val);
      }
    }

    /** What `mru` or the last entry points to is the freed entry that is still pointed to. */
    lemma StaleIsLast()
      requires Listed()
      ensures stale == if lru == null then mru else lru.next
    {
      if order != [] {
        LinkedIn(Snap(nodes), order, null, stale);
        Look(lru);
      }
    }

    method AddNew(key: K, val: V) returns (r: bool)
      requires Valid()
      modifies this`mru, this`lru, this`numEntries, this`order, this`nodes, this`used, this`clock
      modifies this`freedWrites, entries, entries.mdata, entries.slots, nodes
      ensures Valid() <==> Get(old(Model()), key).Raw?
      ensures r <==> Get(old(Model()), key).Raw? || old(entries.Shadows(key))
      ensures Model() == (if r then [(key, val)] else []) + old(Model())
      ensures Get(old(Model()), key).Raw? ==> clock == old(clock) + 1 && used == old(used)[key := old(clock)]
      ensures Get(old(Model()), key).Entry? && r ==> !entries.OneEach()
      ensures !r ==> Refused(key) && PointsBack(order[0].prev)
      ensures freedWrites == old(freedWrites) + if old(Dangling()) then 1 else 0
      ensures fresh(nodes - old(nodes)) && (entries.mdata == old(entries.mdata) || fresh(entries.mdata))
      ensures entries.slots == old(entries.slots) || fresh(entries.slots)
    {
      hide *;
      Parts();
      KeyThere(key);
      var entry := Create(key, val);
      PairsFirst(entry, order);
      if key !in entries.contents {
        AddReady(entry);
      }
      r := EnterFirst(key, entry);
      Whole();
      if !r {
        LeftBent(entry);
      }
    }

    lemma Parts()
      requires Valid()
      ensures entries.Valid() && Indexed(entries.contents, order) && Listed() && Model() == Pairs(order)
      ensures Dangling() <==> order == [] && stale != null
    {
      hide Listed, Indexed;
    }

    lemma Whole()
      ensures Valid() <==> entries.Valid() && Indexed(entries.contents, order) && Listed()
      ensures Model() == Pairs(order) && (!entries.OneEach() ==> !entries.Valid())
    {
      hide Listed, Indexed, Represents;
    }

    lemma LeftBent(entry: Entry<K, V>)
      requires entries.Valid() && Indexed(entries.contents, order) && Shape() && ByLastUse(order, used, clock)
      requires Linked(Snap(nodes), [entry] + order, null, stale) && order != [] && entry !in order
      ensures PointsBack(entry) && order[0].prev == entry && Refused(entry.key) && !Valid()
    {
      LinkedRest(Snap(nodes), order, entry, stale);
      LinkedIn(Snap(nodes), order, entry, stale);
      Look(order[0]);
      Looped();
    }

    method AddAgain(key: K, val: V) returns (r: bool)
      requires Valid() && stale != null
      modifies this`mru, this`lru, this`numEntries, this`order, this`nodes, this`used, this`clock
      modifies entries, entries.mdata, entries.slots, nodes
      ensures !Valid()
      ensures r <==> Get(old(Model()), key).Raw? || old(entries.Shadows(key))
      ensures Model() == (if r then [(key, val)] else []) + old(Model())
      ensures Get(old(Model()), key).Raw? ==> clock == old(clock) + 1 && used == old(used)[key := old(clock)]
      ensures Get(old(Model()), key).Entry? && r ==> !entries.OneEach()
      ensures (!r ==> Refused(key)) && order != [] && order[|order| - 1].next == Newest(r)
      ensures fresh(nodes - old(nodes)) && (entries.mdata == old(entries.mdata) || fresh(entries.mdata))
      ensures entries.slots == old(entries.slots) || fresh(entries.slots)
    {
      hide *;
      Parts();
      KeyThere(key);
      var entry := LinkAgain(key, val);
      PairsFirst(entry, order);
      r := EnterFirst(key, entry);
      Whole();
      NewestLast(r, entry);
      Looped();
    }

    lemma NewestLast(r: bool, entry: Entry<K, V>)
      requires order != [] && order[|order| - 1].next == entry
      requires if r then order[0] == entry else order[0].prev == entry && entry !in order
      ensures order[|order| - 1].next == Newest(r) && (!r ==> Refused(entry.key))
    {
    }

    /** The links of a valid cache end outside the list at both ends. */
    lemma Looped()
      requires order != []
      requires order[0].prev != null || (order[|order| - 1].next != null && order[|order| - 1].next in order)
      ensures !Valid()
    {
      if Valid() {
        Ends();
      }
    }

    lemma Ends()
      requires Valid() && order != []
      ensures order[0].prev == null && order[|order| - 1].next == stale && stale !in order
    {
      LinkedIn(Snap(nodes), order, null, stale);
      Look(order[0]);
      Look(order[|order| - 1]);
    }

    /** Makes a new entry where the freed one was that is still pointed to: whatever pointed there
        points to the new entry. */
    method LinkAgain(key: K, val: V) returns (entry: Entry<K, V>)
      requires Listed() && stale != null && entries.Valid()
      modifies this`nodes, nodes
      ensures fresh(entry) && nodes == old(nodes) + {entry} && entry.key == key && entry.val == val
      ensures Shape() && entry !in order && (if order == [] then entry else order[|order| - 1]).next == entry
      ensures order != [] ==> order[0].prev == entry
      ensures entries.Valid() && entries.contents == old(entries.contents)
    {
      hide Linked, Distinct, ByLastUse, Sound, Unique, Represents, HashSlots.Used;
      entry := new Entry(key, val, mru);
      if lru == null {
        entry.next := entry;
      } else {
        lru.next := entry;
      }
      entry.next.prev := entry;
      nodes := nodes + {entry};
      assert unchanged(entries) && unchanged(entries.mdata) && unchanged(entries.slots);
    }

    /** Puts a new entry into the map and, unless that refuses it, at the front of the list. */
    method EnterFirst(key: K, entry: Entry<K, V>) returns (r: bool)
      requires entries.Valid() && Shape() && entry in nodes && entry !in order && entry != stale && entry.key == key
      modifies this`mru, this`lru, this`numEntries, this`order, this`used, this`clock
      modifies entries, entries.mdata, entries.slots
      ensures r <==> key !in old(entries.contents) || old(entries.Shadows(key))
      ensures key !in old(entries.contents) ==>
                entries.Valid() && entries.contents == old(entries.contents)[key := entry]
      ensures key in old(entries.contents) && r ==> !entries.OneEach()
      ensures !r ==> entries.Valid() && entries.contents == old(entries.contents) && Shape()
      ensures if r then order == [entry] + old(order) && used == old(used)[key := old(clock)] && clock == old(clock) + 1
              else order == old(order) && used == old(used) && clock == old(clock)
      ensures r && Distinct(order) && Linked(Snap(nodes), order, null, stale) && ByLastUse(order, used, clock) ==>
                Listed()
      ensures Snap(nodes) == old(Snap(nodes))
      ensures (entries.mdata == old(entries.mdata) || fresh(entries.mdata)) &&
              (entries.slots == old(entries.slots) || fresh(entries.slots))
    {
      hide *;
      r := Enter(key, entry);
      if r {
        AddFirst(entry);
      }
    }

    /** The new entry is the first of the list. */
    method AddFirst(entry: Entry<K, V>)
      requires Shape() && entry in nodes && entry !in order && entry != stale
      modifies this`mru, this`lru, this`numEntries, this`order, this`used, this`clock
      ensures order == [entry] + old(order) && used == old(used)[entry.key := old(clock)] && clock == old(clock) + 1
      ensures Distinct(order) && Linked(Snap(nodes), order, null, stale) && ByLastUse(order, used, clock) ==> Listed()
    {
      hide Linked, Distinct, ByLastUse;
      mru := entry;
      if lru == null {
        lru := entry;
      }
      numEntries := numEntries + 1;
      order := [entry] + order;
      used, clock := used[entry.key := clock], clock + 1;
    }

    lemma AddReady(entry: Entry<K, V>)
      requires Indexed(entries.contents, order) && entry.key !in entries.contents && entry !in order &&
               ByLastUse(order, used, clock)
      ensures Indexed(entries.contents[entry.key := entry], [entry] + order)
      ensures Pairs([entry] + order) == [(entry.key, entry.val)] + Pairs(order)
      ensures ByLastUse([entry] + order, used[entry.key := clock], clock + 1)
    {
      assert ([entry] + order)[1..] == order && [] + order == order;
      hide ByLastUse, Indexed;
      IndexedFirst(entries.contents, order, entry);
      FrontByLastUse([], entry, order, used, clock);
    }

    lemma PairsFirst(e: Entry<K, V>, l: seq<Entry<K, V>>)
      ensures Pairs([e] + l) == [(e.key, e.val)] + Pairs(l)
    {
      assert ([e] + l)[1..] == l;
    }

    lemma KeyThere(key: K)
      requires Valid()
      ensures Get(Model(), key).Raw? <==> key !in entries.contents
      ensures key in entries.contents ==> order != []
    {
      if key in entries.contents {
        var _, _ := There(key, entries.contents[key]);
      } else {
        NotThere(key);
      }
    }

    /** Makes a new entry and has the present first entry point back to it. */
    method Create(key: K, val: V) returns (entry: Entry<K, V>)
      requires Listed() && entries.Valid()
      modifies this`nodes, this`freedWrites, nodes
      ensures fresh(entry) && nodes == old(nodes) + {entry} && entry.key == key && entry.val == val
      ensures Distinct([entry] + order) && Linked(Snap(nodes), [entry] + order, null, stale) && Shape() &&
              ByLastUse(order, used, clock)
      ensures entries.Valid() && entries.contents == old(entries.contents) && entry !in order
      ensures order != [] ==> mru == order[0] && mru.prev == entry && !Listed()
      ensures freedWrites == old(freedWrites) + if old(Dangling()) then 1 else 0
    {
      hide Linked, Distinct, Indexed, ByLastUse, Sound, Unique, Represents, HashSlots.Used, Pairs;
      entry := Link(key, val);
      if Linked(Snap(nodes), order, null, stale) {
        LinkedHead(Snap(nodes), order, stale);
      }
      assert unchanged(entries) && unchanged(entries.mdata) && unchanged(entries.slots);
    }

    method Link(key: K, val: V) returns (entry: Entry<K, V>)
      requires Listed() && (order != [] ==> order[0] in nodes)
      modifies this`nodes, this`freedWrites, nodes
      ensures fresh(entry) && nodes == old(nodes) + {entry} && entry.key == key && entry.val == val
      ensures Distinct([entry] + order) && Linked(Snap(nodes), [entry] + order, null, stale) && Shape()
      ensures ByLastUse(order, used, clock) && entry !in order
      ensures order != [] ==> mru == order[0] && mru.prev == entry
      ensures freedWrites == old(freedWrites) + if old(Dangling()) then 1 else 0
    {
      hide Linked, Distinct, ByLastUse;
      ghost var m := Snap(nodes);
      entry := new Entry(key, val, mru);
      LinkedFirst(m, order, entry, stale);
      if entry.next != null {
        entry.next.prev := entry;
        freedWrites := freedWrites + if entry.next in order then 0 else 1;
      }
      nodes := nodes + {entry};
      ghost var m1 := if order == [] then m else m[order[0] := Cell(entry, m[order[0]].next)];
      LinkedFrame(m1[entry := Cell(null, Head(order, stale))], Snap(nodes), [entry] + order, null, stale);
    }

    /** Puts a new entry into the map. */
    method Enter(key: K, entry: Entry<K, V>) returns (r: bool)
      requires entries.Valid()
      modifies entries, entries.mdata, entries.slots
      ensures key !in old(entries.contents) ==>
                r && entries.Valid() && entries.contents == old(entries.contents)[key := entry]
      ensures r <==> key !in old(entries.contents) || old(entries.Shadows(key))
      ensures key in old(entries.contents) && r ==> !entries.OneEach() && !entries.Valid()
      ensures !r ==> entries.Valid() && entries.contents == old(entries.contents)
      ensures Snap(nodes) == old(Snap(nodes)) && Listed() == old(Listed()) && Shape() == old(Shape())
      ensures (entries.mdata == old(entries.mdata) || fresh(entries.mdata)) &&
              (entries.slots == old(entries.slots) || fresh(entries.slots))
    {
      hide Snap, Listed, Shape;
      KeyIn(entries.mdata[..], entries.slots[..], entries.contents, key);
      r := entries.Insert(key, entry);
      assert unchanged(nodes);
    }
  }
}
