/** An open-addressing hash map that doubles when a third of its slots have been written. */
module HashMap {
  import opened HashSlots

  const INV_LOAD_FACTOR: nat := 3

  class HashMap<K(==), V> {
    const hash: K -> nat
    var mdata: array<int>
    var slots: array<Slot<K, V>>
    var capacity: nat
    var numEntries: nat
    ghost var contents: map<K, V>

    /** The tables are whole and probing can end: at least two thirds of the slots are empty, or
        one of one. */
    ghost predicate Tables()
      reads this`mdata, this`slots, this`capacity, this`numEntries, mdata, slots
    {
      && mdata.Length == slots.Length == capacity > 0
      && Sound(hash, mdata[..], slots[..])
      && Used(mdata[..]) <= numEntries <= capacity / INV_LOAD_FACTOR
    }

    /** Each key has one entry, and the entries are those of `contents`. */
    ghost predicate Valid()
      reads this, mdata, slots
    {
      Tables() && Unique(mdata[..], slots[..]) && Represents(mdata[..], slots[..], contents)
    }

    /** Inserting `key` does not see that it is there. */
    ghost predicate Shadows(key: K)
      reads this`mdata, this`slots, mdata, slots
    {
      mdata.Length == slots.Length > 0 && Shadowed(hash, mdata[..], slots[..], key)
    }

    /** No key has two entries. */
    ghost predicate OneEach()
      reads this`mdata, this`slots, mdata, slots
    {
      mdata.Length == slots.Length && Unique(mdata[..], slots[..])
    }

    constructor (hasher: K -> nat, initialSize: nat)
      requires initialSize > 0
      ensures Valid() && contents == map[] && numEntries == 0 && capacity == initialSize && hash == hasher
      ensures fresh(mdata) && fresh(slots)
    {
      hash := hasher;
      mdata := new int[initialSize](_ => EMPTY);
      slots := new Slot<K, V>[initialSize](_ => Raw);
      capacity, numEntries := initialSize, 0;
      contents := map[];
      new;
      AllEmpty(mdata[..]);
    }

    /** The slot that holds `key`, or -1. */
    method Find(key: K) returns (r: int)
      requires Tables()
      ensures r == -1 <==> !Has(mdata[..], slots[..], key)
      ensures r != -1 ==> 0 <= r < capacity && Live(mdata[..], r) && slots[r].Entry? && slots[r].key == key
    {
      hide Clear, Used, Has, Passed;
      var ind: nat := H1(hash(key)) % capacity;
      ghost var md, sl, h := mdata[..], slots[..], Home(hash, capacity, key);
      AtHome(md, sl, h, key);
      while ind < capacity && mdata[ind] != EMPTY
        invariant ind < capacity && Clear(md, h, ind) && Passed(md, sl, h, ind, key)
        decreases capacity - Dist(capacity, h, ind)
      {
        assert Live(md, ind) ==> sl[ind].Entry?;
        if H2(hash(key)) == mdata[ind] && key == slots[ind].key {
          Holds(md, sl, ind);
          return ind;
        }
        ProbePast(hash, md, sl, h, ind, key);
        ind := (ind + 1) % capacity;
      }
      Absent(hash, md, sl, ind, key);
      return -1;
    }

    method Lookup(key: K) returns (r: Slot<K, V>)
      requires Valid()
      ensures r == if key in contents then Entry(key, contents[key]) else Raw
    {
      var ind := Find(key);
      if ind == -1 {
        return Raw;
      }
      return slots[ind];
    }

    /** Stores a new entry. A key that is in the map is found and refused, unless it is shadowed. */
    method Insert(key: K, val: V) returns (r: bool)
      requires Valid()
      modifies this, mdata, slots
      ensures Tables() && (mdata == old(mdata) || fresh(mdata)) && (slots == old(slots) || fresh(slots))
      ensures key !in old(contents) ==> r && Valid() && contents == old(contents)[key := val]
      ensures key in old(contents) && !old(Shadowed(hash, mdata[..], slots[..], key)) ==>
                !r && Valid() && contents == old(contents) && numEntries == old(numEntries)
      ensures old(Shadowed(hash, mdata[..], slots[..], key)) ==> r && !Unique(mdata[..], slots[..])
      ensures r ==> numEntries == old(numEntries) + 1
      ensures capacity == if r && numEntries > old(capacity) / INV_LOAD_FACTOR then (old(capacity) + 1) * 2 - 1
              else old(capacity)
    {
      hide Clear, Used, AllLive, Unique, Shadowed, Next, Represents;
      var ind: nat := H1(hash(key)) % capacity;
      ghost var md, sl, h := mdata[..], slots[..], Home(hash, capacity, key);
      AllLiveAtHome(md, sl, h, key);
      KeyIn(md, sl, contents, key);
      while mdata[ind] != EMPTY && mdata[ind] != DELETED
        invariant ind < capacity && Clear(md, h, ind) && AllLive(md, sl, h, ind, key)
        invariant mdata == old(mdata) && slots == old(slots) && mdata[..] == md && slots[..] == sl
        invariant capacity == old(capacity) && numEntries == old(numEntries) && contents == old(contents)
        decreases capacity - Dist(capacity, h, ind)
      {
        assert Live(md, ind);
        if H2(hash(key)) == mdata[ind] && key == slots[ind].key {
          Found(hash, md, sl, ind, key);
          return false;
        }
        ProbeLive(hash, md, sl, h, ind, key);
        Wraps(capacity, ind);
        ind := Next(capacity, ind);
      }
      Missed(hash, md, sl, ind, key);
      Store(ind, key, val);
      r := true;
    }

    /** Stores an entry in a slot that is not live, and rehashes if that was one too many. */
    method Store(ind: nat, key: K, val: V)
      requires Valid() && ind < capacity && !Live(mdata[..], ind) && Clear(mdata[..], Home(hash, capacity, key), ind)
      modifies this, mdata, slots
      ensures Tables() && (mdata == old(mdata) || fresh(mdata)) && (slots == old(slots) || fresh(slots))
      ensures key !in old(contents) ==> Valid() && contents == old(contents)[key := val]
      ensures key in old(contents) ==> !Unique(mdata[..], slots[..])
      ensures numEntries == old(numEntries) + 1
      ensures capacity == if numEntries > old(capacity) / INV_LOAD_FACTOR then (old(capacity) + 1) * 2 - 1
              else old(capacity)
    {
      hide Clear, Used, Unique, Represents, Sound;
      ghost var md, sl := mdata[..], slots[..];
      KeyIn(md, sl, contents, key);
      Stored(hash, md, sl, ind, key, val);
      UsedUpdate(md, ind, H2(hash(key)));
      if key in contents {
        Doubled(md, sl, ind, key, val, H2(hash(key)));
      } else {
        Bound(md, sl, contents, ind, key, val, H2(hash(key)));
      }
      mdata[ind] := H2(hash(key));
      slots[ind] := Entry(key, val);
      assert mdata[..] == md[ind := H2(hash(key))] && slots[..] == sl[ind := Entry(key, val)];
      contents := contents[key := val];
      numEntries := numEntries + 1;
      if numEntries > capacity / INV_LOAD_FACTOR {
        Rehash();
      }
    }

    /** Buries the entry of `key`; the number of entries is not brought down. */
    method Delete(key: K) returns (r: bool)
      requires Valid()
      modifies this`contents, mdata
      ensures Valid() && r == (key in old(contents)) && contents == old(contents) - {key}
    {
      var ind := Find(key);
      KeyIn(mdata[..], slots[..], contents, key);
      if ind == -1 {
        assert contents - {key} == contents;
        return false;
      }
      Buried(hash, mdata[..], slots[..], ind);
      Unbound(mdata[..], slots[..], contents, ind, key);
      UsedUpdate(mdata[..], ind, DELETED);
      ghost var md := mdata[..];
      mdata[ind] := DELETED;
      assert mdata[..] == md[ind := DELETED];
      contents := contents - {key};
      return true;
    }

    /** Moves every entry to tables of twice the size, leaving the tombstones behind. */
    method Rehash()
      requires mdata.Length == slots.Length == capacity > 0 && Sound(hash, mdata[..], slots[..])
      requires Used(mdata[..]) <= numEntries <= capacity / INV_LOAD_FACTOR + 1
      modifies this`mdata, this`slots, this`capacity
      ensures Tables() && fresh(mdata) && fresh(slots) && capacity == (old(capacity) + 1) * 2 - 1
      ensures Unique(mdata[..], slots[..]) <==> old(Unique(mdata[..], slots[..]))
      ensures Represents(mdata[..], slots[..], contents) <==> old(Represents(mdata[..], slots[..], contents))
    {
      hide Sound, Used, Unique, Represents, Moved;
      var oldCapacity := capacity;
      capacity := (capacity + 1) * 2 - 1;
      var newMdata := new int[capacity](_ => EMPTY);
      var newSlots := new Slot<K, V>[capacity](_ => Raw);
      ghost var md, sl := mdata[..], slots[..];
      ghost var to: seq<int>, from: seq<int> := [], seq(capacity, _ => -1);
      FreshTables(hash, md, sl, newMdata[..], newSlots[..], from);
      var i := 0;
      while i < oldCapacity
        invariant 0 <= i <= oldCapacity && mdata[..] == md && slots[..] == sl
        invariant newMdata.Length == newSlots.Length == capacity && |from| == capacity
        invariant Sound(hash, newMdata[..], newSlots[..])
        invariant Moved(md, sl, i, newMdata[..], newSlots[..], to, from)
        invariant Used(newMdata[..]) <= Used(md[..i])
      {
        UsedPrefix(md, i);
        if mdata[i] != EMPTY && mdata[i] != DELETED {
          Tagged(hash, md, sl, i);
          ghost var md', sl' := newMdata[..], newSlots[..];
          ghost var y := Place(newMdata, newSlots, slots[i].key, slots[i].val);
          MoveOne(md, sl, i, md', sl', to, from, y);
          to, from := to + [y], from[y := i];
        } else {
          MoveNone(md, sl, i, newMdata[..], newSlots[..], to, from);
          to := to + [-1];
        }
        i := i + 1;
      }
      assert md[..oldCapacity] == md;
      MovedAll(md, sl, newMdata[..], newSlots[..], to, from, contents);
      mdata := newMdata;
      slots := newSlots;
    }

    /** Stores an entry in the first empty slot from its home. */
    method Place(md: array<int>, sl: array<Slot<K, V>>, key: K, val: V) returns (ghost ind: nat)
      requires md.Length == sl.Length == capacity > 0 && Sound(hash, md[..], sl[..]) && Used(md[..]) < capacity
      modifies md, sl
      ensures ind < capacity && old(md[..])[ind] == EMPTY && Sound(hash, md[..], sl[..])
      ensures md[..] == old(md[..])[ind := H2(hash(key))] && sl[..] == old(sl[..])[ind := Entry(key, val)]
      ensures Used(md[..]) == old(Used(md[..])) + 1
    {
      hide Sound, Used, Next, Clear;
      ghost var md0, sl0, h := md[..], sl[..], Home(hash, capacity, key);
      AllLiveAtHome(md0, sl0, h, key);
      var newInd: nat := H1(hash(key)) % capacity;
      while md[newInd] != EMPTY
        invariant newInd < capacity && Clear(md0, h, newInd) && md[..] == md0 && sl[..] == sl0
        decreases capacity - Dist(capacity, h, newInd)
      {
        Probe(md0, h, newInd);
        Wraps(capacity, newInd);
        newInd := Next(capacity, newInd);
      }
      Stored(hash, md0, sl0, newInd, key, val);
      UsedUpdate(md0, newInd, H2(hash(key)));
      ind := newInd;
      md[newInd] := H2(hash(key));
      sl[newInd] := Entry(key, val);
      assert md[..] == md0[ind := H2(hash(key))] && sl[..] == sl0[ind := Entry(key, val)];
    }
  }
}
