/** A disk behind a write-back cache of its sectors. */
module SataPort {
  import opened HashSlots
  import opened LruList
  import opened LruCache
  import opened SectorRuns

  type Sector = seq<int>

  datatype Option<T> = None | Some(value: T)

  class CachedSector {
    var sector: Sector
    var dirty: bool

    constructor (sector: Sector, dirty: bool)
      ensures this.sector == sector && this.dirty == dirty
    {
      this.sector, this.dirty := sector, dirty;
    }
  }

  /** A sector as the cache has it. */
  datatype Copy = Copy(sector: Sector, dirty: bool)

  /** A sector of the logical disk: the cached copy, or else what the device holds. */
  function Logical(copies: map<nat, Copy>, disk: seq<Sector>, k: nat): Option<Sector> {
    if k in copies then Some(copies[k].sector)
    else if k < |disk| then Some(disk[k])
    else None
  }

  /** Clean copies are what the device holds. */
  ghost predicate Clean(copies: map<nat, Copy>, disk: seq<Sector>) {
    forall k | k in copies && !copies[k].dirty :: k < |disk| && copies[k].sector == disk[k]
  }

  /** The cached sectors are known ones, and no two keys share one. */
  ghost predicate Apart(cached: map<nat, CachedSector>, sectors: set<CachedSector>) {
    && (forall k | k in cached :: cached[k] in sectors)
    && (forall k, l | k in cached && l in cached && cached[k] == cached[l] :: k == l)
  }

  ghost function CopiesOf(cached: map<nat, CachedSector>, sectors: set<CachedSector>): map<nat, Copy>
    reads sectors
  {
    assert var w := map k | k in cached && cached[k] in sectors :: Copy(cached[k].sector, cached[k].dirty);
           Hold(cached, sectors, w);
    var m: map<nat, Copy> :| Hold(cached, sectors, m);
    m
  }

  /** `m` is what the sectors in `cached` hold. */
  ghost predicate Hold(cached: map<nat, CachedSector>, sectors: set<CachedSector>, m: map<nat, Copy>)
    reads sectors
  {
    && (forall k :: k in m <==> k in cached && cached[k] in sectors)
    && (forall k | k in m && k in cached && cached[k] in sectors :: m[k] == Copy(cached[k].sector, cached[k].dirty))
  }

  /** The logical disk is as before, apart from the sectors in `except`. */
  ghost predicate Same(copies: map<nat, Copy>, disk: seq<Sector>, copies': map<nat, Copy>, disk': seq<Sector>,
                       except: set<nat>) {
    forall k: nat | k !in except :: Logical(copies', disk', k) == Logical(copies, disk, k)
  }

  /** The device after a sector has left the cache. */
  function WrittenBack(disk: seq<Sector>, k: nat, copy: Copy, ok: bool): seq<Sector> {
    if copy.dirty && ok && k < |disk| then disk[k := copy.sector] else disk
  }

  /** Evicting a sector does not change the logical disk, unless it was dirty and could not be
      written back. */
  lemma Evicted(copies: map<nat, Copy>, disk: seq<Sector>, k: nat, ok: bool)
    requires k in copies && Clean(copies, disk) && (ok && copies[k].dirty ==> k < |disk|)
    ensures var disk' := WrittenBack(disk, k, copies[k], ok);
            Clean(copies - {k}, disk') && Same(copies, disk, copies - {k}, disk', if ok then {} else {k})
  {
  }

  lemma PutApart(cached: map<nat, CachedSector>, sectors: set<CachedSector>, gone: set<nat>, k: nat,
                 entry: CachedSector)
    requires Apart(cached, sectors) && k !in cached && entry in sectors && forall l | l in cached :: cached[l] != entry
    ensures Apart((cached - gone)[k := entry], sectors)
  {
  }

  /** Caching a sector that was not in the cache, perhaps after evicting `z`. */
  lemma PutClean(copies: map<nat, Copy>, disk: seq<Sector>, disk': seq<Sector>, evict: bool, z: nat, ok: bool, k: nat,
                 copy: Copy)
    requires Clean(copies, disk) && k !in copies && (!copy.dirty ==> k < |disk| && copy.sector == disk[k])
    requires !evict ==> disk' == disk
    requires evict ==>
              z in copies && disk' == WrittenBack(disk, z, copies[z], ok) && (ok && copies[z].dirty ==> z < |disk|)
    ensures |disk'| == |disk| && Clean((copies - (if evict then {z} else {}))[k := copy], disk')
    ensures Same(copies[k := copy], disk, (copies - (if evict then {z} else {}))[k := copy], disk',
                 if evict && !ok then {z} else {})
  {
    if evict {
      Evicted(copies, disk, z, ok);
    }
  }

  lemma PutCopies(cached: map<nat, CachedSector>, sectors: set<CachedSector>, gone: set<nat>, k: nat,
                  entry: CachedSector)
    requires entry in sectors
    ensures CopiesOf((cached - gone)[k := entry], sectors) ==
            (CopiesOf(cached, sectors) - gone)[k := Copy(entry.sector, entry.dirty)]
  {
  }

  ghost predicate NoneIn(cached: map<nat, CachedSector>, from: nat, to: nat) {
    forall k: nat | from <= k < to :: k !in cached
  }

  /** The logical disk is the one before with the sectors from `from` up to `to` taken from `data`,
      apart from the sectors in `except`. */
  ghost predicate Overlaid(copies0: map<nat, Copy>, disk0: seq<Sector>, copies: map<nat, Copy>, disk: seq<Sector>,
                           data: seq<Sector>, base: nat, from: nat, to: nat, except: set<nat>)
  {
    forall k: nat | k !in except ::
      Logical(copies, disk, k) == if from <= k < to && base <= k < base + |data| then Some(data[k - base])
        else Logical(copies0, disk0, k)
  }

  /** The sectors from `from` up to `to` of the buffer are those of the device. */
  ghost predicate FromDisk(disk: seq<Sector>, data: seq<Sector>, base: nat, from: nat, to: nat) {
    base <= from && to <= base + |data| && to <= |disk| && forall k: nat | from <= k < to :: data[k - base] == disk[k]
  }

  ghost predicate Dirty(copies: map<nat, Copy>, k: nat) {
    k in copies && copies[k].dirty
  }

  /** What became of the cached sectors while those from `base` up to `got` were cached or, if
      `write`, written: the device has refused to write back just those in `lost`, which were dirty,
      and no other sectors than these are newly cached or dirty. */
  ghost predicate Traced(
    copies0: map<nat, Copy>, log0: seq<nat>, copies: map<nat, Copy>, log: seq<nat>, lost: set<nat>,
    write: bool, base: nat, got: nat)
  {
    && Logged(log0, log, lost)
    && (forall k | k in copies :: k in copies0 || base <= k < got)
    && (forall k | k in copies && copies[k].dirty :: Dirty(copies0, k) || (write && base <= k < got))
    && (forall k | k in lost :: Dirty(copies0, k) || (write && base <= k < got))
  }

  lemma TracedNothing(copies0: map<nat, Copy>, log0: seq<nat>, copies: map<nat, Copy>, log: seq<nat>, write: bool,
                      base: nat, got: nat)
    requires Traced(copies0, log0, copies, log, {}, write, base, got)
    ensures log == log0
  {
    SomeMember(log[|log0|..]);
  }

  lemma SomeMember(s: seq<nat>)
    ensures s != [] ==> exists k :: k in s
  {
    if s != [] {
      assert s[0] in s;
    }
  }

  /** The entries of the log since `log0`. */
  ghost predicate Logged(log0: seq<nat>, log: seq<nat>, since: set<nat>) {
    && |log0| <= |log| && log[..|log0|] == log0
    && (forall k :: k in since <==> k in log[|log0|..])
  }

  lemma InLog(log0: seq<nat>, log: seq<nat>, since: set<nat>)
    requires Logged(log0, log, since)
    ensures forall k | k in since :: k in log
  {
    assert log == log[..|log0|] + log[|log0|..];
  }

  lemma LoggedThen(log0: seq<nat>, log1: seq<nat>, log2: seq<nat>, s1: set<nat>, s2: set<nat>)
    requires Logged(log0, log1, s1) && Logged(log1, log2, s2)
    ensures Logged(log0, log2, s1 + s2)
  {
    assert log2[..|log0|] == log2[..|log1|][..|log0|];
    assert log2[|log0|..] == log1[|log0|..] + log2[|log1|..];
  }

  lemma TracedNone(copies: map<nat, Copy>, log: seq<nat>, write: bool, base: nat, got: nat)
    ensures Traced(copies, log, copies, log, {}, write, base, got)
  {
  }

  lemma TracedThen(
    c0: map<nat, Copy>, log0: seq<nat>, c1: map<nat, Copy>, log1: seq<nat>, c2: map<nat, Copy>, log2: seq<nat>,
    lost1: set<nat>, lost2: set<nat>, write: bool, base: nat, mid: nat, got: nat)
    requires Traced(c0, log0, c1, log1, lost1, write, base, mid) && Traced(c1, log1, c2, log2, lost2, write, mid, got)
    requires base <= mid <= got
    ensures Traced(c0, log0, c2, log2, lost1 + lost2, write, base, got)
  {
    LoggedThen(log0, log1, log2, lost1, lost2);
    hide Logged;
  }

  lemma TracedKeys(c0: map<nat, Copy>, log0: seq<nat>, c: map<nat, Copy>, log: seq<nat>, lost: set<nat>, write: bool,
                   base: nat, got: nat)
    requires Traced(c0, log0, c, log, lost, write, base, got)
    ensures forall k | k in c && k >= got :: k in c0
  {
  }

  lemma TracedFurther(c0: map<nat, Copy>, log0: seq<nat>, c: map<nat, Copy>, log: seq<nat>, lost: set<nat>, write: bool,
                      base: nat, got: nat, got': nat)
    requires Traced(c0, log0, c, log, lost, write, base, got) && got <= got'
    ensures Traced(c0, log0, c, log, lost, write, base, got')
  {
    hide Logged;
  }

  lemma PutTraced(copies: map<nat, Copy>, log: seq<nat>, gone: set<nat>, lost: set<nat>, k: nat, copy: Copy)
    requires |lost| <= 1 && forall l | l in lost :: Dirty(copies, l)
    ensures Traced(copies, log, (copies - gone)[k := copy], log, {}, copy.dirty, k, k + 1)
    ensures forall z | lost == {z} ::
              Traced(copies, log, (copies - gone)[k := copy], log + [z], {z}, copy.dirty, k, k + 1)
  {
    forall z | lost == {z}
      ensures Logged(log, log + [z], lost)
    {
      assert (log + [z])[|log|..] == [z];
    }
  }

  lemma TracedEvict(copies: map<nat, Copy>, log: seq<nat>, k: nat, ok: bool)
    requires !ok ==> Dirty(copies, k)
    ensures Traced(copies, log, copies - {k}, if ok then log else log + [k], if ok then {} else {k}, false, 0, 0)
  {
    assert (log + [k])[|log|..] == [k];
  }

  lemma MinIs(a: nat, b: nat)
    ensures Min(a, b) == if a < b then a else b
  {
  }

  lemma NoRound(copies: map<nat, Copy>, disk: seq<Sector>, log: seq<nat>, data: seq<Sector>, write: bool, base: nat,
                from: nat, got: nat,
                lost: set<nat>, missed: set<nat>)
    requires lost == {} && missed == {}
    ensures Overlaid(copies, disk, copies, disk, data, base, from, from, lost + missed)
    ensures Traced(copies, log, copies, log, lost, write, from, got)
  {
    TracedNone(copies, log, write, from, got);
  }

  /** Writing to a cached copy dirties it. */
  lemma TracedCopy(c0: map<nat, Copy>, log0: seq<nat>, c: map<nat, Copy>, log: seq<nat>, lost: set<nat>, write: bool,
                   base: nat, k: nat, copy: Copy)
    requires Traced(c0, log0, c, log, lost, write, base, k) && base <= k
    ensures Traced(c0, log0, c, log, lost, write, base, k + 1)
    ensures write ==> Traced(c0, log0, c[k := copy], log, lost, write, base, k + 1)
  {
    hide Logged;
  }

  lemma OverlaidNone(copies: map<nat, Copy>, disk: seq<Sector>, data: seq<Sector>, base: nat, from: nat)
    ensures Overlaid(copies, disk, copies, disk, data, base, from, from, {})
  {
  }

  /** The new entry is at the front, and the last one is gone if memory was critical. */
  ghost predicate Inserted<K, V>(m: seq<(K, V)>, m': seq<(K, V)>, k: K, entry: V, critical: bool) {
    if critical && |m| > 0 then m' == [(k, entry)] + m[..|m| - 1] && m[|m| - 1].0 !in Index(m')
    else m' == [(k, entry)] + m
  }

  // ---------------------------------------------------------------- evictions

  function Keys(m: seq<(nat, CachedSector)>): (r: seq<nat>)
    ensures |r| == |m| && forall i | 0 <= i < |m| :: r[i] == m[i].0
  {
    if m == [] then [] else [m[0].0] + Keys(m[1..])
  }

  lemma KeysInserted(m: seq<(nat, CachedSector)>, m': seq<(nat, CachedSector)>, k: nat, entry: CachedSector,
                     critical: bool)
    requires Inserted(m, m', k, entry, critical)
    ensures Keys(m') == Press(Keys(m), k, critical)
  {
  }

  lemma {:induction false} KeysIndex(m: seq<(nat, CachedSector)>, k: nat)
    ensures k in Keys(m) <==> k in Index(m)
  {
    if m != [] {
      KeysIndex(m[1..], k);
      assert k in Keys(m) <==> k == m[0].0 || k in Keys(m[1..]);
    }
  }

  lemma {:induction false} KeysDrop(m: seq<(nat, CachedSector)>, k: nat)
    ensures Keys(Drop(m, k)) == Removed(Keys(m), k)
  {
    if m != [] {
      KeysDrop(m[1..], k);
      assert Keys(m)[1..] == Keys(m[1..]);
      assert ([m[0]] + Drop(m[1..], k))[1..] == Drop(m[1..], k);
    }
  }

  /** What looking a sector up does to the keys. */
  lemma KeysToFront(m: seq<(nat, CachedSector)>, k: nat)
    ensures Keys(ToFront(m, k)) == Front(Keys(m), k)
  {
    IndexGet(m, k);
    KeysIndex(m, k);
    KeysDrop(m, k);
    if k in Index(m) {
      var v := Index(m)[k];
      assert ([(k, v)] + Drop(m, k))[1..] == Drop(m, k);
    }
  }

  lemma KeysFirst(m: seq<(nat, CachedSector)>, lba: nat, i: nat, n: nat, r: nat)
    requires i <= r <= n && NoneIn(Index(m), lba + i, lba + r) && (r < n ==> lba + r in Index(m))
    ensures FirstIn(Keys(m), lba, i, n) == r
  {
    hide Index;
    forall k: nat | lba + i <= k < lba + r
      ensures k !in Keys(m)
    {
      KeysIndex(m, k);
    }
    KeysIndex(m, lba + r);
    FirstIs(Keys(m), lba, i, n, r);
  }

  lemma PutFirst<K, V>(m: seq<(K, V)>, k: K, entry: V)
    requires KeysDistinct(m) && k !in Index(m)
    ensures Get(m, k).Raw? && Index([(k, entry)] + m) == Index(m)[k := entry] &&
            Inserted(m, [(k, entry)] + m, k, entry, false)
    ensures |m| == 0 ==> Inserted(m, [(k, entry)] + m, k, entry, true)
    ensures |m| > 0 ==>
              var r, z := m[..|m| - 1], m[|m| - 1];
              && z.0 in Index(m) && Index(m)[z.0] == z.1 && Get(r, k).Raw? &&
                 Inserted(m, [(k, entry)] + r, k, entry, true)
              && Index([(k, entry)] + r) == (Index(m) - {z.0})[k := entry]
  {
    IndexPut(m, k, entry);
  }

  /** Apart from `k`, what is cached is what was cached. */
  ghost predicate Narrowed(cached: map<nat, CachedSector>, cached': map<nat, CachedSector>, k: nat) {
    forall l | l in cached' && l != k :: l in cached && cached'[l] == cached[l]
  }

  /** What has become of a sector that was found in the cache, if one was, after `j` others were
      put in: it is still there if more than `j` sectors are. */
  ghost predicate Hit(m0: seq<(nat, CachedSector)>, m: seq<(nat, CachedSector)>, j: nat, hit: nat,
                      entry: CachedSector?) {
    && |m| >= |m0|
    && (entry != null ==>
      && (hit in Index(m) ==> Index(m)[hit] == entry)
      && (hit !in Index(m) ==> forall l | l in Index(m) :: Index(m)[l] != entry)
      && (if j < |m| then m[j].0 == hit else hit !in Index(m)))
  }

  lemma HitMore(m0: seq<(nat, CachedSector)>, m: seq<(nat, CachedSector)>, m': seq<(nat, CachedSector)>, j: nat,
                hit: nat, entry: CachedSector?, k: nat, sector: CachedSector, critical: bool)
    requires Hit(m0, m, j, hit, entry) && Inserted(m, m', k, sector, critical) && Narrowed(Index(m), Index(m'), k)
    requires (entry != null ==> k != hit && sector != entry) && k in Index(m') && Index(m')[k] == sector
    requires hit in Index(m) ==> forall l | l in Index(m) && l != hit :: Index(m)[l] != Index(m)[hit]
    ensures Hit(m0, m', j + 1, hit, entry)
  {
    hide Index;
  }

  /** One more sector cached. */
  lemma OverlaidMore(copies0: map<nat, Copy>, disk0: seq<Sector>, copies: map<nat, Copy>, disk: seq<Sector>,
                     copies': map<nat, Copy>, disk': seq<Sector>, data: seq<Sector>, base: nat, from: nat, to: nat,
                     except: set<nat>, lost: set<nat>, dirty: bool)
    requires Overlaid(copies0, disk0, copies, disk, data, base, from, to, except) && base <= from <= to < base + |data|
    requires Same(copies[to := Copy(data[to - base], dirty)], disk, copies', disk', lost)
    ensures Overlaid(copies0, disk0, copies', disk', data, base, from, to + 1, except + lost)
  {
  }

  /** Evictions do not touch the device's copy of a sector that was not cached. */
  lemma StillFromDisk(copies: map<nat, Copy>, disk: seq<Sector>, copies': map<nat, Copy>, disk': seq<Sector>,
                      data: seq<Sector>,
                      base: nat, from: nat, to: nat, k: nat, copy: Copy, lost: set<nat>,
                      cached: map<nat, CachedSector>, cached': map<nat, CachedSector>)
    requires FromDisk(disk, data, base, from, to) && k < from && |disk'| == |disk|
    requires Same(copies[k := copy], disk, copies', disk', lost)
    requires NoneIn(cached, k, to) && NoneIn(cached', from, to) && (forall l | l in lost :: l in cached)
    requires copies.Keys <= cached.Keys && copies'.Keys <= cached'.Keys
    ensures FromDisk(disk', data, base, from, to)
  {
    forall l: nat | from <= l < to
      ensures data[l - base] == disk'[l]
    {
      assert l !in cached && l !in cached' && l !in copies && l !in copies';
      assert Logical(copies', disk', l) == Logical(copies[k := copy], disk, l);
    }
  }

  lemma OnDisk(disk: seq<Sector>, data: seq<Sector>, base: nat, k: nat, to: nat)
    requires FromDisk(disk, data, base, k, to) && k < to
    ensures k < |disk| && data[k - base] == disk[k] && FromDisk(disk, data, base, k + 1, to)
  {
  }

  lemma NotIn(cached: map<nat, CachedSector>, k: nat, to: nat)
    requires NoneIn(cached, k, to) && k < to
    ensures k !in cached
  {
  }

  /** One round, from what looking for its sectors and putting those in have made of the cache. */
  lemma RoundIs(m0: seq<(nat, CachedSector)>, m1: seq<(nat, CachedSector)>, m2: seq<(nat, CachedSector)>, lba: nat,
                i: nat, n: nat, next: nat, critical: nat -> bool, t: nat, missed: set<nat>)
    requires i < n && next == FirstIn(Keys(m0), lba, i, n)
    requires Keys(m1) == if next < n then Front(Keys(m0), lba + next) else Keys(m0)
    requires Reached(m1, m2, lba + i, critical, t, next - i)
    requires missed == if next < n && lba + next !in Index(m2) then {lba + next} else {}
    ensures OneRound(Keys(m0), lba, i, n, critical, t) == Served(Keys(m2), t + (next - i), missed)
  {
    hide Index, Keys, Front, Run, FirstIn, Course;
    KeysIndex(m2, lba + next);
  }

  /** What was missed is on the logical disk as it was: a write to it is lost. */
  ghost predicate Unwritten(copies0: map<nat, Copy>, disk0: seq<Sector>, copies: map<nat, Copy>, disk: seq<Sector>,
                            missed: set<nat>, lost: set<nat>) {
    forall k | k in missed && k !in lost :: Logical(copies, disk, k) == Logical(copies0, disk0, k)
  }

  lemma NoneUnwritten(c0: map<nat, Copy>, d0: seq<Sector>, c: map<nat, Copy>, d: seq<Sector>, lost: set<nat>)
    ensures Unwritten(c0, d0, c, d, {}, lost)
  {
  }

  lemma OutOfRange(c0: map<nat, Copy>, d0: seq<Sector>, c: map<nat, Copy>, d: seq<Sector>, data: seq<Sector>, base: nat,
                   from: nat, to: nat, k: nat, missed: set<nat>, lost: set<nat>)
    requires Overlaid(c0, d0, c, d, data, base, from, to, lost) && to <= k && missed <= {k}
    ensures Unwritten(c0, d0, c, d, missed, lost)
  {
  }

  lemma UnwrittenThen(c0: map<nat, Copy>, d0: seq<Sector>, c1: map<nat, Copy>, d1: seq<Sector>, c2: map<nat, Copy>,
                      d2: seq<Sector>, data: seq<Sector>, data': seq<Sector>, base: nat, mid: nat, to0: nat, to: nat,
                      missed0: set<nat>, lost0: set<nat>, missed1: set<nat>, lost1: set<nat>)
    requires Unwritten(c0, d0, c1, d1, missed0, lost0) && Unwritten(c1, d1, c2, d2, missed1, lost1)
    requires Overlaid(c0, d0, c1, d1, data, base, base, to0, lost0 + missed0) && to0 <= mid
    requires Overlaid(c1, d1, c2, d2, data', base, mid, to, lost1 + missed1)
    requires (forall k | k in missed0 :: k < mid) && forall k | k in missed1 :: k >= mid
    ensures Unwritten(c0, d0, c2, d2, missed0 + missed1, lost0 + lost1)
  {
  }

  /** The cache is what `j` insertions, from the `t`th on, have made of `m0`. */
  ghost predicate Reached(m0: seq<(nat, CachedSector)>, m: seq<(nat, CachedSector)>, from: nat,
                          critical: nat -> bool, t: nat, j: nat) {
    Keys(m) == Run(Keys(m0), from, Course(critical, t, j))
  }

  lemma ReachedNone(m: seq<(nat, CachedSector)>, from: nat, critical: nat -> bool, t: nat)
    ensures Reached(m, m, from, critical, t, 0)
  {
    NothingRun(Keys(m), from, critical, t);
  }

  /** What caching sector `k` leaves for the ones after it. */
  lemma StepOn(m0: seq<(nat, CachedSector)>, m: seq<(nat, CachedSector)>, m': seq<(nat, CachedSector)>, from: nat,
               critical: nat -> bool, t: nat, j: nat, hit: nat, entry: CachedSector?, k: nat, sector: CachedSector,
               to: nat)
    requires NoneIn(Index(m), k, to) && k < to && Hit(m0, m, j, hit, entry) && k == from + j
    requires Reached(m0, m, from, critical, t, j) && (entry != null ==> k != hit && sector != entry)
    requires Inserted(m, m', k, sector, critical(t + j)) && Narrowed(Index(m), Index(m'), k)
    requires k in Index(m') && Index(m')[k] == sector
    requires forall l, i | l in Index(m) && i in Index(m) && Index(m)[l] == Index(m)[i] :: l == i
    ensures NoneIn(Index(m'), k + 1, to) && Hit(m0, m', j + 1, hit, entry) && Reached(m0, m', from, critical, t, j + 1)
  {
    hide Index, Run, Keys, Press, Course;
    KeysInserted(m, m', k, sector, critical(t + j));
    RunMore(Keys(m0), from, critical, t, j);
    HitMore(m0, m, m', j, hit, entry, k, sector, critical(t + j));
  }

  /** One overlay after another. */
  lemma OverlaidThen(c0: map<nat, Copy>, d0: seq<Sector>, c1: map<nat, Copy>, d1: seq<Sector>, c2: map<nat, Copy>,
                     d2: seq<Sector>,
                     data: seq<Sector>, base: nat, from: nat, mid: nat, to: nat, e1: set<nat>, e2: set<nat>)
    requires Overlaid(c0, d0, c1, d1, data, base, from, mid, e1) && Overlaid(c1, d1, c2, d2, data, base, mid, to, e2)
    requires base <= from <= mid <= to <= base + |data|
    ensures Overlaid(c0, d0, c2, d2, data, base, from, to, e1 + e2)
  {
  }

  /** The same, for overlays of nothing. */
  lemma OverlaidNothing(c0: map<nat, Copy>, d0: seq<Sector>, c1: map<nat, Copy>, d1: seq<Sector>, c2: map<nat, Copy>,
                        d2: seq<Sector>,
                        data: seq<Sector>, data': seq<Sector>, base: nat, from: nat, from': nat, from'': nat,
                          e1: set<nat>, e2: set<nat>)
    requires Overlaid(c0, d0, c1, d1, data, base, from, from, e1) &&
             Overlaid(c1, d1, c2, d2, data', base, from', from', e2)
    ensures Overlaid(c0, d0, c2, d2, data', base, from'', from'', e1 + e2)
  {
  }

  ghost predicate Uncopied(copies: map<nat, Copy>, from: nat, to: nat) {
    forall k: nat | from <= k < to :: k !in copies
  }

  /** Caching sectors just read from the device leaves the logical disk as it is. */
  lemma OverlaidRead(c0: map<nat, Copy>, d0: seq<Sector>, c1: map<nat, Copy>, d1: seq<Sector>, data: seq<Sector>,
                     base: nat,
                     from: nat, to: nat, e: set<nat>)
    requires Overlaid(c0, d0, c1, d1, data, base, from, to, e) && FromDisk(d0, data, base, from, to)
    requires Uncopied(c0, from, to)
    ensures Overlaid(c0, d0, c1, d1, data, base, from, from, e)
  {
    forall k: nat | k !in e
      ensures Logical(c1, d1, k) == Logical(c0, d0, k)
    {
      if from <= k < to {
        assert data[k - base] == d0[k];
      }
    }
  }

  /** Writing to a cached copy. */
  lemma OverlaidCopy(c: map<nat, Copy>, d: seq<Sector>, data: seq<Sector>, base: nat, k: nat)
    requires base <= k < base + |data|
    ensures Overlaid(c, d, c[k := Copy(data[k - base], true)], d, data, base, k, k + 1, {})
    ensures Overlaid(c, d, c, d, data, base, k, k + 1, {k})
  {
  }

  /** What the buffer holds after a read: the logical sectors, apart from those in `except`. */
  ghost predicate ReadFrom(copies: map<nat, Copy>, disk: seq<Sector>, data: seq<Sector>, base: nat, from: nat, to: nat,
                           except: set<nat>) {
    base <= from && to <= base + |data| && forall k: nat | from <= k < to && k !in except ::
      Some(data[k - base]) == Logical(copies, disk, k)
  }

  lemma CopiesWritten(copies: map<nat, Copy>, cached: map<nat, CachedSector>, sectors: set<CachedSector>, hit: nat,
                      entry: CachedSector)
    requires Apart(cached, sectors) && entry in sectors && copies.Keys == cached.Keys
    requires forall k | k in cached && cached[k] != entry :: copies[k] == Copy(cached[k].sector, cached[k].dirty)
    requires hit in cached ==> cached[hit] == entry
    requires hit !in cached ==> forall l | l in cached :: cached[l] != entry
    ensures CopiesOf(cached, sectors) == if hit in cached then copies[hit := Copy(entry.sector, entry.dirty)]
            else copies
  {
  }

  lemma InIndex(m: seq<(nat, CachedSector)>, i: nat)
    requires i < |m|
    ensures m[i].0 in Index(m)
  {
    IndexHas(m, i);
  }

  lemma ReadUncached(cached: map<nat, CachedSector>, copies: map<nat, Copy>, disk: seq<Sector>, data: seq<Sector>,
                     base: nat, from: nat, to: nat)
    requires base <= from <= to <= base + |data| && (from < to ==> FromDisk(disk, data, base, from, to))
    requires NoneIn(cached, from, to) && copies.Keys <= cached.Keys
    ensures ReadFrom(copies, disk, data, base, from, to, {}) && Uncopied(copies, from, to)
  {
    forall k: nat | from <= k < to
      ensures k !in copies && Some(data[k - base]) == Logical(copies, disk, k)
    {
      assert k !in cached;
    }
  }

  ghost predicate ReadOne(copies: map<nat, Copy>, disk: seq<Sector>, k: nat, sector: Sector) {
    Some(sector) == Logical(copies, disk, k)
  }

  lemma ReadLess(copies: map<nat, Copy>, disk: seq<Sector>, data: seq<Sector>, base: nat, from: nat, to: nat,
                 except: set<nat>)
    requires ReadFrom(copies, disk, data, base, from, to, {})
    ensures ReadFrom(copies, disk, data, base, from, to, except)
  {
  }

  /** One more sector read, from its copy. */
  lemma ReadOneMore(c0: map<nat, Copy>, d0: seq<Sector>, c1: map<nat, Copy>, d1: seq<Sector>, data: seq<Sector>,
                    base: nat,
                    from: nat, to: nat, lost: set<nat>, missed: set<nat>, sector: Sector)
    requires ReadFrom(c0, d0, data, base, from, to, {}) && from <= to < base + |data| && base <= from
    requires Overlaid(c0, d0, c1, d1, data, base, from, from, lost)
    requires to !in missed ==> ReadOne(c1, d1, to, sector)
    ensures ReadFrom(c0, d0, data[to - base := sector], base, from, to + 1, lost + missed)
    ensures Overlaid(c0, d0, c1, d1, data[to - base := sector], base, from, from, lost + missed)
  {
    var data' := data[to - base := sector];
    forall k: nat | from <= k < to + 1 && k !in lost + missed
      ensures Some(data'[k - base]) == Logical(c0, d0, k)
    {
      if k == to {
        assert Logical(c1, d1, k) == Logical(c0, d0, k);
      }
    }
  }

  lemma NothingRead(c: map<nat, Copy>, d: seq<Sector>, data: seq<Sector>, base: nat)
    ensures ReadFrom(c, d, data, base, base, base, {})
  {
  }

  /** One round after others. */
  lemma Rounds(c0: map<nat, Copy>, d0: seq<Sector>, c1: map<nat, Copy>, d1: seq<Sector>, c2: map<nat, Copy>,
               d2: seq<Sector>,
               data: seq<Sector>, data': seq<Sector>, base: nat, i: nat, next: nat, lost: set<nat>, missed: set<nat>,
               lost1: set<nat>, missed1: set<nat>, write: bool, ok: bool)
    requires i <= next <= |data| == |data'| && (if write then data' == data else data'[..i] == data[..i])
    requires Overlaid(c0, d0, c1, d1, data, base, base, base + (if write then i else 0), lost + missed)
    requires !write ==> ReadFrom(c0, d0, data, base, base, base + i, lost + missed)
    requires Overlaid(c1, d1, c2, d2, data', base, base + i, base + (if write then next else i), lost1 + missed1)
    requires !write && ok ==> ReadFrom(c1, d1, data', base, base + i, base + next, lost1 + missed1)
    ensures Overlaid(c0, d0, c2, d2, data', base, base, base + (if write then next else 0),
                     lost + lost1 + (missed + missed1))
    ensures !write && ok ==> ReadFrom(c0, d0, data', base, base, base + next, lost + lost1 + (missed + missed1))
  {
    assert lost + missed + (lost1 + missed1) == lost + lost1 + (missed + missed1);
    if write {
      OverlaidThen(c0, d0, c1, d1, c2, d2, data, base, base, base + i, base + next, lost + missed, lost1 + missed1);
    } else {
      OverlaidNothing(c0, d0, c1, d1, c2, d2, data, data', base, base, base + i, base, lost + missed, lost1 + missed1);
      if ok {
        ReadOn(c0, d0, c1, d1, data, data', base, base + i, base + next, lost + missed, lost1 + missed1);
      }
    }
  }

  lemma ReadOn(c0: map<nat, Copy>, d0: seq<Sector>, c1: map<nat, Copy>, d1: seq<Sector>, data: seq<Sector>,
               data': seq<Sector>,
               base: nat, mid: nat, to: nat, e: set<nat>, e1: set<nat>)
    requires base <= mid <= to <= base + |data| && |data'| == |data| && data'[..mid - base] == data[..mid - base]
    requires Overlaid(c0, d0, c1, d1, data, base, base, base, e)
    requires ReadFrom(c0, d0, data, base, base, mid, e) && ReadFrom(c1, d1, data', base, mid, to, e1)
    ensures ReadFrom(c0, d0, data', base, base, to, e + e1)
  {
    forall k: nat | base <= k < to && k !in e + e1
      ensures Some(data'[k - base]) == Logical(c0, d0, k)
    {
      if k < mid {
        assert data'[k - base] == data'[..mid - base][k - base];
        assert data[k - base] == data[..mid - base][k - base];
      }
    }
  }

  lemma SameAtFirst(copies: map<nat, Copy>, disk: seq<Sector>)
    ensures Same(copies, disk, copies, disk, {})
  {
  }

  lemma SameThen(c0: map<nat, Copy>, d0: seq<Sector>, c1: map<nat, Copy>, d1: seq<Sector>, c2: map<nat, Copy>,
                 d2: seq<Sector>,
                 e1: set<nat>, e2: set<nat>)
    requires Same(c0, d0, c1, d1, e1) && Same(c1, d1, c2, d2, e2)
    ensures Same(c0, d0, c2, d2, e1 + e2)
  {
  }

  lemma CopiesTail(cached: map<nat, CachedSector>, sectors: set<CachedSector>, k: nat)
    requires Apart(cached, sectors) && k in cached
    ensures CopiesOf(cached - {k}, sectors) == CopiesOf(cached, sectors) - {k}
    ensures k in CopiesOf(cached, sectors) && CopiesOf(cached, sectors)[k] == Copy(cached[k].sector, cached[k].dirty)
  {
  }

  lemma NothingCached(sectors: set<CachedSector>)
    ensures Index<nat, CachedSector>([]) == map[] && CopiesOf(map[], sectors) == map[] && Apart(map[], sectors) &&
            forall disk :: Clean(map[], disk)
  {
  }

  lemma NoneYet(cached: map<nat, CachedSector>, from: nat)
    ensures NoneIn(cached, from, from)
  {
  }

  lemma NoneMore(cached: map<nat, CachedSector>, from: nat, to: nat)
    requires NoneIn(cached, from, to) && to !in cached
    ensures NoneIn(cached, from, to + 1)
  {
  }

  class SataPort {
    /** What the device holds. */
    var disk: seq<Sector>
    const maxLba: nat
    /** Whether the device never refuses to transfer sectors that it has. */
    const reliable: bool
    var cache: LruCache<nat, CachedSector>
    /** The sectors that have been made for the cache. */
    ghost var sectors: set<CachedSector>
    /** The sectors that the device was asked to write and refused, in order. */
    ghost var refused: seq<nat>
    /** What the device was asked to read, in order. */
    ghost var asked: seq<Ask>
    /** Whether memory is critical when a sector is put into the cache for the `t`th time. */
    const critical: nat -> bool
    var puts: nat

    ghost function Cached(): map<nat, CachedSector>
      reads this`cache, cache
    {
      Index(cache.Model())
    }

    ghost function Copies(): map<nat, Copy>
      reads this`sectors, sectors, this`cache, cache
    {
      CopiesOf(Cached(), sectors)
    }

    /** The device has these sectors. */
    predicate Has(lba: nat, n: nat)
      reads this`disk
    {
      n > 0 ==> lba + n <= maxLba + 1 && lba + n <= |disk|
    }

    /** A reliable device has refused no sector that it has. */
    ghost predicate Blameless()
      reads this`disk, this`refused
    {
      reliable ==> forall l | l in refused :: !Has(l, 1)
    }

    /** All that is to be written back are sectors that the device has. */
    ghost predicate DirtyHere()
      reads this`disk, this`sectors, sectors, this`cache, cache
    {
      forall k | Dirty(Copies(), k) :: Has(k, 1)
    }

    lemma HasTwo()
      requires maxLba == 1 && |disk| == 2
      ensures Has(1, 1) && Has(0, 2)
    {
    }

    lemma NothingDirty()
      requires Valid() && Cached() == map[]
      ensures DirtyHere()
    {
      hide Index, Clean;
    }

    /** A reliable device loses nothing. */
    lemma NoneLost(copies0: map<nat, Copy>, log: seq<nat>, copies: map<nat, Copy>, lost: set<nat>, write: bool,
                   lba: nat, n: nat)
      requires Blameless() && reliable && Traced(copies0, log, copies, refused, lost, write, lba, lba + n)
      requires (write ==> Has(lba, n)) && forall k | Dirty(copies0, k) :: Has(k, 1)
      ensures lost == {} && forall k | Dirty(copies, k) :: Has(k, 1)
    {
      InLog(log, refused, lost);
    }

    lemma PartOf(lba: nat, i: nat, num: nat, n: nat)
      requires i + num <= n
      ensures Has(lba, n) ==> Has(lba + i, num)
    {
    }

    ghost predicate Valid()
      reads this`disk, this`sectors, this`cache, this`refused, sectors, cache, cache.nodes, cache.entries,
            cache.entries.mdata, cache.entries.slots
    {
      cache.Valid() && Apart(Cached(), sectors) && Clean(Copies(), disk) && Blameless()
    }

    constructor (contents: seq<Sector>, maxLba: nat, hash: nat -> nat, reliable: bool,
                 critical: nat -> bool)
      ensures Valid() && Cached() == map[] && disk == contents && sectors == {} && refused == []
      ensures this.reliable == reliable && this.maxLba == maxLba && this.critical == critical && puts == 0
      ensures cache.Model() == []
      ensures fresh(cache) && fresh(cache.entries) && fresh(cache.entries.mdata) && fresh(cache.entries.slots) &&
              cache.nodes == {}
    {
      disk, this.maxLba, sectors, refused, asked := contents, maxLba, {}, [], [];
      this.reliable, this.critical, puts := reliable, critical, 0;
      cache := new LruCache<nat, CachedSector>(hash);
    }

    /** The device's answer. */
    method Accepted() returns (ok: bool)
      ensures reliable ==> ok
    {
      ok := *;
      if reliable {
        ok := true;
      }
    }

    /** Transfers sectors between the buffer and the device, which may report an error. */
    method DiskRead(lba: nat, n: nat, buff: array<Sector>, at: nat) returns (ok: bool)
      requires at + n <= buff.Length
      modifies this`asked, buff
      ensures ok ==> lba + n <= |disk|
      ensures reliable && n > 0 && Has(lba, n) ==> ok
      ensures asked == old(asked) + [Ask(lba, n, ok)]
      ensures forall x | 0 <= x < buff.Length :: buff[x] == if ok && at <= x < at + n then disk[lba + x - at]
              else old(buff[x])
    {
      ok := Accepted();
      if lba > maxLba || lba + n > |disk| {
        ok := false;
      }
      asked := asked + [Ask(lba, n, ok)];
      if ok {
        var x := 0;
        while x < n
          invariant x <= n && asked == old(asked) + [Ask(lba, n, ok)]
          invariant forall y | 0 <= y < buff.Length :: buff[y] == if at <= y < at + x then disk[lba + y - at]
                    else old(buff[y])
        {
          buff[at + x] := disk[lba + x];
          x := x + 1;
        }
      }
    }

    method DiskWrite(lba: nat, sector: Sector) returns (ok: bool)
      modifies this`disk, this`refused
      ensures if ok then lba < |old(disk)| && disk == old(disk)[lba := sector] else disk == old(disk)
      ensures refused == if ok then old(refused) else old(refused) + [lba]
      ensures reliable && Has(lba, 1) ==> ok
    {
      ok := Accepted();
      if lba > maxLba || lba >= |disk| {
        ok := false;
      }
      if ok {
        disk := disk[lba := sector];
      } else {
        refused := refused + [lba];
      }
    }

    /** Writes a sector that leaves the cache back to the device, if it is dirty. Whether that went
        well is not looked at. */
    method HandleEviction(k: nat, entry: CachedSector) returns (ghost ok: bool)
      modifies this`disk, this`refused
      ensures disk == if entry.dirty && ok then (if k < |old(disk)| then old(disk)[k := entry.sector] else old(disk))
              else old(disk)
      ensures ok && entry.dirty ==> k < |disk|
      ensures refused == (if ok then old(refused) else old(refused) + [k]) && (!ok ==> entry.dirty)
      ensures reliable && Has(k, 1) ==> ok
    {
      ok := true;
      if entry.dirty {
        ok := DiskWrite(k, entry.sector);
      }
    }

    /** Looks a sector up, which makes it the most recently used. */
    method Find(k: nat) returns (r: Slot<nat, CachedSector>)
      requires Valid()
      modifies cache`mru, cache`lru, cache`order, cache`used, cache`clock, cache`freedWrites, cache.nodes
      ensures Valid() && Cached() == old(Cached()) && Copies() == old(Copies()) &&
              |cache.Model()| == |old(cache.Model())|
      ensures r.Entry? <==> k in Cached()
      ensures r.Entry? ==> AtFront(k, r.val) && Keys(cache.Model()) == Front(Keys(old(cache.Model())), k)
      ensures r.Raw? ==> cache.Model() == old(cache.Model())
    {
      hide Index, Get, ToFront, Clean, Apart, CopiesOf, Keys, Front;
      FindReady(cache.Model(), k);
      KeysToFront(cache.Model(), k);
      r := LookupKnown(k);
    }

    /** Looking up leaves the sectors themselves alone. */
    method LookupKnown(k: nat) returns (r: Slot<nat, CachedSector>)
      requires cache.Valid()
      modifies cache`mru, cache`lru, cache`order, cache`used, cache`clock, cache`freedWrites, cache.nodes
      ensures cache.Valid() && r == Get(old(cache.Model()), k) && cache.Model() == ToFront(old(cache.Model()), k)
      ensures CopiesOf(old(Cached()), sectors) == old(CopiesOf(Cached(), sectors))
    {
      hide Index, Get, ToFront, CopiesOf;
      r := cache.Lookup(k);
      assert unchanged(sectors);
    }

    lemma FindReady(m: seq<(nat, CachedSector)>, k: nat)
      requires Valid() && m == cache.Model()
      ensures Index(ToFront(m, k)) == Index(m) && |ToFront(m, k)| == |m|
      ensures Get(m, k) == if k in Index(m) then Slot.Entry(k, Index(m)[k]) else Raw
      ensures k in Index(m) ==> |m| > 0 && ToFront(m, k)[0] == (k, Index(m)[k])
      ensures k !in Index(m) ==> ToFront(m, k) == m
    {
      CacheKeys();
      IndexGet(m, k);
      IndexToFront(m, k);
      DropSize(m, k);
    }

    lemma CacheKeys()
      requires cache.Valid()
      ensures KeysDistinct(cache.Model())
    {
      hide Clean, Apart;
      forall i, j | 0 <= i < j < |cache.Model()|
        ensures cache.Model()[i].0 != cache.Model()[j].0
      {
        cache.KeysApart(i, j);
      }
    }

    /** Caches a sector that was not in the cache. If memory is critical, the least recently used
        one is evicted; `lost` is that one if it was dirty and could not be written back. */
    method Put(k: nat, entry: CachedSector) returns (ghost lost: set<nat>)
      requires Valid() && k !in Cached() && entry in sectors && forall l | l in Cached() :: Cached()[l] != entry
      requires !entry.dirty ==> k < |disk| && entry.sector == disk[k]
      modifies this`disk, this`refused, this`puts, cache`mru, cache`lru, cache`numEntries, cache`order
      modifies cache`nodes, cache`stale, cache`used, cache`clock, cache`freedWrites
      modifies cache.entries, cache.entries.mdata, cache.entries.slots, cache.nodes
      ensures Valid() && |disk| == |old(disk)| && k !in lost
      ensures Same(old(Copies())[k := Copy(entry.sector, entry.dirty)], old(disk), Copies(), disk, lost)
      ensures Traced(old(Copies()), old(refused), Copies(), refused, lost, entry.dirty, k, k + 1)
      ensures Inserted(old(cache.Model()), cache.Model(), k, entry, critical(old(puts))) && puts == old(puts) + 1
      ensures k in Cached() && Cached()[k] == entry && Narrowed(old(Cached()), Cached(), k)
      ensures forall l | l in lost :: l in old(Cached())
      ensures fresh(cache.nodes - old(cache.nodes))
      ensures cache.entries.mdata == old(cache.entries.mdata) || fresh(cache.entries.mdata)
      ensures cache.entries.slots == old(cache.entries.slots) || fresh(cache.entries.slots)
    {
      hide *;
      PutReady();
      ghost var cached := Cached();
      var now := critical(puts);
      puts := puts + 1;
      var handed := InsertKnown(now, k, entry, cached);
      lost := Settle(handed, k, entry, cached);
    }

    lemma PutReady()
      requires Valid()
      ensures cache.Valid() && Apart(Cached(), sectors) && Clean(CopiesOf(Cached(), sectors), disk) && Blameless()
      ensures Copies() == CopiesOf(Cached(), sectors)
    {
      hide Clean, Apart, CopiesOf, Index;
    }

    /** Hands what was evicted to the eviction handler. */
    method Settle(handed: seq<(nat, CachedSector)>, k: nat, entry: CachedSector, ghost cached: map<nat, CachedSector>)
      returns (ghost lost: set<nat>)
      requires cache.Valid() && Apart(cached, sectors) && Clean(CopiesOf(cached, sectors), disk) && |handed| <= 1
      requires Blameless()
      requires k !in cached && entry in sectors && forall l | l in cached :: cached[l] != entry
      requires !entry.dirty ==> k < |disk| && entry.sector == disk[k]
      requires handed == [] ==> Cached() == cached[k := entry]
      requires |handed| == 1 ==>
                handed[0].0 in cached && cached[handed[0].0] == handed[0].1 &&
                  Cached() == (cached - {handed[0].0})[k := entry]
      modifies this`disk, this`refused
      ensures Valid() && |disk| == |old(disk)| && k !in lost
      ensures Same(old(CopiesOf(cached, sectors))[k := Copy(entry.sector, entry.dirty)], old(disk), Copies(), disk,
                   lost)
      ensures Traced(old(CopiesOf(cached, sectors)), old(refused), Copies(), refused, lost, entry.dirty, k, k + 1)
      ensures k in Cached() && Cached()[k] == entry && Narrowed(cached, Cached(), k)
      ensures forall l | l in lost :: l in cached
    {
      hide Index, Get, Clean, Same, Apart, CopiesOf, Narrowed, WrittenBack;
      ghost var disk0, log := disk, refused;
      if handed == [] {
        lost := {};
        PutDone(cached, disk0, log, false, 0, true, k, entry);
      } else {
        ghost var ok := WriteBack(handed[0].0, handed[0].1, cached);
        lost := if ok then {} else {handed[0].0};
        PutDone(cached, disk0, log, true, handed[0].0, ok, k, entry);
      }
    }

    /** Inserting into the cache leaves the sectors themselves alone. */
    method InsertKnown(critical: bool, k: nat, entry: CachedSector, ghost cached: map<nat, CachedSector>)
      returns (handed: seq<(nat, CachedSector)>)
      requires cache.Valid() && k !in cached && cached == Cached()
      modifies cache`mru, cache`lru, cache`numEntries, cache`order, cache`nodes, cache`stale
      modifies cache`used, cache`clock, cache`freedWrites
      modifies cache.entries, cache.entries.mdata, cache.entries.slots, cache.nodes
      ensures cache.Valid() && |handed| <= 1 && CopiesOf(cached, sectors) == old(CopiesOf(cached, sectors))
      ensures Inserted(old(cache.Model()), cache.Model(), k, entry, critical)
      ensures handed == [] ==> Cached() == cached[k := entry]
      ensures |handed| == 1 ==>
                handed[0].0 in cached && cached[handed[0].0] == handed[0].1 &&
                  Cached() == (cached - {handed[0].0})[k := entry]
      ensures fresh(cache.nodes - old(cache.nodes))
      ensures cache.entries.mdata == old(cache.entries.mdata) || fresh(cache.entries.mdata)
      ensures cache.entries.slots == old(cache.entries.slots) || fresh(cache.entries.slots)
    {
      hide *;
      handed := InsertSector(critical, k, entry);
      assert unchanged(sectors);
    }

    /** Writing an evicted sector back touches only the device. */
    method WriteBack(k: nat, entry: CachedSector, ghost cached: map<nat, CachedSector>) returns (ghost ok: bool)
      requires cache.Valid()
      modifies this`disk, this`refused
      ensures cache.Valid() && CopiesOf(cached, sectors) == old(CopiesOf(cached, sectors))
      ensures var copy := Copy(entry.sector, entry.dirty);
              disk == WrittenBack(old(disk), k, copy, ok) && (ok && copy.dirty ==> k < |old(disk)|)
      ensures refused == (if ok then old(refused) else old(refused) + [k]) && (!ok ==> entry.dirty)
      ensures reliable && Has(k, 1) ==> ok
    {
      hide Index, Get, CopiesOf;
      ok := HandleEviction(k, entry);
      assert unchanged(sectors);
      assert unchanged(cache) && unchanged(cache.nodes) && unchanged(cache.entries) &&
             unchanged(cache.entries.mdata) && unchanged(cache.entries.slots);
    }

    lemma PutDone(cached: map<nat, CachedSector>, disk0: seq<Sector>, log: seq<nat>, evict: bool, z: nat, ok: bool,
                  k: nat, entry: CachedSector)
      requires Apart(cached, sectors) && Clean(CopiesOf(cached, sectors), disk0) && entry in sectors
      requires k !in cached && (forall l | l in cached :: cached[l] != entry)
      requires !entry.dirty ==> k < |disk0| && entry.sector == disk0[k]
      requires Cached() == if evict then (cached - {z})[k := entry] else cached[k := entry]
      requires !evict ==> disk == disk0
      requires evict ==> z in cached && (!ok ==> cached[z].dirty)
      requires refused == if evict && !ok then log + [z] else log
      requires evict ==> var copy := Copy(cached[z].sector, cached[z].dirty);
                 disk == WrittenBack(disk0, z, copy, ok) && (ok && copy.dirty ==> z < |disk0|)
      ensures Apart(Cached(), sectors) && Clean(Copies(), disk) && |disk| == |disk0| && Narrowed(cached, Cached(), k)
      ensures Same(CopiesOf(cached, sectors)[k := Copy(entry.sector, entry.dirty)], disk0, Copies(), disk,
                   if evict && !ok then {z} else {})
      ensures Traced(CopiesOf(cached, sectors), log, Copies(), refused, if evict && !ok then {z} else {}, entry.dirty,
                     k, k + 1)
    {
      var gone: set<nat> := if evict then {z} else {};
      assert Cached() == (cached - gone)[k := entry];
      PutApart(cached, sectors, gone, k, entry);
      PutCopies(cached, sectors, gone, k, entry);
      PutClean(CopiesOf(cached, sectors), disk0, disk, evict, z, ok, k, Copy(entry.sector, entry.dirty));
      PutTraced(CopiesOf(cached, sectors), log, gone, if evict && !ok then {z} else {}, k,
                Copy(entry.sector, entry.dirty));
      hide Clean, Same, Traced;
    }

    method InsertSector(critical: bool, k: nat, entry: CachedSector) returns (handed: seq<(nat, CachedSector)>)
      requires cache.Valid() && k !in Cached()
      modifies cache`mru, cache`lru, cache`numEntries, cache`order, cache`nodes, cache`stale
      modifies cache`used, cache`clock, cache`freedWrites
      modifies cache.entries, cache.entries.mdata, cache.entries.slots, cache.nodes
      ensures cache.Valid() && |handed| <= 1
      ensures Inserted(old(cache.Model()), cache.Model(), k, entry, critical)
      ensures handed == [] ==> Cached() == old(Cached())[k := entry]
      ensures |handed| == 1 ==>
                && handed[0].0 in old(Cached()) && old(Cached())[handed[0].0] == handed[0].1
                && Cached() == (old(Cached()) - {handed[0].0})[k := entry]
      ensures fresh(cache.nodes - old(cache.nodes))
      ensures cache.entries.mdata == old(cache.entries.mdata) || fresh(cache.entries.mdata)
      ensures cache.entries.slots == old(cache.entries.slots) || fresh(cache.entries.slots)
    {
      hide Index, Get, KeysDistinct, Inserted;
      CacheKeys();
      PutFirst(cache.Model(), k, entry);
      var r;
      r, handed := cache.Insert(critical, false, k, entry);
    }

    // ------------------------------------------------------------- transfers

    /** Makes a sector for the cache. */
    method NewSector(sector: Sector, dirty: bool) returns (entry: CachedSector)
      requires Valid()
      modifies this`sectors
      ensures Valid() && fresh(entry) && entry.sector == sector && entry.dirty == dirty
      ensures entry !in old(sectors) && sectors == old(sectors) + {entry} && Copies() == old(Copies())
      ensures forall l | l in Cached() :: Cached()[l] != entry
    {
      hide Index, Clean;
      entry := new CachedSector(sector, dirty);
      sectors := sectors + {entry};
      assert Copies() == old(Copies());
    }

    /** Finds how many sectors from `i` on are not cached, looking each up, and the first one that
        is. */
    method Scan(lba: nat, i0: nat, n: nat) returns (i: nat, found: Slot<nat, CachedSector>)
      requires Valid() && i0 < n
      modifies cache`mru, cache`lru, cache`order, cache`used, cache`clock, cache`freedWrites, cache.nodes
      ensures Valid() && Cached() == old(Cached()) && Copies() == old(Copies()) &&
              |cache.Model()| == |old(cache.Model())|
      ensures i0 <= i <= n && (found.Entry? <==> i < n) && NoneIn(Cached(), lba + i0, lba + i)
      ensures i < n ==> AtFront(lba + i, found.val)
      ensures i == FirstIn(Keys(old(cache.Model())), lba, i0, n)
      ensures Keys(cache.Model()) == if i < n then Front(Keys(old(cache.Model())), lba + i)
                                     else Keys(old(cache.Model()))
    {
      hide Index, Clean, Apart, CopiesOf, NoneIn, AtFront, Keys, Front, FirstIn;
      i, found := i0, Raw;
      NoneYet(Cached(), lba + i);
      while i < n
        invariant i0 <= i <= n && found == Raw && NoneIn(Cached(), lba + i0, lba + i)
        invariant cache.Model() == old(cache.Model())
        invariant Valid() && Cached() == old(Cached()) && Copies() == old(Copies()) &&
                  |cache.Model()| == |old(cache.Model())|
      {
        found := Find(lba + i);
        if found.Entry? {
          break;
        }
        NoneMore(Cached(), lba + i0, lba + i);
        i := i + 1;
      }
      KeysFirst(old(cache.Model()), lba, i0, n, i);
    }

    /** Sector `k` is the most recently used, and `entry` is its copy. */
    ghost predicate AtFront(k: nat, entry: CachedSector)
      reads this`cache, cache
    {
      |cache.Model()| > 0 && cache.Model()[0] == (k, entry) && k in Cached() && Cached()[k] == entry
    }

    lemma FrontCopied(k: nat, entry: CachedSector)
      requires Valid() && AtFront(k, entry)
      ensures k in Copies()
    {
      hide Index;
    }

    lemma CopiesCached()
      requires Valid()
      ensures Copies().Keys <= Cached().Keys && Cached() == Index(cache.Model())
      ensures forall l, i | l in Cached() && i in Cached() && Cached()[l] == Cached()[i] :: l == i
    {
      hide Index;
    }

    /** Caches sector `k`, which is in the buffer, `j`th after sector `hit` was found. */
    method FillOne(k: nat, data: Sector, dirty: bool, ghost buffer: seq<Sector>, ghost base: nat, ghost to: nat,
                   ghost m0: seq<(nat, CachedSector)>, ghost from: nat, ghost t: nat, ghost j: nat, ghost hit: nat,
                   ghost entry: CachedSector?)
      returns (ghost lost: set<nat>)
      requires Valid() && k == from + j && base <= k < to <= base + |buffer| && buffer[k - base] == data &&
               NoneIn(Cached(), k, to)
      requires !dirty ==> FromDisk(disk, buffer, base, k, to)
      requires Hit(m0, cache.Model(), j, hit, entry) && (entry != null ==> hit != k && entry in sectors)
      requires Reached(m0, cache.Model(), from, critical, t, j) && puts == t + j
      modifies this`disk, this`refused, this`sectors, this`puts, cache`mru, cache`lru, cache`numEntries
      modifies cache`order, cache`nodes, cache`stale, cache`used, cache`clock, cache`freedWrites
      modifies cache.entries, cache.entries.mdata, cache.entries.slots, cache.nodes
      ensures Valid() && |disk| == |old(disk)| && NoneIn(Cached(), k + 1, to) &&
              (forall e | e in old(sectors) :: e in sectors)
      ensures Same(old(Copies())[k := Copy(data, dirty)], old(disk), Copies(), disk, lost)
      ensures !dirty ==> FromDisk(disk, buffer, base, k + 1, to)
      ensures Hit(m0, cache.Model(), j + 1, hit, entry)
      ensures Reached(m0, cache.Model(), from, critical, t, j + 1) && puts == t + j + 1
      ensures Traced(old(Copies()), old(refused), Copies(), refused, lost, dirty, k, k + 1)
      ensures fresh(sectors - old(sectors))
      ensures fresh(cache.nodes - old(cache.nodes))
      ensures cache.entries.mdata == old(cache.entries.mdata) || fresh(cache.entries.mdata)
      ensures cache.entries.slots == old(cache.entries.slots) || fresh(cache.entries.slots)
    {
      hide *;
      if !dirty {
        OnDisk(disk, buffer, base, k, to);
      }
      ghost var m, disk0, copies, cached, nodes := cache.Model(), disk, Copies(), Cached(), cache.nodes;
      NotIn(cached, k, to);
      CopiesCached();
      var sector := NewSector(data, dirty);
      assert cache.nodes == nodes;
      lost := Put(k, sector);
      CopiesCached();
      StepOn(m0, m, cache.Model(), from, critical, t, j, hit, entry, k, sector, to);
      if !dirty {
        StillFromDisk(copies, disk0, Copies(), disk, buffer, base, k + 1, to, k, Copy(data, dirty), lost, cached,
                      Cached());
      }
    }

    method FillStep(k: nat, data: Sector, dirty: bool, ghost from: nat, ghost buffer: seq<Sector>, ghost base: nat,
                    ghost m0: seq<(nat, CachedSector)>,
                    ghost t: nat, ghost j: nat, ghost num: nat, ghost hit: nat, ghost entry: CachedSector?,
                    ghost copies0: map<nat, Copy>, ghost disk0: seq<Sector>, ghost log: seq<nat>, ghost lost0: set<nat>)
      returns (ghost lost: set<nat>)
      requires Valid() && k == from + j && base <= from && j < num && from + num <= base + |buffer| &&
               buffer[from + j - base] == data
      requires NoneIn(Cached(), from + j, from + num) && (!dirty ==> FromDisk(disk, buffer, base, from + j, from + num))
      requires Hit(m0, cache.Model(), j, hit, entry) && (entry != null ==>
                !(from <= hit < from + num) && entry in sectors)
      requires Reached(m0, cache.Model(), from, critical, t, j) && puts == t + j
      requires Overlaid(copies0, disk0, Copies(), disk, buffer, base, from, from + j, lost0)
      requires Traced(copies0, log, Copies(), refused, lost0, dirty, from, from + j)
      modifies this`disk, this`refused, this`sectors, this`puts, cache`mru, cache`lru, cache`numEntries
      modifies cache`order, cache`nodes, cache`stale, cache`used, cache`clock, cache`freedWrites
      modifies cache.entries, cache.entries.mdata, cache.entries.slots, cache.nodes
      ensures Valid() && |disk| == |old(disk)| && (forall e | e in old(sectors) :: e in sectors)
      ensures NoneIn(Cached(), from + j + 1, from + num) && (!dirty ==>
                                                             FromDisk(disk, buffer, base, from + j + 1, from + num))
      ensures Hit(m0, cache.Model(), j + 1, hit, entry)
      ensures Reached(m0, cache.Model(), from, critical, t, j + 1) && puts == t + j + 1
      ensures Overlaid(copies0, disk0, Copies(), disk, buffer, base, from, from + j + 1, lost)
      ensures Traced(copies0, log, Copies(), refused, lost, dirty, from, from + j + 1)
      ensures fresh(sectors - old(sectors))
      ensures fresh(cache.nodes - old(cache.nodes))
      ensures cache.entries.mdata == old(cache.entries.mdata) || fresh(cache.entries.mdata)
      ensures cache.entries.slots == old(cache.entries.slots) || fresh(cache.entries.slots)
    {
      hide Valid, Cached, Copies, NoneIn, Overlaid, FromDisk, Same, Hit, Traced, Reached, Keys;
      ghost var copies1, disk1, log1 := Copies(), disk, refused;
      ghost var now := FillOne(k, data, dirty, buffer, base, from + num, m0, from, t, j, hit, entry);
      TracedThen(copies0, log, copies1, log1, Copies(), refused, lost0, now, dirty, from, from + j, from + j + 1);
      OverlaidMore(copies0, disk0, copies1, disk1, Copies(), disk, buffer, base, from, from + j, lost0, now, dirty);
      lost := lost0 + now;
    }

    /** Caches the `num` sectors from `from` on, which are in the buffer. `hit` is a sector that was
        found in the cache: if the cache held more than `num` sectors, it is not evicted meanwhile. */
    method Fill(base: nat, from: nat, num: nat, buff: array<Sector>, dirty: bool, ghost hit: nat,
                ghost entry: CachedSector?)
      returns (ghost lost: set<nat>)
      requires Valid() && base <= from && from + num <= base + buff.Length && NoneIn(Cached(), from, from + num)
      requires !dirty && num > 0 ==> FromDisk(disk, buff[..], base, from, from + num)
      requires (entry != null ==> !(from <= hit < from + num) && entry in sectors) &&
               Hit(cache.Model(), cache.Model(), 0, hit, entry)
      modifies this`disk, this`refused, this`sectors, this`puts, cache`mru, cache`lru, cache`numEntries
      modifies cache`order, cache`nodes, cache`stale, cache`used, cache`clock, cache`freedWrites
      modifies cache.entries, cache.entries.mdata, cache.entries.slots, cache.nodes
      ensures Valid() && |disk| == |old(disk)| && (forall e | e in old(sectors) :: e in sectors)
      ensures Overlaid(old(Copies()), old(disk), Copies(), disk, buff[..], base, from, from + num, lost)
      ensures Hit(old(cache.Model()), cache.Model(), num, hit, entry)
      ensures Reached(old(cache.Model()), cache.Model(), from, critical, old(puts), num) && puts == old(puts) + num
      ensures num == 0 ==> lost == {}
      ensures Traced(old(Copies()), old(refused), Copies(), refused, lost, dirty, from, from + num)
      ensures fresh(sectors - old(sectors))
      ensures fresh(cache.nodes - old(cache.nodes))
      ensures cache.entries.mdata == old(cache.entries.mdata) || fresh(cache.entries.mdata)
      ensures cache.entries.slots == old(cache.entries.slots) || fresh(cache.entries.slots)
    {
      hide *;
      lost := {};
      ghost var copies0, disk0, m0, log, data, t := Copies(), disk, cache.Model(), refused, buff[..], puts;
      var j := 0;
      ReachedNone(m0, from, critical, t);
      TracedNone(copies0, log, dirty, from, from);
      OverlaidNone(copies0, disk0, data, base, from);
      while j < num
        invariant j <= num && Valid() && |disk| == |disk0| && (forall e | e in old(sectors) :: e in sectors) &&
                  NoneIn(Cached(), from + j, from + num)
        invariant Overlaid(copies0, disk0, Copies(), disk, data, base, from, from + j, lost)
        invariant Hit(m0, cache.Model(), j, hit, entry) && Reached(m0, cache.Model(), from, critical, t, j)
        invariant puts == t + j && (j == 0 ==> lost == {})
        invariant Traced(copies0, log, Copies(), refused, lost, dirty, from, from + j)
        invariant !dirty && num > 0 ==> FromDisk(disk, data, base, from + j, from + num)
        invariant fresh(sectors - old(sectors))
        invariant fresh(cache.nodes - old(cache.nodes))
        invariant cache.entries.mdata == old(cache.entries.mdata) || fresh(cache.entries.mdata)
        invariant cache.entries.slots == old(cache.entries.slots) || fresh(cache.entries.slots)
      {
        lost := FillStep(from + j, buff[from - base + j], dirty, from, data, base, m0, t, j, num, hit, entry, copies0,
                         disk0, log, lost);
        j := j + 1;
      }
    }

    /** Overwrites a sector's copy, which may have been evicted since it was found. */
    method WriteCopy(hit: nat, entry: CachedSector, data: Sector)
      requires Valid() && entry in sectors && Held(hit, entry)
      modifies entry
      ensures Valid()
      ensures Copies() == if hit in Cached() then old(Copies())[hit := Copy(data, true)] else old(Copies())
    {
      hide Index;
      entry.dirty := true;
      entry.sector := data;
      assert unchanged(cache) && unchanged(cache.nodes) && unchanged(cache.entries) &&
             unchanged(cache.entries.mdata) && unchanged(cache.entries.slots);
      CopiesWritten(old(Copies()), Cached(), sectors, hit, entry);
    }

    lemma Found(hit: nat, entry: CachedSector)
      requires Valid() && AtFront(hit, entry)
      ensures Hit(cache.Model(), cache.Model(), 0, hit, entry) && entry in sectors
    {
      hide Index;
    }

    lemma Kept(m0: seq<(nat, CachedSector)>, num: nat, hit: nat, entry: CachedSector?)
      requires Valid() && Hit(m0, cache.Model(), num, hit, entry)
      ensures entry != null ==> Held(hit, entry) && (hit in Cached() <==> |cache.Model()| > num)
      ensures |cache.Model()| >= |m0|
    {
      if entry != null && |cache.Model()| > num {
        InIndex(cache.Model(), num);
      }
      hide Index;
    }

    /** Reads the run of sectors that are not cached from the device, unless they are to be
        written. */
    method ReadRun(lba: nat, i: nat, num: nat, buff: array<Sector>, write: bool) returns (ok: bool)
      requires Valid() && i + num <= buff.Length && NoneIn(Cached(), lba + i, lba + i + num)
      modifies this`asked, buff
      ensures (reliable && Has(lba + i, num)) || num == 0 || write ==> ok
      ensures asked == old(asked) + if write then [] else RunFor(lba, i, i + num, ok)
      ensures Valid() && Copies() == old(Copies()) && (write ==> ok && buff[..] == old(buff[..])) &&
              buff[..i] == old(buff[..i])
      ensures !write && ok && num > 0 ==> FromDisk(disk, buff[..], lba, lba + i, lba + i + num)
      ensures !write && ok ==>
                ReadFrom(Copies(), disk, buff[..], lba, lba + i, lba + i + num, {}) &&
                Uncopied(Copies(), lba + i, lba + i + num)
    {
      CopiesCached();
      ok := Transfer(lba, i, num, buff, write);
      hide Valid, Cached, Copies;
      if ok && !write {
        ReadUncached(Cached(), Copies(), disk, buff[..], lba, lba + i, lba + i + num);
      }
    }

    method Transfer(lba: nat, i: nat, num: nat, buff: array<Sector>, write: bool) returns (ok: bool)
      requires Valid() && i + num <= buff.Length
      modifies this`asked, buff
      ensures (reliable && Has(lba + i, num)) || num == 0 || write ==> ok
      ensures asked == old(asked) + if write then [] else RunFor(lba, i, i + num, ok)
      ensures Valid() && Copies() == old(Copies()) && Cached() == old(Cached())
      ensures (write ==> ok && buff[..] == old(buff[..])) && buff[..i] == old(buff[..i])
      ensures !write && ok && num > 0 ==> FromDisk(disk, buff[..], lba, lba + i, lba + i + num)
    {
      hide Index, Clean, Apart, CopiesOf;
      ok := true;
      if num > 0 && !write {
        ok := DiskRead(lba + i, num, buff, i);
      }
      assert unchanged(sectors);
      assert unchanged(cache) && unchanged(cache.nodes) && unchanged(cache.entries) &&
             unchanged(cache.entries.mdata) && unchanged(cache.entries.slots);
    }

    method ReadCopy(hit: nat, entry: CachedSector, buff: array<Sector>, i: nat)
      requires Valid() && entry in sectors && i < buff.Length && Held(hit, entry)
      modifies buff
      ensures Valid() && Copies() == old(Copies()) && buff[..] == old(buff[..])[i := entry.sector]
      ensures hit in Cached() ==> ReadOne(Copies(), disk, hit, buff[i])
      ensures Cached() == old(Cached())
    {
      hide Index, Clean;
      buff[i] := entry.sector;
      assert unchanged(sectors);
      assert unchanged(cache) && unchanged(cache.nodes) && unchanged(cache.entries) &&
             unchanged(cache.entries.mdata) && unchanged(cache.entries.slots);
    }

    lemma NoHit(hit: nat)
      ensures Hit(cache.Model(), cache.Model(), 0, hit, null)
    {
    }

    /** Caches the run of sectors that was not cached. */
    method FillRun(lba: nat, i: nat, num: nat, buff: array<Sector>, write: bool, found: Slot<nat, CachedSector>)
      returns (ghost lost: set<nat>)
      requires Valid() && i + num <= buff.Length && NoneIn(Cached(), lba + i, lba + i + num)
      requires !write ==>
                Uncopied(Copies(), lba + i, lba + i + num) &&
                (num > 0 ==> FromDisk(disk, buff[..], lba, lba + i, lba + i + num))
      requires found.Entry? ==> AtFront(lba + i + num, found.val)
      modifies this`disk, this`refused, this`sectors, this`puts, cache`mru, cache`lru, cache`numEntries
      modifies cache`order, cache`nodes, cache`stale, cache`used, cache`clock, cache`freedWrites
      modifies cache.entries, cache.entries.mdata, cache.entries.slots, cache.nodes
      ensures Valid() && |disk| == |old(disk)| && |cache.Model()| >= |old(cache.Model())|
      ensures Overlaid(old(Copies()), old(disk), Copies(), disk, buff[..], lba, lba + i,
                       lba + (if write then i + num else i), lost)
      ensures found.Entry? ==> found.val in sectors && found.val in old(sectors) && Held(lba + i + num, found.val)
      ensures found.Entry? ==> (lba + i + num in Cached() <==> |cache.Model()| > num)
      ensures Reached(old(cache.Model()), cache.Model(), lba + i, critical, old(puts), num)
      ensures puts == old(puts) + num && (num == 0 ==> lost == {})
      ensures Traced(old(Copies()), old(refused), Copies(), refused, lost, write, lba + i, lba + i + num)
      ensures fresh(sectors - old(sectors)) && fresh(cache.nodes - old(cache.nodes))
      ensures cache.entries.mdata == old(cache.entries.mdata) || fresh(cache.entries.mdata)
      ensures cache.entries.slots == old(cache.entries.slots) || fresh(cache.entries.slots)
    {
      hide Valid, Cached, Copies, NoneIn, Overlaid, FromDisk, Hit, AtFront, Uncopied, Traced, Reached, Keys;
      ghost var c0, d0, m0, hit, data := Copies(), disk, cache.Model(), lba + i + num, buff[..];
      ghost var entry: CachedSector? := null;
      NoHit(hit);
      if found.Entry? {
        entry := found.val;
        Found(hit, found.val);
      }
      lost := Fill(lba, lba + i, num, buff, write, hit, entry);
      if !write && num > 0 {
        OverlaidRead(c0, d0, Copies(), disk, data, lba, lba + i, lba + i + num, lost);
      }
      Kept(m0, num, hit, entry);
    }

    /** If sector `k` is cached, `entry` is its copy; if not, `entry` is no sector's copy. */
    ghost predicate Held(k: nat, entry: CachedSector)
      reads this`cache, cache
    {
      if k in Cached() then Cached()[k] == entry else forall l | l in Cached() :: Cached()[l] != entry
    }

    /** Transfers the sector that was found cached; `missed` says if it was evicted since. */
    method UseFound(lba: nat, i: nat, next: nat, buff: array<Sector>, write: bool, entry: CachedSector,
                    ghost c0: map<nat, Copy>, ghost d0: seq<Sector>, ghost log: seq<nat>,
                      ghost lost: set<nat>) returns (ghost missed: set<nat>)
      requires Valid() && entry in sectors && Held(lba + next, entry) && i <= next < buff.Length
      requires Overlaid(c0, d0, Copies(), disk, buff[..], lba, lba + i, lba + (if write then next else i), lost)
      requires !write ==> ReadFrom(c0, d0, buff[..], lba, lba + i, lba + next, {})
      requires Traced(c0, log, Copies(), refused, lost, write, lba + i, lba + next)
      modifies entry, buff
      ensures Traced(c0, log, Copies(), refused, lost, write, lba + i, lba + next + 1)
      ensures Unwritten(c0, d0, Copies(), disk, missed, lost)
      ensures Valid() && missed == if lba + next in Cached() then {} else {lba + next}
      ensures Overlaid(c0, d0, Copies(), disk, buff[..], lba, lba + i, lba + (if write then next + 1 else i),
                       lost + missed)
      ensures write ==> buff[..] == old(buff[..])
      ensures !write ==>
                ReadFrom(c0, d0, buff[..], lba, lba + i, lba + next + 1, lost + missed) &&
                buff[..next] == old(buff[..next])
    {
      hide Valid, Cached, Copies, Overlaid, ReadFrom, Held, ReadOne, Traced, Unwritten;
      ghost var c1, data := Copies(), buff[..];
      missed := if lba + next in Cached() then {} else {lba + next};
      TracedCopy(c0, log, c1, refused, lost, write, lba + i, lba + next, Copy(buff[next], true));
      OutOfRange(c0, d0, c1, disk, data, lba, lba + i, lba + (if write then next else i), lba + next, missed, lost);
      if write {
        OverlaidCopy(c1, disk, data, lba, lba + next);
        WriteCopy(lba + next, entry, buff[next]);
        OverlaidThen(c0, d0, c1, disk, Copies(), disk, data, lba, lba + i, lba + next, lba + next + 1, lost, missed);
      } else {
        ReadCopy(lba + next, entry, buff, next);
        ReadOneMore(c0, d0, Copies(), disk, data, lba, lba + i, lba + next, lost, missed, buff[next]);
      }
      if missed == {} {
        NoneUnwritten(c0, d0, Copies(), disk, lost);
      } else {
        assert Copies() == c1;
      }
    }

    /** One round of a transfer: sectors that are not cached, from `i` on, and then one that is.
        `lost` are dirty sectors that could not be written back, and `missed` the one that was found
        cached and was then evicted before it was used. */
    method Round(lba: nat, i: nat, n: nat, buff: array<Sector>, write: bool)
      returns (ok: bool, next: nat, ghost lost: set<nat>, ghost missed: set<nat>)
      requires Valid() && i < n <= buff.Length
      modifies this`asked, this`disk, this`refused, this`sectors, this`puts, cache`mru, cache`lru
      modifies cache`numEntries, cache`order, cache`nodes, cache`stale, cache`used, cache`clock, cache`freedWrites
      modifies cache.entries, cache.entries.mdata, cache.entries.slots, cache.nodes, sectors, buff
      ensures reliable && old(Has(lba, n)) ==> ok
      ensures var f := FirstIn(Keys(old(cache.Model())), lba, i, n);
              asked == old(asked) + (if write then [] else RunFor(lba, i, f, ok)) && (!ok ==> !write && f > i)
      ensures puts >= old(puts) && (puts == old(puts) ==> lost == {})
      ensures Valid() && |disk| == |old(disk)| && |cache.Model()| >= |old(cache.Model())| && i < next
      ensures Overlaid(old(Copies()), old(disk), Copies(), disk, buff[..], lba, lba + i,
                       lba + (if write then Min(next, n) else i), lost + missed)
      ensures write ==> ok && buff[..] == old(buff[..])
      ensures !write ==> buff[..i] == old(buff[..i])
      ensures !write && ok ==> ReadFrom(old(Copies()), old(disk), buff[..], lba, lba + i, lba + Min(next, n),
                                        lost + missed)
      ensures |old(cache.Model())| >= n ==> missed == {}
      ensures forall l | l in missed :: lba + i <= l < lba + n && l in old(Copies())
      ensures Traced(old(Copies()), old(refused), Copies(), refused, lost, write, lba + i, lba + Min(next, n))
      ensures forall l | l in missed :: lba + i <= l < lba + Min(next, n)
      ensures Unwritten(old(Copies()), old(disk), Copies(), disk, missed, lost)
      ensures ok ==>
                && next == FirstIn(Keys(old(cache.Model())), lba, i, n) + 1
                && OneRound(Keys(old(cache.Model())), lba, i, n, critical, old(puts)) ==
                   Served(Keys(cache.Model()), puts, missed)
      ensures fresh(sectors - old(sectors)) && fresh(cache.nodes - old(cache.nodes))
      ensures cache.entries.mdata == old(cache.entries.mdata) || fresh(cache.entries.mdata)
      ensures cache.entries.slots == old(cache.entries.slots) || fresh(cache.entries.slots)
    {
      hide *;
      ghost var c0, d0, m0, t := Copies(), disk, cache.Model(), puts;
      lost, missed := {}, {};
      var found;
      next, found := Scan(lba, i, n);
      ghost var m1 := cache.Model();
      var num := next - i;
      PartOf(lba, i, num, n);
      ok := ReadRun(lba, i, num, buff, write);
      if !ok {
        next := next + 1;
        NoRound(c0, d0, refused, buff[..], write, lba, lba + i, lba + Min(next, n), lost, missed);
        NoneUnwritten(c0, d0, Copies(), disk, lost);
        return;
      }
      lost, missed := Finish(lba, i, next, n, buff, write, found);
      RoundEnded(m0, m1, lba, i, n, next, t, missed);
      next := next + 1;
    }

    lemma RoundEnded(m0: seq<(nat, CachedSector)>, m1: seq<(nat, CachedSector)>, lba: nat, i: nat, n: nat, next: nat,
                     t: nat, missed: set<nat>)
      requires i < n && next == FirstIn(Keys(m0), lba, i, n)
      requires Keys(m1) == if next < n then Front(Keys(m0), lba + next) else Keys(m0)
      requires Reached(m1, cache.Model(), lba + i, critical, t, next - i) && puts == t + (next - i)
      requires missed == if next < n && lba + next !in Cached() then {lba + next} else {}
      ensures OneRound(Keys(m0), lba, i, n, critical, t) == Served(Keys(cache.Model()), puts, missed)
      ensures forall l | l in missed :: lba + i <= l < lba + Min(next + 1, n)
    {
      hide Keys, Front, Run, FirstIn, Course, Reached, OneRound, Index;
      RoundIs(m0, m1, cache.Model(), lba, i, n, next, critical, t, missed);
    }

    /** The second half of a round: what was not cached is, and what was is used. */
    method Finish(lba: nat, i: nat, next: nat, n: nat, buff: array<Sector>, write: bool, found: Slot<nat, CachedSector>)
      returns (ghost lost: set<nat>, ghost missed: set<nat>)
      requires Valid() && i <= next <= n <= buff.Length && NoneIn(Cached(), lba + i, lba + next) &&
               (found.Entry? <==> next < n)
      requires !write ==>
                Uncopied(Copies(), lba + i, lba + next) &&
                (next > i ==> FromDisk(disk, buff[..], lba, lba + i, lba + next))
      requires !write ==> ReadFrom(Copies(), disk, buff[..], lba, lba + i, lba + next, {})
      requires found.Entry? ==> AtFront(lba + next, found.val)
      modifies this`disk, this`refused, this`sectors, this`puts, cache`mru, cache`lru, cache`numEntries
      modifies cache`order, cache`nodes, cache`stale, cache`used, cache`clock, cache`freedWrites
      modifies cache.entries, cache.entries.mdata, cache.entries.slots, cache.nodes, sectors, buff
      ensures Valid() && |disk| == |old(disk)| && |cache.Model()| >= |old(cache.Model())|
      ensures Overlaid(old(Copies()), old(disk), Copies(), disk, buff[..], lba, lba + i,
                       lba + (if write then Min(next + 1, n) else i), lost + missed)
      ensures write ==> buff[..] == old(buff[..])
      ensures !write ==> buff[..i] == old(buff[..i])
      ensures !write ==> ReadFrom(old(Copies()), old(disk), buff[..], lba, lba + i, lba + Min(next + 1, n),
                                  lost + missed)
      ensures |old(cache.Model())| >= n ==> missed == {}
      ensures missed == if next < n && |cache.Model()| <= next - i then {lba + next} else {}
      ensures forall l | l in missed :: lba + i <= l < lba + n && l in old(Copies())
      ensures Traced(old(Copies()), old(refused), Copies(), refused, lost, write, lba + i, lba + Min(next + 1, n))
      ensures missed == if next < n && lba + next !in Cached() then {lba + next} else {}
      ensures Reached(old(cache.Model()), cache.Model(), lba + i, critical, old(puts), next - i)
      ensures next == i ==> lost == {}
      ensures puts == old(puts) + (next - i) && Unwritten(old(Copies()), old(disk), Copies(), disk, missed, lost)
      ensures fresh(sectors - old(sectors)) && fresh(cache.nodes - old(cache.nodes))
      ensures cache.entries.mdata == old(cache.entries.mdata) || fresh(cache.entries.mdata)
      ensures cache.entries.slots == old(cache.entries.slots) || fresh(cache.entries.slots)
    {
      hide *;
      MinIs(next + 1, n);
      ghost var c0, d0, log := Copies(), disk, refused;
      if found.Entry? {
        FrontCopied(lba + next, found.val);
      }
      missed := {};
      lost := FillRun(lba, i, next - i, buff, write, found);
      if found.Entry? {
        missed := UseFound(lba, i, next, buff, write, found.val, c0, d0, log, lost);
      } else if !write {
        ReadLess(c0, d0, buff[..], lba, lba + i, lba + next, lost);
      }
      assert lost + {} == lost;
      NoneUnwritten(c0, d0, Copies(), disk, lost);
    }

    /** Reads or writes `n` sectors through the cache. The logical disk changes only by what is
        written, and what is read is what it holds; except for sectors in `lost`, which were dirty
        and which the device refused when they were evicted, and those in `missed`, sectors of the
        request that were cached at first but evicted between being found and being used. A request
        that is served misses exactly those that `Serve` finds, from the order of the cache and from
        when memory is critical; none if the cache held at least `n` sectors. What is written to them
        gets lost. None is in `lost` if the device refuses no write, or is reliable and has all
        sectors concerned. */
    method CacheReadWrite(lba: nat, n: nat, buff: array<Sector>, write: bool)
      returns (ok: bool, ghost lost: set<nat>, ghost missed: set<nat>)
      requires Valid() && n <= buff.Length
      modifies this`asked, this`disk, this`refused, this`sectors, this`puts, cache`mru, cache`lru
      modifies cache`numEntries, cache`order, cache`nodes, cache`stale, cache`used, cache`clock, cache`freedWrites
      modifies cache.entries, cache.entries.mdata, cache.entries.slots, cache.nodes, sectors, buff
      ensures reliable && old(Has(lba, n)) ==> ok
      ensures write ==> asked == old(asked)
      ensures !write ==>
                Answered(old(asked) + Asks(Keys(old(cache.Model())), lba, 0, n, critical, old(puts)), |old(asked)|,
                         asked, ok)
      ensures old(AllHeld(lba, n)) ==> ok && asked == old(asked) && refused == old(refused)
      ensures old(AllHeld(lba, n)) && !write ==>
                ReadFrom(old(Copies()), old(disk), buff[..], lba, lba, lba + n, {})
      ensures Valid() && |disk| == |old(disk)|
      ensures write ==> ok && buff[..] == old(buff[..])
      ensures Overlaid(old(Copies()), old(disk), Copies(), disk, buff[..], lba, lba, lba + (if write then n else 0),
                       lost + missed)
      ensures !write && ok ==> ReadFrom(old(Copies()), old(disk), buff[..], lba, lba, lba + n, lost + missed)
      ensures |old(cache.Model())| >= n ==> missed == {}
      ensures ok ==>
                Serve(Keys(old(cache.Model())), lba, 0, n, critical, old(puts), {}) ==
                Served(Keys(cache.Model()), puts, missed)
      ensures Unwritten(old(Copies()), old(disk), Copies(), disk, missed, lost)
      ensures forall l | l in missed :: lba <= l < lba + n && l in old(Copies())
      ensures Traced(old(Copies()), old(refused), Copies(), refused, lost, write, lba, lba + n)
      ensures old(DirtyHere()) && reliable && (write ==> old(Has(lba, n))) ==> lost == {} && DirtyHere()
      ensures |old(cache.Model())| >= n && refused == old(refused) ==>
                && Overlaid(old(Copies()), old(disk), Copies(), disk, buff[..], lba, lba,
                            lba + (if write then n else 0), {})
                && (!write && ok ==> ReadFrom(old(Copies()), old(disk), buff[..], lba, lba, lba + n, {}))
      ensures fresh(sectors - old(sectors)) && fresh(cache.nodes - old(cache.nodes))
      ensures cache.entries.mdata == old(cache.entries.mdata) || fresh(cache.entries.mdata)
      ensures cache.entries.slots == old(cache.entries.slots) || fresh(cache.entries.slots)
    {
      hide Valid, Cached, Copies, Overlaid, ReadFrom, Progress, Traced, Unwritten, Keys, Serve, Asks, Answered, AllHeld;
      ghost var c0, d0, log, size := Copies(), disk, refused, |cache.Model()|;
      ghost var served := Serve(Keys(cache.Model()), lba, 0, n, critical, puts, {});
      ghost var all := asked + Asks(Keys(cache.Model()), lba, 0, n, critical, puts);
      ghost var held, asked0, t := AllHeld(lba, n), asked, puts;
      HeldAll(lba, n);
      assert asked + [] == asked;
      Started(lba, buff[..], n, size, write);
      ok, lost, missed := AllRounds(c0, d0, log, lba, n, buff, size, served, write, all);
      Ended(c0, d0, log, lba, buff[..], n, size, served, lost, missed, write, ok);
      ReliablyEnded(c0, log, lost, write, lba, n, old(disk));
      HeldEnded(held, served, t, c0, log, lba, n, asked0, all, lost, missed, write, ok);
    }

    /** One round after another, until one fails or the request is done. */
    method AllRounds(ghost c0: map<nat, Copy>, ghost d0: seq<Sector>, ghost log: seq<nat>, lba: nat, n: nat,
                     buff: array<Sector>, ghost size: nat, ghost served: Served, write: bool, ghost all: seq<Ask>)
      returns (ok: bool, ghost lost: set<nat>, ghost missed: set<nat>)
      requires Progress(c0, d0, log, lba, buff[..], 0, n, size, served, {}, {}, write, true) && n <= buff.Length
      requires all == asked + Asks(Keys(cache.Model()), lba, 0, n, critical, puts)
      modifies this`asked, this`disk, this`refused, this`sectors, this`puts, cache`mru, cache`lru
      modifies cache`numEntries, cache`order, cache`nodes, cache`stale, cache`used, cache`clock, cache`freedWrites
      modifies cache.entries, cache.entries.mdata, cache.entries.slots, cache.nodes, sectors, buff
      ensures reliable && old(Has(lba, n)) ==> ok
      ensures |disk| == |old(disk)| && (write ==> ok && buff[..] == old(buff[..]))
      ensures if write then asked == old(asked) else Answered(all, |old(asked)|, asked, ok)
      ensures puts == old(puts) ==> lost == {}
      ensures Progress(c0, d0, log, lba, buff[..], n, n, size, served, lost, missed, write, ok)
      ensures fresh(sectors - old(sectors)) && fresh(cache.nodes - old(cache.nodes))
      ensures cache.entries.mdata == old(cache.entries.mdata) || fresh(cache.entries.mdata)
      ensures cache.entries.slots == old(cache.entries.slots) || fresh(cache.entries.slots)
    {
      hide *;
      lost, missed, ok := {}, {}, true;
      var i := 0;
      MinIs(0, n);
      ghost var asked0 := asked;
      HasIs(lba, n);
      while i < n
        invariant ok && Progress(c0, d0, log, lba, buff[..], Min(i, n), n, size, served, lost, missed, write, true)
        invariant |disk| == |old(disk)|
        invariant write ==> buff[..] == old(buff[..]) && asked == asked0
        invariant !write ==>
                    |asked| >= |asked0| && asked + Asks(Keys(cache.Model()), lba, i, n, critical, puts) == all
        invariant puts >= old(puts) && (puts == old(puts) ==> lost == {})
        invariant fresh(sectors - old(sectors)) && fresh(cache.nodes - old(cache.nodes))
        invariant cache.entries.mdata == old(cache.entries.mdata) || fresh(cache.entries.mdata)
        invariant cache.entries.slots == old(cache.entries.slots) || fresh(cache.entries.slots)
      {
        ghost var asked1 := asked;
        HasIs(lba, n);
        MinIs(i, n);
        ok, i, lost, missed := RoundAfter(c0, d0, log, lba, i, n, buff, size, served, lost, missed, write);
        MinIs(i, n);
        if !ok {
          AnsweredFrom(all, |asked0|, |asked1|);
          return;
        }
      }
      MinIs(i, n);
      AllAnswered(Keys(cache.Model()), lba, i, n, puts, all, |asked0|, write, ok);
    }

    lemma HasIs(lba: nat, n: nat)
      ensures Has(lba, n) <==> (n > 0 ==> lba + n <= maxLba + 1 && lba + n <= |disk|)
    {
    }

    lemma AnsweredFrom(all: seq<Ask>, from: nat, from': nat)
      requires Answered(all, from', asked, false) && from <= from'
      ensures Answered(all, from, asked, false)
    {
    }

    lemma HeldEnded(held: bool, served: Served, t: nat, c0: map<nat, Copy>, log: seq<nat>, lba: nat, n: nat,
                    asked0: seq<Ask>, all: seq<Ask>, lost: set<nat>, missed: set<nat>, write: bool, ok: bool)
      requires held ==> all == asked0 && served.puts == t && served.missed == {}
      requires ok ==> served == Served(Keys(cache.Model()), puts, missed)
      requires if write then ok && asked == asked0 else Answered(all, |asked0|, asked, ok)
      requires puts == t ==> lost == {}
      requires Traced(c0, log, Copies(), refused, lost, write, lba, lba + n)
      ensures held ==> ok && asked == asked0 && refused == log && lost + missed == {}
    {
      if held {
        assert ok;
        assert lost == {} && missed == {};
        TracedNothing(c0, log, Copies(), refused, write, lba, lba + n);
      }
    }

    /** All sectors of the request are cached. */
    ghost predicate AllHeld(lba: nat, n: nat)
      reads this`cache, cache
    {
      forall l: nat | lba <= l < lba + n :: l in Cached()
    }

    /** Then the device is asked for nothing, and nothing is put into the cache. */
    lemma HeldAll(lba: nat, n: nat)
      requires Valid()
      ensures AllHeld(lba, n) ==>
                var s := Serve(Keys(cache.Model()), lba, 0, n, critical, puts, {});
                Asks(Keys(cache.Model()), lba, 0, n, critical, puts) == [] && s.puts == puts && s.missed == {}
    {
      CacheKeys();
      assert AllDifferent(Keys(cache.Model()));
      AllCached(Keys(cache.Model()), lba, 0, n, critical, puts, {});
      hide AllDifferent, Keys, Index, Serve, Asks;
      forall l: nat | AllHeld(lba, n) && lba <= l < lba + n
        ensures l in Keys(cache.Model())
      {
        KeysIndex(cache.Model(), l);
      }
    }

    lemma AllAnswered(keys: seq<nat>, lba: nat, i: nat, n: nat, t: nat, all: seq<Ask>, from: nat, write: bool, ok: bool)
      requires ok ==> i >= n && (!write ==> asked + Asks(keys, lba, i, n, critical, t) == all)
      requires !ok && !write ==> Answered(all, from, asked, false)
      ensures !write ==> Answered(all, from, asked, ok)
    {
      if ok && !write {
        assert asked + [] == asked;
      }
    }

    lemma ReliablyEnded(c0: map<nat, Copy>, log: seq<nat>, lost: set<nat>, write: bool, lba: nat, n: nat,
                        disk0: seq<Sector>)
      requires Valid() && |disk| == |disk0| && Traced(c0, log, Copies(), refused, lost, write, lba, lba + n)
      ensures reliable && (write ==> Has(lba, n)) && (forall k | Dirty(c0, k) :: Has(k, 1)) ==>
                lost == {} && DirtyHere()
    {
      hide Traced, Copies;
      if reliable && (write ==> Has(lba, n)) && (forall k | Dirty(c0, k) :: Has(k, 1)) {
        NoneLost(c0, log, Copies(), lost, write, lba, n);
      }
    }

    /** The state of a transfer of `n` sectors when `i` are done, if `ok`. */
    ghost predicate Progress(c0: map<nat, Copy>, d0: seq<Sector>, log: seq<nat>, lba: nat, data: seq<Sector>, i: nat,
                             n: nat, size: nat, served: Served,
                             lost: set<nat>, missed: set<nat>, write: bool, ok: bool)
      reads this`disk, this`sectors, this`cache, this`refused, this`puts, sectors, cache, cache.nodes, cache.entries,
            cache.entries.mdata, cache.entries.slots
    {
      && Valid() && |disk| == |d0| && |cache.Model()| >= size && i <= n <= |data|
      && Overlaid(c0, d0, Copies(), disk, data, lba, lba, lba + (if write then i else 0), lost + missed)
      && (!write && ok ==> ReadFrom(c0, d0, data, lba, lba, lba + i, lost + missed))
      && (size >= n ==> missed == {}) && (forall l | l in missed :: lba <= l < lba + i && l in c0)
      && Unwritten(c0, d0, Copies(), disk, missed, lost)
      && (ok ==> Serve(Keys(cache.Model()), lba, i, n, critical, puts, missed) == served)
      && Traced(c0, log, Copies(), refused, lost, write, lba, lba + i)
    }

    lemma Started(lba: nat, data: seq<Sector>, n: nat, size: nat, write: bool)
      requires Valid() && n <= |data| && |cache.Model()| >= size
      ensures Progress(Copies(), disk, refused, lba, data, 0, n, size,
                       Serve(Keys(cache.Model()), lba, 0, n, critical, puts, {}), {}, {}, write, true)
    {
      hide Valid, Copies, Overlaid, ReadFrom, Traced, Serve;
      NoneUnwritten(Copies(), disk, Copies(), disk, {});
      TracedNone(Copies(), refused, write, lba, lba);
      OverlaidNone(Copies(), disk, data, lba, lba);
      NothingRead(Copies(), disk, data, lba);
      assert var none: set<nat> := {}; none + none == none;
    }

    lemma Ended(c0: map<nat, Copy>, d0: seq<Sector>, log: seq<nat>, lba: nat, data: seq<Sector>, n: nat, size: nat,
                served: Served, lost: set<nat>, missed: set<nat>, write: bool, ok: bool)
      requires Progress(c0, d0, log, lba, data, n, n, size, served, lost, missed, write, ok)
      ensures Valid() && |disk| == |d0| && (size >= n ==> missed == {})
      ensures Overlaid(c0, d0, Copies(), disk, data, lba, lba, lba + (if write then n else 0), lost + missed)
      ensures !write && ok ==> ReadFrom(c0, d0, data, lba, lba, lba + n, lost + missed)
      ensures forall l | l in missed :: lba <= l < lba + n && l in c0
      ensures Traced(c0, log, Copies(), refused, lost, write, lba, lba + n)
      ensures size >= n && refused == log ==> lost + missed == {}
      ensures Unwritten(c0, d0, Copies(), disk, missed, lost)
      ensures ok ==> served == Served(Keys(cache.Model()), puts, missed)
    {
      hide Valid, Copies, Overlaid, ReadFrom, Unwritten;
      assert log[|log|..] == [];
      hide Traced;
    }

    /** One more round. */
    method RoundAfter(ghost c0: map<nat, Copy>, ghost d0: seq<Sector>, ghost log: seq<nat>, lba: nat, i: nat, n: nat,
                      buff: array<Sector>, ghost size: nat, ghost served: Served,
                      ghost lost0: set<nat>, ghost missed0: set<nat>, write: bool)
      returns (ok: bool, next: nat, ghost lost: set<nat>, ghost missed: set<nat>)
      requires i < n <= buff.Length && Progress(c0, d0, log, lba, buff[..], i, n, size, served, lost0, missed0, write,
                                                true)
      modifies this`asked, this`disk, this`refused, this`sectors, this`puts, cache`mru, cache`lru
      modifies cache`numEntries, cache`order, cache`nodes, cache`stale, cache`used, cache`clock, cache`freedWrites
      modifies cache.entries, cache.entries.mdata, cache.entries.slots, cache.nodes, sectors, buff
      ensures reliable && old(Has(lba, n)) ==> ok
      ensures |disk| == |old(disk)|
      ensures write ==> asked == old(asked)
      ensures !write ==>
                var all := old(asked) + Asks(Keys(old(cache.Model())), lba, i, n, critical, old(puts));
                if ok then
                  |asked| >= |old(asked)| && asked + Asks(Keys(cache.Model()), lba, next, n, critical, puts) == all
                else Answered(all, |old(asked)|, asked, false)
      ensures puts >= old(puts) && (puts == old(puts) && lost0 == {} ==> lost == {})
      ensures i < next && (write ==> ok && buff[..] == old(buff[..]))
      ensures Progress(c0, d0, log, lba, buff[..], if ok then Min(next, n) else n, n, size, served, lost, missed,
                       write, ok)
      ensures fresh(sectors - old(sectors)) && fresh(cache.nodes - old(cache.nodes))
      ensures cache.entries.mdata == old(cache.entries.mdata) || fresh(cache.entries.mdata)
      ensures cache.entries.slots == old(cache.entries.slots) || fresh(cache.entries.slots)
    {
      hide *;
      ghost var c1, d1, log1, data, keys, t := Copies(), disk, refused, buff[..], Keys(cache.Model()), puts;
      ghost var lost1, missed1: set<nat>, asked0 := {}, {}, asked;
      Before(c0, d0, log, lba, data, i, n, size, served, lost0, missed0, write);
      ok, next, lost1, missed1 := Round(lba, i, n, buff, write);
      lost, missed := lost0 + lost1, missed0 + missed1;
      MinIs(next, n);
      Rounds(c0, d0, c1, d1, Copies(), disk, data, buff[..], lba, i, Min(next, n), lost0, missed0, lost1, missed1,
             write, ok);
      UnwrittenThen(c0, d0, c1, d1, Copies(), disk, data, buff[..], lba, lba + i, lba + (if write then i else 0),
                    lba + (if write then Min(next, n) else i), missed0, lost0, missed1, lost1);
      if ok {
        ServeOn(keys, Keys(cache.Model()), lba, i, next, n, t, missed0, missed1);
      }
      if !write {
        AskOn(keys, Keys(cache.Model()), lba, i, n, t, missed1, asked0, ok);
      }
      After(c0, d0, log, c1, log1, lba, buff[..], i, next, n, size, served, lost0, missed0, lost1, missed1, write, ok);
    }

    /** What Progress says. */
    lemma Before(c0: map<nat, Copy>, d0: seq<Sector>, log: seq<nat>, lba: nat, data: seq<Sector>, i: nat, n: nat,
                 size: nat, served: Served, lost: set<nat>, missed: set<nat>, write: bool)
      requires Progress(c0, d0, log, lba, data, i, n, size, served, lost, missed, write, true)
      ensures Valid() && |disk| == |d0| && |cache.Model()| >= size && i <= n <= |data|
      ensures Overlaid(c0, d0, Copies(), disk, data, lba, lba, lba + (if write then i else 0), lost + missed)
      ensures !write ==> ReadFrom(c0, d0, data, lba, lba, lba + i, lost + missed)
      ensures (size >= n ==> missed == {}) && (forall l | l in missed :: lba <= l < lba + i && l in c0)
      ensures Unwritten(c0, d0, Copies(), disk, missed, lost)
      ensures Serve(Keys(cache.Model()), lba, i, n, critical, puts, missed) == served
      ensures Traced(c0, log, Copies(), refused, lost, write, lba, lba + i)
      ensures Overlaid(c0, d0, Copies(), disk, data, lba, lba, lba + (if write then i else 0), missed + lost)
      ensures lost + missed == missed + lost
    {
      hide Valid, Copies, Overlaid, ReadFrom, Traced, Unwritten, Keys, Serve;
      assert lost + missed == missed + lost;
    }

    lemma ServeOn(keys: seq<nat>, keys': seq<nat>, lba: nat, i: nat, next: nat, n: nat, t: nat, missed0: set<nat>,
                  missed1: set<nat>)
      requires i < n && next == FirstIn(keys, lba, i, n) + 1
      requires OneRound(keys, lba, i, n, critical, t) == Served(keys', puts, missed1)
      ensures Serve(keys, lba, i, n, critical, t, missed0) ==
              Serve(keys', lba, Min(next, n), n, critical, puts, missed0 + missed1)
    {
      hide OneRound, FirstIn, Serve;
      ServeStep(keys, lba, i, n, critical, t, missed0);
      if next > n {
        ServeEnd(keys', lba, n, n, critical, puts, missed0 + missed1);
        ServeEnd(keys', lba, next, n, critical, puts, missed0 + missed1);
      }
    }

    lemma AskOn(keys: seq<nat>, keys': seq<nat>, lba: nat, i: nat, n: nat, t: nat, missed1: set<nat>, asked0: seq<Ask>,
                ok: bool)
      requires i < n && (ok ==> OneRound(keys, lba, i, n, critical, t) == Served(keys', puts, missed1))
      requires var f := FirstIn(keys, lba, i, n); asked == asked0 + RunFor(lba, i, f, ok) && (!ok ==> f > i)
      ensures var all := asked0 + Asks(keys, lba, i, n, critical, t);
              if ok then asked + Asks(keys', lba, FirstIn(keys, lba, i, n) + 1, n, critical, puts) == all
              else Answered(all, |asked0|, asked, false)
    {
      hide OneRound, FirstIn;
      AsksStep(keys, lba, i, n, critical, t);
    }

    /** Progress after one more round. */
    lemma After(c0: map<nat, Copy>, d0: seq<Sector>, log: seq<nat>, c1: map<nat, Copy>, log1: seq<nat>, lba: nat,
                data: seq<Sector>, i: nat, next: nat, n: nat, size: nat, served: Served, lost0: set<nat>,
                missed0: set<nat>, lost1: set<nat>, missed1: set<nat>, write: bool, ok: bool)
      requires Valid() && |disk| == |d0| && |cache.Model()| >= size && i < next && i < n <= |data| && (write ==> ok)
      requires var to := Min(next, n); var lost, missed := lost0 + lost1, missed0 + missed1;
               && Overlaid(c0, d0, Copies(), disk, data, lba, lba, lba + (if write then to else 0), lost + missed)
               && (!write && ok ==> ReadFrom(c0, d0, data, lba, lba, lba + to, lost + missed))
               && Unwritten(c0, d0, Copies(), disk, missed, lost)
               && (ok ==> Serve(Keys(cache.Model()), lba, to, n, critical, puts, missed) == served)
      requires size >= n ==> missed0 == {} && missed1 == {}
      requires forall l | l in missed0 :: lba <= l < lba + i && l in c0
      requires forall l | l in missed1 :: lba + i <= l < lba + Min(next, n) && l in c1
      requires Traced(c0, log, c1, log1, lost0, write, lba, lba + i)
      requires Traced(c1, log1, Copies(), refused, lost1, write, lba + i, lba + Min(next, n))
      ensures Progress(c0, d0, log, lba, data, if ok then Min(next, n) else n, n, size, served, lost0 + lost1,
                       missed0 + missed1, write, ok)
    {
      hide Valid, Copies, Overlaid, ReadFrom, Traced, Unwritten, Keys, Serve;
      var to := Min(next, n);
      TracedKeys(c0, log, c1, log1, lost0, write, lba, lba + i);
      TracedThen(c0, log, c1, log1, Copies(), refused, lost0, lost1, write, lba, lba + i, lba + to);
      TracedFurther(c0, log, Copies(), refused, lost0 + lost1, write, lba, lba + to, lba + if ok then to else n);
    }

    /** Empties the cache, as the destructor does. The device then holds the logical disk, apart from
        the sectors in `lost`, which were dirty and which it refused. */
    method Flush() returns (ghost lost: set<nat>)
      requires Valid()
      modifies this`disk, this`refused, cache`lru, cache`numEntries, cache`order, cache`stale
      modifies cache.entries`contents, cache.entries.mdata, cache.nodes
      ensures Valid() && Cached() == map[] && |disk| == |old(disk)|
      ensures Same(old(Copies()), old(disk), map[], disk, lost)
      ensures Traced(old(Copies()), old(refused), map[], refused, lost, false, 0, 0)
      ensures refused == old(refused) ==> Same(old(Copies()), old(disk), map[], disk, {})
      ensures old(DirtyHere()) && reliable ==> lost == {}
    {
      hide Flushing, Valid, Reverse, Same, Traced;
      ghost var copies0, disk0, log := Copies(), disk, refused;
      var handed := FlushCache();
      lost := {};
      assert handed[0..] == handed;
      var i := 0;
      while i < |handed|
        invariant i <= |handed| && Flushing(handed[i..], copies0, disk0, log, lost)
      {
        lost := EvictNext(handed[i..], copies0, disk0, log, lost);
        assert handed[i..][1..] == handed[i + 1..];
        i := i + 1;
      }
      assert handed[i..] == [];
      Flushed(copies0, disk0, log, lost);
      FlushedReliably(copies0, log, lost);
    }

    lemma FlushedReliably(copies0: map<nat, Copy>, log: seq<nat>, lost: set<nat>)
      requires Valid() && Traced(copies0, log, map[], refused, lost, false, 0, 0)
      ensures reliable && (forall k | Dirty(copies0, k) :: Has(k, 1)) ==> lost == {}
    {
      hide Traced;
      if reliable && (forall k | Dirty(copies0, k) :: Has(k, 1)) {
        NoneLost(copies0, log, map[], lost, false, 0, 0);
      }
    }

    /** The sectors in `rest` have left the cache, and are yet to be written back. */
    ghost predicate Flushing(rest: seq<(nat, CachedSector)>, copies0: map<nat, Copy>, disk0: seq<Sector>,
                             log: seq<nat>, lost: set<nat>)
      reads this`disk, this`sectors, this`cache, this`refused, sectors, cache, cache.nodes, cache.entries,
            cache.entries.mdata, cache.entries.slots
    {
      && cache.Valid() && cache.Model() == [] && |disk| == |disk0| && KeysDistinct(rest)
      && Apart(Index(rest), sectors) && Clean(CopiesOf(Index(rest), sectors), disk)
      && Same(copies0, disk0, CopiesOf(Index(rest), sectors), disk, lost)
      && Traced(copies0, log, CopiesOf(Index(rest), sectors), refused, lost, false, 0, 0) && Blameless()
    }

    lemma Flushed(copies0: map<nat, Copy>, disk0: seq<Sector>, log: seq<nat>, lost: set<nat>)
      requires Flushing([], copies0, disk0, log, lost)
      ensures Valid() && Cached() == map[] && |disk| == |disk0| && Same(copies0, disk0, map[], disk, lost)
      ensures Traced(copies0, log, map[], refused, lost, false, 0, 0) && (refused == log ==> lost == {})
    {
      hide Same;
      assert log[|log|..] == [];
      NothingCached(sectors);
    }

    method FlushCache() returns (handed: seq<(nat, CachedSector)>)
      requires Valid()
      modifies cache`lru, cache`numEntries, cache`order, cache`stale, cache.entries`contents
      modifies cache.entries.mdata, cache.nodes
      ensures Flushing(handed, old(Copies()), old(disk), old(refused), {})
    {
      hide Index, CopiesOf, Reverse, Clean, Same, Apart, KeysDistinct, Traced;
      TracedNone(Copies(), refused, false, 0, 0);
      CacheKeys();
      IndexReverse(cache.Model());
      SameAtFirst(Copies(), disk);
      handed := EmptyCache();
    }

    method EmptyCache() returns (handed: seq<(nat, CachedSector)>)
      requires cache.Valid()
      modifies cache`lru, cache`numEntries, cache`order, cache`stale, cache.entries`contents
      modifies cache.entries.mdata, cache.nodes
      ensures cache.Valid() && cache.Model() == [] && handed == Reverse(old(cache.Model()))
      ensures CopiesOf(old(Cached()), sectors) == old(CopiesOf(Cached(), sectors))
    {
      hide Index, CopiesOf, Reverse;
      handed := cache.Flush();
      assert unchanged(sectors);
    }

    /** Writes one evicted sector back. */
    method EvictNext(rest: seq<(nat, CachedSector)>, ghost copies0: map<nat, Copy>, ghost disk0: seq<Sector>,
                     ghost log: seq<nat>, ghost lost0: set<nat>)
      returns (ghost lost: set<nat>)
      requires rest != [] && Flushing(rest, copies0, disk0, log, lost0)
      modifies this`disk, this`refused
      ensures Flushing(rest[1..], copies0, disk0, log, lost)
    {
      hide Index, Clean, CopiesOf, KeysDistinct, Same, Traced;
      ghost var copies, disk1, log1 := CopiesOf(Index(rest), sectors), disk, refused;
      IndexTail(rest);
      CopiesTail(Index(rest), sectors, rest[0].0);
      ghost var ok := WriteBack(rest[0].0, rest[0].1, Index(rest));
      CopiesTail(Index(rest), sectors, rest[0].0);
      Evicted(copies, disk1, rest[0].0, ok);
      TracedEvict(copies, log1, rest[0].0, ok);
      TracedThen(copies0, log, copies, log1, CopiesOf(Index(rest[1..]), sectors), refused, lost0, if ok then {}
                 else {rest[0].0}, false, 0, 0, 0);
      SameThen(copies0, disk0, copies, disk1, CopiesOf(Index(rest[1..]), sectors), disk, lost0, if ok then {}
               else {rest[0].0});
      lost := lost0 + if ok then {} else {rest[0].0};
    }
  }

  /** Sector 1 is written, and then sectors 0 and 1 are. Sector 1 is found in the cache, but memory is
      critical when sector 0 is cached, and so the second write to it is lost. */
  method MissedRun(old0: Sector, old1: Sector, first: Sector, second: Sector)
    returns (port: SataPort, ghost missed: set<nat>)
    ensures fresh(port) && port.Valid() && missed == {1}
    ensures Logical(port.Copies(), port.disk, 1) == Some(first) && Logical(port.Copies(), port.disk, 0) == Some(second)
  {
    hide *;
    port := OneWritten(old0, old1, first);
    ghost var lost;
    var ok;
    var two := new Sector[2](_ => second);
    ghost var c, d, data := port.Copies(), port.disk, two[..];
    port.HasTwo();
    ok, lost, missed := port.CacheReadWrite(0, 2, two, true);
    SecondServe(port.critical);
    OverlaidAt(c, d, port.Copies(), port.disk, data, 0, 0, 2, lost, missed, 0);
    UnwrittenAt(c, d, port.Copies(), port.disk, missed, lost, 1);
  }

  method OneWritten(old0: Sector, old1: Sector, first: Sector) returns (port: SataPort)
    ensures fresh(port) && fresh(port.cache) && fresh(port.cache.entries) && fresh(port.cache.entries.mdata)
    ensures fresh(port.cache.entries.slots) && fresh(port.sectors) && fresh(port.cache.nodes)
    ensures port.Valid() && port.DirtyHere() && port.reliable && port.maxLba == 1 && |port.disk| == 2
    ensures Keys(port.cache.Model()) == [1] && port.puts == 1 && port.critical(1)
    ensures Logical(port.Copies(), port.disk, 1) == Some(first)
  {
    hide *;
    port := new SataPort([old0, old1], 1, k => k, true, t => t == 1);
    port.NothingDirty();
    port.HasTwo();
    var one := new Sector[1](_ => first);
    ghost var c, d, data := port.Copies(), port.disk, one[..];
    var ok;
    ghost var lost, missed;
    ok, lost, missed := port.CacheReadWrite(1, 1, one, true);
    FirstServe(port.critical);
    OverlaidAt(c, d, port.Copies(), port.disk, data, 1, 1, 2, lost, missed, 1);
  }

  lemma OverlaidAt(c0: map<nat, Copy>, d0: seq<Sector>, c: map<nat, Copy>, d: seq<Sector>, data: seq<Sector>, base: nat,
                   from: nat, to: nat, lost: set<nat>, missed: set<nat>, k: nat)
    requires Overlaid(c0, d0, c, d, data, base, from, to, lost + missed) && k !in lost && k !in missed && from <= k < to
    requires base <= k < base + |data|
    ensures Logical(c, d, k) == Some(data[k - base])
  {
  }

  lemma UnwrittenAt(c0: map<nat, Copy>, d0: seq<Sector>, c: map<nat, Copy>, d: seq<Sector>, missed: set<nat>,
                    lost: set<nat>, k: nat)
    requires Unwritten(c0, d0, c, d, missed, lost) && k in missed && k !in lost
    ensures Logical(c, d, k) == Logical(c0, d0, k)
  {
  }

  lemma FirstServe(critical: nat -> bool)
    requires !critical(0)
    ensures Keys([]) == [] && Serve([], 1, 0, 1, critical, 0, {}) == Served([1], 1, {})
  {
    FirstIs([], 1, 0, 1, 1);
    ServeStep([], 1, 0, 1, critical, 0, {});
    RunMore([], 1, critical, 0, 0);
    NothingRun([], 1, critical, 0);
  }

  lemma SecondServe(critical: nat -> bool)
    requires critical(1)
    ensures Serve([1], 0, 0, 2, critical, 1, {}) == Served([0], 2, {1})
  {
    FirstIs([1], 0, 0, 2, 1);
    ServeStep([1], 0, 0, 2, critical, 1, {});
    RunMore([1], 0, critical, 1, 0);
    NothingRun([1], 0, critical, 1);
    assert Front([1], 1) == [1];
  }
}
