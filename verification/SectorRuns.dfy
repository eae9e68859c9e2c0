/** Which sectors a cache holds while a request is served, the most recently used first, and which of
    those that were found are evicted before they are used. */
module SectorRuns {

  /** What is cached after `k` is put in, `critical` saying if memory was. */
  function Press(m: seq<nat>, k: nat, critical: bool): seq<nat> {
    [k] + (if critical && |m| > 0 then m[..|m| - 1] else m)
  }

  /** The same, for the sectors from `from` on, one after another. */
  function Run(m: seq<nat>, from: nat, critical: seq<bool>): seq<nat> {
    if critical == [] then m
    else
      var j := |critical| - 1;
      Press(Run(m, from, critical[..j]), from + j, critical[j])
  }

  function Count(critical: seq<bool>): nat {
    if critical == [] then 0
    else Count(critical[..|critical| - 1]) + if critical[|critical| - 1] then 1 else 0
  }

  /** The last used of the cached sectors is still cached after a run just when there were fewer
      evictions than sectors. */
  lemma {:induction false} RunKeeps(m: seq<nat>, from: nat, critical: seq<bool>)
    requires |m| > 0 && m[0] !in m[1..] && !(from <= m[0] < from + |critical|)
    ensures m[0] in Run(m, from, critical) <==> Count(critical) < |m|
    ensures var r, j := Run(m, from, critical), |critical|;
            Count(critical) < |m| ==>
              && |r| == |m| + j - Count(critical) && r[j] == m[0]
              && forall i | 0 <= i < |r| && r[i] == m[0] :: i == j
    decreases |critical|
  {
    if critical != [] {
      RunKeeps(m, from, critical[..|critical| - 1]);
    } else {
      assert forall i | 0 < i < |m| :: m[i] == m[1..][i - 1];
    }
  }

  lemma {:induction false} AllCritical(n: nat)
    ensures exists critical: seq<bool> :: |critical| == n && Count(critical) == n
  {
    if n == 0 {
      assert Count([]) == 0;
    } else {
      AllCritical(n - 1);
      var c: seq<bool> :| |c| == n - 1 && Count(c) == n - 1;
      assert (c + [true])[..n - 1] == c;
      assert Count(c + [true]) == n;
    }
  }

  lemma {:induction false} CountMost(critical: seq<bool>)
    ensures Count(critical) <= |critical|
    decreases |critical|
  {
    if critical != [] {
      CountMost(critical[..|critical| - 1]);
    }
  }

  /** A sector just found in the cache outlives the caching of `num` others, whenever memory is
      critical, if and only if more than `num` sectors were cached. */
  lemma Survives(m: seq<nat>, from: nat, num: nat)
    requires |m| > 0 && m[0] !in m[1..] && !(from <= m[0] < from + num)
    ensures (forall critical: seq<bool> | |critical| == num :: m[0] in Run(m, from, critical)) <==> |m| > num
  {
    forall critical: seq<bool> | |critical| == num && |m| > num
      ensures m[0] in Run(m, from, critical)
    {
      RunKeeps(m, from, critical);
      CountMost(critical);
    }
    AllCritical(num);
    var critical: seq<bool> :| |critical| == num && Count(critical) == num;
    RunKeeps(m, from, critical);
  }

  // ------------------------------------------------------------ whole requests

  /** When memory is critical, for `n` insertions from the `t`th on. */
  function Course(critical: nat -> bool, t: nat, n: nat): (c: seq<bool>)
    ensures |c| == n && forall i | 0 <= i < n :: c[i] == critical(t + i)
  {
    seq(n, i requires 0 <= i => critical(t + i))
  }

  lemma RunMore(m: seq<nat>, from: nat, critical: nat -> bool, t: nat, n: nat)
    ensures Run(m, from, Course(critical, t, n + 1)) ==
            Press(Run(m, from, Course(critical, t, n)), from + n, critical(t + n))
  {
    hide Press;
    assert Course(critical, t, n + 1)[..n] == Course(critical, t, n);
  }

  lemma NothingRun(m: seq<nat>, from: nat, critical: nat -> bool, t: nat)
    ensures Run(m, from, Course(critical, t, 0)) == m
  {
    assert Course(critical, t, 0) == [];
  }

  function Removed(m: seq<nat>, k: nat): seq<nat> {
    if m == [] then [] else if m[0] == k then m[1..] else [m[0]] + Removed(m[1..], k)
  }

  /** What is cached when `k` has been looked for. */
  function Front(m: seq<nat>, k: nat): seq<nat> {
    if k in m then [k] + Removed(m, k) else m
  }

  /** The first sector of a request, from the `i`th of `n` on, that is cached. */
  function FirstIn(m: seq<nat>, lba: nat, i: nat, n: nat): (r: nat)
    requires i <= n
    ensures i <= r <= n && (r < n ==> lba + r in m) && forall k | lba + i <= k < lba + r :: k !in m
    decreases n - i
  {
    if i == n || lba + i in m then i else FirstIn(m, lba, i + 1, n)
  }

  lemma FirstIs(m: seq<nat>, lba: nat, i: nat, n: nat, r: nat)
    requires i <= r <= n && (r < n ==> lba + r in m) && forall k | lba + i <= k < lba + r :: k !in m
    ensures FirstIn(m, lba, i, n) == r
  {
    var f := FirstIn(m, lba, i, n);
    assert f < r ==> lba + f in m;
  }

  /** What is cached, how many insertions there have been, and which sectors were missed. */
  datatype Served = Served(keys: seq<nat>, puts: nat, missed: set<nat>)

  /** One round of a request: sectors that are not cached are put in, and then one that is is used. */
  function OneRound(m: seq<nat>, lba: nat, i: nat, n: nat, critical: nat -> bool, t: nat): Served
    requires i < n
  {
    var next := FirstIn(m, lba, i, n);
    var m1 := if next < n then Front(m, lba + next) else m;
    var m2 := Run(m1, lba + i, Course(critical, t, next - i));
    Served(m2, t + (next - i), if next < n && lba + next !in m2 then {lba + next} else {})
  }

  /** A request for `n` sectors from the `i`th on, `missed` having been missed before. */
  function Serve(m: seq<nat>, lba: nat, i: nat, n: nat, critical: nat -> bool, t: nat, missed: set<nat>): Served
    decreases n - i
  {
    if i >= n then Served(m, t, missed)
    else
      var r := OneRound(m, lba, i, n, critical, t);
      Serve(r.keys, lba, FirstIn(m, lba, i, n) + 1, n, critical, r.puts, missed + r.missed)
  }

  /** A run of sectors that the device is asked to read, and whether it does. */
  datatype Ask = Ask(lba: nat, n: nat, granted: bool)

  /** The runs that a read asks the device for, if it grants them all: between sectors that are cached
      when it is their turn, those that are not. */
  function Asks(m: seq<nat>, lba: nat, i: nat, n: nat, critical: nat -> bool, t: nat): seq<Ask>
    decreases n - i
  {
    if i >= n then []
    else
      var f, r := FirstIn(m, lba, i, n), OneRound(m, lba, i, n, critical, t);
      RunFor(lba, i, f, true) + Asks(r.keys, lba, f + 1, n, critical, r.puts)
  }

  function RunFor(lba: nat, i: nat, f: nat, granted: bool): seq<Ask>
    requires i <= f
  {
    if f > i then [Ask(lba + i, f - i, granted)] else []
  }

  /** The device has been asked for the first runs of `all`, each granted, and has refused the last one
      of them if not `ok`. */
  predicate Answered(all: seq<Ask>, from: nat, asked: seq<Ask>, ok: bool) {
    if ok then asked == all
    else
      && from < |asked| <= |all|
      && asked == all[..|asked| - 1] + [all[|asked| - 1].(granted := false)]
  }

  lemma AsksStep(m: seq<nat>, lba: nat, i: nat, n: nat, critical: nat -> bool, t: nat)
    requires i < n
    ensures var f, r := FirstIn(m, lba, i, n), OneRound(m, lba, i, n, critical, t);
            Asks(m, lba, i, n, critical, t) ==
            RunFor(lba, i, f, true) + Asks(r.keys, lba, f + 1, n, critical, r.puts)
  {
    hide OneRound;
  }

  /** Every run is a part of the request, and none is empty. */
  lemma {:induction false} AsksWithin(m: seq<nat>, lba: nat, i: nat, n: nat, critical: nat -> bool, t: nat, k: nat)
    requires k < |Asks(m, lba, i, n, critical, t)|
    ensures var a := Asks(m, lba, i, n, critical, t)[k];
            a.granted && a.n > 0 && lba + i <= a.lba && a.lba + a.n <= lba + n
    decreases n - i
  {
    hide OneRound;
    AsksStep(m, lba, i, n, critical, t);
    var f, r := FirstIn(m, lba, i, n), OneRound(m, lba, i, n, critical, t);
    var first := RunFor(lba, i, f, true);
    if k >= |first| {
      AsksWithin(r.keys, lba, f + 1, n, critical, r.puts, k - |first|);
    }
  }

  /** The device is asked for nothing if and only if all sectors of the request are cached; then nothing
      is put into the cache, and nothing missed. */
  lemma {:induction false} AllCached(m: seq<nat>, lba: nat, i: nat, n: nat, critical: nat -> bool, t: nat,
                                     missed: set<nat>)
    requires AllDifferent(m)
    ensures Asks(m, lba, i, n, critical, t) == [] <==> forall l: nat | lba + i <= l < lba + n :: l in m
    ensures (forall l: nat | lba + i <= l < lba + n :: l in m) ==>
              var s := Serve(m, lba, i, n, critical, t, missed); s.puts == t && s.missed == missed
    decreases n - i
  {
    hide OneRound, AllDifferent, FirstIn, Serve;
    if i >= n {
      ServeEnd(m, lba, i, n, critical, t, missed);
    } else {
      AsksStep(m, lba, i, n, critical, t);
      ServeStep(m, lba, i, n, critical, t, missed);
      var f, r := FirstIn(m, lba, i, n), OneRound(m, lba, i, n, critical, t);
      if f == i {
        HitRound(m, lba, i, n, critical, t);
        assert missed + {} == missed;
        AllCached(r.keys, lba, i + 1, n, critical, t, missed);
      } else {
        assert lba + i !in m;
      }
    }
  }

  lemma HitRound(m: seq<nat>, lba: nat, i: nat, n: nat, critical: nat -> bool, t: nat)
    requires i < n && FirstIn(m, lba, i, n) == i && AllDifferent(m)
    ensures var r := OneRound(m, lba, i, n, critical, t);
            r.puts == t && r.missed == {} && AllDifferent(r.keys) && forall l :: l in r.keys <==> l in m
    ensures lba + i in m
  {
    hide FirstIn, Front, Run;
    FrontFacts(m, lba + i);
    NothingRun(Front(m, lba + i), lba + i, critical, t);
  }

  ghost predicate AllDifferent(m: seq<nat>) {
    forall i, j | 0 <= i < j < |m| :: m[i] != m[j]
  }

  lemma DifferentCons(k: nat, m: seq<nat>)
    requires k !in m && AllDifferent(m)
    ensures AllDifferent([k] + m)
  {
    forall i, j | 0 <= i < j < |m| + 1
      ensures ([k] + m)[i] != ([k] + m)[j]
    {
      assert ([k] + m)[j] == m[j - 1] && (i > 0 ==> ([k] + m)[i] == m[i - 1]);
    }
  }

  lemma {:induction false} RemovedFacts(m: seq<nat>, k: nat)
    requires AllDifferent(m)
    ensures k !in Removed(m, k) && AllDifferent(Removed(m, k)) && (k in m ==> |Removed(m, k)| == |m| - 1)
    ensures forall x :: x in Removed(m, k) ==> x in m
    decreases m
  {
    if m != [] {
      assert forall i | 0 < i < |m| :: m[i] == m[1..][i - 1];
      assert AllDifferent(m[1..]) && m[0] !in m[1..];
      RemovedFacts(m[1..], k);
      if m[0] != k {
        DifferentCons(m[0], Removed(m[1..], k));
      }
    }
  }

  lemma {:induction false} RunDistinct(m: seq<nat>, from: nat, critical: seq<bool>)
    requires AllDifferent(m) && forall x | x in m :: !(from <= x < from + |critical|)
    ensures var r := Run(m, from, critical);
            AllDifferent(r) && |r| >= |m| && forall x | x in r :: x in m || from <= x < from + |critical|
    decreases |critical|
  {
    if critical != [] {
      var j := |critical| - 1;
      RunDistinct(m, from, critical[..j]);
      var r := Run(m, from, critical[..j]);
      var rest := if critical[j] && |r| > 0 then r[..|r| - 1] else r;
      assert forall i | 0 <= i < |rest| :: rest[i] == r[i] && rest[i] in r;
      assert forall x | x in rest :: x in r;
      DifferentCons(from + j, rest);
    }
  }

  /** What looking for a sector, or for one that is not there, leaves. */
  lemma FrontFacts(m: seq<nat>, k: nat)
    requires AllDifferent(m)
    ensures var f := Front(m, k);
            && AllDifferent(f) && |f| == |m| && (forall x :: x in f <==> x in m)
            && (k in m ==> |f| > 0 && f[0] == k && k !in f[1..])
  {
    RemovedFacts(m, k);
    if k in m {
      DifferentCons(k, Removed(m, k));
      assert Front(m, k)[1..] == Removed(m, k);
      Others(m, k);
    }
  }

  lemma {:induction false} Others(m: seq<nat>, k: nat)
    ensures forall x :: x in m ==> x == k || x in Removed(m, k)
  {
    if m != [] && m[0] != k {
      Others(m[1..], k);
    }
  }

  /** Nothing is missed if as many sectors are cached as are asked for. */
  lemma {:induction false} EnoughCached(m: seq<nat>, lba: nat, i: nat, n: nat, critical: nat -> bool, t: nat,
                                        missed: set<nat>)
    requires AllDifferent(m) && |m| >= n
    ensures Serve(m, lba, i, n, critical, t, missed).missed == missed
    decreases n - i
  {
    hide OneRound, Serve, AllDifferent;
    if i >= n {
      ServeEnd(m, lba, i, n, critical, t, missed);
    } else {
      RoundEnough(m, lba, i, n, critical, t);
      ServeStep(m, lba, i, n, critical, t, missed);
      var r := OneRound(m, lba, i, n, critical, t);
      assert missed + r.missed == missed;
      EnoughCached(r.keys, lba, FirstIn(m, lba, i, n) + 1, n, critical, r.puts, missed);
    }
  }

  lemma ServeEnd(m: seq<nat>, lba: nat, i: nat, n: nat, critical: nat -> bool, t: nat, missed: set<nat>)
    requires i >= n
    ensures Serve(m, lba, i, n, critical, t, missed) == Served(m, t, missed)
  {
  }

  lemma ServeStep(m: seq<nat>, lba: nat, i: nat, n: nat, critical: nat -> bool, t: nat, missed: set<nat>)
    requires i < n
    ensures var r := OneRound(m, lba, i, n, critical, t);
            Serve(m, lba, i, n, critical, t, missed) ==
            Serve(r.keys, lba, FirstIn(m, lba, i, n) + 1, n, critical, r.puts, missed + r.missed)
  {
    hide OneRound;
  }

  lemma RoundEnough(m: seq<nat>, lba: nat, i: nat, n: nat, critical: nat -> bool, t: nat)
    requires AllDifferent(m) && |m| >= n && i < n
    ensures var r := OneRound(m, lba, i, n, critical, t); AllDifferent(r.keys) && |r.keys| >= n && r.missed == {}
  {
    hide Front, Run, AllDifferent, FirstIn, Course;
    var next := FirstIn(m, lba, i, n);
    var c := Course(critical, t, next - i);
    var m1 := if next < n then Front(m, lba + next) else m;
    FrontFacts(m, lba + next);
    RunDistinct(m1, lba + i, c);
    if next < n {
      HitStays(m1, lba + next, lba + i, c);
    }
  }

  lemma HitStays(m: seq<nat>, k: nat, from: nat, c: seq<bool>)
    requires |m| > |c| && m[0] == k && k !in m[1..] && from + |c| <= k
    ensures k in Run(m, from, c)
  {
    hide Run;
    RunKeeps(m, from, c);
    CountMost(c);
  }

  /** If some are, but fewer, there is a cache of that size and a request of which one is missed. */
  lemma TooFewCached(s: nat, n: nat)
    requires 0 < s < n
    ensures exists m: seq<nat>, critical: nat -> bool ::
              AllDifferent(m) && |m| == s && Serve(m, 0, 0, n, critical, 0, {}).missed != {}
  {
    var m, critical := LastOnly(s, n);
    hide OneRound, Serve, AllDifferent;
    var r := OneRound(m, 0, 0, n, critical, 0);
    ServeStep(m, 0, 0, n, critical, 0, {});
    ServeEnd(r.keys, 0, n, n, critical, r.puts, {} + r.missed);
  }

  /** Only the last sector of the request is cached, and memory is always critical. */
  lemma LastOnly(s: nat, n: nat) returns (m: seq<nat>, critical: nat -> bool)
    requires 0 < s < n
    ensures AllDifferent(m) && |m| == s && FirstIn(m, 0, 0, n) == n - 1 &&
            OneRound(m, 0, 0, n, critical, 0).missed == {n - 1}
  {
    hide Run, Count, Removed;
    m := seq(s, i => n - 1 + i);
    critical := (t: nat) => true;
    var c := Course(critical, 0, n - 1);
    assert m[0] == n - 1 && m[0] in m;
    FirstIs(m, 0, 0, n, n - 1);
    Stays(m);
    Always(c);
    RunKeeps(m, 0, c);
  }

  lemma Stays(m: seq<nat>)
    requires |m| > 0
    ensures Front(m, m[0]) == m
  {
    assert m == [m[0]] + m[1..];
  }

  lemma {:induction false} Always(c: seq<bool>)
    requires forall i | 0 <= i < |c| :: c[i]
    ensures Count(c) == |c|
    decreases |c|
  {
    if c != [] {
      Always(c[..|c| - 1]);
    }
  }

  /** A request of `n` sectors misses nothing, whichever sectors are cached and whenever memory is
      critical, if and only if as many sectors are cached or none is. */
  lemma SizeExact(s: nat, n: nat)
    ensures (forall m: seq<nat>, lba: nat, critical: nat -> bool, t: nat | AllDifferent(m) && |m| == s ::
               Serve(m, lba, 0, n, critical, t, {}).missed == {})
        <==> s == 0 || s >= n
  {
    if s >= n {
      forall m: seq<nat>, lba: nat, critical: nat -> bool, t: nat | AllDifferent(m) && |m| == s
        ensures Serve(m, lba, 0, n, critical, t, {}).missed == {}
      {
        EnoughCached(m, lba, 0, n, critical, t, {});
      }
    } else if s == 0 {
      forall m: seq<nat>, lba: nat, critical: nat -> bool, t: nat | AllDifferent(m) && |m| == s
        ensures Serve(m, lba, 0, n, critical, t, {}).missed == {}
      {
        FirstIs(m, lba, 0, n, n);
        var r := OneRound(m, lba, 0, n, critical, t);
        ServeStep(m, lba, 0, n, critical, t, {});
        ServeEnd(r.keys, lba, n + 1, n, critical, r.puts, {} + r.missed);
      }
    } else {
      TooFewCached(s, n);
    }
  }
}
