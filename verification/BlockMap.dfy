/** The arithmetic of the ext2 block map: direct, indirect, double and triple indirect blocks. */
module BlockMap {

  datatype Option<T> = None | Some(value: T)

  /** The blocks of pointers on the disk, by block number. */
  type Disk = map<nat, seq<nat>>

  const DIRECT: nat := 12

  /** The number of blocks that `k` levels of tables of `p` pointers lead to. */
  function Pow(p: nat, k: nat): (r: nat)
    ensures p > 0 ==> r > 0
  {
    if k == 0 then 1 else p * Pow(p, k - 1)
  }

  function Min(a: nat, b: nat): nat { if a < b then a else b }

  lemma Inside(c: nat, q: nat, p: nat, i: nat)
    requires q > 0 && c / q < p && c % q + i <= q
    ensures c + i <= p * q
    ensures c % q + i < q ==> (c + i) / q == c / q && (c + i) % q == c % q + i
  {
    var d := c / q;
    assert c == d * q + c % q;
    assert (d + 1) * q <= p * q by { Times(d + 1, p, q); }
    if c % q + i < q {
      Quotient(c + i, d, q, c % q + i);
    }
  }

  lemma Natural(c: nat, q: nat)
    requires q > 0
    ensures 0 <= c / q && 0 <= c % q < q
  {
  }

  lemma Times(a: nat, b: nat, q: nat)
    requires a <= b
    ensures a * q <= b * q
  {
  }

  lemma Quotient(n: nat, d: nat, q: nat, r: nat)
    requires n == d * q + r && r < q
    ensures n / q == d && n % q == r
  {
    assert n == (n / q) * q + n % q;
    if n / q > d {
      Times(d + 1, n / q, q);
    } else if n / q < d {
      Times(n / q + 1, d, q);
    }
  }

  lemma QuotientBelow(c: nat, p: nat, q: nat)
    requires q > 0
    ensures c < p * q <==> c / q < p
  {
    if c < p * q && c / q >= p {
      Times(p, c / q, q);
    }
    if c >= p * q && c / q < p {
      Times(c / q + 1, p, q);
    }
  }

  // --------------------------------------------------------------- the walk

  /** How many blocks a walk of the table at `level`, from its `c`th block on, lists of the `len` asked
      for; nothing if it reads past a table. */
  function Walk(p: nat, level: nat, c: nat, len: nat): (r: Option<nat>)
    requires p > 0 && c < Pow(p, level + 1)
    ensures r.Some? ==> r.value <= len && (len > 0 ==> r.value > 0) && c + r.value <= Pow(p, level + 1)
    decreases level, len, 1
  {
    if level == 0 then if c + len <= p then Some(len) else None
    else Loop(p, level, c, len, 0)
  }

  /** The same, when `read` have been listed: the loop ends when that many or fewer are left. */
  function Loop(p: nat, level: nat, c: nat, len: nat, read: nat): (r: Option<nat>)
    requires p > 0 && level > 0 && c <= Pow(p, level + 1)
    ensures r.Some? ==> read <= r.value <= read + len && (read < len ==> read < r.value)
    ensures r.Some? ==> c + (r.value - read) <= Pow(p, level + 1)
    decreases level, len, 0
  {
    var q := Pow(p, level);
    if read >= len then Some(read)
    else if c / q >= p then None
    else
      var s := Walk(p, level - 1, c % q, Min(q, len));
      if s.None? then None
      else
        Inside(c, q, p, s.value);
        Loop(p, level, c + s.value, len - s.value, read + s.value)
  }

  /** The level of the tables that block `n` of a file is found through, and the first block they lead
      to. */
  function Level(p: nat, n: nat): Option<nat> {
    if n < DIRECT + p then Some(0)
    else if n < DIRECT + p + p * p then Some(1)
    else if n < DIRECT + p + p * p + p * (p * p) then Some(2)
    else None
  }

  function First(p: nat, level: nat): nat {
    if level == 0 then DIRECT else if level == 1 then DIRECT + p else DIRECT + p + p * p
  }

  lemma Powers(p: nat)
    ensures Pow(p, 1) == p && Pow(p, 2) == p * p && Pow(p, 3) == p * (p * p)
  {
    assert Pow(p, 0) == 1 && Pow(p, 1) == p * 1;
  }

  /** Whether the walk for `len` blocks from `start` on stays inside the file's tables. */
  predicate InBounds(p: nat, start: nat, len: nat)
    requires p > 0
    decreases len
  {
    if len == 0 then true
    else if start < DIRECT then InBounds(p, start + 1, len - 1)
    else
      var level := Level(p, start);
      level.Some? &&
      (Powers(p);
       var s := Walk(p, level.value, start - First(p, level.value), Min(Pow(p, level.value + 1), len));
       s.Some? && InBounds(p, start + s.value, len - s.value))
  }

  // ------------------------------------------------- when it stays in bounds

  /** The walk for one block does. */
  lemma OneInBounds(p: nat, n: nat)
    requires p > 0 && n < DIRECT + p + p * p + p * (p * p)
    ensures InBounds(p, n, 1)
  {
    assert InBounds(p, n + 1, 0);
    if n >= DIRECT {
      Powers(p);
      var level := Level(p, n).value;
      OneWalk(p, level, n - First(p, level));
      hide Walk, Pow;
    }
  }

  lemma {:induction false} OneWalk(p: nat, level: nat, c: nat)
    requires p > 0 && c < Pow(p, level + 1)
    ensures Walk(p, level, c, 1) == Some(1)
  {
    if level > 0 {
      var q := Pow(p, level);
      QuotientBelow(c, p, q);
      Natural(c, q);
      OneWalk(p, level - 1, c % q);
      assert Min(q, 1) == 1;
      Inside(c, q, p, 1);
      assert Loop(p, level, c + 1, 0, 1) == Some(1);
    }
  }

  // From the first indirect table on, a walk that starts where a table of block numbers begins goes
  // from table to table; `v` tables are left to walk, and `u` to the end of the table above.

  /** The tables of block numbers that `len` blocks take. */
  function Tables(p: nat, len: nat): nat
    requires p > 0
  {
    (len + p - 1) / p
  }

  /** The tables from the `c`th block on, counted from the first double indirect one, to the end of
      the table above. */
  function Left(p: nat, c: nat): nat
    requires p > 0
  {
    p - c / p % p
  }

  function Half(v: nat): nat { (v + 1) / 2 }

  /** Every run is over half the tables left, of at most `p`, and must not go past the end. */
  predicate Lands(p: nat, u: nat, v: nat)
    requires p > 0
    decreases v
  {
    v == 0 || (var t := Half(Min(p, v)); t <= u && Lands(p, if t == u then p else u - t, v - t))
  }

  /** Whether a walk for `len` blocks from the `c`th indirect block on, counted from the first double
      indirect one, stays in its tables. */
  predicate Settles(p: nat, c: nat, len: nat)
    requires p > 0
  {
    if c % p == 0 then Lands(p, Left(p, c), Tables(p, len)) else c % p + len <= p
  }

  /** The same for a request, going by the numbers of tables alone. */
  predicate Served(p: nat, start: nat, len: nat)
    requires p > 0
  {
    && start + len <= Limit(p)
    && (start + len <= DIRECT + p ||
        if start <= DIRECT then Settles(p, 0, start + len - DIRECT - p)
        else start >= DIRECT + p && Settles(p, start - DIRECT - p, len))
  }

  /** The number of blocks a file can have. */
  function Limit(p: nat): nat { DIRECT + p + p * p + p * (p * p) }

  /** Just such requests are served. */
  lemma {:induction false} ServedExact(p: nat, start: nat, len: nat)
    requires p > 0
    ensures InBounds(p, start, len) <==> len == 0 || Served(p, start, len)
    decreases len
  {
    if len == 0 {
      return;
    }
    if start + len > Limit(p) {
      if InBounds(p, start, len) {
        EndsInside(p, start, len);
      }
    } else if start < DIRECT {
      ServedExact(p, start + 1, len - 1);
    } else if start < DIRECT + p {
      FromSingle(p, start, len);
    } else {
      FromTables(p, start, len);
    }
  }

  /** No walk goes beyond the last block a file can have. */
  lemma {:induction false} EndsInside(p: nat, start: nat, len: nat)
    requires p > 0 && len > 0 && InBounds(p, start, len)
    ensures start + len <= Limit(p)
    decreases len
  {
    Powers(p);
    var s := if start < DIRECT then 1 else
               var level := Level(p, start).value;
               Walk(p, level, start - First(p, level), Min(Pow(p, level + 1), len)).value;
    hide Walk;
    if s < len {
      EndsInside(p, start + s, len - s);
    }
  }

  lemma FromSingle(p: nat, start: nat, len: nat)
    requires p > 0 && len > 0 && DIRECT <= start < DIRECT + p && start + len <= Limit(p)
    ensures InBounds(p, start, len) <==> Served(p, start, len)
    decreases len, 0
  {
    Powers(p);
    var w := Min(p, len);
    assert Walk(p, 0, start - DIRECT, w) == if start - DIRECT + w <= p then Some(w) else None;
    assert InBounds(p, start, len) <==> start - DIRECT + w <= p && InBounds(p, start + w, len - w);
    if w == len {
      NoneLeft(p, start + w);
    } else if start == DIRECT {
      ServedExact(p, start + w, len - w);
    }
  }

  lemma NoneLeft(p: nat, n: nat)
    requires p > 0
    ensures InBounds(p, n, 0)
  {
  }

  /** A request that starts in the double or triple indirect blocks. */
  lemma FromTables(p: nat, start: nat, len: nat)
    requires p > 0 && len > 0 && DIRECT + p <= start && start + len <= Limit(p)
    ensures InBounds(p, start, len) <==> Settles(p, start - DIRECT - p, len)
    decreases len, 2
  {
    hide InBounds, Walk, Loop, Level, First, Lands;
    var c := start - DIRECT - p;
    Powers(p);
    Dispatch(p, start, len);
    if c % p > 0 {
      Unaligned(p, c, len);
      NoneLeft(p, start + len);
    } else if c < p * p {
      AlignedRun(p, c, len);
      if Half(Min(p, Tables(p, len))) <= Left(p, c) {
        Onward(p, start, len);
      } else {
        Stuck(p, Left(p, c), len);
      }
    } else {
      InTriple(p, start, Min(Pow(p, 3), len), 0, len);
    }
  }

  /** From where a run of the walk ends, with a request for what is left. */
  lemma Onward(p: nat, start: nat, len: nat)
    requires p > 0 && len > 0 && DIRECT + p <= start && start + len <= Limit(p) && (start - DIRECT - p) % p == 0
    requires Half(Min(p, Tables(p, len))) <= Left(p, start - DIRECT - p)
    ensures InBounds(p, start + Run(p, len), len - Run(p, len)) <==>
            Lands(p, Left(p, start - DIRECT - p), Tables(p, len))
    decreases len, 0
  {
    hide InBounds, Lands;
    var s := Run(p, len);
    NextTable(p, start - DIRECT - p, len);
    if s < len {
      FromTables(p, start + s, len - s);
    } else {
      NoneLeft(p, start + s);
    }
  }

  /** What the walk for one call at the top is. */
  lemma Dispatch(p: nat, start: nat, len: nat)
    requires p > 0 && len > 0 && DIRECT + p <= start && start + len <= Limit(p)
    ensures Pow(p, 2) == p * p && Pow(p, 3) == p * (p * p)
    ensures var c := start - DIRECT - p;
            var s := if c < p * p then Walk(p, 1, c, Min(p * p, len))
                     else Loop(p, 2, c - p * p, Min(Pow(p, 3), len), 0);
            && (s.Some? ==> 0 < s.value <= len)
            && (InBounds(p, start, len) <==> s.Some? && InBounds(p, start + s.value, len - s.value))
  {
    Powers(p);
    LevelOf(p, start);
    LimitIs(p);
    hide *;
    var c := start - DIRECT - p;
    if c >= p * p {
      WalkIsLoop(p, c - p * p, Min(Pow(p, 3), len));
    }
    TopStep(p, start, len);
  }

  lemma WalkIsLoop(p: nat, c: nat, len: nat)
    requires p > 0 && c < Pow(p, 3)
    ensures Walk(p, 2, c, len) == Loop(p, 2, c, len, 0)
  {
  }

  lemma TopStep(p: nat, start: nat, len: nat)
    requires p > 0 && len > 0 && DIRECT <= start && Level(p, start).Some? && Pow(p, 1) == p && Pow(p, 2) == p * p
    requires Pow(p, 3) == p * (p * p)
    ensures var level := Level(p, start).value;
            && 0 <= start - First(p, level) < Pow(p, level + 1)
            && (var s := Walk(p, level, start - First(p, level), Min(Pow(p, level + 1), len));
                && (s.Some? ==> 0 < s.value <= len)
                && (InBounds(p, start, len) <==> s.Some? && InBounds(p, start + s.value, len - s.value)))
  {
    hide Walk, Pow;
  }

  lemma LevelOf(p: nat, n: nat)
    requires DIRECT + p <= n < Limit(p)
    ensures Level(p, n) == if n - DIRECT - p < p * p then Some(1) else Some(2)
    ensures First(p, 1) == DIRECT + p && First(p, 2) == DIRECT + p + p * p
  {
  }

  /** The loop over the tables of a triple indirect block, and the calls that follow it: the walk for
      `len` blocks, `l` of them asked for in this call, which has listed `read`. */
  lemma InTriple(p: nat, start: nat, l: nat, read: nat, len: nat)
    requires p > 0 && 0 < l <= len && DIRECT + p + Pow(p, 2) <= start
    requires start + len <= DIRECT + p + Pow(p, 2) + Pow(p, 3)
    requires (start - DIRECT - p) % p == 0 && (l == len || read + l == Pow(p, 3))
    ensures var c := start - DIRECT - p;
            var r := Loop(p, 2, c - Pow(p, 2), l, read);
            (r.Some? && InBounds(p, start + (r.value - read), len - (r.value - read)))
              <==> Lands(p, Left(p, c), Tables(p, len))
    decreases len, if read >= l then 3 else 1
  {
    hide InBounds, Walk, Lands, Loop, Tables, Left, Half, Run, Min, Pow, Limit;
    LimitIs(p);
    var c := start - DIRECT - p;
    if read >= l {
      LoopDone(p, c - Pow(p, 2), l, read);
      FromTables(p, start, len);
    } else {
      TripleStep(p, c, l, read, len);
      var s := Run(p, len);
      if Half(Min(p, Tables(p, len))) > Left(p, c) {
        Stuck(p, Left(p, c), len);
      } else if s == l {
        Onward(p, start, len);
      } else {
        NextTable(p, c, len);
        InTriple(p, start + s, l - s, read + s, len - s);
      }
    }
  }

  /** One run of that loop. */
  lemma TripleStep(p: nat, c: nat, l: nat, read: nat, len: nat)
    requires p > 0 && read < l <= len && Pow(p, 2) <= c && c + len <= Pow(p, 2) + Pow(p, 3) && c % p == 0
    requires l == len || read + l == Pow(p, 3)
    ensures var s := Run(p, len);
            if Half(Min(p, Tables(p, len))) > Left(p, c) then Loop(p, 2, c - Pow(p, 2), l, read) == None
            else s <= l && Loop(p, 2, c - Pow(p, 2), l, read) ==
                           if s == l then Some(read + s) else Loop(p, 2, c - Pow(p, 2) + s, l - s, read + s)
  {
    hide *;
    var s := WalkInTriple(p, c, l, read, len);
    OuterStep(p, c - Pow(p, 2), l, read, s);
  }

  lemma LimitIs(p: nat)
    ensures Limit(p) == DIRECT + p + Pow(p, 2) + Pow(p, 3)
  {
    Powers(p);
  }

  lemma LoopDone(p: nat, c: nat, l: nat, read: nat)
    requires p > 0 && c <= Pow(p, 3) && read >= l
    ensures Loop(p, 2, c, l, read) == Some(read)
  {
  }

  lemma OuterStep(p: nat, c: nat, l: nat, read: nat, s: Option<nat>)
    requires p > 0 && read < l && c + l <= Pow(p, 3) && Pow(p, 2) > 0 && c % Pow(p, 2) < Pow(p, 2)
    requires 0 <= c / Pow(p, 2) < p && s == Walk(p, 1, c % Pow(p, 2), Min(Pow(p, 2), l))
    ensures s.Some? ==> 0 < s.value <= l
    ensures Loop(p, 2, c, l, read) ==
            match s {
              case None => None
              case Some(n) => if n == l then Some(read + n) else Loop(p, 2, c + n, l - n, read + n)
            }
  {
    hide Walk, Pow;
    if s.Some? {
      assert Loop(p, 2, c, l, read) == Loop(p, 2, c + s.value, l - s.value, read + s.value);
      if s.value == l {
        LoopDone(p, c + l, 0, read + l);
      }
    }
  }

  lemma WalkInTriple(p: nat, c: nat, l: nat, read: nat, len: nat) returns (s: Option<nat>)
    requires p > 0 && read < l <= len && Pow(p, 2) <= c && c + len <= Pow(p, 2) + Pow(p, 3) && c % p == 0
    requires l == len || read + l == Pow(p, 3)
    ensures var q, c2 := Pow(p, 2), c - Pow(p, 2);
            && q > 0 && c2 % q < q && 0 <= c2 / q < p && s == Walk(p, 1, c2 % q, Min(q, l))
    ensures s == if Half(Min(p, Tables(p, len))) > Left(p, c) then None else Some(Run(p, len))
  {
    Powers(p);
    var q, c2 := p * p, c - p * p;
    QuotientBelow(c2, p, q);
    Natural(c2, q);
    SameRest(c, q);
    RowOf(p, c);
    AlignedRun(p, c2 % q, len);
    EnoughAsked(p, l, read, len);
    s := Walk(p, 1, c2 % q, Min(q, l));
  }

  lemma EnoughAsked(p: nat, l: nat, read: nat, len: nat)
    requires p > 0 && read < l <= len && (l == len || read + l == p * (p * p))
    ensures Min(p * p, l) == Min(p * p, len)
  {
    if p == 1 {
      assert p * (p * p) == 1;
    } else {
      Times(2, p, p * p);
    }
  }

  /** The place in its table of the table that the `c`th indirect block is in. */
  lemma RowOf(p: nat, c: nat)
    requires p > 0
    ensures p * p > 0 && c % (p * p) < p * p && c % (p * p) % p == c % p && Left(p, c % (p * p)) == Left(p, c)
    ensures c % (p * p) / p == c / p % p
  {
    Natural(c, p);
    Natural(c / p, p);
    RowOfParts(p, c, c / p / p, c / p % p, c % p);
  }

  lemma RowOfParts(p: nat, c: nat, f: nat, g: nat, e: nat)
    requires g < p && e < p && c == (f * p + g) * p + e
    ensures p * p > 0 && c % (p * p) < p * p && c % (p * p) % p == c % p && Left(p, c % (p * p)) == Left(p, c)
    ensures c % (p * p) / p == c / p % p
  {
    Grid(p, f, g, e);
    Quotient(c, f, p * p, g * p + e);
    Quotient(g * p + e, g, p, e);
    Quotient(c, f * p + g, p, e);
    Quotient(f * p + g, f, p, g);
    Small(g, p);
  }

  lemma Grid(p: nat, f: nat, g: nat, e: nat)
    requires g < p && e < p
    ensures (f * p + g) * p + e == f * (p * p) + (g * p + e) && g * p + e < p * p
  {
    Times(g + 1, p, p);
  }

  lemma Small(n: nat, p: nat)
    requires n < p
    ensures n / p == 0 && n % p == n
  {
  }

  /** If the next run would go past the end of its table. */
  lemma Stuck(p: nat, u: nat, len: nat)
    requires p > 0 && len > 0 && Half(Min(p, Tables(p, len))) > u
    ensures !Lands(p, u, Tables(p, len))
  {
  }

  /** The blocks that one walk of a double indirect table lists. */
  function Run(p: nat, len: nat): (s: nat)
    requires p > 0
    ensures s <= len && (len > 0 ==> s > 0)
  {
    SomeTables(p, len);
    Min(len, Half(Min(p, Tables(p, len))) * p)
  }

  lemma SomeTables(p: nat, len: nat)
    requires p > 0
    ensures len > 0 ==> Tables(p, len) > 0 && Half(Min(p, Tables(p, len))) * p > 0
    ensures Tables(p, len) * p < len + p <= Tables(p, len) * p + p
  {
    var v := Tables(p, len);
    Natural(len + p - 1, p);
    assert len + p - 1 == v * p + (len + p - 1) % p;
    if len > 0 {
      Above(len, v, p);
      Times(1, Half(Min(p, v)), p);
    }
  }

  lemma Above(len: nat, v: nat, p: nat)
    requires 0 < len <= v * p
    ensures v > 0
  {
  }

  /** The number of tables is what it is. */
  lemma CountTables(p: nat, len: nat, v: nat)
    requires p > 0 && v * p < len + p <= v * p + p
    ensures Tables(p, len) == v
  {
    Quotient(len + p - 1, v, p, len - 1 - v * p + p);
  }

  /** After one run: where the walk is in the table above, and how many tables are left. */
  lemma NextTable(p: nat, c: nat, len: nat)
    requires p > 0 && len > 0 && c % p == 0 && Half(Min(p, Tables(p, len))) <= Left(p, c)
    ensures var s := Run(p, len);
            && (s < len ==> (c + s) % p == 0)
            && (Lands(p, Left(p, c), Tables(p, len)) <==>
                 s == len || Lands(p, Left(p, c + s), Tables(p, len - s)))
  {
    hide Tables, Left;
    var v := Tables(p, len);
    var t := Half(Min(p, v));
    SomeTables(p, len);
    if Run(p, len) < len {
      TablesOn(p, c, len, t);
    } else if v > 1 {
      Times(t, v - 1, p);
      Difference(v, 1, p);
    }
  }

  lemma TablesOn(p: nat, c: nat, len: nat, t: nat)
    requires p > 0 && c % p == 0 && t * p < len && t <= Tables(p, len) && t <= Left(p, c)
    ensures (c + t * p) % p == 0 && Left(p, c + t * p) == if t == Left(p, c) then p else Left(p, c) - t
    ensures Tables(p, len - t * p) == Tables(p, len) - t
  {
    hide *;
    RowOn(p, c, t);
    TablesLess(p, len, t);
  }

  lemma RowOn(p: nat, c: nat, t: nat)
    requires p > 0 && c % p == 0 && t <= Left(p, c)
    ensures (c + t * p) % p == 0 && Left(p, c + t * p) == if t == Left(p, c) then p else Left(p, c) - t
  {
    var d := c / p;
    Natural(c, p);
    Sum(d, t, p);
    Quotient(c + t * p, d + t, p, 0);
    NextRow(p, d, t);
  }

  lemma TablesLess(p: nat, len: nat, t: nat)
    requires p > 0 && t * p < len && t <= Tables(p, len)
    ensures Tables(p, len - t * p) == Tables(p, len) - t
  {
    hide Tables;
    SomeTables(p, len);
    Difference(Tables(p, len), t, p);
    CountTables(p, len - t * p, Tables(p, len) - t);
  }

  lemma Sum(a: nat, b: nat, p: nat)
    ensures (a + b) * p == a * p + b * p
  {
  }

  lemma Difference(a: nat, b: nat, p: nat)
    requires b <= a
    ensures (a - b) * p == a * p - b * p
  {
  }

  lemma NextRow(p: nat, d: nat, t: nat)
    requires p > 0 && t <= p - d % p
    ensures (d + t) % p == if t == p - d % p then 0 else d % p + t
  {
    Natural(d, p);
    NextRowOf(p, d, d / p, d % p, t);
  }

  lemma NextRowOf(p: nat, d: nat, f: nat, g: nat, t: nat)
    requires d == f * p + g && g < p && t <= p - g
    ensures (d + t) % p == if t == p - g then 0 else g + t
  {
    if t == p - g {
      Sum(f, 1, p);
      Quotient(d + t, f + 1, p, 0);
    } else {
      Quotient(d + t, f, p, g + t);
    }
  }

  /** A walk of a double indirect table from where a table of block numbers begins. */
  lemma AlignedRun(p: nat, c: nat, len: nat)
    requires p > 0 && len > 0 && c % p == 0 && c < p * p && Pow(p, 2) == p * p
    ensures Walk(p, 1, c, Min(p * p, len)) ==
            if Half(Min(p, Tables(p, len))) > Left(p, c) then None else Some(Run(p, len))
  {
    var w, v := Min(p * p, len), Tables(p, len);
    hide Tables;
    QuotientBelow(c, p, p);
    Natural(c, p);
    Small(c / p, p);
    MinTables(p, len);
    Times(Half(Min(p, v)), p, p);
    AlignedLoop(p, c, w, 0);
    assert Walk(p, 1, c, w) == Loop(p, 1, c, w, 0);
  }

  lemma MinTables(p: nat, len: nat)
    requires p > 0
    ensures Tables(p, Min(p * p, len)) == Min(p, Tables(p, len))
  {
    var v := Tables(p, len);
    SomeTables(p, len);
    if len > p * p {
      CountTables(p, p * p, p);
      if v < p {
        Times(v + 1, p, p);
        Sum(v, 1, p);
      }
    } else if v > p {
      Times(p + 1, v, p);
      Sum(p, 1, p);
    }
  }

  /** From the start of a table on, the walk goes from table to table, over half of those left. */
  lemma {:induction false} AlignedLoop(p: nat, c: nat, len: nat, read: nat)
    requires p > 0 && c % p == 0 && c <= Pow(p, 2) && (read < len < p ==> read == 0)
    ensures var t := if read < len then Half(Tables(p, len - read)) else 0;
            Loop(p, 1, c, len, read) == if c / p + t > p then None else Some(read + Min(len, t * p))
    decreases len
  {
    hide Tables, Half, Loop, Pow;
    InnerStep(p, c, len, read);
    if read < len {
      AlignedStep(p, c, len, read);
      if c / p < p && len >= p {
        AlignedLoop(p, c + p, len - p, read + p);
      }
    }
  }

  /** One table. */
  lemma InnerStep(p: nat, c: nat, len: nat, read: nat)
    requires p > 0 && c % p == 0 && c <= Pow(p, 2)
    ensures c / p <= p && (c / p < p ==> c + p <= Pow(p, 2))
    ensures Loop(p, 1, c, len, read) ==
            if read >= len then Some(read) else if c / p >= p then None
            else if len < p then Some(read + len) else Loop(p, 1, c + p, len - p, read + p)
  {
    Powers(p);
    QuotientBelow(c, p + 1, p);
    Natural(c, p);
    Sum(p, 1, p);
    var s := Min(p, len);
    if read < len && c / p < p {
      Inside(c, p, p, p);
      assert Walk(p, 0, 0, s) == Some(s);
      assert Loop(p, 1, c, len, read) == Loop(p, 1, c + s, len - s, read + s);
    } else if c / p < p {
      Inside(c, p, p, p);
    }
  }

  lemma AlignedStep(p: nat, c: nat, len: nat, read: nat)
    requires p > 0 && c % p == 0 && read < len && (len < p ==> read == 0)
    ensures (c + p) % p == 0 && (c + p) / p == c / p + 1
    ensures var t := Half(Tables(p, len - read));
            && t > 0 && (t - 1) * p == t * p - p && t * p >= p
            && (len < p ==> t == 1)
            && (len >= p ==> t - 1 == if read + p < len - p then Half(Tables(p, len - p - (read + p))) else 0)
  {
    var d, v := c / p, Tables(p, len - read);
    Natural(c, p);
    assert c == d * p;
    Sum(d, 1, p);
    Quotient(c + p, d + 1, p, 0);
    SomeTables(p, len - read);
    if len < p {
      CountTables(p, len - read, 1);
    } else if read + p < len - p {
      if v <= 2 {
        Times(v, 2, p);
      }
      Difference(v, 2, p);
      CountTables(p, len - p - (read + p), v - 2);
    } else if v > 2 {
      Times(3, v, p);
    }
    var t := Half(v);
    Difference(t, 1, p);
    Times(1, t, p);
  }

  /** From elsewhere, it stays in its table. */
  lemma UnalignedLoop(p: nat, c: nat, len: nat)
    requires p > 0 && c % p > 0 && c < p * p && Pow(p, 1) == p && Pow(p, 2) == p * p && len > 0
    ensures Loop(p, 1, c, len, 0) == if c % p + len <= p then Some(len) else None
  {
    QuotientBelow(c, p, p);
    Natural(c, p);
    var s := Min(p, len);
    assert Walk(p, 0, c % p, s) == if c % p + s <= p then Some(s) else None;
    if c % p + s <= p {
      Inside(c, p, p, s);
      assert Loop(p, 1, c, len, 0) == Loop(p, 1, c + s, len - s, s);
      assert Loop(p, 1, c + s, 0, s) == Some(s);
    }
  }

  lemma Unaligned(p: nat, c: nat, len: nat)
    requires p > 0 && len > 0 && c % p > 0 && c + len <= p * p + p * (p * p)
    requires Pow(p, 1) == p && Pow(p, 2) == p * p && Pow(p, 3) == p * (p * p)
    ensures var s := if c < p * p then Walk(p, 1, c, Min(p * p, len))
                     else Loop(p, 2, c - p * p, Min(Pow(p, 3), len), 0);
            s == if c % p + len <= p then Some(len) else None
  {
    var q, l := p * p, Min(p * (p * p), len);
    Times(1, p, p);
    Times(1, p, q);
    if c < q {
      UnalignedLoop(p, c, Min(q, len));
    } else {
      var c2 := c - q;
      QuotientBelow(c2, p, q);
      Natural(c2, q);
      SameRest(c, q);
      RowOf(p, c);
      UnalignedLoop(p, c2 % q, Min(q, l));
      assert Walk(p, 1, c2 % q, Min(q, l)) == Loop(p, 1, c2 % q, Min(q, l), 0);
      if c % p + len <= p {
        Inside(c2, q, p, len);
        assert Loop(p, 2, c2, l, 0) == Loop(p, 2, c2 + len, 0, len);
      }
    }
  }

  lemma SameRest(n: nat, p: nat)
    requires p > 0 && n >= p
    ensures n % p == (n - p) % p
  {
    Natural(n - p, p);
    Quotient(n, (n - p) / p + 1, p, (n - p) % p);
  }

  // ------------------------------------------------- when whole tables fit

  /** What is left of `v` after halving it `j` times. */
  function Halved(v: nat, j: nat): nat {
    if j == 0 then v else Halved(v / 2, j - 1)
  }

  /** Up to as many tables as one table above holds: they all end where that one does, or some run
      ends exactly there. */
  lemma {:induction false} LandsExact(p: nat, u: nat, v: nat)
    requires 0 < u <= p && v <= p
    ensures Lands(p, u, v) <==> v <= u || exists j: nat :: Halved(v, j) == v - u
    decreases v
  {
    if v == 0 {
      return;
    }
    var t := Half(v);
    assert v - t == v / 2;
    if t == u {
      assert Halved(v, 1) == Halved(v / 2, 0) == v - u;
      LandsWithin(p, p, v - t);
    } else if t > u {
      forall j: nat
        ensures Halved(v, j) != v - u
      {
        if j > 0 {
          HalvedBelow(v / 2, j - 1);
        }
      }
    } else {
      LandsExact(p, u - t, v - t);
      HalvedOnce(v, u);
    }
  }

  lemma HalvedOnce(v: nat, u: nat)
    requires 0 < u
    ensures (exists j: nat :: Halved(v, j) == v - u) <==> exists k: nat :: Halved(v / 2, k) == v - u
  {
    hide Halved;
    if exists k: nat :: Halved(v / 2, k) == v - u {
      var k: nat :| Halved(v / 2, k) == v - u;
      HalvedAgain(v, k + 1);
    }
    if exists j: nat :: Halved(v, j) == v - u {
      var j: nat :| Halved(v, j) == v - u;
      HalvedAgain(v, j);
    }
  }

  lemma HalvedAgain(v: nat, j: nat)
    ensures Halved(v, j) == if j == 0 then v else Halved(v / 2, j - 1)
  {
  }

  lemma {:induction false} HalvedBelow(v: nat, j: nat)
    ensures Halved(v, j) <= v
  {
    if j > 0 {
      HalvedBelow(v / 2, j - 1);
    }
  }

  /** Tables that do not go beyond the end of the one above. */
  lemma {:induction false} LandsWithin(p: nat, u: nat, v: nat)
    requires p > 0 && v <= u <= p
    ensures Lands(p, u, v)
    decreases v
  {
    if v > 0 {
      var t := Half(v);
      LandsWithin(p, if t == u then p else u - t, v - t);
    }
  }

  /** A request that starts among the direct blocks or where a single or double indirect table begins,
      or that does not leave the table of block numbers it starts in. */
  predicate Fits(p: nat, start: nat, len: nat)
    requires p > 0
  {
    || len == 0 || start <= DIRECT
    || (start < DIRECT + p && start + len <= DIRECT + p)
    || (start >= DIRECT + p && ((start - DIRECT) % p == 0 || (start - DIRECT) % p + len <= p))
  }

  /** Among the blocks that no triple indirect table is needed for, just such requests are served. */
  lemma FitsExact(p: nat, start: nat, len: nat)
    requires p > 0 && start + len <= DIRECT + p + p * p
    ensures InBounds(p, start, len) <==> Fits(p, start, len)
  {
    ServedExact(p, start, len);
    hide InBounds, Lands;
    if len > 0 && start + len > DIRECT + p {
      if start <= DIRECT {
        DoubleLands(p, 0, start + len - DIRECT - p);
      } else if start >= DIRECT + p {
        SameRest(start - DIRECT, p);
        if (start - DIRECT) % p == 0 {
          DoubleLands(p, start - DIRECT - p, len);
        }
      }
    }
  }

  lemma DoubleLands(p: nat, c: nat, len: nat)
    requires p > 0 && len > 0 && c % p == 0 && c + len <= p * p
    ensures Settles(p, c, len)
  {
    hide Tables, Lands;
    QuotientBelow(c, p, p);
    Natural(c, p);
    Small(c / p, p);
    TablesBelow(p, c / p, len);
    LandsWithin(p, Left(p, c), Tables(p, len));
  }

  lemma TablesBelow(p: nat, d: nat, len: nat)
    requires d < p && d * p + len <= p * p
    ensures Tables(p, len) <= p - d
  {
    hide Tables;
    var v := Tables(p, len);
    SomeTables(p, len);
    Sum(p - d, 1, p);
    Difference(p, d, p);
    if v > p - d {
      Times(p - d + 1, v, p);
    }
  }

  /** A request from the last double indirect table on into the triple indirect ones, for three tables
      of blocks: each walk of a table lists only half of what is left, and the second one starts beyond
      the end. */
  lemma OverrunExample(p: nat)
    requires p >= 3
    ensures !InBounds(p, DIRECT + p * p, 3 * p)
  {
    var c := p * p - p;
    Times(3, p, p);
    ServedExact(p, DIRECT + p * p, 3 * p);
    Quotient(c, p - 1, p, 0);
    Quotient(p - 1, 0, p, p - 1);
    CountTables(p, 3 * p, 3);
    assert Left(p, c) == 1 && Half(Min(p, 3)) == 2;
    Stuck(p, 1, 3 * p);
  }

  /** Reading a whole file of 65 MiB at once, in blocks of 1 KiB: the runs get shorter and shorter, and
      the last of them in the first double indirect table is one table too long. */
  lemma WholeFileExample()
    ensures !InBounds(256, 0, DIRECT + 256 + 259 * 256)
  {
    ServedExact(256, 0, DIRECT + 256 + 259 * 256);
    CountTables(256, 259 * 256, 259);
    assert Left(256, 0) == 256;
    hide Lands;
    LandsStep(256, 256, 259);
    LandsStep(256, 128, 131);
    LandsStep(256, 62, 65);
    LandsStep(256, 29, 32);
    LandsStep(256, 13, 16);
    LandsStep(256, 5, 8);
    LandsStep(256, 1, 4);
  }

  lemma LandsStep(p: nat, u: nat, v: nat)
    requires p > 0 && v > 0
    ensures var t := Half(Min(p, v)); Lands(p, u, v) <==> t <= u && Lands(p, if t == u then p else u - t, v - t)
  {
  }

  // ---------------------------------------------------------------- lookups

  function Table(disk: Disk, k: nat): Option<seq<nat>> {
    if k == 0 || k !in disk then None else Some(disk[k])
  }

  /** The `c`th block that a table leads to, one pointer after another. */
  function Lookup(disk: Disk, p: nat, level: nat, table: seq<nat>, c: nat): Option<nat>
    requires p > 0
    decreases level
  {
    if level == 0 then if c < |table| && table[c] != 0 then Some(table[c]) else None
    else
      var q := Pow(p, level);
      if c / q >= |table| then None
      else
        var t := Table(disk, table[c / q]);
        if t.None? then None else Lookup(disk, p, level - 1, t.value, c % q)
  }

  /** Block `n` of a file. A direct pointer is taken as it is, be it null or not. */
  function BlockOf(disk: Disk, p: nat, inode: seq<nat>, n: nat): Option<nat>
    requires p > 0 && |inode| == 15
  {
    if n < DIRECT then Some(inode[n])
    else
      var level := Level(p, n);
      if level.None? then None
      else
        var t := Table(disk, inode[DIRECT + level.value]);
        if t.None? then None else Lookup(disk, p, level.value, t.value, n - First(p, level.value))
  }

  /** The block is a table that can be read. */
  predicate Readable(disk: Disk, k: nat) { k != 0 && k in disk }

  /** Where each block of a file is found: in the inode; in a table that the inode leads to; and through
      one or two more tables. Beyond that there are none. */
  lemma BlockOfIs(disk: Disk, p: nat, inode: seq<nat>, n: nat)
    requires p > 0 && |inode| == 15 && forall k | k in disk :: |disk[k]| == p
    ensures n < 12 ==> BlockOf(disk, p, inode, n) == Some(inode[n])
    ensures var c, a := n - 12, inode[12];
            0 <= c < p ==>
              BlockOf(disk, p, inode, n) == if Readable(disk, a) && disk[a][c] != 0 then Some(disk[a][c]) else None
    ensures var c, a := n - 12 - p, inode[13];
            0 <= c < p * p ==>
              0 <= c / p < p && BlockOf(disk, p, inode, n) == Through(disk, a, c / p, c % p)
    ensures var c, a := n - 12 - p - p * p, inode[14];
            0 <= c < p * (p * p) ==>
              0 <= c / (p * p) < p && 0 <= c / p % p < p &&
                BlockOf(disk, p, inode, n) ==
                if Readable(disk, a) then Through(disk, disk[a][c / (p * p)], c / p % p, c % p) else None
    ensures n >= 12 + p + p * p + p * (p * p) ==> BlockOf(disk, p, inode, n) == None
  {
    hide *;
    OneTable(disk, p, inode, n);
    TwoTables(disk, p, inode, n);
    ThreeTables(disk, p, inode, n);
  }

  lemma OneTable(disk: Disk, p: nat, inode: seq<nat>, n: nat)
    requires p > 0 && |inode| == 15 && forall k | k in disk :: |disk[k]| == p
    ensures n < 12 ==> BlockOf(disk, p, inode, n) == Some(inode[n])
    ensures var c, a := n - 12, inode[12];
            0 <= c < p ==>
              BlockOf(disk, p, inode, n) == if Readable(disk, a) && disk[a][c] != 0 then Some(disk[a][c]) else None
    ensures n >= 12 + p + p * p + p * (p * p) ==> BlockOf(disk, p, inode, n) == None
  {
  }

  lemma TwoTables(disk: Disk, p: nat, inode: seq<nat>, n: nat)
    requires p > 0 && |inode| == 15 && forall k | k in disk :: |disk[k]| == p
    ensures var c, a := n - 12 - p, inode[13];
            0 <= c < p * p ==>
              0 <= c / p < p && BlockOf(disk, p, inode, n) == Through(disk, a, c / p, c % p)
  {
    var c, a := n - 12 - p, inode[13];
    if 0 <= c < p * p {
      assert BlockOf(disk, p, inode, n) == if Readable(disk, a) then Lookup(disk, p, 1, disk[a], c) else None;
      hide BlockOf;
      TableOfTables(disk, p, a, c);
    }
  }

  lemma TableOfTables(disk: Disk, p: nat, a: nat, c: nat)
    requires p > 0 && c < p * p && forall k | k in disk :: |disk[k]| == p
    ensures 0 <= c / p < p && Through(disk, a, c / p, c % p) ==
            if Readable(disk, a) then Lookup(disk, p, 1, disk[a], c) else None
  {
    Powers(p);
    QuotientBelow(c, p, p);
    Natural(c, p);
    hide Pow;
  }

  lemma ThreeTables(disk: Disk, p: nat, inode: seq<nat>, n: nat)
    requires p > 0 && |inode| == 15 && forall k | k in disk :: |disk[k]| == p
    ensures var c, a := n - 12 - p - p * p, inode[14];
            0 <= c < p * (p * p) ==>
              0 <= c / (p * p) < p && 0 <= c / p % p < p &&
                BlockOf(disk, p, inode, n) ==
                if Readable(disk, a) then Through(disk, disk[a][c / (p * p)], c / p % p, c % p) else None
  {
    var c, a := n - 12 - p - p * p, inode[14];
    if 0 <= c < p * (p * p) {
      assert BlockOf(disk, p, inode, n) == if Readable(disk, a) then Lookup(disk, p, 2, disk[a], c) else None;
      hide BlockOf, Lookup, Through;
      RowOf(p, c);
      QuotientBelow(c, p, p * p);
      Natural(c, p * p);
      TopTable(disk, p, a, c);
      if Readable(disk, a) {
        TableOfTables(disk, p, disk[a][c / (p * p)], c % (p * p));
      }
    }
  }

  lemma TopTable(disk: Disk, p: nat, a: nat, c: nat)
    requires p > 0 && p * p > 0 && 0 <= c / (p * p) < p && 0 <= c % (p * p) && forall k | k in disk :: |disk[k]| == p
    ensures Readable(disk, a) ==>
              var b := disk[a][c / (p * p)];
              Lookup(disk, p, 2, disk[a], c) ==
              if Readable(disk, b) then Lookup(disk, p, 1, disk[b], c % (p * p)) else None
  {
    Powers(p);
    hide Pow;
  }

  /** The block that entry `j` of the table leads to that entry `i` of table `a` leads to. */
  function Through(disk: Disk, a: nat, i: nat, j: nat): Option<nat> {
    if Readable(disk, a) && i < |disk[a]| && Readable(disk, disk[a][i]) && j < |disk[disk[a][i]]| &&
       disk[disk[a][i]][j] != 0
    then Some(disk[disk[a][i]][j]) else None
  }
}
