/** The entries on the way to an address, at all four levels, and the rights that they grant
    together. */
module PageEntries {
  import opened Powers
  import opened PageWalk

  /** The entry that path `q` uses in its table at level `k`; zero if that table is missing. */
  function Entry(m: Memory, root: nat, q: Path, k: nat): nat {
    match Walk(m, root, 4, q, k)
    case None => 0
    case Some(f) => if f in m && q.At(k) < |m[f]| then m[f][q.At(k)] else 0
  }

  lemma LastEntry(m: Memory, root: nat, q: Path)
    ensures Last(m, root, 4, q) == Entry(m, root, q, 1)
  {
  }

  /** Writing an entry of a last table, or one that leads nowhere before and after, changes that entry
      alone. */
  lemma WriteEntry(m: Memory, root: nat, p: Path, k: nat, f: nat, e: nat, q: Path, l: nat)
    requires Tree(m, root, 4) && 1 <= k <= 4 && 1 <= l <= 4
    requires Walk(m, root, 4, p, k) == Some(f) && p.At(k) < ENTRIES && f in m
    requires k == 1 || (!Present(m[f][p.At(k)]) && !Present(e))
    ensures Entry(Write(m, f, p.At(k), e), root, q, l) ==
            if l == k && Agree(p, q, 4, k - 1) then e else Entry(m, root, q, l)
  {
    WriteWalk(m, root, 4, p, k, f, e, q, l);
    WalkIn(m, root, 4, q, l);
    assert Unshared(m, root, 4, p, q, k, l);
    if l == k && Agree(p, q, 4, k) {
      AgreeWalk(m, root, 4, p, q, k);
    }
    hide Walk, Tree, Present;
  }

  /** So does hanging an empty table where there was none. */
  lemma AddEntry(m: Memory, root: nat, p: Path, k: nat, f: nat, e: nat, g: nat, q: Path, l: nat)
    requires Adding(m, root, 4, p, k, f, e, g) && 1 <= l <= 4
    ensures Entry(Write(m, f, p.At(k + 1), e)[g := Zeros()], root, q, l) ==
            if l == k + 1 && Agree(p, q, 4, k) then e else Entry(m, root, q, l)
  {
    var m' := Write(m, f, p.At(k + 1), e)[g := Zeros()];
    AddWalk(m, root, 4, p, k, f, e, g, q, l);
    WalkIn(m, root, 4, q, l);
    assert Unshared(m, root, 4, p, q, k + 1, l);
    if Agree(p, q, 4, k + 1) {
      AgreeWalk(m, root, 4, p, q, k + 1);
    }
    if l <= k && Agree(p, q, 4, k) {
      NoTable(m, root, p, k, f, q, l);
    }
    hide Walk, Tree, Present;
  }

  lemma NoTable(m: Memory, root: nat, p: Path, k: nat, f: nat, q: Path, l: nat)
    requires 1 <= k < 4 && Walk(m, root, 4, p, k + 1) == Some(f) && f in m && p.At(k + 1) < |m[f]|
    requires !Present(m[f][p.At(k + 1)]) && l <= k && Agree(p, q, 4, k)
    ensures Walk(m, root, 4, q, l) == None
  {
    AgreeWalk(m, root, 4, p, q, k + 1);
    NoneBelow(m, root, 4, q, k, l);
  }

  /** Nothing changes where no table of the tree is written. */
  lemma SameEntry(m: Memory, m': Memory, root: nat, q: Path, l: nat)
    requires Tree(m, root, 4) && 1 <= l <= 4
    requires forall f | f in m && On(m, root, 4, f) :: f in m' && m'[f] == m[f]
    ensures Entry(m', root, q, l) == Entry(m, root, q, l)
  {
    WalkFrame(m, m', root, 4, q, l);
    KeptAt(m, m', root, 4, q, l);
    hide Walk, Tree, On;
  }

  // -------------------------------------------------------------------- rights

  /** Bit `b` of an entry. */
  predicate Bit(e: nat, b: nat) { Half(e, b) % 2 == 1 }

  /** The processor grants an access only if all entries on the way to the page have its bit: bit 0 says
      that the page is there, bit 1 that it can be written, bit 2 that a user may. */
  predicate Grants(m: Memory, root: nat, q: Path, b: nat) {
    forall k | 1 <= k <= 4 :: Bit(Entry(m, root, q, k), b)
  }

  lemma {:induction false} HalfOfZero(b: nat)
    ensures Half(0, b) == 0
  {
    if b > 0 {
      HalfOfZero(b - 1);
    }
  }

  lemma {:induction false} NoLowBits(q: nat, n: nat, b: nat)
    requires b < n
    ensures !Bit(q * Pow2(n), b)
  {
    assert q * Pow2(n) == 2 * (q * Pow2(n - 1));
    if b > 0 {
      NoLowBits(q, n - 1, b - 1);
    }
  }

  lemma {:induction false} OrSum(q: nat, n: nat, b: nat)
    requires b < Pow2(n)
    ensures Or(q * Pow2(n), b) == q * Pow2(n) + b
  {
    if n > 0 {
      assert q * Pow2(n) == 2 * (q * Pow2(n - 1));
      OrSum(q, n - 1, b / 2);
    }
  }

  /** An entry's low nine bits are its flags. */
  lemma EntrySum(frame: nat, flags: nat)
    requires frame % FRAME_SIZE == 0 && flags < ENTRIES
    ensures Or(frame, flags) % 512 == flags && Addr(Or(frame, flags)) == frame
  {
    hide Or;
    var q := InUnits(frame);
    OrNine(q, flags);
    Remainder512(q, flags);
  }

  lemma InUnits(frame: nat) returns (q: nat)
    requires frame % FRAME_SIZE == 0
    ensures frame == 512 * q
  {
    q := frame / FRAME_SIZE * 8;
  }

  lemma Remainder512(q: nat, r: nat)
    requires r < 512
    ensures (512 * q + r) % 512 == r && (512 * q + r) / 512 * 512 == 512 * q
  {
  }

  lemma OrNine(q: nat, flags: nat)
    requires flags < 512
    ensures Or(512 * q, flags) == 512 * q + flags
  {
    assert Pow2(9) == 512;
    OrSum(q, 9, flags);
    hide Or;
  }

  /** The low bits of an entry are those of its flags. */
  lemma FlagBits(frame: nat, flags: nat, b: nat)
    requires frame % FRAME_SIZE == 0 && b < 12
    ensures Bit(Or(frame, flags), b) <==> Bit(flags, b)
  {
    assert Pow2(12) == FRAME_SIZE;
    NoLowBits(frame / FRAME_SIZE, 12, b);
    OrHalves(frame, flags, b);
    OrHalf(Half(frame, b), Half(flags, b));
  }
}
