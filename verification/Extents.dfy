/** Lists of runs of consecutive disk blocks, to which blocks are added one at a time. */
module Extents {

  datatype Extent = Extent(start: nat, len: nat)

  /** The blocks of an extent. */
  function Blocks(e: Extent): (r: seq<nat>)
    ensures |r| == e.len && forall i | 0 <= i < |r| :: r[i] == e.start + i
  {
    seq(e.len, i => e.start + i)
  }

  function Flatten(l: seq<Extent>): seq<nat> {
    if l == [] then [] else Flatten(l[..|l| - 1]) + Blocks(l[|l| - 1])
  }

  lemma {:induction false} FlattenConcat(l: seq<Extent>, m: seq<Extent>)
    ensures Flatten(l + m) == Flatten(l) + Flatten(m)
    decreases |m|
  {
    if m == [] {
      assert l + m == l;
    } else {
      var z := m[|m| - 1];
      assert (l + m)[..|l + m| - 1] == l + m[..|m| - 1];
      FlattenConcat(l, m[..|m| - 1]);
    }
  }

  /** An extent's blocks come after those of the extents before it. */
  lemma FlattenAround(l: seq<Extent>, e: Extent, m: seq<Extent>)
    ensures Flatten(l + [e] + m) == Flatten(l) + Blocks(e) + Flatten(m)
  {
    FlattenConcat(l + [e], m);
    FlattenConcat(l, [e]);
    assert [e][..0] == [];
  }

  /** No extent is empty, and none could be joined to the next one. */
  ghost predicate Canonical(l: seq<Extent>) {
    && (forall i | 0 <= i < |l| :: l[i].len > 0)
    && (forall i, j | 0 <= i && j == i + 1 < |l| :: l[i].start + l[i].len != l[j].start)
  }

  /** Adds a block to the end of the list, joining it to the last extent if it can. */
  method AddToExtentList(extents: seq<Extent>, block: nat) returns (r: seq<Extent>)
    requires Canonical(extents)
    ensures Canonical(r) && Flatten(r) == Flatten(extents) + [block]
  {
    if |extents| > 0 {
      var last := extents[|extents| - 1];
      if block == last.start + last.len {
        r := extents[..|extents| - 1] + [Extent(last.start, last.len + 1)];
        assert r[..|r| - 1] == extents[..|extents| - 1];
        assert Blocks(r[|r| - 1]) == Blocks(last) + [block];
        return;
      }
    }
    r := extents + [Extent(block, 1)];
    assert r[..|r| - 1] == extents && Blocks(Extent(block, 1)) == [block];
  }

  lemma {:induction false} LastBlock(l: seq<Extent>)
    requires Canonical(l) && l != []
    ensures var e := l[|l| - 1]; Flatten(l) != [] && Flatten(l)[|Flatten(l)| - 1] == e.start + e.len - 1
  {
  }

  /** Two lists of runs that cannot be joined and that stand for the same blocks are the same: what is
      read or written does not depend on how the list came about. */
  lemma {:induction false} CanonicalUnique(l: seq<Extent>, m: seq<Extent>)
    requires Canonical(l) && Canonical(m) && Flatten(l) == Flatten(m)
    ensures l == m
    decreases |l| + |m|
  {
    if l == [] || m == [] {
      if l != [] {
        LastBlock(l);
      }
      if m != [] {
        LastBlock(m);
      }
    } else {
      LastBlock(l);
      LastBlock(m);
      var a, b := l[|l| - 1], m[|m| - 1];
      assert a.start + a.len == b.start + b.len;
      if a.len < b.len {
        Shorter(l, m);
      } else if b.len < a.len {
        Shorter(m, l);
      } else {
        Prefixes(l, m);
        CanonicalUnique(l[..|l| - 1], m[..|m| - 1]);
        assert l == l[..|l| - 1] + [a] && m == m[..|m| - 1] + [b];
      }
    }
  }

  lemma Prefixes(l: seq<Extent>, m: seq<Extent>)
    requires l != [] && m != [] && l[|l| - 1].len == m[|m| - 1].len && Flatten(l) == Flatten(m)
    ensures Flatten(l[..|l| - 1]) == Flatten(m[..|m| - 1])
  {
    var n := |Flatten(l)| - l[|l| - 1].len;
    assert Flatten(l[..|l| - 1]) == Flatten(l)[..n];
    assert Flatten(m[..|m| - 1]) == Flatten(m)[..n];
  }

  /** A list whose last run is shorter than it could be can be joined. */
  lemma Shorter(l: seq<Extent>, m: seq<Extent>)
    requires Canonical(l) && Canonical(m) && l != [] && m != [] && l[|l| - 1].len < m[|m| - 1].len
    requires l[|l| - 1].start + l[|l| - 1].len == m[|m| - 1].start + m[|m| - 1].len
    ensures Flatten(l) != Flatten(m)
  {
    var a, b, rest := l[|l| - 1], m[|m| - 1], l[..|l| - 1];
    var f, g := Flatten(l), Flatten(m);
    assert g == Flatten(m[..|m| - 1]) + Blocks(b) && g[|g| - 1 - a.len] == a.start - 1;
    assert f == Flatten(rest) + Blocks(a);
    if rest != [] {
      LastBlock(rest);
      assert f[|f| - 1 - a.len] == Flatten(rest)[|Flatten(rest)| - 1] != a.start - 1;
    }
  }
}
