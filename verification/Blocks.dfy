/** The number of blocks of a file (src/kern/gas_itree.c, gas_blocks). */
module Blocks {
  import opened Paths
  import opened Tree

  /** The blocks of pointers in `levels` levels above `blocks` blocks, the first
      `direct` of which need none. */
  function Indirects(f: nat, blocks: nat, direct: nat, levels: nat): nat
    requires 1 <= f
    decreases levels
  {
    if levels == 0 || blocks <= direct then 0
    else Ceil(blocks - direct, f) + Indirects(f, Ceil(blocks - direct, f), 1, levels - 1)
  }

  /** The offsets on the way to a logical block, the block itself included. */
  function Prefixes(offsets: seq<nat>): set<seq<nat>> {
    set j | 1 <= j <= |offsets| :: offsets[..j]
  }

  /** A device as large as a file can be. */
  function Largest(f: nat): Geometry {
    Geometry(f, Capacity(f), 1)
  }

  /** The positions, below one inode, of the logical blocks before `d` and of the
      blocks of pointers that lead to them. */
  function Nodes(f: nat, d: nat): set<seq<nat>>
    requires 1 <= f
  {
    if d == 0 then {} else Nodes(f, d - 1) + Prefixes(BlockToPath(Largest(f), d - 1))
  }

  /** `d` blocks hold `size` bytes, and fewer do not. */
  predicate LeastBlocks(f: nat, size: nat, d: nat) {
    size <= 4 * f * d && (d != 0 ==> 4 * f * (d - 1) < size)
  }

  lemma CeilIsLeast(f: nat, size: nat)
    requires 1 <= f
    ensures forall d: nat :: LeastBlocks(f, size, d) <==> d == Ceil(size, 4 * f)
  {
    forall d: nat ensures LeastBlocks(f, size, d) <==> d == Ceil(size, 4 * f) {
      CeilBelow(size, 4 * f, d);
      assert d * (4 * f) == 4 * f * d;
      if d != 0 {
        CeilBelow(size, 4 * f, d - 1);
        assert (d - 1) * (4 * f) == 4 * f * (d - 1);
      }
    }
  }

  /** gas_blocks: exactly the blocks of a file without holes. */
  method GasBlocks(f: nat, size: nat) returns (res: nat)
    requires 1 <= f && Ceil(size, 4 * f) <= Capacity(f)
    ensures forall d: nat :: LeastBlocks(f, size, d) ==> res == |Nodes(f, d)|
    ensures LeastBlocks(f, size, Ceil(size, 4 * f))
  {
    CeilIsLeast(f, size);
    var blocks: nat, direct: nat, i: nat := Ceil(size, 4 * f), DIRECT, DEPTH;
    CountNodes(f, blocks);
    ghost var total := |Nodes(f, blocks)|;
    res := blocks;
    i := i - 1;
    while i != 0 && blocks > direct
      invariant i < DEPTH && res + Indirects(f, blocks, direct, i) == total
      decreases i
    {
      blocks := Ceil(blocks - direct, f);
      res := res + blocks;
      direct := 1;
      i := i - 1;
    }
  }

  // Zeros at the end of a path

  /** The number of zeros at the end of the offsets after the first. */
  function TrailingZeros(offsets: seq<nat>): nat {
    if |offsets| <= 1 || offsets[|offsets| - 1] != 0 then 0
    else 1 + TrailingZeros(offsets[..|offsets| - 1])
  }

  lemma {:induction false} ZerosAreZero(o: seq<nat>, j: nat)
    requires 1 <= j <= |o|
    ensures |o| - TrailingZeros(o) <= j <==> forall x :: j <= x < |o| ==> o[x] == 0
    ensures 1 <= |o| ==> TrailingZeros(o) < |o|
    decreases |o|
  {
    var n := |o| - 1;
    if 1 <= n {
      if j <= n {
        ZerosAreZero(o[..n], j);
      } else {
        ZerosAreZero(o[..n], n);
      }
    }
  }

  /** A prefix of a path is new exactly when only zeros follow it. */
  lemma PrefixIsNew(f: nat, d: nat, j: nat)
    requires 1 <= f && d < Capacity(f)
    requires 1 <= j <= |BlockToPath(Largest(f), d)|
    ensures var o := BlockToPath(Largest(f), d);
            o[..j] in Nodes(f, d) <==> |o| - TrailingZeros(o) > j
  {
    var g := Largest(f);
    var o := BlockToPath(g, d);
    SmallValues(f, 0, 0, 0);
    PathReadsBack(g, d);
    ZerosAreZero(o, j);
    if o[..j] in Nodes(f, d) {
      var b, k := NodeOf(f, d, o[..j]);
      var p := BlockToPath(g, b);
      OrderIsomorphism(g, b, d);
      var x :| PartAt(p, o, x);
      forall y | 0 <= y < j ensures p[y] == o[y] {
        assert p[y] == p[..j][y] && o[y] == o[..j][y];
      }
    }
    if |o| - TrailingZeros(o) > j {
      var x :| j <= x < |o| && o[x] != 0;
      var z := o[x := 0];
      assert PartAt(z, o, x);
      LeftMeansSmaller(f, z, o);
      PathOfBlock(g, z);
      assert z[..j] == o[..j];
      NodeIn(f, d, LogicalBlock(f, z), j);
    }
  }

  lemma {:induction false} NodeOf(f: nat, d: nat, p: seq<nat>) returns (b: nat, j: nat)
    requires 1 <= f && p in Nodes(f, d)
    ensures b < d && 1 <= j <= |BlockToPath(Largest(f), b)| && p == BlockToPath(Largest(f), b)[..j]
  {
    if p in Nodes(f, d - 1) {
      b, j := NodeOf(f, d - 1, p);
    } else {
      b := d - 1;
      j :| 1 <= j <= |BlockToPath(Largest(f), b)| && p == BlockToPath(Largest(f), b)[..j];
    }
  }

  lemma {:induction false} NodeIn(f: nat, d: nat, b: nat, j: nat)
    requires 1 <= f && b < d && 1 <= j <= |BlockToPath(Largest(f), b)|
    ensures BlockToPath(Largest(f), b)[..j] in Nodes(f, d)
  {
    if b < d - 1 {
      NodeIn(f, d - 1, b, j);
    }
  }

  lemma NodesGrow(f: nat, d: nat)
    requires 1 <= f && d < Capacity(f)
    ensures |Nodes(f, d + 1)| == |Nodes(f, d)| + 1 + TrailingZeros(BlockToPath(Largest(f), d))
  {
    var g := Largest(f);
    var o := BlockToPath(g, d);
    SmallValues(f, 0, 0, 0);
    PathReadsBack(g, d);
    var k := |o| - TrailingZeros(o);
    ZerosAreZero(o, 1);
    forall p | p in Prefixes(o) ensures p in Nodes(f, d) <==> |p| < k {
      PrefixIsNew(f, d, |p|);
      assert p == o[..|p|];
    }
    assert Trail(o, k) <= Prefixes(o);
    assert Nodes(f, d + 1) == Nodes(f, d) + Trail(o, k) by {
      forall p | p in Prefixes(o) ensures p in Nodes(f, d) || p in Trail(o, k) {
        assert p == o[..|p|];
      }
    }
    TrailSize(o, k);
    assert Nodes(f, d) !! Trail(o, k);
  }

  // The arithmetic

  lemma CeilStep(n: nat, f: nat)
    requires 1 <= f
    ensures Ceil(n + 1, f) == Ceil(n, f) + if n % f == 0 then 1 else 0
    ensures n % f == 0 ==> Ceil(n, f) == n / f
    ensures Ceil(0, f) == 0
  {
    DivBounds(n, f);
    var q: nat, r: nat := n / f, n % f;
    assert (q + 1) * f == q * f + f;
    if r == 0 {
      DigitsUnique(q, f - 1, f);
      DigitsUnique(q + 1, 0, f);
    } else {
      DigitsUnique(q + 1, r - 1, f);
      DigitsUnique(q + 1, r, f);
    }
    QuotientBelow(f - 1, f, 1);
  }

  /** How many levels gain a block when the block after the first `n` indirect ones is
      added: a level does when the one below has just filled its last block. */
  function Carries(f: nat, n: nat, levels: nat): nat
    requires 1 <= f
    decreases levels
  {
    DivBounds(n, f);
    if levels == 0 || n % f != 0 then 0
    else if n / f == 0 then 1
    else 1 + Carries(f, n / f - 1, levels - 1)
  }

  lemma {:induction false} IndirectsGrow(f: nat, n: nat, direct: nat, levels: nat)
    requires 1 <= f
    ensures Indirects(f, n + 1 + direct, direct, levels) == Indirects(f, n + direct, direct, levels) + Carries(f, n, levels)
    decreases levels
  {
    if levels != 0 {
      CeilStep(n, f);
      DivBounds(n, f);
      if n % f == 0 && n / f != 0 {
        IndirectsGrow(f, n / f - 1, 1, levels - 1);
      }
    }
  }

  /** The number of indirect blocks before the one with these offsets, read from the
      offsets: every level counts its blocks from one. */
  function Number(f: nat, digits: seq<nat>): nat {
    if |digits| <= 1 then (if digits == [] then 0 else digits[0])
    else (Number(f, digits[..|digits| - 1]) + 1) * f + digits[|digits| - 1]
  }

  lemma {:induction false} CarriesAreZeros(f: nat, s: nat, digits: seq<nat>, levels: nat)
    requires 1 <= f && 1 <= |digits| <= levels && forall i :: 0 <= i < |digits| ==> digits[i] < f
    ensures TrailingZeros([s] + digits) == Carries(f, Number(f, digits), levels)
    decreases |digits|
  {
    var o, n := [s] + digits, |digits| - 1;
    assert o[..n + 1] == [s] + digits[..n];
    if n == 0 {
      DigitsUnique(0, digits[0], f);
      assert digits[..n] == [];
    } else {
      CarriesAreZeros(f, s, digits[..n], levels - 1);
      DigitsUnique(Number(f, digits[..n]) + 1, digits[n], f);
    }
  }

  lemma NumberOfBlock(f: nat, d: nat)
    requires 1 <= f && DIRECT <= d < Capacity(f)
    ensures var o := BlockToPath(Largest(f), d);
            2 <= |o| <= DEPTH && Complete(f, o) && Number(f, o[1..]) == d - DIRECT
  {
    var o := BlockToPath(Largest(f), d);
    PathReadsBack(Largest(f), d);
    if |o| == 2 {
      SmallNumbers(f, o[1], 0, 0);
      assert o[1..] == [o[1]];
    } else if |o| == 3 {
      SmallNumbers(f, o[1], o[2], 0);
      assert o[1..] == [o[1], o[2]];
    } else {
      SmallNumbers(f, o[1], o[2], o[3]);
      assert o[1..] == [o[1], o[2], o[3]];
    }
  }

  lemma SmallNumbers(f: nat, a: nat, b: nat, c: nat)
    ensures Number(f, [a]) + DIRECT == SlotStart(f, 6) + Value(f, [a])
    ensures Number(f, [a, b]) + DIRECT == SlotStart(f, 7) + Value(f, [a, b])
    ensures Number(f, [a, b, c]) + DIRECT == SlotStart(f, 8) + Value(f, [a, b, c])
  {
    SmallValues(f, a, b, c);
    assert [a, b][..1] == [a];
    assert [a, b, c][..2] == [a, b];
    assert Number(f, [a, b]) == (a + 1) * f + b == a * f + b + f;
    assert (a * f + b + f + 1) * f == (a * f + b) * f + f * f + f;
  }

  lemma ZerosGrow(f: nat, d: nat)
    requires 1 <= f && d < Capacity(f)
    ensures Indirects(f, d + 1, DIRECT, 3) == Indirects(f, d, DIRECT, 3) + TrailingZeros(BlockToPath(Largest(f), d))
  {
    var o := BlockToPath(Largest(f), d);
    if d < DIRECT {
      SmallValues(f, 0, 0, 0);
      assert |o| == 1;
    } else {
      NumberOfBlock(f, d);
      assert o == [o[0]] + o[1..];
      CarriesAreZeros(f, o[0], o[1..], 3);
      IndirectsGrow(f, d - DIRECT, DIRECT, 3);
    }
  }

  lemma {:induction false} CountNodes(f: nat, d: nat)
    requires 1 <= f && d <= Capacity(f)
    ensures d + Indirects(f, d, DIRECT, 3) == |Nodes(f, d)|
  {
    if d != 0 {
      CountNodes(f, d - 1);
      NodesGrow(f, d - 1);
      ZerosGrow(f, d - 1);
    }
  }

  // The blocks that a file really has

  /** The positions of one inode. */
  function Owned(t: Tree, ino: nat): set<Path> {
    set q | q in t && 1 <= |q| && q[0] == ino
  }

  /** Every mapped block of the file comes before `d`. */
  ghost predicate MappedBelow(g: Geometry, t: Tree, ino: nat, d: nat) {
    forall q :: q in t && 2 <= |q| && q[0] == ino && Leaf(q) ==> LogicalBlock(g.fan, q[1..]) < d
  }

  /** No file has more blocks than gas_blocks says for a size beyond its last block; it
      has just as many exactly when it has no holes. */
  lemma SparseBound(g: Geometry, n: nat, t: Tree, ino: nat, d: nat)
    requires ValidGeometry(g) && Shaped(g, n, t) && Tight(t) && ino < n
    requires d <= g.nblocks && MappedBelow(g, t, ino, d)
    ensures |Owned(t, ino)| <= |Nodes(g.fan, d)|
    ensures |Owned(t, ino)| == |Nodes(g.fan, d)| <==> forall b: nat :: b < d ==> [ino] + BlockToPath(g, b) in t
  {
    var tails := Tails(Owned(t, ino));
    OwnedAreNodes(g, n, t, ino, d);
    SubsetOfNodes(tails, Nodes(g.fan, d));
    TailsSize(Owned(t, ino), ino);
    if tails == Nodes(g.fan, d) {
      forall b: nat | b < d ensures [ino] + BlockToPath(g, b) in t {
        BlockIsOwned(g, t, ino, d, b);
      }
    }
    if forall b: nat :: b < d ==> [ino] + BlockToPath(g, b) in t {
      NodesAreOwned(g, n, t, ino, d);
    }
  }

  lemma OwnedAreNodes(g: Geometry, n: nat, t: Tree, ino: nat, d: nat)
    requires ValidGeometry(g) && Shaped(g, n, t) && Tight(t)
    requires d <= g.nblocks && MappedBelow(g, t, ino, d)
    ensures Tails(Owned(t, ino)) <= Nodes(g.fan, d)
  {
    forall q | q in Owned(t, ino) ensures q[1..] in Nodes(g.fan, d) {
      OwnedIsNode(g, n, t, ino, d, q);
    }
  }

  lemma NodesAreOwned(g: Geometry, n: nat, t: Tree, ino: nat, d: nat)
    requires ValidGeometry(g) && Shaped(g, n, t) && d <= g.nblocks
    requires forall b: nat :: b < d ==> [ino] + BlockToPath(g, b) in t
    ensures Nodes(g.fan, d) <= Tails(Owned(t, ino))
  {
    forall p | p in Nodes(g.fan, d) ensures p in Tails(Owned(t, ino)) {
      NodeIsOwned(g, n, t, ino, d, p);
      assert ([ino] + p)[1..] == p;
    }
  }

  lemma BlockIsOwned(g: Geometry, t: Tree, ino: nat, d: nat, b: nat)
    requires ValidGeometry(g) && d <= g.nblocks && b < d && Tails(Owned(t, ino)) == Nodes(g.fan, d)
    ensures [ino] + BlockToPath(g, b) in t
  {
    var o := BlockToPath(g, b);
    SamePath(g, b);
    NodeIn(g.fan, d, b, |o|);
    assert o[..|o|] == o;
    var q :| q in Owned(t, ino) && 1 <= |q| && q[1..] == o;
    assert q == [ino] + o;
  }

  function Tails(s: set<Path>): set<Path> {
    set q | q in s && 1 <= |q| :: q[1..]
  }

  lemma {:induction false} TailsSize(s: set<Path>, ino: nat)
    requires forall q :: q in s ==> 1 <= |q| && q[0] == ino
    ensures |Tails(s)| == |s|
    decreases |s|
  {
    if s != {} {
      var p :| p in s;
      TailsSize(s - {p}, ino);
      forall q | q in s && q[1..] == p[1..] ensures q == p {
        assert q == [ino] + q[1..] == [ino] + p[1..] == p;
      }
      assert Tails(s) == Tails(s - {p}) + {p[1..]};
    }
  }

  lemma SubsetOfNodes(a: set<Path>, b: set<Path>)
    requires a <= b
    ensures |a| <= |b| && (|a| == |b| ==> a == b)
  {
    assert b == a + (b - a);
  }

  /** In a tight tree every position leads to a data block. */
  lemma {:induction false} LeafBeyond(g: Geometry, n: nat, t: Tree, q: Path) returns (r: Path)
    requires Shaped(g, n, t) && Tight(t) && q in t
    ensures r in t && q <= r && Leaf(r)
    decreases 2 + Height(q[1]) - |q|
  {
    if Leaf(q) {
      r := q;
    } else {
      var i :| q + [i] in t;
      r := LeafBeyond(g, n, t, q + [i]);
    }
  }

  /** The path to a block does not depend on the size of the device. */
  lemma SamePath(g: Geometry, b: nat)
    requires ValidGeometry(g) && b < g.nblocks
    ensures BlockToPath(g, b) == BlockToPath(Largest(g.fan), b) && Complete(g.fan, BlockToPath(g, b))
  {
    SmallValues(g.fan, 0, 0, 0);
    PathReadsBack(g, b);
    PathOfBlock(Largest(g.fan), BlockToPath(g, b));
  }

  lemma TailPrefix(q: Path, r: Path)
    requires 1 <= |q| && q <= r
    ensures r[0] == q[0] && q[1..] == r[1..][..|q| - 1]
  {
  }

  lemma OwnedIsNode(g: Geometry, n: nat, t: Tree, ino: nat, d: nat, q: Path)
    requires ValidGeometry(g) && Shaped(g, n, t) && Tight(t)
    requires d <= g.nblocks && MappedBelow(g, t, ino, d) && q in Owned(t, ino)
    ensures q[1..] in Nodes(g.fan, d)
  {
    var r := LeafBeyond(g, n, t, q);
    TailPrefix(q, r);
    var b := LeafIsBlock(g, n, t, ino, d, r);
    NodeIn(g.fan, d, b, |q| - 1);
  }

  lemma LeafIsBlock(g: Geometry, n: nat, t: Tree, ino: nat, d: nat, r: Path) returns (b: nat)
    requires ValidGeometry(g) && InBounds(g, n, t) && r in t && 2 <= |r| && r[0] == ino && Leaf(r)
    requires d <= g.nblocks && MappedBelow(g, t, ino, d)
    ensures b < d && r[1..] == BlockToPath(Largest(g.fan), b)
  {
    assert Position(g, n, r);
    b := LogicalBlock(g.fan, r[1..]);
    PathOfBlock(g, r[1..]);
    SamePath(g, b);
  }

  lemma NodeIsOwned(g: Geometry, n: nat, t: Tree, ino: nat, d: nat, p: Path)
    requires ValidGeometry(g) && Shaped(g, n, t) && d <= g.nblocks && p in Nodes(g.fan, d)
    requires forall b: nat :: b < d ==> [ino] + BlockToPath(g, b) in t
    ensures [ino] + p in Owned(t, ino)
  {
    var b, j := NodeOf(g.fan, d, p);
    SamePath(g, b);
    assert [ino] + p <= [ino] + BlockToPath(g, b);
    PrefixIn(t, [ino] + p, [ino] + BlockToPath(g, b));
  }
}
