/** Logical block numbers and the paths that lead to them (src/kern/gas_itree.c).

    An inode holds nine pointers: six to data blocks, then one each to a single,
    a double and a triple indirect block. A block of pointers holds `fan` of them.
    A path lists the pointer taken in the inode, then the one taken in every
    indirect block on the way down. */
module Paths {
  const DIRECT: nat := 6
  const DEPTH: nat := 4
  const SLOTS: nat := 9

  /** What the superblock fixes: pointers per block, number of blocks of the
      device, and the first block of the data zone. */
  datatype Geometry = Geometry(fan: nat, nblocks: nat, dataStart: nat)

  /** `gas_fill_super` accepts any number of blocks; the paths stay inside their
      blocks exactly when the capacity bound holds (see OffsetsFitIffCapacity). */
  ghost predicate ValidGeometry(g: Geometry) {
    1 <= g.fan && 1 <= g.dataStart <= g.nblocks <= Capacity(g.fan)
  }

  /** The offsets that lead to a logical block; empty when there is no such block. */
  function BlockToPath(g: Geometry, block: int): (offsets: seq<nat>)
    requires 1 <= g.fan
    ensures offsets == [] <==> block < 0 || g.nblocks <= block
    ensures offsets != [] ==> offsets[0] < SLOTS && |offsets| == 1 + Height(offsets[0])
  {
    var f := g.fan;
    if block < 0 || g.nblocks <= block then []
    else if block < DIRECT then [block]
    else
      var b := block - DIRECT;
      if b < f then [DIRECT, b]
      else
        var b := b - f;
        if b < f * f then DivBounds(b, f); [DIRECT + 1, b / f, b % f]
        else
          var b := b - f * f;
          DivBounds(b, f);
          DivBounds(b / f, f);
          [DIRECT + 2, (b / f) / f, (b / f) % f, b % f]
  }

  /** How many indirect blocks lie below the k-th pointer of an inode. */
  function Height(k: nat): nat {
    if k < DIRECT then 0 else k - DIRECT + 1
  }

  /** Offsets that stay inside the inode and inside every block of pointers. */
  predicate Complete(f: nat, offsets: seq<nat>) {
    && 1 <= |offsets|
    && offsets[0] < SLOTS
    && |offsets| == 1 + Height(offsets[0])
    && forall i :: 1 <= i < |offsets| ==> offsets[i] < f
  }

  /** The number of data blocks below a pointer of height `h`. */
  function Power(f: nat, h: nat): nat {
    if h == 0 then 1 else Power(f, h - 1) * f
  }

  /** The digits read as a number to base `f`. */
  function Value(f: nat, digits: seq<nat>): nat {
    if digits == [] then 0 else Value(f, digits[..|digits| - 1]) * f + digits[|digits| - 1]
  }

  /** The first logical block reached through the k-th pointer of an inode. */
  function SlotStart(f: nat, k: nat): nat {
    if k <= DIRECT then k else SlotStart(f, k - 1) + Power(f, k - DIRECT)
  }

  /** The largest number of blocks that a file can address. */
  function Capacity(f: nat): nat {
    SlotStart(f, SLOTS)
  }

  /** The inverse of BlockToPath. */
  function LogicalBlock(f: nat, offsets: seq<nat>): nat
    requires 1 <= |offsets|
  {
    SlotStart(f, offsets[0]) + Value(f, offsets[1..])
  }

  /** `p` and `q` part at index `j`, and `p` takes the earlier pointer there. */
  predicate PartAt(p: seq<nat>, q: seq<nat>, j: int) {
    0 <= j < |p| && j < |q| && p[j] < q[j] && forall y :: 0 <= y < j ==> p[y] == q[y]
  }

  /** Everything below `p` comes before everything below `q`. */
  ghost predicate LeftOf(p: seq<nat>, q: seq<nat>) {
    exists j :: PartAt(p, q, j)
  }

  // Arithmetic of digits

  lemma MulStep(a: nat, b: nat, f: nat)
    ensures a < b ==> a * f + f <= b * f
  {
    if a < b {
      assert (a + 1) * f <= b * f;
    }
  }

  lemma DivBounds(b: nat, f: nat)
    requires 1 <= f
    ensures 0 <= b / f <= b && 0 <= b % f < f
    ensures b == b / f * f + b % f
  {
  }

  /** How many parts of size `f` it takes to hold `n`. */
  function Ceil(n: nat, f: nat): nat
    requires 1 <= f
  {
    DivBounds(n + f - 1, f);
    (n + f - 1) / f
  }

  lemma CeilBelow(n: nat, f: nat, k: nat)
    requires 1 <= f
    ensures k < Ceil(n, f) <==> k * f < n
  {
    QuotientBelow(n + f - 1, f, k + 1);
    assert (k + 1) * f == k * f + f;
  }

  lemma DigitsUnique(q: nat, r: nat, f: nat)
    requires r < f
    ensures (q * f + r) / f == q && (q * f + r) % f == r
  {
    var b := q * f + r;
    DivBounds(b, f);
    MulStep(b / f, q, f);
    MulStep(q, b / f, f);
  }

  lemma QuotientBelow(b: nat, f: nat, n: nat)
    requires 1 <= f
    ensures b / f < n <==> b < n * f
  {
    DivBounds(b, f);
    MulStep(b / f, n, f);
    if n <= b / f {
      assert n * f <= b / f * f;
    }
  }

  lemma {:induction false} ValueBelow(f: nat, digits: seq<nat>)
    requires forall i :: 0 <= i < |digits| ==> digits[i] < f
    ensures Value(f, digits) < Power(f, |digits|)
  {
    if digits != [] {
      var n := |digits| - 1;
      ValueBelow(f, digits[..n]);
      MulStep(Value(f, digits[..n]), Power(f, n), f);
    }
  }

  lemma {:induction false} ValueOrder(f: nat, p: seq<nat>, q: seq<nat>, j: nat)
    requires |p| == |q| && PartAt(p, q, j)
    requires forall i :: 0 <= i < |p| ==> p[i] < f && q[i] < f
    ensures Value(f, p) < Value(f, q)
  {
    var n := |p| - 1;
    if j < n {
      ValueOrder(f, p[..n], q[..n], j);
      MulStep(Value(f, p[..n]), Value(f, q[..n]), f);
    } else {
      assert p[..n] == q[..n];
    }
  }

  lemma SmallValues(f: nat, a: nat, b: nat, c: nat)
    ensures Value(f, [a]) == a
    ensures Value(f, [a, b]) == a * f + b
    ensures Value(f, [a, b, c]) == (a * f + b) * f + c
    ensures SlotStart(f, 7) == 6 + f && SlotStart(f, 8) == 6 + f + f * f
    ensures Capacity(f) == 6 + f + f * f + f * f * f
  {
    assert [a][..0] == [];
    assert [a, b][..1] == [a];
    assert [a, b, c][..2] == [a, b];
    assert Power(f, 1) == f && Power(f, 2) == f * f && Power(f, 3) == f * f * f;
  }

  // block_to_path and its inverse

  /** Every logical block has a path that leads back to it, and the path stays in
      bounds as far as the capacity reaches. */
  lemma PathReadsBack(g: Geometry, block: nat)
    requires 1 <= g.fan && block < g.nblocks
    ensures |BlockToPath(g, block)| >= 1
    ensures LogicalBlock(g.fan, BlockToPath(g, block)) == block
    ensures Complete(g.fan, BlockToPath(g, block)) <==> block < Capacity(g.fan)
  {
    var f := g.fan;
    var p := BlockToPath(g, block);
    SmallValues(f, 0, 0, 0);
    assert f * f >= 0 && f * f * f >= 0;
    if |p| == 1 {
      assert p[1..] == [];
    } else if |p| == 2 {
      assert p[1..] == [p[1]];
      SmallValues(f, p[1], 0, 0);
    } else if |p| == 3 {
      assert p[1..] == [p[1], p[2]];
      SmallValues(f, p[1], p[2], 0);
      DigitsReadBack(f, block - SlotStart(f, 7));
    } else {
      assert p[1..] == [p[1], p[2], p[3]];
      SmallValues(f, p[1], p[2], p[3]);
      DigitsReadBack(f, block - SlotStart(f, 8));
    }
  }

  lemma DigitsReadBack(f: nat, b: nat)
    requires 1 <= f
    ensures b == b / f * f + b % f && b % f < f
    ensures b / f < f <==> b < f * f
    ensures b == ((b / f) / f * f + (b / f) % f) * f + b % f && (b / f) % f < f
    ensures (b / f) / f < f <==> b < f * f * f
  {
    DivBounds(b, f);
    DivBounds(b / f, f);
    QuotientBelow(b, f, f);
    QuotientBelow(b / f, f, f);
    QuotientBelow(b, f, f * f);
  }

  /** The code does not bound the pointer taken in the triple indirect block. It
      is in range for every block of the device exactly when the device is no
      larger than the capacity of a file. */
  lemma OffsetsFitIffCapacity(g: Geometry)
    requires 1 <= g.fan
    ensures (forall b: nat :: b < g.nblocks ==> Complete(g.fan, BlockToPath(g, b)))
            <==> g.nblocks <= Capacity(g.fan)
  {
    forall b: nat | b < g.nblocks
      ensures Complete(g.fan, BlockToPath(g, b)) <==> b < Capacity(g.fan)
    {
      PathReadsBack(g, b);
    }
    if Capacity(g.fan) < g.nblocks {
      assert !Complete(g.fan, BlockToPath(g, Capacity(g.fan)));
    }
  }

  // Order

  /** The blocks reached through one pointer of the inode form an interval. */
  lemma BlockInRange(f: nat, p: seq<nat>)
    requires Complete(f, p)
    ensures SlotStart(f, p[0]) <= LogicalBlock(f, p) < SlotStart(f, p[0] + 1)
  {
    ValueBelow(f, p[1..]);
  }

  lemma {:induction false} SlotStartGrows(f: nat, j: nat, k: nat)
    requires j <= k
    ensures SlotStart(f, j) <= SlotStart(f, k)
    decreases k
  {
    if j < k {
      SlotStartGrows(f, j, k - 1);
    }
  }

  lemma LeftMeansSmaller(f: nat, p: seq<nat>, q: seq<nat>)
    requires Complete(f, p) && Complete(f, q) && LeftOf(p, q)
    ensures LogicalBlock(f, p) < LogicalBlock(f, q)
  {
    var j :| PartAt(p, q, j);
    if j == 0 {
      BlockInRange(f, p);
      BlockInRange(f, q);
      SlotStartGrows(f, p[0] + 1, q[0]);
    } else {
      ValueOrder(f, p[1..], q[1..], j - 1);
    }
  }

  lemma FirstDifference(p: seq<nat>, q: seq<nat>) returns (j: nat)
    requires !(p <= q) && !(q <= p)
    ensures PartAt(p, q, j) || PartAt(q, p, j)
  {
    j := 0;
    while p[j] == q[j]
      invariant j < |p| && j < |q|
      invariant forall y :: 0 <= y < j ==> p[y] == q[y]
      decreases |p| - j
    {
      j := j + 1;
    }
  }

  lemma CompleteNotPrefix(f: nat, p: seq<nat>, q: seq<nat>)
    requires Complete(f, p) && Complete(f, q)
    ensures p <= q ==> p == q
  {
    if p <= q {
      assert p[0] == q[0];
    }
  }

  lemma OrderOfComplete(f: nat, p: seq<nat>, q: seq<nat>)
    requires Complete(f, p) && Complete(f, q)
    ensures LogicalBlock(f, p) < LogicalBlock(f, q) <==> LeftOf(p, q)
    ensures LogicalBlock(f, p) == LogicalBlock(f, q) <==> p == q
  {
    if LeftOf(p, q) {
      LeftMeansSmaller(f, p, q);
    } else if p != q {
      CompleteNotPrefix(f, p, q);
      CompleteNotPrefix(f, q, p);
      var j := FirstDifference(p, q);
      assert LeftOf(q, p);
      LeftMeansSmaller(f, q, p);
    }
  }

  /** No two paths lead to one block. */
  lemma PathOfBlock(g: Geometry, offsets: seq<nat>)
    requires ValidGeometry(g)
    requires Complete(g.fan, offsets) && LogicalBlock(g.fan, offsets) < g.nblocks
    ensures BlockToPath(g, LogicalBlock(g.fan, offsets)) == offsets
  {
    var b := LogicalBlock(g.fan, offsets);
    PathReadsBack(g, b);
    OrderOfComplete(g.fan, BlockToPath(g, b), offsets);
  }

  /** Paths are ordered as the blocks they lead to: truncation may cut by path. */
  lemma OrderIsomorphism(g: Geometry, a: nat, b: nat)
    requires ValidGeometry(g) && a < g.nblocks && b < g.nblocks
    ensures a < b <==> LeftOf(BlockToPath(g, a), BlockToPath(g, b))
  {
    PathReadsBack(g, a);
    PathReadsBack(g, b);
    OrderOfComplete(g.fan, BlockToPath(g, a), BlockToPath(g, b));
  }
}
