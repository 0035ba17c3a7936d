/** What truncation does to a tree (src/kern/gas_itree.c, find_shared and
    gas_truncate_inode). */
module Cut {
  import opened Paths
  import opened Tree

  /** Something at or below position `q` comes before position `c`. */
  ghost predicate HoldsLeft(t: Tree, q: Path, c: Path) {
    exists r :: r in t && q <= r && LeftOf(r, c)
  }

  /** The tree without everything of inode `c[0]` from position `c` on, and without
      the blocks of pointers that hold nothing before `c`. */
  ghost function CutAt(t: Tree, c: Path): Tree
    requires 1 <= |c|
  {
    map q | q in t && (|q| >= 1 && q[0] == c[0] ==> HoldsLeft(t, q, c)) :: t[q]
  }

  // The order of positions

  lemma LeftOfExtends(p: Path, q: Path, c: Path)
    requires LeftOf(p, c) && p <= q
    ensures LeftOf(q, c)
  {
    var j :| PartAt(p, c, j);
    assert PartAt(q, c, j);
  }

  /** Beyond the common part of `r` and `c`, the first difference decides. */
  lemma LeftOfAfter(r: Path, c: Path, j: nat)
    requires j < |r| && j < |c| && forall y :: 0 <= y < j ==> r[y] == c[y]
    ensures r[j] < c[j] ==> LeftOf(r, c)
    ensures c[j] < r[j] ==> !LeftOf(r, c)
  {
    if r[j] < c[j] {
      assert PartAt(r, c, j);
    }
  }

  /** Nothing comes before `c` below a prefix of it that only zeros follow. */
  lemma ZerosAfter(r: Path, c: Path, k: nat)
    requires k <= |c| && forall x :: k <= x < |c| ==> c[x] == 0
    ensures c[..k] <= r ==> !LeftOf(r, c)
  {
    if c[..k] <= r {
      assert forall x :: 0 <= x < k ==> r[x] == c[..k][x];
    }
  }

  // Properties of the cut tree

  lemma CutClosed(t: Tree, c: Path)
    requires Closed(t) && 1 <= |c|
    ensures Closed(CutAt(t, c))
  {
    var u := CutAt(t, c);
    forall q {:trigger Parent(q)} | q in u && 3 <= |q| ensures Parent(q) in u {
      if q[0] == c[0] {
        var r :| r in t && q <= r && LeftOf(r, c);
        assert Parent(q) <= r;
      }
    }
  }

  lemma CutShaped(g: Geometry, n: nat, t: Tree, c: Path)
    requires Shaped(g, n, t) && 1 <= |c|
    ensures Shaped(g, n, CutAt(t, c))
  {
    CutClosed(t, c);
    ClosedPart(g, n, t, CutAt(t, c));
  }

  /** A cut leaves no empty block of pointers behind. */
  lemma CutTight(g: Geometry, n: nat, t: Tree, c: Path)
    requires Shaped(g, n, t) && Tight(t) && 1 <= |c|
    ensures Tight(CutAt(t, c))
  {
    forall q | q in CutAt(t, c) && 2 <= |q| && !Leaf(q) ensures HasChild(CutAt(t, c), q) {
      var i := CutChild(g, n, t, c, q);
      assert q + [i] in CutAt(t, c);
    }
  }

  lemma CutChild(g: Geometry, n: nat, t: Tree, c: Path, q: Path) returns (i: nat)
    requires Shaped(g, n, t) && 1 <= |c|
    requires q in CutAt(t, c) && 2 <= |q| && HasChild(t, q)
    ensures q + [i] in CutAt(t, c)
  {
    i :| q + [i] in t;
    if q[0] == c[0] {
      var r :| r in t && q <= r && LeftOf(r, c);
      if q == r {
        LeftOfExtends(q, q + [i], c);
      } else {
        i := r[|q|];
        assert r[..|q| + 1] == q + [i];
        PrefixIn(t, q + [i], r);
      }
      assert HoldsLeft(t, q + [i], c);
    }
  }

  /** A data block survives if and only if it comes before the cut. */
  lemma CutAtBlock(g: Geometry, n: nat, t: Tree, c: Path, q: Path)
    requires Shaped(g, n, t)
    requires Position(g, n, c) && Leaf(c) && Position(g, n, q) && Leaf(q)
    ensures Get(CutAt(t, c), q) ==
            if q[0] == c[0] && LogicalBlock(g.fan, c[1..]) <= LogicalBlock(g.fan, q[1..]) then 0 else Get(t, q)
  {
    if q in t && q[0] == c[0] {
      OrderOfPositions(g, n, q, c);
      LeafAlone(g, n, t, q);
      assert LeftOf(q, c) <==> HoldsLeft(t, q, c);
    }
  }

  lemma LeafAlone(g: Geometry, n: nat, t: Tree, q: Path)
    requires InBounds(g, n, t) && Position(g, n, q) && Leaf(q)
    ensures forall r :: r in t && q <= r ==> r == q
  {
    forall r | r in t && q <= r ensures r == q {
      assert Position(g, n, r) && r[1] == q[1];
    }
  }

  lemma OrderOfPositions(g: Geometry, n: nat, p: Path, q: Path)
    requires Position(g, n, p) && Leaf(p) && Position(g, n, q) && Leaf(q) && p[0] == q[0]
    ensures LeftOf(p, q) <==> LogicalBlock(g.fan, p[1..]) < LogicalBlock(g.fan, q[1..])
  {
    OrderOfComplete(g.fan, p[1..], q[1..]);
    if LeftOf(p, q) {
      var j :| PartAt(p, q, j);
      assert PartAt(p[1..], q[1..], j - 1);
    }
    if LeftOf(p[1..], q[1..]) {
      var j :| PartAt(p[1..], q[1..], j);
      assert forall y :: 1 <= y < j + 1 ==> p[y] == p[1..][y - 1] == q[1..][y - 1] == q[y];
      assert PartAt(p, q, j + 1);
    }
  }

  // The pieces that truncation removes

  /** `q` lies behind a pointer that is cleared in the block at position `c[..x + 1]`:
      those from number `lo` on. */
  predicate Trimmed(c: Path, x: nat, lo: nat, q: Path)
    requires x + 1 < |c|
  {
    c[..x + 1] < q && lo <= q[x + 1]
  }

  /** The first pointer to clear at level `x`: the one after the path, or that one
      too at the level `m` where find_shared stops with `minus`. */
  function FirstCleared(c: Path, x: nat, m: nat, minus: bool): nat
    requires x + 1 < |c|
  {
    if minus && x == m then c[x + 1] else c[x + 1] + 1
  }

  /** The block at position `c[..x + 1]` has a pointer to the left of the path. */
  ghost predicate KeepsLeft(t: Tree, c: Path, x: nat)
    requires x + 1 < |c|
  {
    exists i :: 0 <= i < c[x + 1] && c[..x + 1] + [i] in t
  }

  /** What find_shared has established when it stops at level `m` of a path that
      ends in zeros from level `k` on: everything above is there, the block that
      holds level `m` keeps a pointer to the left, and below level `m` nothing is
      kept, or else `minus` tells that this level ends the path. */
  ghost predicate SharedAt(t: Tree, c: Path, k: nat, m: nat, minus: bool) {
    && 1 <= m + 1 <= k < |c|
    && (forall x :: k < x < |c| ==> c[x] == 0)
    && (1 <= m ==> c[..m + 1] in t && KeepsLeft(t, c, m))
    && (minus ==> m + 1 == k && 1 <= m)
    && (!minus ==> !HoldsLeft(t, c[..m + 2], c))
  }

  /** `q` survives the cuts in the inode, at level `m`, and in the blocks at the
      levels from `z` to `m`. */
  ghost predicate Spared(c: Path, z: nat, m: nat, minus: bool, q: Path)
    requires m + 1 < |c|
  {
    && (minus || !(c[..m + 2] <= q))
    && forall x :: z <= x <= m ==> !Trimmed(c, x, FirstCleared(c, x, m, minus), q)
  }

  /** What remains of `t` after the cuts at level `m` and at levels `z` to `m`. */
  ghost function Remaining(t: Tree, c: Path, z: nat, m: nat, minus: bool): Tree
    requires m + 1 < |c|
  {
    map q | q in t && (1 <= |q| && q[0] == c[0] ==> Spared(c, z, m, minus, q)) :: t[q]
  }

  lemma RemainingFirst(t: Tree, c: Path, z: nat, m: nat, minus: bool)
    requires m + 1 < |c| && z == m + 1
    ensures Remaining(t, c, z, m, minus) == if minus then t else Prune(t, c[..m + 2])
  {
  }

  lemma SparedStep(c: Path, z: nat, m: nat, minus: bool, q: Path)
    requires m + 1 < |c| && 1 <= z <= m
    ensures Spared(c, z, m, minus, q)
            <==> Spared(c, z + 1, m, minus, q) && !Trimmed(c, z, FirstCleared(c, z, m, minus), q)
  {
  }

  lemma RemainingNext(g: Geometry, n: nat, t: Tree, c: Path, y: nat, z: nat, m: nat, minus: bool, lo: nat)
    requires Shaped(g, n, t) && m + 1 < |c| && 1 <= z <= m && y == z + 1
    requires lo == FirstCleared(c, z, m, minus)
    ensures PruneRange(Remaining(t, c, y, m, minus), c[..z + 1], lo, g.fan) == Remaining(t, c, z, m, minus)
  {
    forall q | q in t
      ensures q in PruneRange(Remaining(t, c, y, m, minus), c[..z + 1], lo, g.fan)
              <==> q in Remaining(t, c, z, m, minus)
    {
      assert Position(g, n, q);
      SparedStep(c, z, m, minus, q);
    }
  }

  lemma PathRemains(t: Tree, c: Path, y: nat, z: nat, m: nat, minus: bool)
    requires m + 1 < |c| && 1 <= z <= m && y == z + 1 && c[..z + 1] in t
    ensures c[..z + 1] in Remaining(t, c, y, m, minus)
  {
    assert Spared(c, y, m, minus, c[..z + 1]);
  }

  lemma SparedIsKept(g: Geometry, n: nat, t: Tree, c: Path, k: nat, m: nat, minus: bool, q: Path)
    requires Shaped(g, n, t) && Position(g, n, c) && Leaf(c) && SharedAt(t, c, k, m, minus)
    requires q in t && q[0] == c[0] && q[1] <= c[1] && Spared(c, 1, m, minus, q)
    ensures HoldsLeft(t, q, c)
  {
    assert Position(g, n, q);
    if q <= c {
      SparedOnPath(t, c, k, m, minus, q);
    } else {
      NothingBelowLeaf(g, n, c, q);
      var j := FirstDifference(q, c);
      if PartAt(c, q, j) {
        RightIsTrimmed(c, m, minus, q, j);
      }
      assert LeftOf(q, c);
    }
  }

  lemma NothingBelowLeaf(g: Geometry, n: nat, c: Path, q: Path)
    requires Position(g, n, c) && Leaf(c) && Position(g, n, q)
    ensures c <= q ==> q == c
  {
    if c <= q {
      assert q[1] == c[1];
    }
  }

  lemma LongerPrefix(c: Path, r: Path, x: nat)
    requires x < |c| && x < |r| && c[..x] <= r
    ensures c[x] == r[x] ==> c[..x + 1] <= r
  {
    assert c[..x + 1] == c[..x] + [c[x]];
  }

  lemma TrimmedOnPath(c: Path, m: nat, minus: bool, q: Path)
    requires m + 1 < |c| && q <= c && (minus ==> 1 <= m)
    ensures m + 2 <= |q| ==> !Spared(c, 1, m, minus, q)
  {
    if m + 2 <= |q| {
      assert q == c[..|q|] && c[..m + 2] <= q;
      if minus {
        assert c[..m + 1] < q;
        assert Trimmed(c, m, FirstCleared(c, m, m, minus), q);
      }
    }
  }

  lemma SparedOnPath(t: Tree, c: Path, k: nat, m: nat, minus: bool, q: Path)
    requires SharedAt(t, c, k, m, minus) && 1 <= |q|
    requires q <= c && 2 <= |q| && Spared(c, 1, m, minus, q)
    ensures HoldsLeft(t, q, c)
  {
    assert q == c[..|q|];
    TrimmedOnPath(c, m, minus, q);
    var i :| 0 <= i < c[m + 1] && c[..m + 1] + [i] in t;
    var r := c[..m + 1] + [i];
    LeftOfAfter(r, c, m + 1);
    assert q <= r;
  }

  lemma RightIsTrimmed(c: Path, m: nat, minus: bool, q: Path, j: nat)
    requires m + 1 < |c| && PartAt(c, q, j) && 2 <= j
    requires minus ==> 1 <= m
    ensures !Spared(c, 1, m, minus, q)
  {
    if j <= m + 1 {
      assert c[..j] < q;
      assert Trimmed(c, j - 1, FirstCleared(c, j - 1, m, minus), q);
    } else if minus {
      assert c[..m + 1] < q;
      assert Trimmed(c, m, FirstCleared(c, m, m, minus), q);
    } else {
      assert c[..m + 2] <= q;
    }
  }

  lemma KeptIsSpared(t: Tree, c: Path, k: nat, m: nat, minus: bool, q: Path)
    requires 2 <= |c| && SharedAt(t, c, k, m, minus)
    requires 2 <= |q| && q[0] == c[0] && HoldsLeft(t, q, c)
    ensures q[1] <= c[1] && Spared(c, 1, m, minus, q)
  {
    var r :| r in t && q <= r && LeftOf(r, c);
    assert r[..1] == c[..1];
    LeftOfAfter(r, c, 1);
    if c[..m + 2] <= q {
      assert HoldsLeft(t, c[..m + 2], c);
    }
    forall x | 1 <= x <= m ensures !Trimmed(c, x, FirstCleared(c, x, m, minus), q) {
      KeptIsNotTrimmed(t, c, k, m, minus, q, r, x);
    }
  }

  lemma KeptIsNotTrimmed(t: Tree, c: Path, k: nat, m: nat, minus: bool, q: Path, r: Path, x: nat)
    requires 2 <= |c| && SharedAt(t, c, k, m, minus) && 1 <= x <= m
    requires q <= r && LeftOf(r, c)
    ensures !Trimmed(c, x, FirstCleared(c, x, m, minus), q)
  {
    if c[..x + 1] < q {
      assert forall y :: 0 <= y < x + 1 ==> r[y] == c[..x + 1][y];
      LeftOfAfter(r, c, x + 1);
      assert r[x + 1] == q[x + 1] <= c[x + 1];
      ZerosAfter(r, c, k + 1);
      LongerPrefix(c, r, x + 1);
    }
  }

  /** Removing these pieces, and no others, cuts the tree. */
  lemma RemainingIsCut(g: Geometry, n: nat, t: Tree, c: Path, k: nat, m: nat, minus: bool)
    requires Shaped(g, n, t) && Position(g, n, c) && Leaf(c) && SharedAt(t, c, k, m, minus)
    ensures PruneSlots(Remaining(t, c, 1, m, minus), c[0], c[1] + 1, SLOTS) == CutAt(t, c)
  {
    forall q | q in t
      ensures q in PruneSlots(Remaining(t, c, 1, m, minus), c[0], c[1] + 1, SLOTS) <==> q in CutAt(t, c)
    {
      assert Position(g, n, q);
      if q[0] == c[0] && q[1] <= c[1] && Spared(c, 1, m, minus, q) {
        SparedIsKept(g, n, t, c, k, m, minus, q);
      } else if q[0] == c[0] && HoldsLeft(t, q, c) {
        KeptIsSpared(t, c, k, m, minus, q);
      }
    }
  }

  /** A cut among the direct pointers of an inode. */
  lemma DirectIsCut(g: Geometry, n: nat, t: Tree, c: Path)
    requires Shaped(g, n, t) && Position(g, n, c) && Leaf(c) && |c| == 2
    ensures PruneSlots(PruneSlots(t, c[0], c[1], DIRECT), c[0], DIRECT, SLOTS) == CutAt(t, c)
  {
    assert c == c[..2];
    assert !HoldsLeft(t, c[..2], c) by {
      forall r | r in t && c[..2] <= r ensures !LeftOf(r, c) {
        ZerosAfter(r, c, 2);
      }
    }
    RemainingFirst(t, c, 1, 0, false);
    RemainingIsCut(g, n, t, c, 1, 0, false);
    forall q | q in t
      ensures q in PruneSlots(PruneSlots(t, c[0], c[1], DIRECT), c[0], DIRECT, SLOTS)
              <==> q in PruneSlots(Prune(t, c), c[0], c[1] + 1, SLOTS)
    {
      assert Position(g, n, q);
      assert c <= q <==> q[0] == c[0] && q[1] == c[1];
    }
  }
}
