/** Chains of pointers read on the way to a block, and branches of new blocks
    (src/kern/gas_itree.c): what both the operations of one thread and the protocol
    between threads rest on. */
module Chains {
  import opened Paths
  import opened Tree
  import opened Cut

  /** A pointer that has been read: where it is kept and what it was. */
  datatype Indirect = Indirect(p: Slot, key: nat)

  /** The pointers read on the way to position `c`, as far as they go. */
  ghost predicate IsChain(g: Geometry, n: nat, t: Tree, c: Path, chain: seq<Indirect>) {
    && 1 <= |chain| < |c|
    && forall j {:trigger IsLink(g, n, t, c, j, chain[j])} :: 0 <= j < |chain| ==> IsLink(g, n, t, c, j, chain[j])
  }

  /** `x` is the pointer at level `j` of the path. */
  ghost predicate IsLink(g: Geometry, n: nat, t: Tree, c: Path, j: nat, x: Indirect) {
    && j + 2 <= |c| && HasSlot(g, n, t, c[..j + 2])
    && x == Indirect(SlotOf(t, c[..j + 2]), Get(t, c[..j + 2]))
  }

  /** The pointers strictly below position `q` are those of the tree. */
  ghost predicate RepBelow(g: Geometry, m: Media, t: Tree, q: Path) {
    forall r :: q < r && HasSlot(g, |m.inodes|, t, r) ==> Holds(m, SlotOf(t, r), Get(t, r))
  }

  /** Each block but the last is zero apart from the pointer to the next. */
  ghost predicate Linked(m: Media, offsets: seq<nat>, start: nat, branch: seq<nat>) {
    && start + |branch| <= |offsets| + 1
    && forall j :: 0 <= j < |branch| - 1 ==> LinksTo(m, offsets, start, branch, j)
  }

  lemma LinkedExtends(m: Media, r: Media, offsets: seq<nat>, start: nat, branch: seq<nat>, nr: nat)
    requires Linked(m, offsets, start, branch) && Distinct(branch) && 1 <= |branch|
    requires start + |branch| <= |offsets| && PointsOnly(r, branch[|branch| - 1], offsets[start + |branch| - 1], nr)
    requires |r.disk| == |m.disk|
    requires forall b :: 0 <= b < |m.disk| && b != branch[|branch| - 1] ==> r.disk[b] == m.disk[b]
    ensures Linked(r, offsets, start, branch + [nr])
  {
    var longer := branch + [nr];
    forall j | 0 <= j < |longer| - 1 ensures LinksTo(r, offsets, start, longer, j) {
      if j < |branch| - 1 {
        assert LinksTo(m, offsets, start, branch, j);
        assert !SameEntry(branch, j, |branch| - 1);
      }
    }
  }

  lemma LinkedIsChained(m: Media, c: Path, offsets: seq<nat>, start: nat, k: nat, branch: seq<nat>)
    requires 1 <= |c| && offsets == c[1..] && start + |branch| == |c| && k == start + 1
    requires Linked(m, offsets, start, branch) && 1 <= |branch|
    ensures Chained(m, c, k, branch)
  {
    forall j | 0 <= j < |branch| - 1 ensures LinksTo(m, c, k, branch, j) {
      assert LinksTo(m, offsets, start, branch, j);
    }
  }

  function Zeros(n: nat): (s: seq<nat>)
    ensures |s| == n && forall i :: 0 <= i < n ==> s[i] == 0
  {
    seq(n, i => 0)
  }

  /** `s` is the pointer on the path at level `x`, or the one before it when that is
      the last level `m` and `minus`. */
  ghost predicate OnPath(t: Tree, c: Path, x: nat, m: nat, minus: bool, s: Slot) {
    && x + 1 < |c| && c[..x + 1] in t
    && s.BlockSlot? && s.block == t[c[..x + 1]] && s.i + 1 == FirstCleared(c, x, m, minus)
  }

  /** The pointer to position `p` has been cleared; it was `top`. */
  ghost predicate CutOff(g: Geometry, m0: Media, m1: Media, t: Tree, u: Tree, p: Path, top: nat) {
    && HasSlot(g, |m0.inodes|, t, p) && Exists(m0, SlotOf(t, p))
    && m1 == Store(m0, SlotOf(t, p), 0) && u == Prune(t, p) && top == Get(t, p)
  }

  lemma CutOffMeans(g: Geometry, m0: Media, m1: Media, t: Tree, u: Tree, p: Path, top: nat, minus: bool)
    requires 1 <= g.dataStart && Rep(g, m0, t)
    requires minus ==> top == 0 && u == t
    requires !minus ==> CutOff(g, m0, m1, t, u, p, top)
    ensures top != 0 ==> RepBelow(g, m1, t, p) && p in t && top == t[p] && u == Prune(t, p)
    ensures top == 0 ==> u == t
  {
    if !minus {
      BelowUnchanged(g, m0, m1, t, p);
      if top == 0 {
        PruneNothing(t, p);
      }
    }
  }

  lemma ChildSlot(g: Geometry, n: nat, t: Tree, q: Path, i: nat)
    requires Shaped(g, n, t) && q in t && !Leaf(q) && i < g.fan
    ensures HasSlot(g, n, t, q + [i]) && SlotOf(t, q + [i]) == BlockSlot(t[q], i)
  {
    assert Parent(q + [i]) == q;
  }

  /** Clearing the pointer to a position leaves the pointers below it as they were. */
  lemma BelowUnchanged(g: Geometry, m: Media, r: Media, t: Tree, p: Path)
    requires Rep(g, m, t) && HasSlot(g, |m.inodes|, t, p) && Exists(m, SlotOf(t, p))
    requires r == Store(m, SlotOf(t, p), 0)
    ensures RepBelow(g, r, t, p)
  {
    forall s | p < s && HasSlot(g, |r.inodes|, t, s) ensures Holds(r, SlotOf(t, s), Get(t, s)) {
      assert Holds(m, SlotOf(t, s), Get(t, s));
      if SlotOf(t, s) == SlotOf(t, p) {
        SlotsDiffer(g, |m.inodes|, t, s, p);
      }
    }
  }

  lemma PruneNothing(t: Tree, p: Path)
    requires Closed(t) && p !in t && 2 <= |p|
    ensures Prune(t, p) == t
  {
    forall q | q in t ensures !(p <= q) {
      if p <= q {
        PrefixIn(t, p, q);
      }
    }
  }

  lemma NothingBelow(t: Tree, p: Path)
    requires Closed(t) && p !in t && 2 <= |p|
    ensures Below(t, p) == {}
  {
    forall q | q in t && p <= q ensures false {
      PrefixIn(t, p, q);
    }
  }

  /** Freeing the earlier pointers of a block has not touched what lies behind the i-th. */
  lemma RepBelowChild(g: Geometry, m: Media, r: Media, t: Tree, q: Path, lo: nat, i: nat)
    requires Sized(g, m) && Sized(g, r) && m.inodes == r.inodes && Shaped(g, |m.inodes|, t)
    requires q in t && !Leaf(q) && lo <= i < g.fan && RepBelow(g, m, t, q)
    requires forall x :: 0 <= x < g.nblocks && x != t[q] && x !in BelowRange(t, q, lo, i) ==> r.disk[x] == m.disk[x]
    ensures RepBelow(g, r, t, q + [i])
  {
    forall s | q + [i] < s && HasSlot(g, |m.inodes|, t, s) ensures Holds(r, SlotOf(t, s), Get(t, s)) {
      assert Holds(m, SlotOf(t, s), Get(t, s));
      var p := Parent(s);
      assert q + [i] <= p && p[|q|] == i && !SameBlock(t, p, q);
      InRangeIff(t, q, lo, i, p);
    }
  }

  /** The pointers to the left of the path are zero just when no position is there. */
  lemma LeftPointers(g: Geometry, m: Media, tree: Tree, c: Path, p: nat)
    requires Rep(g, m, tree) && 1 <= g.dataStart
    requires Position(g, |m.inodes|, c) && 1 <= p && p + 1 < |c| && c[..p + 1] in tree
    ensures tree[c[..p + 1]] < g.nblocks && c[p + 1] < g.fan
    ensures var row, hi := m.disk[tree[c[..p + 1]]], c[p + 1];
            (forall i :: 0 <= i < hi ==> row[i] == 0) <==> !KeepsLeft(tree, c, p)
  {
    var q := c[..p + 1];
    assert q[1] == c[1];
    forall i | 0 <= i < c[p + 1] ensures m.disk[tree[q]][i] == 0 <==> q + [i] !in tree {
      ChildSlot(g, |m.inodes|, tree, q, i);
      assert Holds(m, SlotOf(tree, q + [i]), Get(tree, q + [i]));
    }
    if KeepsLeft(tree, c, p) {
      var i :| 0 <= i < c[p + 1] && q + [i] in tree;
      assert m.disk[tree[q]][i] != 0;
    }
  }

  /** If the pointers to the left of the path are zero, nothing is kept one level up. */
  lemma ClimbStep(t: Tree, c: Path, p: nat)
    requires Closed(t) && 1 <= p && p + 1 < |c|
    requires !KeepsLeft(t, c, p)
    requires !HoldsLeft(t, c[..p + 2], c)
    ensures !HoldsLeft(t, c[..p + 1], c)
  {
    forall r | r in t && c[..p + 1] <= r ensures !LeftOf(r, c) {
      if |r| == p + 1 {
        assert r <= c;
      } else {
        assert forall y :: 0 <= y < p + 1 ==> r[y] == c[..p + 1][y];
        LeftOfAfter(r, c, p + 1);
        assert r[..p + 2] == c[..p + 1] + [r[p + 1]];
        PrefixIn(t, r[..p + 2], r);
        LongerPrefix(c, r, p + 1);
      }
    }
  }

  /** What a chain that ends in zero tells about the tree. */
  lemma MissingAbove(g: Geometry, n: nat, t: Tree, c: Path, chain: seq<Indirect>)
    requires 1 <= g.dataStart && Shaped(g, n, t) && Position(g, n, c) && IsChain(g, n, t, c, chain)
    requires chain[|chain| - 1].key == 0
    ensures var k := |chain| + 1;
            c[..k] !in t && c !in t && HasSlot(g, n, t, c[..k]) && (3 <= k ==> c[..k - 1] in t)
  {
    var k := |chain| + 1;
    assert IsLink(g, n, t, c, |chain| - 1, chain[|chain| - 1]);
    assert Parent(c[..k]) == c[..k - 1];
    if c in t {
      PrefixIn(t, c[..k], c);
    }
  }

  lemma ChainMissing(g: Geometry, n: nat, t: Tree, c: Path, chain: seq<Indirect>)
    requires 1 <= g.dataStart && Shaped(g, n, t) && Position(g, n, c) && IsChain(g, n, t, c, chain)
    requires chain[|chain| - 1].key == 0
    ensures Missing(t, c) == |c| - |chain|
  {
    MissingAbove(g, n, t, c, chain);
    MissingIs(t, c, |chain| + 1);
  }

  /** Storing a new branch where the chain ended extends the tree along the path. */
  lemma BranchSpliced(g: Geometry, m: Media, t: Tree, c: Path, offsets: seq<nat>, chain: seq<Indirect>, branch: seq<nat>)
    returns (u: Tree)
    requires ValidGeometry(g) && Rep(g, m, t)
    requires Position(g, |m.inodes|, c) && Leaf(c) && LogicalBlock(g.fan, c[1..]) < g.nblocks && offsets == c[1..]
    requires IsChain(g, |m.inodes|, t, c, chain) && chain[|chain| - 1].key == 0
    requires Distinct(branch) && forall b :: b in branch ==> b !in t.Values && g.dataStart <= b < g.nblocks
    requires |branch| == |c| - |chain|
    requires Linked(m, offsets, |chain|, branch)
    ensures Exists(m, chain[|chain| - 1].p) && Rep(g, Store(m, chain[|chain| - 1].p, branch[0]), u)
    ensures u.Values == t.Values + Elements(branch)
    ensures Extends(t, u, c) && c !in t && c in u && u[c] == branch[|branch| - 1]
  {
    var k := |chain| + 1;
    u := Graft(t, c, k, branch);
    MissingAbove(g, |m.inodes|, t, c, chain);
    LinkedIsChained(m, c, offsets, |chain|, k, branch);
    assert IsLink(g, |m.inodes|, t, c, |chain| - 1, chain[|chain| - 1]);
    SpliceGrafts(g, m, t, c, k, branch);
    GraftValues(t, c, k, branch);
    GraftExtends(t, c, k, branch);
  }

  lemma {:induction false} ElementsSize(s: seq<nat>)
    ensures |Elements(s)| <= |s|
    ensures Distinct(s) ==> |Elements(s)| == |s|
  {
    if s != [] {
      var n := |s| - 1;
      ElementsSize(s[..n]);
      assert s == s[..n] + [s[n]];
      assert Elements(s) == Elements(s[..n]) + {s[n]};
      if Distinct(s) {
        DistinctRest(s, n);
      }
    }
  }

  lemma SubsetSize(a: set<nat>, b: set<nat>)
    requires a <= b
    ensures |a| <= |b|
  {
    assert b == a + (b - a);
  }
}
