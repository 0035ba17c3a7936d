/** The forest of blocks that the inodes of a device own, and its representation
    by pointers.

    `Media` is what is stored: the pointers in the inodes and in the blocks. `Tree`
    is what it means: the block found at every position, where a position is the
    number of an inode followed by the pointers taken from there. Position
    `[ino, 6, 3]` is the data block behind pointer 3 of the indirect block behind
    pointer 6 of inode `ino`. */
module Tree {
  import opened Paths

  type Path = seq<nat>

  type Tree = map<Path, nat>

  /** `disk` holds the pointers in every block, `inodes` those in every inode. */
  datatype Media = Media(disk: seq<seq<nat>>, inodes: seq<seq<nat>>)

  /** A place that holds a pointer. */
  datatype Slot = InodeSlot(ino: nat, k: nat) | BlockSlot(block: nat, i: nat)

  ghost predicate Sized(g: Geometry, m: Media) {
    && |m.disk| == g.nblocks
    && (forall b :: 0 <= b < |m.disk| ==> |m.disk[b]| == g.fan)
    && (forall ino :: 0 <= ino < |m.inodes| ==> |m.inodes[ino]| == SLOTS)
  }

  predicate Exists(m: Media, s: Slot) {
    match s
    case InodeSlot(ino, k) => ino < |m.inodes| && k < |m.inodes[ino]|
    case BlockSlot(b, i) => b < |m.disk| && i < |m.disk[b]|
  }

  function Load(m: Media, s: Slot): nat
    requires Exists(m, s)
  {
    match s
    case InodeSlot(ino, k) => m.inodes[ino][k]
    case BlockSlot(b, i) => m.disk[b][i]
  }

  function Store(m: Media, s: Slot, v: nat): (r: Media)
    requires Exists(m, s)
    ensures Exists(r, s) && Load(r, s) == v
    ensures forall x :: Exists(r, x) <==> Exists(m, x)
    ensures forall x :: Exists(m, x) && x != s ==> Load(r, x) == Load(m, x)
    ensures |r.inodes| == |m.inodes| && |r.disk| == |m.disk|
    ensures forall g :: Sized(g, m) ==> Sized(g, r)
  {
    match s
    case InodeSlot(ino, k) =>
      var row: seq<nat> := m.inodes[ino][k := v];
      m.(inodes := m.inodes[ino := row])
    case BlockSlot(b, i) =>
      var row: seq<nat> := m.disk[b][i := v];
      m.(disk := m.disk[b := row])
  }

  // Positions

  predicate Position(g: Geometry, n: nat, p: Path) {
    && 2 <= |p|
    && p[0] < n
    && p[1] < SLOTS
    && |p| <= 2 + Height(p[1])
    && forall i :: 2 <= i < |p| ==> p[i] < g.fan
  }

  /** The position of a data block, as opposed to a block of pointers. */
  predicate Leaf(p: Path)
    requires 2 <= |p|
  {
    |p| == 2 + Height(p[1])
  }

  function Parent(p: Path): Path
    requires 1 <= |p|
  {
    p[..|p| - 1]
  }

  function Last(p: Path): nat
    requires 1 <= |p|
  {
    p[|p| - 1]
  }

  function Get(t: Tree, p: Path): nat {
    if p in t then t[p] else 0
  }

  /** There is a place for a pointer to position `p`. */
  ghost predicate HasSlot(g: Geometry, n: nat, t: Tree, p: Path) {
    Position(g, n, p) && (3 <= |p| ==> Parent(p) in t)
  }

  /** Where the pointer to position `p` is kept. */
  function SlotOf(t: Tree, p: Path): Slot
    requires 2 <= |p| && (3 <= |p| ==> Parent(p) in t)
  {
    if |p| == 2 then InodeSlot(p[0], p[1]) else BlockSlot(t[Parent(p)], Last(p))
  }

  // Well-formed trees

  ghost predicate InBounds(g: Geometry, n: nat, t: Tree) {
    forall p :: p in t ==> Position(g, n, p) && g.dataStart <= t[p] < g.nblocks
  }

  ghost predicate Closed(t: Tree) {
    forall p {:trigger Parent(p)} :: p in t && 3 <= |p| ==> Parent(p) in t
  }

  ghost predicate Injective(t: Tree) {
    forall p, q :: SameBlock(t, p, q) ==> p == q
  }

  ghost predicate SameBlock(t: Tree, p: Path, q: Path) {
    p in t && q in t && t[p] == t[q]
  }

  /** No block of a file lies at or beyond the number of blocks of the device. */
  ghost predicate OnDevice(g: Geometry, t: Tree) {
    forall p {:trigger LeafOnDevice(g, p)} :: p in t ==> LeafOnDevice(g, p)
  }

  ghost predicate LeafOnDevice(g: Geometry, p: Path) {
    2 <= |p| && Leaf(p) ==> LogicalBlock(g.fan, p[1..]) < g.nblocks
  }

  ghost predicate Shaped(g: Geometry, n: nat, t: Tree) {
    InBounds(g, n, t) && Closed(t) && Injective(t) && OnDevice(g, t)
  }

  /** No block of pointers is all zero. */
  ghost predicate Tight(t: Tree) {
    forall p :: p in t && 2 <= |p| && !Leaf(p) ==> HasChild(t, p)
  }

  ghost predicate HasChild(t: Tree, p: Path) {
    exists i :: p + [i] in t
  }

  /** The stored pointers are those of the tree. */
  ghost predicate Rep(g: Geometry, m: Media, t: Tree) {
    && Sized(g, m)
    && Shaped(g, |m.inodes|, t)
    && forall p :: HasSlot(g, |m.inodes|, t, p) ==> Holds(m, SlotOf(t, p), Get(t, p))
  }

  ghost predicate Holds(m: Media, s: Slot, v: nat) {
    Exists(m, s) && Load(m, s) == v
  }

  // What stays on a device

  /** Block `b` holds pointers. */
  ghost predicate IsPointers(t: Tree, b: nat) {
    exists q :: q in t && 2 <= |q| && !Leaf(q) && t[q] == b
  }

  /** No block has changed but blocks of pointers. */
  ghost predicate OnlyPointers(m: Media, r: Media, t: Tree) {
    |r.disk| == |m.disk| && forall b :: 0 <= b < |m.disk| && !IsPointers(t, b) ==> r.disk[b] == m.disk[b]
  }

  ghost predicate PartOf(u: Tree, t: Tree) {
    forall q :: q in u ==> q in t && u[q] == t[q]
  }

  lemma OnlyPointersTwice(m: Media, r: Media, w: Media, t: Tree, u: Tree)
    requires OnlyPointers(m, r, t) && OnlyPointers(r, w, u) && PartOf(u, t)
    ensures OnlyPointers(m, w, t)
  {
    forall b | 0 <= b < |m.disk| && !IsPointers(t, b) ensures w.disk[b] == m.disk[b] {
      assert !IsPointers(u, b);
    }
  }

  /** From `t` to `u` positions go, and no block changes but blocks of pointers. */
  ghost predicate Shrinks(m: Media, t: Tree, r: Media, u: Tree) {
    OnlyPointers(m, r, t) && PartOf(u, t)
  }

  lemma ShrinksTwice(m: Media, t: Tree, r: Media, u: Tree, w: Media, v: Tree)
    requires Shrinks(m, t, r, u) && Shrinks(r, u, w, v)
    ensures Shrinks(m, t, w, v)
  {
    OnlyPointersTwice(m, r, w, t, u);
  }

  /** Clearing one pointer changes a block of pointers, or an inode. */
  lemma ClearShrinks(g: Geometry, m: Media, t: Tree, p: Path)
    requires HasSlot(g, |m.inodes|, t, p) && Exists(m, SlotOf(t, p))
    ensures Shrinks(m, t, Store(m, SlotOf(t, p), 0), Prune(t, p))
  {
    if 3 <= |p| {
      assert Parent(p)[1] == p[1];
      assert IsPointers(t, t[Parent(p)]);
    }
  }

  /** The data blocks of `t` are as they were. */
  ghost predicate DataKept(m: Media, r: Media, t: Tree) {
    forall q :: q in t && 2 <= |q| && Leaf(q) && t[q] < |m.disk| ==> t[q] < |r.disk| && r.disk[t[q]] == m.disk[t[q]]
  }

  lemma DataIsNoPointers(m: Media, r: Media, t: Tree, u: Tree)
    requires Injective(t) && OnlyPointers(m, r, t) && PartOf(u, t)
    ensures DataKept(m, r, u)
  {
    forall q | q in u && 2 <= |q| && Leaf(q) ensures !IsPointers(t, u[q]) {
      forall p | p in t && t[p] == t[q] ensures p == q {
        assert SameBlock(t, p, q);
      }
    }
  }

  /** Every pointer and every word in the blocks `busy` is as it was, but for `s`. */
  ghost predicate KeptBut(m: Media, r: Media, busy: set<nat>, s: Slot) {
    forall x :: Exists(m, x) && x != s && (x.BlockSlot? ==> x.block in busy) ==> Exists(r, x) && Load(r, x) == Load(m, x)
  }

  /** Nothing that was in use has changed. */
  ghost predicate KeptAll(m: Media, r: Media, busy: set<nat>) {
    r.inodes == m.inodes && |r.disk| == |m.disk| && forall b :: 0 <= b < |m.disk| && b in busy ==> r.disk[b] == m.disk[b]
  }

  // Parts of a tree

  /** The tree without position `p` and everything below it. */
  function Prune(t: Tree, p: Path): Tree {
    map q | q in t && !(p <= q) :: t[q]
  }

  /** The blocks at and below position `p`. */
  function Below(t: Tree, p: Path): set<nat> {
    set q | q in t && p <= q :: t[q]
  }

  /** The tree without what lies behind the pointers `lo <= i < hi` of position `p`. */
  function PruneRange(t: Tree, p: Path, lo: nat, hi: nat): Tree {
    map q | q in t && !(p < q && lo <= q[|p|] < hi) :: t[q]
  }

  /** The tree without what lies behind the pointers `lo <= k < hi` of an inode. */
  function PruneSlots(t: Tree, ino: nat, lo: nat, hi: nat): Tree {
    map q | q in t && !(2 <= |q| && q[0] == ino && lo <= q[1] < hi) :: t[q]
  }

  lemma PruneSlotsStep(t: Tree, ino: nat, lo: nat, k: nat)
    requires lo <= k
    ensures Prune(PruneSlots(t, ino, lo, k), [ino, k]) == PruneSlots(t, ino, lo, k + 1)
  {
    forall q | q in t ensures [ino, k] <= q <==> 2 <= |q| && q[0] == ino && q[1] == k {
      if 2 <= |q| && q[0] == ino && q[1] == k {
        assert q[..2] == [ino, k];
      }
    }
  }

  /** The blocks behind the pointers `lo <= i < hi` of position `p`. */
  function BelowRange(t: Tree, p: Path, lo: nat, hi: nat): set<nat> {
    set q | q in t && p < q && lo <= q[|p|] < hi :: t[q]
  }

  lemma BelowRangeStep(t: Tree, p: Path, lo: nat, i: nat)
    requires lo <= i
    ensures BelowRange(t, p, lo, i + 1) == BelowRange(t, p, lo, i) + Below(t, p + [i])
  {
    forall q | q in t ensures p + [i] <= q <==> p < q && q[|p|] == i {
      if p < q && q[|p|] == i {
        assert q[..|p| + 1] == p + [i];
      }
    }
  }

  lemma BelowSplits(g: Geometry, n: nat, t: Tree, p: Path)
    requires Shaped(g, n, t) && p in t
    ensures Below(t, p) == {t[p]} + BelowRange(t, p, 0, g.fan)
  {
    forall q | q in t && p <= q ensures q == p || (p < q && 0 <= q[|p|] < g.fan) {
      assert Position(g, n, p) && Position(g, n, q);
    }
    forall v | v in Below(t, p) ensures v in {t[p]} + BelowRange(t, p, 0, g.fan) {
      var q :| q in t && p <= q && t[q] == v;
    }
    assert p <= p;
  }

  lemma LeafBelow(g: Geometry, n: nat, t: Tree, p: Path)
    requires Shaped(g, n, t) && p in t && Leaf(p)
    ensures Below(t, p) == {t[p]}
  {
    forall q | q in t && p <= q ensures q == p {
      assert Position(g, n, p) && Position(g, n, q);
      assert q[1] == p[1];
    }
  }

  lemma InRangeIff(t: Tree, p: Path, lo: nat, hi: nat, q: Path)
    requires Injective(t) && q in t
    ensures t[q] in BelowRange(t, p, lo, hi) <==> p < q && lo <= q[|p|] < hi
    ensures t[q] in Below(t, p) <==> p <= q
  {
    forall r | r in t && t[r] == t[q] ensures r == q {
      assert SameBlock(t, r, q);
    }
  }

  /** What lies behind pointer `i` is behind the pointers up to `hi` and not behind those
      before `i`. */
  lemma ChildInRange(t: Tree, p: Path, lo: nat, i: nat, hi: nat)
    requires Injective(t) && lo <= i < hi
    ensures Below(t, p + [i]) <= BelowRange(t, p, lo, hi) && Below(t, p + [i]) !! BelowRange(t, p, lo, i)
  {
    forall v | v in Below(t, p + [i]) ensures v in BelowRange(t, p, lo, hi) && v !in BelowRange(t, p, lo, i) {
      var q :| q in t && p + [i] <= q && t[q] == v;
      assert p < q && q[|p|] == i;
      InRangeIff(t, p, lo, i, q);
    }
  }

  lemma InverseImage(t: Tree, u: Tree, q: Path)
    requires Injective(t) && q in t && u.Keys <= t.Keys && forall r :: r in u ==> u[r] == t[r]
    ensures t[q] in u.Values <==> q in u
  {
    forall r | r in u && u[r] == t[q] ensures r == q {
      assert SameBlock(t, r, q);
    }
  }

  lemma {:induction false} PrefixIn(t: Tree, p: Path, q: Path)
    requires Closed(t) && q in t && p <= q && 2 <= |p|
    ensures p in t
    decreases |q|
  {
    if |p| < |q| {
      PrefixIn(t, p, Parent(q));
    } else {
      assert p == q;
    }
  }

  lemma PruneValues(t: Tree, p: Path)
    requires Injective(t)
    ensures Prune(t, p).Values == t.Values - Below(t, p)
  {
    var u := Prune(t, p);
    forall v | v in t.Values ensures v in u.Values <==> v !in Below(t, p) {
      var q :| q in t && t[q] == v;
      InRangeIff(t, p, 0, 0, q);
      InverseImage(t, u, q);
    }
  }

  lemma PruneRangeValues(t: Tree, p: Path, lo: nat, hi: nat)
    requires Injective(t)
    ensures PruneRange(t, p, lo, hi).Values == t.Values - BelowRange(t, p, lo, hi)
  {
    var u := PruneRange(t, p, lo, hi);
    forall v | v in t.Values ensures v in u.Values <==> v !in BelowRange(t, p, lo, hi) {
      var q :| q in t && t[q] == v;
      InRangeIff(t, p, lo, hi, q);
      InverseImage(t, u, q);
    }
  }

  // Changes of the tree and of its representation

  /** A part of a tree that contains all prefixes is a tree. */
  lemma ClosedPart(g: Geometry, n: nat, t: Tree, u: Tree)
    requires Shaped(g, n, t) && u.Keys <= t.Keys
    requires forall p :: p in u ==> u[p] == t[p]
    requires Closed(u)
    ensures Shaped(g, n, u)
  {
    forall p, q | SameBlock(u, p, q) ensures p == q {
      assert SameBlock(t, p, q);
    }
  }

  lemma PruneIsClosed(t: Tree, p: Path)
    requires Closed(t)
    ensures Closed(Prune(t, p))
  {
    var u := Prune(t, p);
    forall q | q in u && 3 <= |q| ensures Parent(q) in u {
      PrefixOfParent(p, q);
    }
  }

  lemma PruneRangeIsClosed(t: Tree, p: Path, lo: nat, hi: nat)
    requires Closed(t)
    ensures Closed(PruneRange(t, p, lo, hi))
  {
    var u := PruneRange(t, p, lo, hi);
    forall q | q in u && 3 <= |q| ensures Parent(q) in u {
      PrefixOfParent(p, q);
    }
  }

  lemma PrefixOfParent(p: Path, q: Path)
    requires 1 <= |q|
    ensures p <= q <==> p <= Parent(q) || p == q
  {
    if p <= q && p != q {
      assert p == q[..|p|] == Parent(q)[..|p|];
    }
  }

  lemma SlotsDiffer(g: Geometry, n: nat, t: Tree, p: Path, q: Path)
    requires Injective(t) && HasSlot(g, n, t, p) && HasSlot(g, n, t, q)
    requires SlotOf(t, p) == SlotOf(t, q)
    ensures p == q
  {
    if |p| == 2 {
      assert p == [p[0], p[1]] == q;
    } else {
      assert SameBlock(t, Parent(p), Parent(q));
      assert p == Parent(p) + [Last(p)] == Parent(q) + [Last(q)] == q;
    }
  }

  /** Clearing the pointer to a position cuts off what lies there. */
  lemma ClearCuts(g: Geometry, m: Media, t: Tree, p: Path)
    requires Rep(g, m, t) && HasSlot(g, |m.inodes|, t, p)
    ensures Exists(m, SlotOf(t, p))
    ensures Rep(g, Store(m, SlotOf(t, p), 0), Prune(t, p))
  {
    var n := |m.inodes|;
    PruneIsClosed(t, p);
    ClosedPart(g, n, t, Prune(t, p));
    forall q | HasSlot(g, n, Prune(t, p), q)
      ensures Holds(Store(m, SlotOf(t, p), 0), SlotOf(Prune(t, p), q), Get(Prune(t, p), q))
    {
      ClearHolds(g, m, t, p, q);
    }
  }

  lemma ClearHolds(g: Geometry, m: Media, t: Tree, p: Path, q: Path)
    requires Rep(g, m, t) && HasSlot(g, |m.inodes|, t, p)
    requires HasSlot(g, |m.inodes|, Prune(t, p), q)
    ensures Exists(m, SlotOf(t, p))
    ensures Holds(Store(m, SlotOf(t, p), 0), SlotOf(Prune(t, p), q), Get(Prune(t, p), q))
  {
    var n := |m.inodes|;
    assert HasSlot(g, n, t, q) && SlotOf(Prune(t, p), q) == SlotOf(t, q);
    assert Holds(m, SlotOf(t, q), Get(t, q));
    PrefixOfParent(p, q);
    if q != p && SlotOf(t, p) == SlotOf(t, q) {
      SlotsDiffer(g, n, t, p, q);
    }
  }

  /** Only the blocks of the tree matter. */
  lemma Frame(g: Geometry, m: Media, r: Media, t: Tree)
    requires Rep(g, m, t) && Sized(g, r) && r.inodes == m.inodes
    requires forall b :: 0 <= b < g.nblocks && b in t.Values ==> r.disk[b] == m.disk[b]
    ensures Rep(g, r, t)
  {
    var n := |m.inodes|;
    forall q | HasSlot(g, n, t, q) ensures Holds(r, SlotOf(t, q), Get(t, q)) {
      assert Holds(m, SlotOf(t, q), Get(t, q));
      if 3 <= |q| {
        assert t[Parent(q)] in t.Values;
      }
    }
  }

  /** Clearing the pointers `lo..` of a block cuts off what lies behind them, and
      what then happens to the blocks cut off does not matter. */
  lemma ClearRangeCuts(g: Geometry, m: Media, r: Media, t: Tree, p: Path, lo: nat)
    requires Rep(g, m, t) && p in t && !Leaf(p)
    requires Sized(g, r) && r.inodes == m.inodes
    requires forall b :: 0 <= b < g.nblocks && b != t[p] && b !in BelowRange(t, p, lo, g.fan) ==> r.disk[b] == m.disk[b]
    requires forall i :: 0 <= i < g.fan ==> r.disk[t[p]][i] == if lo <= i then 0 else m.disk[t[p]][i]
    ensures Rep(g, r, PruneRange(t, p, lo, g.fan))
  {
    var n, u := |m.inodes|, PruneRange(t, p, lo, g.fan);
    PruneRangeIsClosed(t, p, lo, g.fan);
    ClosedPart(g, n, t, u);
    PruneRangeValues(t, p, lo, g.fan);
    forall q | HasSlot(g, n, u, q) ensures Holds(r, SlotOf(u, q), Get(u, q)) {
      ClearRangeHolds(g, m, r, t, p, lo, q);
    }
  }

  lemma PruneRangeGet(t: Tree, p: Path, lo: nat, hi: nat, q: Path)
    requires 2 <= |p| && 2 <= |q| && (3 <= |q| ==> Parent(q) in PruneRange(t, p, lo, hi))
    ensures Get(PruneRange(t, p, lo, hi), q) == if Parent(q) == p && lo <= Last(q) < hi then 0 else Get(t, q)
  {
    PrefixOfParent(p, q);
    if p < q && Parent(q) != p {
      assert q[|p|] == Parent(q)[|p|];
    }
  }

  lemma ClearRangeHolds(g: Geometry, m: Media, r: Media, t: Tree, p: Path, lo: nat, q: Path)
    requires Rep(g, m, t) && p in t && !Leaf(p)
    requires Sized(g, r) && r.inodes == m.inodes
    requires forall b :: 0 <= b < g.nblocks && b != t[p] && b !in BelowRange(t, p, lo, g.fan) ==> r.disk[b] == m.disk[b]
    requires forall i :: 0 <= i < g.fan ==> r.disk[t[p]][i] == if lo <= i then 0 else m.disk[t[p]][i]
    requires HasSlot(g, |m.inodes|, PruneRange(t, p, lo, g.fan), q)
    ensures Holds(r, SlotOf(PruneRange(t, p, lo, g.fan), q), Get(PruneRange(t, p, lo, g.fan), q))
  {
    var n, u := |m.inodes|, PruneRange(t, p, lo, g.fan);
    assert HasSlot(g, n, t, q) && SlotOf(u, q) == SlotOf(t, q);
    assert Holds(m, SlotOf(t, q), Get(t, q));
    PruneRangeGet(t, p, lo, g.fan, q);
    if 3 <= |q| && Parent(q) != p {
      var b := t[Parent(q)];
      assert !SameBlock(t, Parent(q), p);
      PruneRangeValues(t, p, lo, g.fan);
      assert b == u[Parent(q)] && b in u.Values;
    }
  }

  /** The positions from length `k` on that lead to `c`. */
  function Trail(c: Path, k: nat): set<Path> {
    set j | k <= j <= |c| :: c[..j]
  }

  /** The tree with a branch of new blocks that ends at position `c`. */
  function Graft(t: Tree, c: Path, k: nat, branch: seq<nat>): Tree
    requires k <= |c| && |branch| == |c| + 1 - k
  {
    t + map q | q in Trail(c, k) :: branch[|q| - k]
  }

  /** New blocks of pointers, chained along the path and otherwise zero. */
  ghost predicate Chained(m: Media, c: Path, k: nat, branch: seq<nat>)
    requires k <= |c| && |branch| == |c| + 1 - k
  {
    forall j :: 0 <= j < |branch| - 1 ==> LinksTo(m, c, k, branch, j)
  }

  ghost predicate LinksTo(m: Media, c: seq<nat>, k: nat, branch: seq<nat>, j: nat)
    requires k + j < |c| && j + 1 < |branch|
  {
    PointsOnly(m, branch[j], c[k + j], branch[j + 1])
  }

  /** Block `b` is zero but for its i-th pointer, which is `v`. */
  ghost predicate PointsOnly(m: Media, b: nat, i: nat, v: nat) {
    && Exists(m, BlockSlot(b, i))
    && forall x :: 0 <= x < |m.disk[b]| ==> m.disk[b][x] == if x == i then v else 0
  }

  function Elements(s: seq<nat>): set<nat> {
    set b | b in s
  }

  ghost predicate Distinct(s: seq<nat>) {
    forall i, j :: SameEntry(s, i, j) ==> i == j
  }

  ghost predicate SameEntry(s: seq<nat>, i: int, j: int) {
    0 <= i < |s| && 0 <= j < |s| && s[i] == s[j]
  }

  lemma DistinctAppend(s: seq<nat>, x: nat)
    requires Distinct(s) && x !in s
    ensures Distinct(s + [x])
  {
    forall i, j | SameEntry(s + [x], i, j) ensures i == j {
      assert i < |s| && j < |s| ==> SameEntry(s, i, j);
    }
  }

  lemma DistinctRest(s: seq<nat>, i: nat)
    requires Distinct(s) && i < |s|
    ensures s[i] !in s[..i] && s[i] !in s[i + 1..] && Distinct(s[..i])
  {
    forall j | 0 <= j < |s| && s[j] == s[i] ensures j == i {
      assert SameEntry(s, j, i);
    }
    forall x, y | SameEntry(s[..i], x, y) ensures x == y {
      assert SameEntry(s, x, y);
    }
  }

  /** What a branch must meet to be spliced in at position `c[..k]`. */
  ghost predicate Graftable(g: Geometry, m: Media, t: Tree, c: Path, k: nat, branch: seq<nat>) {
    && Position(g, |m.inodes|, c) && Leaf(c) && LogicalBlock(g.fan, c[1..]) < g.nblocks
    && 2 <= k <= |c| && |branch| == |c| + 1 - k
    && c[..k] !in t && HasSlot(g, |m.inodes|, t, c[..k])
    && Distinct(branch)
    && (forall b :: b in branch ==> b !in t.Values && g.dataStart <= b < g.nblocks)
    && Chained(m, c, k, branch)
  }

  lemma GraftGet(t: Tree, c: Path, k: nat, branch: seq<nat>, q: Path)
    requires 2 <= k <= |c| && |branch| == |c| + 1 - k
    ensures q in Trail(c, k) <==> k <= |q| && q <= c
    ensures var u := Graft(t, c, k, branch);
            Get(u, q) == if k <= |q| && q <= c then branch[|q| - k] else Get(t, q)
  {
    if k <= |q| && q <= c {
      assert q == c[..|q|];
    }
  }

  /** The new positions of a graft. */
  lemma GraftNew(g: Geometry, m: Media, t: Tree, c: Path, k: nat, branch: seq<nat>, q: Path)
    requires Graftable(g, m, t, c, k, branch) && q in Trail(c, k)
    ensures Position(g, |m.inodes|, q) && q == c[..|q|] && k <= |q| <= |c|
    ensures Graft(t, c, k, branch)[q] == branch[|q| - k] && branch[|q| - k] in branch
    ensures 3 <= |q| ==> Parent(q) in Graft(t, c, k, branch)
    ensures Leaf(q) <==> q == c
  {
    GraftGet(t, c, k, branch, q);
    assert q[0] == c[0] && q[1] == c[1];
    if k < |q| {
      assert Parent(q) == c[..|q| - 1];
      assert Parent(q) in Trail(c, k);
    } else if 3 <= |q| {
      assert q == c[..k] && HasSlot(g, |m.inodes|, t, c[..k]);
    }
  }

  lemma GraftShaped(g: Geometry, m: Media, t: Tree, c: Path, k: nat, branch: seq<nat>)
    requires Shaped(g, |m.inodes|, t) && Graftable(g, m, t, c, k, branch)
    ensures Shaped(g, |m.inodes|, Graft(t, c, k, branch))
  {
    var u := Graft(t, c, k, branch);
    forall q | q in u
      ensures Position(g, |m.inodes|, q) && g.dataStart <= u[q] < g.nblocks
      ensures 3 <= |q| ==> Parent(q) in u
      ensures LeafOnDevice(g, q)
    {
      if q in Trail(c, k) {
        GraftNew(g, m, t, c, k, branch, q);
      } else {
        assert LeafOnDevice(g, q);
        assert 3 <= |q| ==> Parent(q) in t;
      }
    }
    forall p, q | SameBlock(u, p, q) ensures p == q {
      GraftInjective(g, m, t, c, k, branch, p, q);
    }
  }

  lemma GraftInjective(g: Geometry, m: Media, t: Tree, c: Path, k: nat, branch: seq<nat>, p: Path, q: Path)
    requires Injective(t) && Graftable(g, m, t, c, k, branch)
    requires var u := Graft(t, c, k, branch); p in u && q in u && u[p] == u[q]
    ensures p == q
  {
    if p in Trail(c, k) {
      GraftNew(g, m, t, c, k, branch, p);
    } else {
      assert t[p] in t.Values;
    }
    if q in Trail(c, k) {
      GraftNew(g, m, t, c, k, branch, q);
    } else {
      assert t[q] in t.Values;
    }
    assert SameBlock(t, p, q) || SameEntry(branch, |p| - k, |q| - k);
  }

  lemma GraftHolds(g: Geometry, m: Media, t: Tree, c: Path, k: nat, branch: seq<nat>, q: Path)
    requires Rep(g, m, t) && Graftable(g, m, t, c, k, branch)
    requires HasSlot(g, |m.inodes|, Graft(t, c, k, branch), q)
    ensures Exists(m, SlotOf(t, c[..k]))
    ensures var u := Graft(t, c, k, branch);
            Holds(Store(m, SlotOf(t, c[..k]), branch[0]), SlotOf(u, q), Get(u, q))
  {
    var u, s := Graft(t, c, k, branch), SlotOf(t, c[..k]);
    assert Holds(m, s, Get(t, c[..k]));
    if 3 <= |q| && Parent(q) in Trail(c, k) {
      GraftBelow(g, m, t, c, k, branch, q);
      if s.BlockSlot? {
        assert s.block in t.Values;
      }
    } else {
      GraftBeside(g, m, t, c, k, branch, q);
      if q != c[..k] && SlotOf(t, q) == s {
        SlotsDiffer(g, |m.inodes|, t, q, c[..k]);
      }
    }
  }

  lemma GraftBeside(g: Geometry, m: Media, t: Tree, c: Path, k: nat, branch: seq<nat>, q: Path)
    requires Rep(g, m, t) && Graftable(g, m, t, c, k, branch)
    requires HasSlot(g, |m.inodes|, Graft(t, c, k, branch), q)
    requires 3 <= |q| ==> Parent(q) !in Trail(c, k)
    ensures HasSlot(g, |m.inodes|, t, q) && SlotOf(Graft(t, c, k, branch), q) == SlotOf(t, q)
    ensures Holds(m, SlotOf(t, q), Get(t, q))
    ensures Get(Graft(t, c, k, branch), q) == if q == c[..k] then branch[0] else Get(t, q)
  {
    GraftGet(t, c, k, branch, q);
    if 3 <= |q| {
      GraftGet(t, c, k, branch, Parent(q));
      PrefixOfParent(q, c);
    }
    assert HasSlot(g, |m.inodes|, t, q);
    assert q <= c ==> q == c[..|q|];
  }

  lemma GraftBelow(g: Geometry, m: Media, t: Tree, c: Path, k: nat, branch: seq<nat>, q: Path)
    requires Rep(g, m, t) && Graftable(g, m, t, c, k, branch)
    requires HasSlot(g, |m.inodes|, Graft(t, c, k, branch), q)
    requires 3 <= |q| && Parent(q) in Trail(c, k)
    ensures var u := Graft(t, c, k, branch);
            u[Parent(q)] in branch && Holds(m, SlotOf(u, q), Get(u, q))
  {
    var j := |q| - 1 - k;
    GraftNew(g, m, t, c, k, branch, Parent(q));
    GraftBelowGet(g, m, t, c, k, branch, q);
    assert LinksTo(m, c, k, branch, j);
  }

  lemma GraftBelowGet(g: Geometry, m: Media, t: Tree, c: Path, k: nat, branch: seq<nat>, q: Path)
    requires Closed(t) && Graftable(g, m, t, c, k, branch)
    requires Position(g, |m.inodes|, q) && 3 <= |q| && Parent(q) in Trail(c, k)
    ensures k < |q| <= |c|
    ensures Get(Graft(t, c, k, branch), q) == if Last(q) == c[|q| - 1] then branch[|q| - k] else 0
  {
    GraftGet(t, c, k, branch, Parent(q));
    GraftGet(t, c, k, branch, q);
    PathStep(c, |q| - 1, q);
    if q in t {
      PrefixIn(t, c[..k], q);
    }
  }

  lemma PathStep(c: Path, j: nat, q: Path)
    requires 2 <= j <= |c| && |q| == j + 1 && Parent(q) == c[..j]
    ensures j < |c| ==> (q <= c <==> Last(q) == c[j])
    ensures q[1] == c[1]
  {
    assert q == Parent(q) + [Last(q)];
    assert q[1] == Parent(q)[1];
    if j < |c| {
      assert c[..j + 1] == c[..j] + [c[j]];
    }
  }

  /** Splicing in a branch gives the tree that branch. */
  lemma SpliceGrafts(g: Geometry, m: Media, t: Tree, c: Path, k: nat, branch: seq<nat>)
    requires Rep(g, m, t) && Graftable(g, m, t, c, k, branch)
    ensures Exists(m, SlotOf(t, c[..k]))
    ensures Rep(g, Store(m, SlotOf(t, c[..k]), branch[0]), Graft(t, c, k, branch))
  {
    assert Holds(m, SlotOf(t, c[..k]), Get(t, c[..k]));
    GraftShaped(g, m, t, c, k, branch);
    forall q | HasSlot(g, |m.inodes|, Graft(t, c, k, branch), q)
      ensures Holds(Store(m, SlotOf(t, c[..k]), branch[0]), SlotOf(Graft(t, c, k, branch), q), Get(Graft(t, c, k, branch), q))
    {
      GraftHolds(g, m, t, c, k, branch, q);
    }
  }

  lemma GraftValues(t: Tree, c: Path, k: nat, branch: seq<nat>)
    requires 2 <= k <= |c| && |branch| == |c| + 1 - k && c[..k] !in t && Closed(t)
    ensures Graft(t, c, k, branch).Values == t.Values + Elements(branch)
  {
    var u := Graft(t, c, k, branch);
    forall v | v in t.Values ensures v in u.Values {
      var q :| q in t && t[q] == v;
      if q in Trail(c, k) {
        GraftGet(t, c, k, branch, q);
        PrefixIn(t, c[..k], q);
      }
      assert q in u && u[q] == v;
    }
    forall j | 0 <= j < |branch| ensures branch[j] in u.Values {
      assert c[..k + j] in Trail(c, k);
      assert u[c[..k + j]] == branch[j];
    }
    forall v | v in u.Values ensures v in t.Values || v in branch {
      var q :| q in u && u[q] == v;
      GraftGet(t, c, k, branch, q);
    }
  }

  lemma GraftExtends(t: Tree, c: Path, k: nat, branch: seq<nat>)
    requires 2 <= k <= |c| && |branch| == |c| + 1 - k && Closed(t)
    requires c[..k] !in t && (3 <= k ==> c[..k - 1] in t)
    ensures Extends(t, Graft(t, c, k, branch), c)
    ensures c in Graft(t, c, k, branch) && Graft(t, c, k, branch)[c] == branch[|branch| - 1]
  {
    var u := Graft(t, c, k, branch);
    TrailMissing(t, c, k);
    assert Trail(c, 2) <= t.Keys + Trail(c, k) by {
      forall q | q in Trail(c, 2) ensures q in t || q in Trail(c, k) {
        GraftGet(t, c, k, branch, q);
        if |q| < k {
          PrefixIn(t, q, c[..k - 1]);
        }
      }
    }
    assert c == c[..|c|] && c in Trail(c, k);
  }

  /** Every prefix of `c` has been added to the tree, and nothing else. */
  ghost predicate Extends(t: Tree, u: Tree, c: Path) {
    && u.Keys == t.Keys + Trail(c, 2)
    && forall p :: p in t ==> u[p] == t[p]
  }

  /** How many positions on the way to `c` are not in the tree. */
  ghost function Missing(t: Tree, c: Path): nat {
    |Trail(c, 2) - t.Keys|
  }

  lemma TrailMissing(t: Tree, c: Path, k: nat)
    requires 2 <= k <= |c| && c[..k] !in t && Closed(t)
    ensures Trail(c, k) !! t.Keys
  {
    forall q | q in Trail(c, k) ensures q !in t {
      if q in t {
        PrefixIn(t, c[..k], q);
      }
    }
  }

  lemma MissingIs(t: Tree, c: Path, k: nat)
    requires 2 <= k <= |c| && Closed(t) && c[..k] !in t && (3 <= k ==> c[..k - 1] in t)
    ensures Missing(t, c) == |c| + 1 - k
  {
    TrailMissing(t, c, k);
    forall q | q in Trail(c, 2) && |q| < k ensures q in t {
      assert q == c[..|q|] == c[..k - 1][..|q|];
      PrefixIn(t, q, c[..k - 1]);
    }
    assert Trail(c, 2) - t.Keys == Trail(c, k);
    TrailSize(c, k);
  }

  lemma {:induction false} TrailSize(c: Path, k: nat)
    requires k <= |c| + 1
    ensures |Trail(c, k)| == |c| + 1 - k
    decreases |c| + 1 - k
  {
    if k <= |c| {
      TrailSize(c, k + 1);
      assert Trail(c, k) == {c[..k]} + Trail(c, k + 1);
    }
  }

  /** The position of a logical block. */
  lemma BlockPosition(g: Geometry, n: nat, ino: nat, block: int)
    requires ValidGeometry(g) && ino < n && 0 <= block < g.nblocks
    ensures var c := [ino] + BlockToPath(g, block);
            Position(g, n, c) && Leaf(c) && LogicalBlock(g.fan, c[1..]) == block
  {
    PathReadsBack(g, block);
    var c := [ino] + BlockToPath(g, block);
    assert c[1..] == BlockToPath(g, block);
  }

  // Meaning

  /** Follow the stored pointers to position `p`; zero when one of them is. */
  function Walk(m: Media, p: Path): nat {
    if |p| < 2 then 0
    else if |p| == 2 then (if Exists(m, InodeSlot(p[0], p[1])) then Load(m, InodeSlot(p[0], p[1])) else 0)
    else
      var b := Walk(m, Parent(p));
      if b != 0 && Exists(m, BlockSlot(b, Last(p))) then Load(m, BlockSlot(b, Last(p))) else 0
  }

  /** The tree is no more than what one finds by following pointers. */
  lemma {:induction false} WalkIsGet(g: Geometry, m: Media, t: Tree, p: Path)
    requires Rep(g, m, t) && Position(g, |m.inodes|, p) && 1 <= g.dataStart
    ensures Walk(m, p) == Get(t, p)
    decreases |p|
  {
    if 3 <= |p| {
      WalkIsGet(g, m, t, Parent(p));
    }
    if HasSlot(g, |m.inodes|, t, p) {
      assert Holds(m, SlotOf(t, p), Get(t, p));
    }
  }
}
