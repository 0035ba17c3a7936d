/** The block-mapping tree of the kernel (src/kern/gas_itree.c), as one thread runs
    it. The protocol between threads is the subject of module Protocol. */
module Itree {
  import opened Paths
  import opened Tree
  import opened Cut
  import opened BitMap
  import opened Chains
  import opened FileMap

  datatype Errno = OK | EIO | ENOSPC

  /** The number of blocks that a size takes. */
  function BlocksOf(f: nat, size: nat): nat
    requires 1 <= f
  {
    Ceil(size, 4 * f)
  }

  /** Block `block` holds bytes before `size` exactly if it starts before it. */
  lemma BlocksMean(f: nat, size: nat, block: nat)
    requires 1 <= f
    ensures block < BlocksOf(f, size) <==> 4 * f * block < size
  {
    CeilBelow(size, 4 * f, block);
    assert block * (4 * f) == 4 * f * block;
  }

  lemma NoBlocks(f: nat)
    requires 1 <= f
    ensures BlocksOf(f, 0) == 0
  {
    BlocksMean(f, 0, 0);
  }

  /** From `t` to `u` exactly the blocks of one inode go that hold no byte before `size`. */
  ghost predicate CutBySize(g: Geometry, n: nat, t: Tree, u: Tree, ino: nat, size: nat)
    requires 1 <= g.fan
  {
    forall other: nat, block: nat :: other < n && block < g.nblocks ==>
      Phys(g, u, other, block) == if other == ino && StartsAtOrAfter(g, block, size) then 0 else Phys(g, t, other, block)
  }

  predicate StartsAtOrAfter(g: Geometry, block: nat, size: nat) {
    size <= 4 * g.fan * block
  }

  lemma CutsBySize(g: Geometry, n: nat, t: Tree, ino: nat, size: nat)
    requires ValidGeometry(g) && Shaped(g, n, t) && ino < n
    ensures CutBySize(g, n, t, Truncated(g, t, ino, BlocksOf(g.fan, size)), ino, size)
  {
    var cut := BlocksOf(g.fan, size);
    forall other: nat, block: nat | other < n && block < g.nblocks
      ensures Phys(g, Truncated(g, t, ino, cut), other, block)
              == if other == ino && StartsAtOrAfter(g, block, size) then 0 else Phys(g, t, other, block)
    {
      TruncateMap(g, n, t, ino, cut, other, block);
      BlocksMean(g.fan, size, block);
    }
  }

  class FileSystem {
    const g: Geometry
    const bam: AllocMap
    var m: Media
    /** i_size of every inode. */
    var sizes: seq<nat>
    /** What the stored pointers mean. */
    ghost var tree: Tree
    /** The numbers that belong to no inode: metadata, the tail of the last map,
        and the blocks of the root directory that no pointer records. */
    ghost const reserved: set<nat>

    ghost predicate Valid()
      reads this, bam, bam.bits
    {
      Rep(g, m, tree) && |sizes| == |m.inodes| && Ledger(tree.Values)
    }

    /** The set bits are the reserved numbers and the owned ones. */
    ghost predicate Ledger(owned: set<nat>)
      reads this, bam, bam.bits
    {
      MapFits() && bam.busy == reserved + owned && reserved !! owned
    }

    ghost predicate MapFits()
      reads this, bam, bam.bits
    {
      && ValidGeometry(g)
      && bam.Valid() && bam.first == g.dataStart && bam.limit == g.nblocks
      && g.nblocks <= bam.maps * bam.width
      && forall b :: 0 <= b < bam.maps * bam.width && !(g.dataStart <= b < g.nblocks) ==> b in reserved
    }

    constructor (g: Geometry, bam: AllocMap, m: Media, sizes: seq<nat>, ghost tree: Tree, ghost reserved: set<nat>)
      requires ValidGeometry(g) && Rep(g, m, tree) && |sizes| == |m.inodes|
      requires bam.Valid() && bam.first == g.dataStart && bam.limit == g.nblocks
      requires g.nblocks <= bam.maps * bam.width
      requires forall b :: 0 <= b < bam.maps * bam.width && !(g.dataStart <= b < g.nblocks) ==> b in reserved
      requires bam.busy == reserved + tree.Values && reserved !! tree.Values
      ensures Valid()
      ensures this.g == g && this.bam == bam && this.m == m && this.sizes == sizes
      ensures this.tree == tree && this.reserved == reserved
    {
      this.g, this.bam, this.m, this.sizes := g, bam, m, sizes;
      this.tree, this.reserved := tree, reserved;
    }

    /** verify_chain: every pointer is still what it was when it was read. */
    method VerifyChain(chain: seq<Indirect>) returns (same: bool)
      requires forall j :: 0 <= j < |chain| ==> Exists(m, chain[j].p)
      ensures same <==> forall j :: 0 <= j < |chain| ==> Load(m, chain[j].p) == chain[j].key
    {
      var i := 0;
      while i < |chain| && chain[i].key == Load(m, chain[i].p)
        invariant i <= |chain|
        invariant forall j :: 0 <= j < i ==> Load(m, chain[j].p) == chain[j].key
      {
        i := i + 1;
      }
      same := i == |chain|;
    }

    /** get_branch: read `depth` pointers, or up to the first that is zero. */
    method GetBranch(ino: nat, depth: nat, offsets: seq<nat>) returns (chain: seq<Indirect>, found: bool)
      requires Rep(g, m, tree) && 1 <= g.dataStart
      requires Position(g, |m.inodes|, [ino] + offsets) && 1 <= depth <= |offsets|
      ensures IsChain(g, |m.inodes|, tree, [ino] + offsets, chain) && |chain| <= depth
      ensures forall j :: 0 <= j < |chain| - 1 ==> chain[j].key != 0
      ensures found <==> chain[|chain| - 1].key != 0
      ensures found ==> |chain| == depth
    {
      ghost var n, c := |m.inodes|, [ino] + offsets;
      FirstLink(c);
      var s := InodeSlot(ino, offsets[0]);
      chain := [Indirect(s, Load(m, s))];
      while chain[|chain| - 1].key != 0 && |chain| < depth
        invariant |chain| <= depth && IsChain(g, n, tree, c, chain)
        invariant forall j :: 0 <= j < |chain| - 1 ==> chain[j].key != 0
        decreases depth - |chain|
      {
        ChainHolds(c, chain);
        var same := VerifyChain(chain);
        assert same;
        NextLink(c, chain);
        s := BlockSlot(chain[|chain| - 1].key, offsets[|chain|]);
        chain := chain + [Indirect(s, Load(m, s))];
      }
      found := chain[|chain| - 1].key != 0;
    }

    lemma FirstLink(c: Path)
      requires Rep(g, m, tree) && Position(g, |m.inodes|, c)
      ensures Exists(m, InodeSlot(c[0], c[1]))
      ensures IsLink(g, |m.inodes|, tree, c, 0, Indirect(InodeSlot(c[0], c[1]), m.inodes[c[0]][c[1]]))
    {
      assert HasSlot(g, |m.inodes|, tree, c[..2]);
      assert Holds(m, SlotOf(tree, c[..2]), Get(tree, c[..2]));
    }

    lemma ChainHolds(c: Path, chain: seq<Indirect>)
      requires Rep(g, m, tree) && IsChain(g, |m.inodes|, tree, c, chain)
      ensures forall j :: 0 <= j < |chain| ==> Holds(m, chain[j].p, chain[j].key)
    {
      forall j | 0 <= j < |chain| ensures Holds(m, chain[j].p, chain[j].key) {
        assert IsLink(g, |m.inodes|, tree, c, j, chain[j]);
      }
    }

    /** The next pointer on the path can be read when the one before it is not zero. */
    lemma NextLink(c: Path, chain: seq<Indirect>)
      requires Rep(g, m, tree) && 1 <= g.dataStart && Position(g, |m.inodes|, c)
      requires IsChain(g, |m.inodes|, tree, c, chain) && |chain| + 1 < |c| && chain[|chain| - 1].key != 0
      ensures var s := BlockSlot(chain[|chain| - 1].key, c[|chain| + 1]);
              Exists(m, s) && IsChain(g, |m.inodes|, tree, c, chain + [Indirect(s, Load(m, s))])
    {
      var n, i := |m.inodes|, |chain|;
      var s := BlockSlot(chain[i - 1].key, c[i + 1]);
      var p := c[..i + 2];
      assert IsLink(g, n, tree, c, i - 1, chain[i - 1]);
      assert Parent(p) == c[..i + 1] && p[1] == c[1];
      assert HasSlot(g, n, tree, p) && SlotOf(tree, p) == s;
      assert Holds(m, SlotOf(tree, p), Get(tree, p));
      var x := Indirect(s, Load(m, s));
      forall j | 0 <= j <= i ensures IsLink(g, n, tree, c, j, (chain + [x])[j]) {
        assert j < i ==> IsLink(g, n, tree, c, j, chain[j]);
      }
    }

    // Allocation

    /** alloc_branch: `num` new blocks, chained by the offsets from number
        `start` on. All or nothing. */
    method AllocBranch(num: nat, offsets: seq<nat>, start: nat) returns (err: Errno, branch: seq<nat>)
      requires MapFits() && Sized(g, m) && reserved <= bam.busy
      requires 1 <= num && start + num == |offsets| + 1 && forall j :: start <= j < |offsets| ==> offsets[j] < g.fan
      modifies this`m, bam, bam.bits
      ensures MapFits() && Sized(g, m) && m.inodes == old(m.inodes)
      ensures forall b :: 0 <= b < g.nblocks && b in old(bam.busy) ==> m.disk[b] == old(m.disk[b])
      ensures err == OK || err == ENOSPC
      ensures err == ENOSPC ==> bam.busy == old(bam.busy)
      ensures err == ENOSPC ==> |ClearBelow(old(bam.busy), bam.maps * bam.width)| < num
      ensures err == OK ==> |branch| == num && Fresh(branch, old(bam.busy))
      ensures err == OK ==> bam.busy == old(bam.busy) + Elements(branch)
      ensures err == OK ==> Linked(m, offsets, start, branch)
    {
      branch := [];
      var ok, parent := bam.New();
      if ok {
        branch := [parent];
        var n := 1;
        while n < num
          invariant 1 <= n <= num && ok && n == |branch| && parent == branch[n - 1]
          invariant MapFits() && Sized(g, m) && m.inodes == old(m.inodes)
          invariant Fresh(branch, old(bam.busy))
          invariant bam.busy == old(bam.busy) + Elements(branch)
          invariant forall b :: 0 <= b < g.nblocks && b in old(bam.busy) ==> m.disk[b] == old(m.disk[b])
          invariant Linked(m, offsets, start, branch)
        {
          var nr;
          ok, nr := bam.New();
          if !ok {
            break;
          }
          assert branch[n - 1] in branch;
          ghost var m0 := m;
          LinkBlock(parent, offsets[start + n - 1], nr);
          LinkedExtends(m0, m, offsets, start, branch, nr);
          DistinctAppend(branch, nr);
          branch := branch + [nr];
          parent := nr;
          n := n + 1;
        }
      }
      if ok {
        return OK, branch;
      }
      NoSpaceMeans(old(bam.busy), branch);
      FreeAll(branch, old(bam.busy));
      err := ENOSPC;
    }

    /** Clear a new block of pointers and let it point to the next block. */
    method LinkBlock(parent: nat, off: nat, nr: nat)
      requires Sized(g, m) && parent < g.nblocks && off < g.fan
      modifies this`m
      ensures Sized(g, m) && m.inodes == old(m.inodes)
      ensures forall b :: 0 <= b < g.nblocks && b != parent ==> m.disk[b] == old(m.disk[b])
      ensures PointsOnly(m, parent, off, nr)
    {
      m := m.(disk := m.disk[parent := Zeros(g.fan)]);
      m := Store(m, BlockSlot(parent, off), nr);
      assert forall x :: 0 <= x < g.fan ==> Load(m, BlockSlot(parent, x)) == if x == off then nr else 0;
    }

    /** Distinct numbers of the data zone, none of them in `busy`. */
    ghost predicate Fresh(branch: seq<nat>, busy: set<nat>) {
      && Distinct(branch)
      && forall b :: b in branch ==> b !in busy && g.dataStart <= b < g.nblocks
    }

    lemma NoSpaceMeans(busy: set<nat>, branch: seq<nat>)
      requires forall b: nat :: b < bam.maps * bam.width ==> b in busy || b in branch
      ensures |ClearBelow(busy, bam.maps * bam.width)| <= |branch|
    {
      ElementsSize(branch);
      SubsetSize(ClearBelow(busy, bam.maps * bam.width), Elements(branch));
    }

    /** The roll-back loops of alloc_branch and splice_branch. */
    method FreeAll(branch: seq<nat>, ghost before: set<nat>)
      requires MapFits() && Fresh(branch, before) && bam.busy == before + Elements(branch)
      modifies bam`busy, bam.bits
      ensures MapFits() && bam.busy == before
    {
      var i := 0;
      while i < |branch|
        invariant i <= |branch| && MapFits()
        invariant bam.busy == before + Elements(branch[i..])
      {
        assert branch[i..] == [branch[i]] + branch[i + 1..];
        assert branch[i] in branch;
        DistinctRest(branch, i);
        var was := bam.Free(branch[i]);
        assert was;
        i := i + 1;
      }
    }

    /** splice_branch: if the chain is unchanged and its last pointer still zero,
        store the branch there; otherwise give the branch back. */
    method SpliceBranch(chain: seq<Indirect>, branch: seq<nat>, ghost before: set<nat>) returns (ok: bool)
      requires 1 <= |chain| && forall j :: 0 <= j < |chain| ==> Exists(m, chain[j].p)
      requires MapFits() && 1 <= |branch| && Fresh(branch, before) && bam.busy == before + Elements(branch)
      modifies this`m, bam`busy, bam.bits
      ensures MapFits()
      ensures ok <==> (forall j :: 0 <= j < |chain| - 1 ==> Load(old(m), chain[j].p) == chain[j].key)
                      && Load(old(m), chain[|chain| - 1].p) == 0
      ensures ok ==> m == Store(old(m), chain[|chain| - 1].p, branch[0]) && bam.busy == old(bam.busy)
      ensures !ok ==> m == old(m) && bam.busy == before
    {
      var where := chain[|chain| - 1].p;
      var same := VerifyChain(chain[..|chain| - 1]);
      if !same || Load(m, where) != 0 {
        FreeAll(branch, before);
        return false;
      }
      m := Store(m, where, branch[0]);
      return true;
    }

    /** gas_get_block. Without `create` a lookup; with it, a block is mapped if there
        is room for it and for the blocks of pointers on the way. */
    method GetBlock(ino: nat, block: int, create: bool) returns (err: Errno, mapped: bool, phys: nat, isNew: bool)
      requires Valid() && ino < |m.inodes|
      modifies this`m, this`tree, bam, bam.bits
      ensures Valid() && |m.inodes| == old(|m.inodes|)
      ensures err == EIO <==> block < 0 || g.nblocks <= block
      ensures err == EIO ==> !mapped && m == old(m) && tree == old(tree) && bam.busy == old(bam.busy)
      ensures var c := [ino] + BlockToPath(g, block);
              err != EIO ==> GetBlockResult(old(tree), tree, old(bam.busy), c, create, err, mapped, phys, isNew)
      ensures tree == old(tree) ==> m.inodes == old(m.inodes) && bam.busy == old(bam.busy)
      ensures !create || (mapped && !isNew) ==> m == old(m)
      ensures if isNew then SetOne(old(m), m, old(tree), [ino] + BlockToPath(g, block), old(bam.busy))
              else KeptAll(old(m), m, old(bam.busy))
      ensures DataKept(old(m), m, old(tree))
    {
      var offsets := BlockToPath(g, block);
      var depth := |offsets|;
      if depth == 0 {
        return EIO, false, 0, false;
      }
      ghost var n, c := |m.inodes|, [ino] + offsets;
      BlockPosition(g, n, ino, block);
      var chain, found := GetBranch(ino, depth, offsets);
      assert IsLink(g, n, tree, c, |chain| - 1, chain[|chain| - 1]);
      assert found ==> c[..|chain| + 1] == c;
      if found {
        return OK, true, chain[|chain| - 1].key, false;
      }
      MissingAbove(g, n, tree, c, chain);
      if !create {
        return OK, false, 0, false;
      }
      err, phys := Grow(ino, offsets, chain);
      mapped, isNew := err == OK, err == OK;
      if isNew {
        DataOfSetOne(old(m), m, old(tree), c, old(bam.busy));
      }
    }

    /** In the blocks that were in use, and in the inodes, one pointer on the way to `c`
        has been set that was zero. */
    ghost predicate SetOne(m0: Media, m1: Media, t: Tree, c: Path, busy: set<nat>) {
      |m1.inodes| == |m0.inodes| && |m1.disk| == |m0.disk| && exists k: nat :: SetAt(m0, m1, t, c, busy, k)
    }

    ghost predicate SetAt(m0: Media, m1: Media, t: Tree, c: Path, busy: set<nat>, k: nat) {
      && 2 <= k <= |c| && HasSlot(g, |m0.inodes|, t, c[..k]) && c[..k] !in t
      && Holds(m0, SlotOf(t, c[..k]), 0) && KeptBut(m0, m1, busy, SlotOf(t, c[..k]))
    }

    lemma PointerNotInData(t: Tree, n: nat, p: Path, q: Path)
      requires Injective(t) && HasSlot(g, n, t, p) && q in t && 2 <= |q| && Leaf(q)
      ensures SlotOf(t, p).BlockSlot? ==> SlotOf(t, p).block != t[q]
    {
      if 3 <= |p| {
        assert Parent(p)[1] == p[1] && Parent(p) != q;
        assert !SameBlock(t, q, Parent(p));
      }
    }

    /** The pointer that is set lies in an inode or in a block of pointers. */
    lemma DataOfSetOne(m0: Media, m1: Media, t: Tree, c: Path, busy: set<nat>)
      requires Shaped(g, |m0.inodes|, t) && Sized(g, m0) && Sized(g, m1) && t.Values <= busy && SetOne(m0, m1, t, c, busy)
      ensures DataKept(m0, m1, t)
    {
      var k: nat :| SetAt(m0, m1, t, c, busy, k);
      var s := SlotOf(t, c[..k]);
      forall q | q in t && 2 <= |q| && Leaf(q) && t[q] < |m0.disk| ensures m1.disk[t[q]] == m0.disk[t[q]] {
        PointerNotInData(t, |m0.inodes|, c[..k], q);
        forall i | 0 <= i < g.fan ensures m1.disk[t[q]][i] == m0.disk[t[q]][i] {
          assert Exists(m0, BlockSlot(t[q], i));
          assert Load(m0, BlockSlot(t[q], i)) == Load(m1, BlockSlot(t[q], i));
        }
      }
    }

    /** The part of gas_get_block that allocates and splices. */
    method Grow(ino: nat, offsets: seq<nat>, chain: seq<Indirect>) returns (err: Errno, phys: nat)
      requires var c := [ino] + offsets;
               && Valid() && Position(g, |m.inodes|, c) && Leaf(c) && LogicalBlock(g.fan, c[1..]) < g.nblocks
               && IsChain(g, |m.inodes|, tree, c, chain) && chain[|chain| - 1].key == 0
      modifies this`m, this`tree, bam, bam.bits
      ensures Valid() && |m.inodes| == old(|m.inodes|)
      ensures var c := [ino] + offsets;
              err == OK ==> Extends(old(tree), tree, c) && c in tree && phys == tree[c]
      ensures err == OK || err == ENOSPC
      ensures err == ENOSPC ==> tree == old(tree) && m.inodes == old(m.inodes) && bam.busy == old(bam.busy)
      ensures err == ENOSPC ==> |ClearBelow(old(bam.busy), bam.maps * bam.width)| < Missing(tree, [ino] + offsets)
      ensures if err == OK then SetOne(old(m), m, old(tree), [ino] + offsets, old(bam.busy)) else KeptAll(old(m), m, old(bam.busy))
    {
      ghost var c := [ino] + offsets;
      assert c[1..] == offsets;
      ChainMissing(g, |m.inodes|, tree, c, chain);
      var left := |offsets| - (|chain| - 1);
      ghost var before := bam.busy;
      var branch;
      err, branch := AllocBranch(left, offsets, |chain|);
      Frame(g, old(m), m, tree);
      if err != OK {
        return err, 0;
      }
      ghost var m1 := m;
      Install(chain, branch, c, offsets, before);
      phys := branch[|branch| - 1];
      InstallSets(old(m), m1, m, old(tree), c, chain, branch[0], before);
    }

    lemma InstallSets(m0: Media, m1: Media, m2: Media, t: Tree, c: Path, chain: seq<Indirect>, v: nat, busy: set<nat>)
      requires Rep(g, m0, t) && Sized(g, m1) && KeptAll(m0, m1, busy) && IsChain(g, |m0.inodes|, t, c, chain)
      requires Position(g, |m0.inodes|, c) && chain[|chain| - 1].key == 0 && 1 <= g.dataStart && Exists(m1, chain[|chain| - 1].p)
      requires m2 == Store(m1, chain[|chain| - 1].p, v)
      ensures SetOne(m0, m2, t, c, busy)
    {
      var k := |chain| + 1;
      assert IsLink(g, |m0.inodes|, t, c, |chain| - 1, chain[|chain| - 1]);
      assert Holds(m0, SlotOf(t, c[..k]), Get(t, c[..k]));
      MissingAbove(g, |m0.inodes|, t, c, chain);
      assert SetAt(m0, m2, t, c, busy, k);
    }

    /** Splicing succeeds when no other thread interferes. */
    method Install(chain: seq<Indirect>, branch: seq<nat>, ghost c: Path, ghost offsets: seq<nat>, ghost before: set<nat>)
      requires MapFits() && Rep(g, m, tree) && |sizes| == |m.inodes|
      requires before == reserved + tree.Values && reserved !! tree.Values
      requires Fresh(branch, before) && bam.busy == before + Elements(branch)
      requires Position(g, |m.inodes|, c) && Leaf(c) && LogicalBlock(g.fan, c[1..]) < g.nblocks && offsets == c[1..]
      requires IsChain(g, |m.inodes|, tree, c, chain) && chain[|chain| - 1].key == 0
      requires |branch| == |c| - |chain|
      requires Linked(m, offsets, |chain|, branch)
      modifies this`m, this`tree, bam`busy, bam.bits
      ensures Valid() && |m.inodes| == old(|m.inodes|)
      ensures Extends(old(tree), tree, c) && c in tree && tree[c] == branch[|branch| - 1]
      ensures Exists(old(m), chain[|chain| - 1].p) && m == Store(old(m), chain[|chain| - 1].p, branch[0])
    {
      ChainHolds(c, chain);
      assert Holds(m, chain[|chain| - 1].p, chain[|chain| - 1].key);
      var ok := SpliceBranch(chain, branch, before);
      assert ok;
      tree := BranchSpliced(g, old(m), tree, c, offsets, chain, branch);
    }

    // Truncation

    /** One round of free_branches: the block `nr` at position `q` of the tree `t` as
        it was, with `depth` levels of blocks below it, and everything there. No bit is
        cleared that is clear already. */
    method FreeNode(nr: nat, depth: nat, ghost t: Tree, ghost q: Path)
      requires MapFits() && Sized(g, m) && Shaped(g, |m.inodes|, t)
      requires q in t && nr == t[q] && |q| + depth == 2 + Height(q[1]) && RepBelow(g, m, t, q)
      requires Below(t, q) <= bam.busy
      modifies this`m, bam`busy, bam.bits
      ensures MapFits() && Sized(g, m) && m.inodes == old(m.inodes)
      ensures bam.busy == old(bam.busy) - Below(t, q)
      ensures forall b :: 0 <= b < g.nblocks && b !in Below(t, q) ==> m.disk[b] == old(m.disk[b])
      ensures OnlyPointers(old(m), m, t)
      decreases depth, 1
    {
      if depth == 0 {
        LeafBelow(g, |m.inodes|, t, q);
        var was := bam.Free(nr);
        assert was;
      } else {
        BelowSplits(g, |m.inodes|, t, q);
        FreeBranches(nr, 0, g.fan, depth - 1, t, q);
        InRangeIff(t, q, 0, g.fan, q);
        var was := bam.Free(nr);
        assert was;
      }
    }

    /** free_branches and free_data: the pointers `lo <= i < hi` of block `b`, which
        is at position `q`, and all blocks behind them. */
    method FreeBranches(b: nat, lo: nat, hi: nat, depth: nat, ghost t: Tree, ghost q: Path)
      requires MapFits() && Sized(g, m) && Shaped(g, |m.inodes|, t)
      requires q in t && b == t[q] && |q| + 1 + depth == 2 + Height(q[1]) && RepBelow(g, m, t, q)
      requires lo <= hi <= g.fan && BelowRange(t, q, lo, hi) <= bam.busy
      modifies this`m, bam`busy, bam.bits
      ensures MapFits() && Sized(g, m) && m.inodes == old(m.inodes)
      ensures bam.busy == old(bam.busy) - BelowRange(t, q, lo, hi)
      ensures forall x :: 0 <= x < g.nblocks && x != b && x !in BelowRange(t, q, lo, hi) ==> m.disk[x] == old(m.disk[x])
      ensures forall i :: 0 <= i < g.fan ==> m.disk[b][i] == if lo <= i < hi then 0 else old(m.disk[b][i])
      ensures OnlyPointers(old(m), m, t)
      decreases depth, 2
    {
      ghost var n := |m.inodes|;
      var i := lo;
      while i < hi
        invariant lo <= i <= hi && MapFits() && Sized(g, m) && m.inodes == old(m.inodes)
        invariant bam.busy == old(bam.busy) - BelowRange(t, q, lo, i)
        invariant forall x :: 0 <= x < g.nblocks && x != b && x !in BelowRange(t, q, lo, i) ==> m.disk[x] == old(m.disk[x])
        invariant forall y :: 0 <= y < g.fan ==> m.disk[b][y] == if lo <= y < i then 0 else old(m.disk[b][y])
        invariant OnlyPointers(old(m), m, t)
      {
        var nr := m.disk[b][i];
        ChildSlot(g, n, t, q, i);
        assert Holds(old(m), SlotOf(t, q + [i]), Get(t, q + [i]));
        BelowRangeStep(t, q, lo, i);
        InRangeIff(t, q + [i], lo, i, q);
        ChildInRange(t, q, lo, i, hi);
        if nr != 0 {
          ghost var m1 := m;
          m := Store(m, BlockSlot(b, i), 0);
          StoreInPointers(m1, t, q, i);
          OnlyPointersTwice(old(m), m1, m, t, t);
          ghost var m2 := m;
          RepBelowChild(g, old(m), m, t, q, lo, i);
          FreeNode(nr, depth, t, q + [i]);
          OnlyPointersTwice(old(m), m2, m, t, t);
        } else {
          NothingBelow(t, q + [i]);
        }
        i := i + 1;
      }
    }

    static lemma StoreInPointers(r: Media, t: Tree, q: Path, i: nat)
      requires q in t && 2 <= |q| && !Leaf(q) && Exists(r, BlockSlot(t[q], i))
      ensures OnlyPointers(r, Store(r, BlockSlot(t[q], i), 0), t)
    {
      assert IsPointers(t, t[q]);
    }

    /** all_zeroes: the pointers of block `b` before number `hi`. */
    method AllZeroes(b: nat, hi: nat) returns (zero: bool)
      requires b < |m.disk| && hi <= |m.disk[b]|
      ensures zero <==> forall i :: 0 <= i < hi ==> m.disk[b][i] == 0
    {
      var i := 0;
      while i < hi && m.disk[b][i] == 0
        invariant i <= hi && forall y :: 0 <= y < i ==> m.disk[b][y] == 0
      {
        i := i + 1;
      }
      zero := i == hi;
    }

    /** The climb of find_shared: from level `p` up while nothing lies to the left. */
    method Climb(chain: seq<Indirect>, partial: nat, ghost c: Path) returns (p: nat)
      requires Rep(g, m, tree) && 1 <= g.dataStart
      requires Position(g, |m.inodes|, c) && IsChain(g, |m.inodes|, tree, c, chain)
      requires partial < |chain| && !HoldsLeft(tree, c[..partial + 2], c)
      ensures p <= partial && !HoldsLeft(tree, c[..p + 2], c)
      ensures 1 <= p ==> chain[p].p.BlockSlot? && c[..p + 1] in tree
      ensures 1 <= p ==> KeepsLeft(tree, c, p)
    {
      p := partial;
      while p > 0
        invariant p <= partial && !HoldsLeft(tree, c[..p + 2], c)
      {
        ChainSlots(c, chain);
        assert OnPath(tree, c, p, p, false, chain[p].p);
        LeftPointers(g, m, tree, c, p);
        var zero := AllZeroes(chain[p].p.block, chain[p].p.i);
        if !zero {
          break;
        }
        ClimbStep(tree, c, p);
        p := p - 1;
      }
    }

    /** find_shared: cut the tree where it can be done with one pointer, or find that
        the last block of pointers on the path is to be cut in the middle. Returns
        the chain up to the level of the cut and the block that was cut off. */
    method FindShared(ino: nat, depth: nat, offsets: seq<nat>, ghost c: Path)
      returns (chain: seq<Indirect>, top: nat, ghost k: nat, ghost minus: bool)
      requires Rep(g, m, tree) && 1 <= g.dataStart && c == [ino] + offsets
      requires Position(g, |m.inodes|, c) && Leaf(c) && 1 <= depth == |offsets|
      modifies this`m, this`tree
      ensures Rep(g, m, tree) && |m.inodes| == old(|m.inodes|)
      ensures 1 <= |chain| && SharedAt(old(tree), c, k, |chain| - 1, minus)
      ensures minus ==> top == 0 && m == old(m) && tree == old(tree)
      ensures !minus ==> CutOff(g, old(m), m, old(tree), tree, c[..|chain| + 1], top)
      ensures forall x :: 1 <= x < |chain| ==> OnPath(old(tree), c, x, |chain| - 1, minus, chain[x].p)
    {
      var last, p;
      chain, last, p := LastShared(ino, depth, offsets, c);
      k := last;
      minus := p == last - 1 && p > 0;
      if p == last - 1 && p > 0 {
        top := 0;
        chain := StepLeft(chain, p, tree, c);
      } else {
        top := Detach(chain[p].p, c[..p + 2]);
        chain := UpTo(chain, p, old(tree), c);
      }
    }

    /** Read a pointer and clear it. */
    method Detach(s: Slot, ghost p: Path) returns (top: nat)
      requires Rep(g, m, tree) && HasSlot(g, |m.inodes|, tree, p) && s == SlotOf(tree, p) && Exists(m, s)
      modifies this`m, this`tree
      ensures Rep(g, m, tree) && |m.inodes| == old(|m.inodes|)
      ensures CutOff(g, old(m), m, old(tree), tree, p, top)
    {
      assert Holds(m, s, Get(tree, p));
      top := Load(m, s);
      ClearCuts(g, m, tree, p);
      m := Store(m, s, 0);
      tree := Prune(tree, p);
    }

    /** The chain up to level `p`. */
    static method UpTo(chain: seq<Indirect>, p: nat, ghost t: Tree, ghost c: Path) returns (r: seq<Indirect>)
      requires p < |chain|
      requires forall x :: 1 <= x < |chain| ==> OnPath(t, c, x, x, false, chain[x].p)
      ensures |r| == p + 1 && forall x :: 1 <= x < |r| ==> OnPath(t, c, x, p, false, r[x].p)
    {
      r := chain[..p + 1];
      forall x | 1 <= x < |r| ensures OnPath(t, c, x, p, false, r[x].p) {
        assert OnPath(t, c, x, x, false, chain[x].p);
      }
    }

    /** The chain up to level `p`, there with the pointer before the one on the path. */
    static method StepLeft(chain: seq<Indirect>, p: nat, ghost t: Tree, ghost c: Path) returns (r: seq<Indirect>)
      requires 1 <= p < |chain| && p + 1 < |c| && KeepsLeft(t, c, p)
      requires forall x :: 1 <= x < |chain| ==> OnPath(t, c, x, x, false, chain[x].p)
      ensures |r| == p + 1 && forall x :: 1 <= x < |r| ==> OnPath(t, c, x, p, true, r[x].p)
    {
      assert OnPath(t, c, p, p, false, chain[p].p);
      r := chain[..p] + [chain[p].(p := BlockSlot(chain[p].p.block, chain[p].p.i - 1))];
      forall x | 1 <= x < |r| ensures OnPath(t, c, x, p, true, r[x].p) {
        assert OnPath(t, c, x, x, false, chain[x].p);
      }
    }

    /** The reading part of find_shared: where the path without its trailing zeros
        ends in the tree, and how far up from there nothing is kept. */
    method LastShared(ino: nat, depth: nat, offsets: seq<nat>, ghost c: Path)
      returns (chain: seq<Indirect>, last: nat, p: nat)
      requires Rep(g, m, tree) && 1 <= g.dataStart && c == [ino] + offsets
      requires Position(g, |m.inodes|, c) && Leaf(c) && 1 <= depth == |offsets|
      ensures p < |chain| && SharedAt(tree, c, last, p, p == last - 1 && p > 0)
      ensures HasSlot(g, |m.inodes|, tree, c[..p + 2]) && chain[p].p == SlotOf(tree, c[..p + 2]) && Exists(m, chain[p].p)
      ensures forall x :: 1 <= x < |chain| ==> OnPath(tree, c, x, x, false, chain[x].p)
    {
      last := depth;
      while last > 1 && offsets[last - 1] == 0
        invariant 1 <= last <= depth && forall x :: last < x < |c| ==> c[x] == 0
      {
        last := last - 1;
      }
      var found;
      chain, found := GetBranch(ino, last, offsets);
      NothingKept(c, chain, last);
      ChainSlots(c, chain);
      p := Climb(chain, |chain| - 1, c);
      assert IsLink(g, |m.inodes|, tree, c, p, chain[p]);
      ChainHolds(c, chain);
      assert Holds(m, chain[p].p, chain[p].key);
    }

    lemma ChainSlots(c: Path, chain: seq<Indirect>)
      requires IsChain(g, |m.inodes|, tree, c, chain)
      ensures forall x :: 1 <= x < |chain| ==> OnPath(tree, c, x, x, false, chain[x].p)
    {
      forall x | 1 <= x < |chain| ensures OnPath(tree, c, x, x, false, chain[x].p) {
        ghost var p := c[..x + 2];
        assert IsLink(g, |m.inodes|, tree, c, x, chain[x]);
        assert Parent(p) == c[..x + 1] && Last(p) == c[x + 1];
      }
    }

    /** Where get_branch stops, nothing before the path is left below. */
    lemma NothingKept(c: Path, chain: seq<Indirect>, last: nat)
      requires Rep(g, m, tree) && 1 <= g.dataStart && Position(g, |m.inodes|, c)
      requires IsChain(g, |m.inodes|, tree, c, chain) && |chain| <= last < |c|
      requires forall x :: last < x < |c| ==> c[x] == 0
      requires chain[|chain| - 1].key != 0 ==> |chain| == last
      ensures !HoldsLeft(tree, c[..|chain| + 1], c)
    {
      var p := c[..|chain| + 1];
      assert IsLink(g, |m.inodes|, tree, c, |chain| - 1, chain[|chain| - 1]);
      forall r | r in tree && p <= r ensures !LeftOf(r, c) {
        PrefixIn(tree, p, r);
        ZerosAfter(r, c, last + 1);
      }
    }

    /** The ledger while the blocks below position `p`, already cut off, are not yet free. */
    lemma CutLedger(t: Tree, p: Path)
      requires Injective(t)
      ensures t.Values == Prune(t, p).Values + Below(t, p) && Prune(t, p).Values !! Below(t, p)
    {
      PruneValues(t, p);
    }

    /** Kill the subtree behind pointer `k` of an inode: one round of the last loop of
        gas_truncate_inode, and of free_data on the direct pointers. */
    method KillSlot(ino: nat, k: nat)
      requires Valid() && ino < |m.inodes| && k < SLOTS
      modifies this`m, this`tree, bam`busy, bam.bits
      ensures Valid() && |m.inodes| == old(|m.inodes|)
      ensures tree == Prune(old(tree), [ino, k])
      ensures Shrinks(old(m), old(tree), m, tree)
    {
      ghost var n, t, p: Path := |m.inodes|, tree, [ino, k];
      assert HasSlot(g, n, t, p) && SlotOf(t, p) == InodeSlot(ino, k);
      assert Holds(m, SlotOf(t, p), Get(t, p));
      var nr := m.inodes[ino][k];
      CutLedger(t, p);
      if nr != 0 {
        ClearCuts(g, m, t, p);
        BelowUnchanged(g, m, Store(m, InodeSlot(ino, k), 0), t, p);
        ClearShrinks(g, m, t, p);
        m := Store(m, InodeSlot(ino, k), 0);
        tree := Prune(t, p);
        ghost var cut := m;
        FreeCutOff(nr, Height(k), t, p);
        OnlyPointersTwice(old(m), cut, m, t, t);
      } else {
        NothingBelow(t, p);
        PruneNothing(t, p);
      }
    }

    /** Free a subtree that has been cut off. */
    method FreeCutOff(nr: nat, depth: nat, ghost t: Tree, ghost p: Path)
      requires MapFits() && Shaped(g, |m.inodes|, t) && p in t && nr == t[p] && |p| + depth == 2 + Height(p[1])
      requires RepBelow(g, m, t, p) && Rep(g, m, tree) && tree == Prune(t, p)
      requires |sizes| == |m.inodes| && bam.busy == reserved + t.Values && reserved !! t.Values
      modifies this`m, bam`busy, bam.bits
      ensures Valid() && m.inodes == old(m.inodes) && OnlyPointers(old(m), m, t)
    {
      CutLedger(t, p);
      FreeNode(nr, depth, t, p);
      Frame(g, old(m), m, tree);
    }

    /** Clear the pointers from number `lo` on in block `b` at position `q`. */
    method ClearEnd(b: nat, lo: nat, depth: nat, ghost q: Path)
      requires Valid() && q in tree && b == tree[q] && |q| + 1 + depth == 2 + Height(q[1]) && lo <= g.fan
      modifies this`m, this`tree, bam`busy, bam.bits
      ensures Valid() && |m.inodes| == old(|m.inodes|)
      ensures tree == PruneRange(old(tree), q, lo, g.fan)
      ensures Shrinks(old(m), old(tree), m, tree)
    {
      assert RepBelow(g, m, tree, q);
      FreeBranches(b, lo, g.fan, depth, tree, q);
      ClearRangeCuts(g, old(m), m, tree, q, lo);
      PruneRangeValues(tree, q, lo, g.fan);
      assert BelowRange(tree, q, lo, g.fan) <= tree.Values;
      tree := PruneRange(tree, q, lo, g.fan);
    }

    /** The part of gas_truncate_inode that cuts along the path: the subtree that
        find_shared cuts off, and the ends of the blocks above it. */
    method CutPath(ino: nat, offsets: seq<nat>, ghost c: Path) returns (ghost k: nat, ghost level: nat, ghost minus: bool)
      requires Valid() && c == [ino] + offsets && Position(g, |m.inodes|, c) && Leaf(c) && 1 <= |offsets|
      modifies this`m, this`tree, bam`busy, bam.bits
      ensures Valid() && |m.inodes| == old(|m.inodes|)
      ensures SharedAt(old(tree), c, k, level, minus) && tree == Remaining(old(tree), c, 1, level, minus)
      ensures Shrinks(old(m), old(tree), m, tree)
    {
      ghost var t := tree;
      var chain;
      chain, k, minus := CutShared(ino, offsets, c);
      level := |chain| - 1;
      RemainingFirst(t, c, |chain|, level, minus);
      ghost var m1, u := m, tree;
      CutEnds(chain, |offsets|, t, c, level, minus);
      ShrinksTwice(old(m), t, m1, u, m, tree);
    }

    /** find_shared, and the freeing of what it cuts off. */
    method CutShared(ino: nat, offsets: seq<nat>, ghost c: Path)
      returns (chain: seq<Indirect>, ghost k: nat, ghost minus: bool)
      requires Valid() && c == [ino] + offsets && Position(g, |m.inodes|, c) && Leaf(c) && 1 <= |offsets|
      modifies this`m, this`tree, bam`busy, bam.bits
      ensures Valid() && |m.inodes| == old(|m.inodes|)
      ensures 1 <= |chain| && SharedAt(old(tree), c, k, |chain| - 1, minus)
      ensures tree == if minus then old(tree) else Prune(old(tree), c[..|chain| + 1])
      ensures forall x :: 1 <= x < |chain| ==> OnPath(old(tree), c, x, |chain| - 1, minus, chain[x].p)
      ensures Shrinks(old(m), old(tree), m, tree)
    {
      ghost var t, m0 := tree, m;
      var top;
      chain, top, k, minus := FindShared(ino, |offsets|, offsets, c);
      ghost var q := c[..|chain| + 1];
      CutOffMeans(g, m0, m, t, tree, q, top, minus);
      ghost var m1 := m;
      FreeTop(top, |offsets| - |chain|, t, q);
      if !minus {
        ClearShrinks(g, m0, t, q);
      }
      OnlyPointersTwice(m0, m1, m, t, t);
    }

    /** Free what find_shared cut off, if anything. */
    method FreeTop(top: nat, depth: nat, ghost t: Tree, ghost p: Path)
      requires MapFits() && Shaped(g, |m.inodes|, t) && Rep(g, m, tree) && |sizes| == |m.inodes|
      requires bam.busy == reserved + t.Values && reserved !! t.Values
      requires 2 <= |p| && |p| + depth == 2 + Height(p[1])
      requires top != 0 ==> RepBelow(g, m, t, p) && p in t && top == t[p] && tree == Prune(t, p)
      requires top == 0 ==> tree == t
      modifies this`m, bam`busy, bam.bits
      ensures Valid() && m.inodes == old(m.inodes) && OnlyPointers(old(m), m, t)
    {
      if top != 0 {
        FreeCutOff(top, depth, t, p);
      }
    }

    /** The loop of gas_truncate_inode over the blocks of pointers on the path. */
    method CutEnds(chain: seq<Indirect>, n: nat, ghost t: Tree, ghost c: Path, ghost level: nat, ghost minus: bool)
      requires Valid() && Shaped(g, |m.inodes|, t) && Position(g, |m.inodes|, c) && Leaf(c)
      requires |chain| == level + 1 && |chain| <= n && n + 1 == |c|
      requires forall x :: 1 <= x < |chain| ==> OnPath(t, c, x, level, minus, chain[x].p)
      requires tree == Remaining(t, c, |chain|, level, minus)
      modifies this`m, this`tree, bam`busy, bam.bits
      ensures Valid() && |m.inodes| == old(|m.inodes|)
      ensures tree == Remaining(t, c, 1, level, minus)
      ensures Shrinks(old(m), old(tree), m, tree)
    {
      var p: nat := |chain| - 1;
      ghost var z: nat := |chain|;
      while p > 0
        invariant p <= level && z == p + 1 && Valid() && |m.inodes| == old(|m.inodes|)
        invariant tree == Remaining(t, c, z, level, minus) && Shrinks(old(m), old(tree), m, tree)
      {
        assert OnPath(t, c, p, level, minus, chain[p].p);
        ghost var m1, u := m, tree;
        CutEnd(chain[p].p, n - 1 - p, t, c, z, p, level, minus);
        ShrinksTwice(old(m), old(tree), m1, u, m, tree);
        z := p;
        p := p - 1;
      }
    }

    /** One round of that loop, at level `p`. */
    method CutEnd(s: Slot, depth: nat, ghost t: Tree, ghost c: Path, ghost z: nat, ghost p: nat, ghost level: nat, ghost minus: bool)
      requires Valid() && Shaped(g, |m.inodes|, t) && Position(g, |m.inodes|, c) && Leaf(c)
      requires 1 <= p <= level && z == p + 1 && level + 1 < |c| && depth + p + 2 == |c|
      requires OnPath(t, c, p, level, minus, s) && tree == Remaining(t, c, z, level, minus)
      modifies this`m, this`tree, bam`busy, bam.bits
      ensures Valid() && |m.inodes| == old(|m.inodes|)
      ensures tree == Remaining(t, c, p, level, minus)
      ensures Shrinks(old(m), old(tree), m, tree)
    {
      PathRemains(t, c, z, p, level, minus);
      RemainingNext(g, |m.inodes|, t, c, z, p, level, minus, s.i + 1);
      PathHeight(c, p);
      ClearEnd(s.block, s.i + 1, depth, c[..p + 1]);
    }

    static lemma PathHeight(c: Path, p: nat)
      requires 2 <= |c| && Leaf(c) && 1 <= p < |c| - 1
      ensures |c[..p + 1]| + 1 + (|c| - 2 - p) == 2 + Height(c[..p + 1][1])
    {
    }

    /** gas_truncate_inode. */
    method Truncate(ino: nat)
      requires Valid() && ino < |m.inodes|
      modifies this`m, this`tree, bam`busy, bam.bits
      ensures Valid() && |m.inodes| == old(|m.inodes|)
      ensures tree == Truncated(g, old(tree), ino, BlocksOf(g.fan, sizes[ino]))
      ensures CutBySize(g, |m.inodes|, old(tree), tree, ino, sizes[ino])
      ensures Shrinks(old(m), old(tree), m, tree) && DataKept(old(m), m, tree)
    {
      CutsBySize(g, |m.inodes|, tree, ino, sizes[ino]);
      var offsets := BlockToPath(g, BlocksOf(g.fan, sizes[ino]));
      var n := |offsets|;
      if n == 0 {
        return;
      }
      ghost var t, c := tree, [ino] + offsets;
      BlockPosition(g, |m.inodes|, ino, BlocksOf(g.fan, sizes[ino]));
      var firstWhole;
      if n == 1 {
        KillSlots(ino, offsets[0], DIRECT);
        firstWhole := 0;
        DirectIsCut(g, |m.inodes|, t, c);
      } else {
        firstWhole := offsets[0] + 1 - DIRECT;
        ghost var k, level, minus := CutPath(ino, offsets, c);
        RemainingIsCut(g, |m.inodes|, t, c, k, level, minus);
      }
      ghost var m1, u := m, tree;
      KillSlots(ino, DIRECT + firstWhole, DIRECT + DEPTH - 1);
      ShrinksTwice(old(m), t, m1, u, m, tree);
      DataIsNoPointers(old(m), m, t, tree);
    }

    /** gas_evict_inode: an inode without links loses its blocks and its number. */
    method EvictInode(ino: nat, nlink: nat, iam: AllocMap)
      requires Valid() && ino < |m.inodes|
      requires iam.Valid() && iam != bam && iam.bits != bam.bits && iam.first == 1 && iam.limit == |m.inodes| + 1
      modifies this`m, this`tree, this`sizes, bam`busy, bam.bits, iam`busy, iam.bits
      ensures Valid() && iam.Valid() && |m.inodes| == old(|m.inodes|)
      ensures nlink != 0 ==> tree == old(tree) && sizes == old(sizes) && iam.busy == old(iam.busy)
      ensures nlink == 0 ==> tree == Without(old(tree), ino) && sizes == old(sizes)[ino := 0]
      ensures Shrinks(old(m), old(tree), m, tree) && DataKept(old(m), m, tree)
      ensures nlink == 0 ==> iam.busy == if ino == 0 then old(iam.busy) else old(iam.busy) - {ino}
    {
      if nlink == 0 {
        sizes := sizes[ino := 0];
        TruncateToZero(g, |m.inodes|, tree, ino);
        NoBlocks(g.fan);
        Truncate(ino);
        var _ := iam.Free(ino);
      }
    }

    /** Kill the subtrees behind the pointers `lo <= k < hi` of an inode: free_data on
        the direct pointers, and the last loop of gas_truncate_inode. */
    method KillSlots(ino: nat, lo: nat, hi: nat)
      requires Valid() && ino < |m.inodes| && lo <= hi <= SLOTS
      modifies this`m, this`tree, bam`busy, bam.bits
      ensures Valid() && |m.inodes| == old(|m.inodes|)
      ensures tree == PruneSlots(old(tree), ino, lo, hi)
      ensures Shrinks(old(m), old(tree), m, tree)
    {
      var k := lo;
      while k < hi
        invariant lo <= k <= hi && Valid() && |m.inodes| == old(|m.inodes|)
        invariant tree == PruneSlots(old(tree), ino, lo, k) && Shrinks(old(m), old(tree), m, tree)
      {
        ghost var m1, u := m, tree;
        KillSlot(ino, k);
        ShrinksTwice(old(m), old(tree), m1, u, m, tree);
        PruneSlotsStep(old(tree), ino, lo, k);
        k := k + 1;
      }
    }

    /** What gas_get_block promises about position `c`. */
    ghost predicate GetBlockResult(t: Tree, u: Tree, busy: set<nat>, c: Path, create: bool,
                                   err: Errno, mapped: bool, phys: nat, isNew: bool)
    {
      if c in t then err == OK && mapped && !isNew && phys == t[c] && u == t
      else if !create then err == OK && !mapped && u == t
      else if err == OK then mapped && isNew && Extends(t, u, c) && c in u && phys == u[c]
      else err == ENOSPC && !mapped && u == t && |ClearBelow(busy, bam.maps * bam.width)| < Missing(t, c)
    }

    /** A call of gas_get_block that finds or maps a block is a step of the runs of module
        FileMap; any other leaves the tree alone. */
    lemma GetBlockIsStep(t: Tree, u: Tree, busy: set<nat>, n: nat, ino: nat, block: nat, create: bool,
                         err: Errno, mapped: bool, phys: nat, isNew: bool)
      requires ValidGeometry(g) && Shaped(g, n, t) && Shaped(g, n, u) && ino < n && block < g.nblocks
      requires GetBlockResult(t, u, busy, [ino] + BlockToPath(g, block), create, err, mapped, phys, isNew)
      ensures if mapped then Step(g, n, t, u, Mapped(ino, block)) && phys == Phys(g, u, ino, block) != 0 else u == t
    {
      var c := [ino] + BlockToPath(g, block);
      BlockPosition(g, n, ino, block);
      if c in t {
        forall q | q in Trail(c, 2) ensures q in t {
          PrefixIn(t, q, c);
        }
      }
    }
  }
}
