/** What the operations on the block-mapping tree mean for files: a finite map from
    logical to physical blocks for every inode, and what whole runs keep. */
module FileMap {
  import opened Paths
  import opened Tree
  import opened Cut

  /** The physical block of a logical block; zero when there is none. */
  function Phys(g: Geometry, t: Tree, ino: nat, block: nat): nat
    requires 1 <= g.fan
  {
    Get(t, [ino] + BlockToPath(g, block))
  }

  /** Truncation to `cut` blocks, as gas_truncate_inode leaves the tree. */
  ghost function Truncated(g: Geometry, t: Tree, ino: nat, cut: nat): Tree
    requires 1 <= g.fan
  {
    var offsets := BlockToPath(g, cut);
    if offsets == [] then t else CutAt(t, [ino] + offsets)
  }

  // One operation

  /** Truncation keeps every block of every file but those of this file from `cut`
      on, and no others. */
  lemma TruncateMap(g: Geometry, n: nat, t: Tree, ino: nat, cut: nat, other: nat, block: nat)
    requires ValidGeometry(g) && Shaped(g, n, t) && ino < n && other < n && block < g.nblocks
    ensures Phys(g, Truncated(g, t, ino, cut), other, block)
            == if other == ino && cut <= block then 0 else Phys(g, t, other, block)
  {
    if cut < g.nblocks {
      BlockPosition(g, n, ino, cut);
      BlockPosition(g, n, other, block);
      CutAtBlock(g, n, t, [ino] + BlockToPath(g, cut), [other] + BlockToPath(g, block));
    }
  }

  /** The blocks that truncation gives back are those whose position is gone, as many
      as those. */
  lemma TruncateFrees(g: Geometry, n: nat, t: Tree, ino: nat, cut: nat)
    requires ValidGeometry(g) && Shaped(g, n, t)
    ensures var u := Truncated(g, t, ino, cut);
            && u.Values <= t.Values
            && |t.Values - u.Values| == |t.Keys| - |u.Keys|
            && forall q :: q in t ==> (t[q] in t.Values - u.Values <==> q !in u)
  {
    var offsets := BlockToPath(g, cut);
    if offsets != [] {
      CutShaped(g, n, t, [ino] + offsets);
    }
    PartFrees(t, Truncated(g, t, ino, cut));
  }

  lemma PartFrees(t: Tree, u: Tree)
    requires Injective(t) && Injective(u) && u.Keys <= t.Keys && forall p :: p in u ==> u[p] == t[p]
    ensures u.Values <= t.Values
    ensures |t.Values - u.Values| == |t.Keys| - |u.Keys|
    ensures forall q :: q in t ==> (t[q] in t.Values - u.Values <==> q !in u)
  {
    forall q | q in t ensures t[q] in u.Values <==> q in u {
      InverseImage(t, u, q);
    }
    forall v | v in u.Values ensures v in t.Values {
      var q :| q in u && u[q] == v;
      assert t[q] == v;
    }
    ValuesSize(t);
    ValuesSize(u);
    assert t.Values == u.Values + (t.Values - u.Values);
  }

  /** A tree holds as many blocks as positions. */
  lemma {:induction false} ValuesSize(t: Tree)
    requires Injective(t)
    ensures |t.Values| == |t.Keys|
    decreases |t.Keys|
  {
    if t.Keys != {} {
      var p :| p in t;
      var u := t - {p};
      forall x, y | SameBlock(u, x, y) ensures x == y {
        assert SameBlock(t, x, y);
      }
      assert u.Keys == t.Keys - {p};
      ValuesSize(u);
      InverseImage(t, u, p);
      forall v | v in t.Values ensures v in u.Values + {t[p]} {
        var q :| q in t && t[q] == v;
        assert q != p ==> q in u && u[q] == v;
      }
      assert t.Values == u.Values + {t[p]};
    } else {
      assert t.Values == {};
    }
  }

  /** Mapping a block changes the map at that block only, although new blocks of
      pointers are cleared and filled on the way; it takes one block for every
      position that was missing. */
  lemma ExtendMap(g: Geometry, n: nat, t: Tree, u: Tree, ino: nat, block: nat, other: nat, b: nat)
    requires ValidGeometry(g) && Shaped(g, n, t) && Shaped(g, n, u)
    requires ino < n && other < n && block < g.nblocks && b < g.nblocks
    requires Extends(t, u, [ino] + BlockToPath(g, block))
    ensures other == ino && b == block ==> Phys(g, u, other, b) != 0
    ensures other != ino || b != block || Phys(g, t, ino, block) != 0 ==> Phys(g, u, other, b) == Phys(g, t, other, b)
    ensures |u.Values| == |t.Values| + Missing(t, [ino] + BlockToPath(g, block))
  {
    BlockPosition(g, n, ino, block);
    BlockPosition(g, n, other, b);
    var c, d := [ino] + BlockToPath(g, block), [other] + BlockToPath(g, b);
    GraftGetTrail(c, d);
    assert d in Trail(c, 2) ==> d == c by {
      if d in Trail(c, 2) {
        assert d[1] == c[1];
      }
    }
    ValuesSize(t);
    ValuesSize(u);
    assert u.Keys == t.Keys + (Trail(c, 2) - t.Keys);
    if d == c {
      assert c[1..] == BlockToPath(g, block) && d[1..] == BlockToPath(g, b);
      assert c == c[..|c|] && c in Trail(c, 2);
    }
  }

  lemma GraftGetTrail(c: Path, q: Path)
    requires 2 <= |c|
    ensures q in Trail(c, 2) <==> 2 <= |q| && q <= c
  {
    if 2 <= |q| && q <= c {
      assert q == c[..|q|];
    }
  }

  /** A block that is mapped leaves no empty block of pointers on the way. */
  lemma ExtendTight(t: Tree, u: Tree, c: Path)
    requires Tight(t) && Extends(t, u, c) && 2 <= |c| && Leaf(c)
    ensures Tight(u)
  {
    forall p | p in u && 2 <= |p| && !Leaf(p) ensures HasChild(u, p) {
      GraftGetTrail(c, p);
      if p in t {
        var i :| p + [i] in t;
        assert p + [i] in u;
      } else {
        assert p[1] == c[1];
        assert |p| < |c|;
        GraftGetTrail(c, p + [c[|p|]]);
        assert p + [c[|p|]] <= c;
      }
    }
  }

  // Whole runs

  /** What a call leaves the tree as: gas_get_block that maps a block (or finds it),
      and truncation, which eviction also performs. */
  datatype Event = Mapped(ino: nat, block: nat) | Cut(ino: nat, cut: nat)

  ghost predicate Step(g: Geometry, n: nat, t: Tree, u: Tree, e: Event)
    requires ValidGeometry(g)
  {
    match e
    case Mapped(ino, block) =>
      ino < n && block < g.nblocks && Shaped(g, n, u) && Extends(t, u, [ino] + BlockToPath(g, block))
    case Cut(ino, cut) =>
      ino < n && u == Truncated(g, t, ino, cut)
  }

  ghost predicate Run(g: Geometry, n: nat, trees: seq<Tree>, events: seq<Event>)
    requires ValidGeometry(g)
  {
    && |trees| == |events| + 1
    && Shaped(g, n, trees[0])
    && forall i :: 0 <= i < |events| ==> Step(g, n, trees[i], trees[i + 1], events[i])
  }

  lemma StepKeeps(g: Geometry, n: nat, t: Tree, u: Tree, e: Event)
    requires ValidGeometry(g) && Shaped(g, n, t) && Step(g, n, t, u, e)
    ensures Shaped(g, n, u)
    ensures Tight(t) ==> Tight(u)
  {
    match e
    case Mapped(ino, block) =>
      BlockPosition(g, n, ino, block);
      if Tight(t) {
        ExtendTight(t, u, [ino] + BlockToPath(g, block));
      }
    case Cut(ino, cut) =>
      if BlockToPath(g, cut) != [] {
        CutShaped(g, n, t, [ino] + BlockToPath(g, cut));
        if Tight(t) {
          CutTight(g, n, t, [ino] + BlockToPath(g, cut));
        }
      }
  }

  /** No run of these operations that starts with a tight tree ever leaves a block of
      pointers without a pointer in it. */
  lemma {:induction false} RunKeeps(g: Geometry, n: nat, trees: seq<Tree>, events: seq<Event>)
    requires ValidGeometry(g) && Run(g, n, trees, events) && Tight(trees[0])
    ensures forall i :: 0 <= i < |trees| ==> Shaped(g, n, trees[i]) && Tight(trees[i])
    decreases |events|
  {
    if events != [] {
      var k := |events| - 1;
      RunPrefix(g, n, trees, events);
      RunKeeps(g, n, trees[..k + 1], events[..k]);
      assert trees[..k + 1][k] == trees[k];
      StepKeeps(g, n, trees[k], trees[k + 1], events[k]);
      forall i | 0 <= i < |trees| ensures Shaped(g, n, trees[i]) && Tight(trees[i]) {
        assert i <= k ==> trees[..k + 1][i] == trees[i];
      }
    }
  }

  lemma RunPrefix(g: Geometry, n: nat, trees: seq<Tree>, events: seq<Event>)
    requires ValidGeometry(g) && Run(g, n, trees, events) && events != []
    ensures Run(g, n, trees[..|events|], events[..|events| - 1])
  {
    var k := |events| - 1;
    forall i | 0 <= i < k
      ensures Step(g, n, trees[..k + 1][i], trees[..k + 1][i + 1], events[..k][i])
    {
      assert Step(g, n, trees[i], trees[i + 1], events[i]);
    }
  }

  /** The tree without the blocks of one inode. */
  function Without(t: Tree, ino: nat): Tree {
    map q | q in t && !(1 <= |q| && q[0] == ino) :: t[q]
  }

  lemma TruncateToZero(g: Geometry, n: nat, t: Tree, ino: nat)
    requires ValidGeometry(g) && Shaped(g, n, t)
    ensures Truncated(g, t, ino, 0) == Without(t, ino)
  {
    var c := [ino] + BlockToPath(g, 0);
    assert c == [ino, 0];
    forall q | q in t && q[0] == ino ensures !HoldsLeft(t, q, c) {
      forall r | r in t && q <= r ensures !LeftOf(r, c) {
        ZerosAfter(r, c, 1);
        assert c[..1] <= r;
      }
    }
  }

  lemma {:induction false} GrowthIsOwn(g: Geometry, n: nat, trees: seq<Tree>, events: seq<Event>, ino: nat)
    requires ValidGeometry(g) && Run(g, n, trees, events)
    requires forall i :: 0 <= i < |events| ==> events[i].Mapped? && events[i].ino == ino
    ensures Without(trees[|events|], ino) == Without(trees[0], ino)
    decreases |events|
  {
    if events != [] {
      var k := |events| - 1;
      RunPrefix(g, n, trees, events);
      GrowthIsOwn(g, n, trees[..k + 1], events[..k], ino);
      var c := [ino] + BlockToPath(g, events[k].block);
      assert Step(g, n, trees[k], trees[k + 1], events[k]);
      forall q ensures q in Without(trees[k + 1], ino) <==> q in Without(trees[k], ino) {
        BlockPosition(g, n, ino, events[k].block);
        GraftGetTrail(c, q);
      }
    }
  }

  /** Growing an empty file in any order and cutting it to nothing gives every block
      back: the allocation map, which is the reserved numbers and the owned blocks,
      is the same bit for bit. */
  lemma GrowAndTruncate(g: Geometry, n: nat, trees: seq<Tree>, events: seq<Event>, ino: nat)
    requires ValidGeometry(g) && Run(g, n, trees, events)
    requires forall i :: 0 <= i < |events| ==> events[i].Mapped? && events[i].ino == ino
    requires Without(trees[0], ino) == trees[0]
    ensures Truncated(g, trees[|events|], ino, 0) == trees[0]
  {
    GrowthIsOwn(g, n, trees, events, ino);
    LastShaped(g, n, trees, events);
    TruncateToZero(g, n, trees[|events|], ino);
  }

  lemma {:induction false} LastShaped(g: Geometry, n: nat, trees: seq<Tree>, events: seq<Event>)
    requires ValidGeometry(g) && Run(g, n, trees, events)
    ensures Shaped(g, n, trees[|events|])
    decreases |events|
  {
    if events != [] {
      var k := |events| - 1;
      RunPrefix(g, n, trees, events);
      LastShaped(g, n, trees[..k + 1], events[..k]);
      assert Step(g, n, trees[k], trees[k + 1], events[k]);
      StepKeeps(g, n, trees[k], trees[k + 1], events[k]);
    }
  }
}
