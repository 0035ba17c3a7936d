/** Runs of the protocol of module Protocol: what any number of threads can and cannot
    do to the blocks of a device, whatever the interleaving. Apart from the invariant,
    everything is said of the stored pointers: Walk follows them. */
module Runs {
  import opened Paths
  import opened Tree
  import opened Cut
  import opened Protocol
  import opened Safety

  /** How a step of `th` changes the tree. */
  ghost predicate Changed(t: Tree, u: Tree, th: Thread) {
    u == t || MappedBy(t, u, th) || exists p :: CutFrom(t, u, p, th)
  }

  /** The invariant holds after every step of every thread. */
  lemma StepKeeps(g: Geometry, reserved: set<nat>, s: System, t: Tree, i: nat, a: Action, r: System) returns (u: Tree)
    requires Inv(g, reserved, s, t) && Step(g, s, i, a, r)
    ensures Inv(g, reserved, r, u) && Changed(t, u, s.threads[i])
    ensures !a.Splice? && !Truncating(s.threads[i]) ==> u == t
    ensures CutSafe(t, s.threads[i]) ==> CutSafe(u, r.threads[i])
  {
    u := t;
    match a
    case StartGet(ino, block, create) => StartsGetKeeps(g, reserved, s, t, i, ino, block, create, r);
    case ReadFirst => ReadsFirstKeeps(g, reserved, s, t, i, r);
    case ReadNext => ReadsNextKeeps(g, reserved, s, t, i, r);
    case ReadDone => ReadsDoneKeeps(g, reserved, s, t, i, r);
    case Take(b) => TakesKeeps(g, reserved, s, t, i, b, r);
    case Link => LinksKeeps(g, reserved, s, t, i, r);
    case NoSpace => FindsNoSpaceKeeps(g, reserved, s, t, i, r);
    case Splice => u := SplicesKeeps(g, reserved, s, t, i, r);
    case Undo => UndoesKeeps(g, reserved, s, t, i, r);
    case Return => EndsKeeps(g, reserved, s, t, i, r);
    case StartCut(ino, block) => StartsCutKeeps(g, reserved, s, t, i, ino, block, r);
    case CutReadFirst => CutReadsFirstKeeps(g, reserved, s, t, i, r);
    case CutReadNext => CutReadsNextKeeps(g, reserved, s, t, i, r);
    case CutShared => var p; u, p := CutsSharedKeeps(g, reserved, s, t, i, r);
    case ClearEnd(x, k) => var p; u, p := ClearsEndKeeps(g, reserved, s, t, i, x, k, r);
    case ClearSlot(k) => var p; u, p := ClearsSlotKeeps(g, reserved, s, t, i, k, r);
    case Scrub(b, row) => ScrubsKeeps(g, reserved, s, t, i, b, row, r);
    case FreeOne(b) => FreesOneKeeps(g, reserved, s, t, i, b, r);
    case FinishCut => EndsKeeps(g, reserved, s, t, i, r);
  }

  lemma EndsKeeps(g: Geometry, reserved: set<nat>, s: System, t: Tree, i: nat, r: System)
    requires Inv(g, reserved, s, t) && i < |s.threads|
    requires Returns(s, i, r) || FinishesCut(g, s, i, r)
    ensures Inv(g, reserved, r, t)
  {
    StillAllowed(s, i, Idle);
    Quiet(g, reserved, s, t, i, Idle);
  }

  // Runs

  datatype Move = Move(thread: nat, action: Action)

  ghost predicate Run(g: Geometry, states: seq<System>, moves: seq<Move>)
    requires ValidGeometry(g)
  {
    && |states| == |moves| + 1
    && forall k {:trigger moves[k]} :: 0 <= k < |moves| ==> Step(g, states[k], moves[k].thread, moves[k].action, states[k + 1])
  }

  /** A device at rest: every set bit is reserved or the bit of a block in use. */
  ghost predicate AtRest(g: Geometry, reserved: set<nat>, s: System, t: Tree) {
    && ValidGeometry(g) && Rep(g, s.media, t)
    && (forall i :: 0 <= i < |s.threads| ==> s.threads[i].Idle?)
    && s.busy == reserved + t.Values && reserved !! t.Values
    && (forall b :: 0 <= b < s.total && !(g.dataStart <= b < g.nblocks) ==> b in reserved)
  }

  lemma RestIsSafe(g: Geometry, reserved: set<nat>, s: System, t: Tree)
    requires AtRest(g, reserved, s, t)
    ensures Inv(g, reserved, s, t)
  {
    assert AllHeld(s.threads) == {};
  }

  ghost predicate AllSafe(g: Geometry, reserved: set<nat>, states: seq<System>, trees: seq<Tree>) {
    |trees| == |states| && forall k :: 0 <= k < |trees| ==> Inv(g, reserved, states[k], trees[k])
  }

  lemma OneMoreSafe(g: Geometry, reserved: set<nat>, states: seq<System>, trees: seq<Tree>, s: System, t: Tree)
    requires AllSafe(g, reserved, states, trees) && Inv(g, reserved, s, t)
    ensures AllSafe(g, reserved, states + [s], trees + [t])
  {
  }

  /** Every state of every run satisfies the invariant, for a tree that changes only as
      the steps of the run do. */
  lemma {:induction false} RunIsSafe(g: Geometry, reserved: set<nat>, states: seq<System>, moves: seq<Move>, t: Tree)
    returns (trees: seq<Tree>)
    requires ValidGeometry(g) && Run(g, states, moves) && Inv(g, reserved, states[0], t)
    ensures AllSafe(g, reserved, states, trees) && trees[0] == t
    decreases |moves|
  {
    if moves == [] {
      trees := [t];
    } else {
      var n := |moves| - 1;
      RunPrefix(g, states, moves, n);
      trees := RunIsSafe(g, reserved, states[..n + 1], moves[..n], t);
      assert states[..n + 1][n] == states[n] && moves[n] in moves;
      var u := StepKeeps(g, reserved, states[n], trees[n], moves[n].thread, moves[n].action, states[n + 1]);
      OneMoreSafe(g, reserved, states[..n + 1], trees, states[n + 1], u);
      assert states[..n + 1] + [states[n + 1]] == states;
      trees := trees + [u];
    }
  }

  lemma RunPrefix(g: Geometry, states: seq<System>, moves: seq<Move>, n: nat)
    requires ValidGeometry(g) && Run(g, states, moves) && n <= |moves|
    ensures Run(g, states[..n + 1], moves[..n])
  {
    forall k | 0 <= k < n
      ensures Step(g, states[..n + 1][k], moves[..n][k].thread, moves[..n][k].action, states[..n + 1][k + 1])
    {
      assert Step(g, states[k], moves[k].thread, moves[k].action, states[k + 1]);
    }
  }

  // What a step can do to a logical block

  /** A step leaves the mapping of a logical block alone, unless it is the splice of a
      call for this very block, which was not mapped, or a step of a truncation that
      reaches it. */
  lemma StepOnBlock(g: Geometry, reserved: set<nat>, s: System, t: Tree, i: nat, a: Action, r: System, c: Path)
    requires Inv(g, reserved, s, t) && Step(g, s, i, a, r)
    requires Position(g, |s.media.inodes|, c) && Leaf(c)
    ensures |r.media.inodes| == |s.media.inodes|
    ensures || Walk(r.media, c) == Walk(s.media, c)
            || (Walk(s.media, c) == 0 && Maps(s.threads[i], c, Walk(r.media, c)))
            || (Walk(r.media, c) == 0 && Reaches(s.threads[i], c))
  {
    var u := StepKeeps(g, reserved, s, t, i, a, r);
    SameSize(g, s, i, a, r);
    WalkIsGet(g, s.media, t, c);
    WalkIsGet(g, r.media, u, c);
    ChangeOnBlock(g, s.media, t, u, s.threads[i], c);
  }

  /** `th` is about to map the block at position `c` to `b`. */
  ghost predicate Maps(th: Thread, c: Path, b: nat) {
    th.Allocating? && PathOf(th) == c && th.branch != [] && b == th.branch[|th.branch| - 1]
  }

  lemma SameSize(g: Geometry, s: System, i: nat, a: Action, r: System)
    requires ValidGeometry(g) && Step(g, s, i, a, r)
    ensures |r.media.inodes| == |s.media.inodes|
  {
  }

  lemma ChangeOnBlock(g: Geometry, m: Media, t: Tree, u: Tree, th: Thread, c: Path)
    requires Changed(t, u, th) && Local(g, m, t, th) && 2 <= |c| && Leaf(c)
    ensures Get(u, c) == Get(t, c) || (Get(t, c) == 0 && Maps(th, c, Get(u, c))) || (Reaches(th, c) && Get(u, c) == 0)
  {
    if MappedBy(t, u, th) {
      assert c in u.Keys <==> c in t.Keys + Trail(PathOf(th), 2);
      if c in u && c !in t {
        assert c in Trail(PathOf(th), 2) && c == PathOf(th)[..|c|];
        assert c[1] == PathOf(th)[1] && Leaf(PathOf(th));
        assert |c| == |PathOf(th)|;
        assert c == PathOf(th);
      } else {
        assert Get(u, c) == Get(t, c);
      }
    } else if u != t {
      var p :| CutFrom(t, u, p, th);
      assert c in t && p <= c ==> !LeftOf(c, PathOf(th));
    }
  }

  // Safety of whole runs

  /** A block once mapped stays where it is, as long as no truncation that reaches it
      takes a step. */
  lemma {:induction false} MappedStays(g: Geometry, reserved: set<nat>, states: seq<System>, moves: seq<Move>, t: Tree, c: Path)
    requires ValidGeometry(g) && Run(g, states, moves) && Inv(g, reserved, states[0], t)
    requires Position(g, |states[0].media.inodes|, c) && Leaf(c) && Walk(states[0].media, c) != 0
    requires forall k {:trigger moves[k]} :: 0 <= k < |moves| ==> !Reaches(states[k].threads[moves[k].thread], c)
    ensures Walk(states[|moves|].media, c) == Walk(states[0].media, c)
    decreases |moves|
  {
    if moves != [] {
      var move := moves[0];
      StepOnBlock(g, reserved, states[0], t, move.thread, move.action, states[1], c);
      var u := StepKeeps(g, reserved, states[0], t, move.thread, move.action, states[1]);
      RunFrom(g, states, moves, 1);
      MappedStays(g, reserved, states[1..], moves[1..], u, c);
      assert states[1..][|moves[1..]|] == states[|moves|];
    }
  }

  lemma RunFrom(g: Geometry, states: seq<System>, moves: seq<Move>, n: nat)
    requires ValidGeometry(g) && Run(g, states, moves) && n <= |moves|
    ensures Run(g, states[n..], moves[n..])
  {
    forall k | 0 <= k < |moves| - n
      ensures Step(g, states[n..][k], moves[n..][k].thread, moves[n..][k].action, states[n..][k + 1])
    {
      assert moves[n..][k] == moves[n + k];
    }
  }

  lemma ChangeOnPointer(t: Tree, u: Tree, th: Thread, p: Path)
    requires Changed(t, u, th) && p in t && 2 <= |p|
    ensures !(Truncating(th) && th.ino == p[0]) ==> Get(u, p) == Get(t, p)
  {
    if MappedBy(t, u, th) {
      assert p in u.Keys;
    } else if u != t {
      var q :| CutFrom(t, u, q, th);
      assert q <= p ==> q[0] == p[0];
    }
  }

  lemma StepOnPointer(g: Geometry, reserved: set<nat>, s: System, t: Tree, i: nat, a: Action, r: System, p: Path) returns (u: Tree)
    requires Inv(g, reserved, s, t) && Step(g, s, i, a, r)
    requires Position(g, |s.media.inodes|, p) && Walk(s.media, p) != 0
    requires !(Truncating(s.threads[i]) && s.threads[i].ino == p[0])
    ensures Inv(g, reserved, r, u) && |r.media.inodes| == |s.media.inodes| && Walk(r.media, p) == Walk(s.media, p)
  {
    u := StepKeeps(g, reserved, s, t, i, a, r);
    SameSize(g, s, i, a, r);
    WalkIsGet(g, s.media, t, p);
    WalkIsGet(g, r.media, u, p);
    ChangeOnPointer(t, u, s.threads[i], p);
  }

  /** While no truncation of an inode takes a step, no pointer of its tree that is set, to
      data or to pointers, ever changes. */
  lemma {:induction false} PointerStays(g: Geometry, reserved: set<nat>, states: seq<System>, moves: seq<Move>, t: Tree, p: Path)
    requires ValidGeometry(g) && Run(g, states, moves) && Inv(g, reserved, states[0], t)
    requires Position(g, |states[0].media.inodes|, p) && Walk(states[0].media, p) != 0
    requires forall k {:trigger moves[k]} :: 0 <= k < |moves| ==>
               var th := states[k].threads[moves[k].thread]; !(Truncating(th) && th.ino == p[0])
    ensures Walk(states[|moves|].media, p) == Walk(states[0].media, p)
    decreases |moves|
  {
    if moves != [] {
      var move := moves[0];
      var u := StepOnPointer(g, reserved, states[0], t, move.thread, move.action, states[1], p);
      RunFrom(g, states, moves, 1);
      PointerStays(g, reserved, states[1..], moves[1..], u, p);
      assert states[1..][|moves[1..]|] == states[|moves|];
    }
  }

  // Racing calls

  /** The call of `th` for the logical block at `c` has come to physical block `v`. */
  ghost predicate Knows(th: Thread, c: Path, v: nat) {
    match th
    case Reading(ino, offsets, _, chain) =>
      [ino] + offsets == c && chain != [] && |chain| == |offsets| && LastOf(chain).key == v && v != 0
    case Found(ino, offsets, phys) => [ino] + offsets == c && phys == v
    case _ => false
  }

  /** Every call for the logical block at `c` that has come to a physical block has come
      to the one that is mapped. */
  ghost predicate RightFor(s: System, c: Path) {
    forall i, v :: 0 <= i < |s.threads| && Knows(s.threads[i], c, v) ==> Walk(s.media, c) == v
  }

  ghost predicate NobodyReaches(s: System, c: Path) {
    forall i :: 0 <= i < |s.threads| ==> !Reaches(s.threads[i], c)
  }

  /** No truncation under way ever reaches the logical block. */
  ghost predicate NeverReached(states: seq<System>, c: Path) {
    forall k :: 0 <= k < |states| ==> NobodyReaches(states[k], c)
  }

  /** What a call reads to the end is what is mapped then. */
  lemma LearnsByReading(g: Geometry, reserved: set<nat>, s: System, t: Tree, i: nat, r: System, c: Path, v: nat)
    requires Inv(g, reserved, s, t) && i < |s.threads| && (ReadsFirst(s, i, r) || ReadsNext(s, i, r)) && NobodyReaches(s, c)
    requires Knows(r.threads[i], c, v)
    ensures Walk(r.media, c) == v
  {
    match s.threads[i]
    case Reading(ino, offsets, create, chain) =>
      WalkIsGet(g, s.media, t, c);
      ReadMeans(g, s.media, t, c, ino, offsets, chain);
  }

  lemma StepLearns(g: Geometry, reserved: set<nat>, s: System, t: Tree, i: nat, a: Action, r: System, c: Path, v: nat)
    requires Inv(g, reserved, s, t) && Step(g, s, i, a, r) && NobodyReaches(s, c)
    requires Knows(r.threads[i], c, v) && !Knows(s.threads[i], c, v)
    ensures Walk(r.media, c) == v
  {
    match a
    case ReadFirst => LearnsByReading(g, reserved, s, t, i, r, c, v);
    case ReadNext => LearnsByReading(g, reserved, s, t, i, r, c, v);
    case Splice => SpliceMaps(g, reserved, s, t, i, r);
    case _ =>
  }

  lemma StaysRight(g: Geometry, reserved: set<nat>, s: System, t: Tree, i: nat, a: Action, r: System, c: Path) returns (u: Tree)
    requires Inv(g, reserved, s, t) && Step(g, s, i, a, r)
    requires NobodyReaches(s, c) && RightFor(s, c) && Position(g, |s.media.inodes|, c) && Leaf(c)
    ensures Inv(g, reserved, r, u) && RightFor(r, c) && |r.media.inodes| == |s.media.inodes|
  {
    u := StepKeeps(g, reserved, s, t, i, a, r);
    StepOnBlock(g, reserved, s, t, i, a, r, c);
    OthersStay(g, s, i, a, r);
    forall j, v | 0 <= j < |r.threads| && Knows(r.threads[j], c, v) ensures Walk(r.media, c) == v {
      if j == i && !Knows(s.threads[i], c, v) {
        StepLearns(g, reserved, s, t, i, a, r, c, v);
      } else {
        assert Local(g, s.media, t, s.threads[j]);
      }
    }
  }

  /** A step changes its own thread only. */
  lemma OthersStay(g: Geometry, s: System, i: nat, a: Action, r: System)
    requires ValidGeometry(g) && Step(g, s, i, a, r)
    ensures |r.threads| == |s.threads| && forall j :: 0 <= j < |s.threads| && j != i ==> r.threads[j] == s.threads[j]
  {
  }

  /** If nothing wrong is known of a logical block to begin with, nothing ever is, as long
      as no truncation under way reaches it. */
  lemma {:induction false} RunStaysRight(g: Geometry, reserved: set<nat>, states: seq<System>, moves: seq<Move>, t: Tree, c: Path)
    returns (u: Tree)
    requires ValidGeometry(g) && Run(g, states, moves) && Inv(g, reserved, states[0], t)
    requires Position(g, |states[0].media.inodes|, c) && Leaf(c) && RightFor(states[0], c)
    requires NeverReached(states, c)
    ensures var s := states[|moves|]; Inv(g, reserved, s, u) && RightFor(s, c) && |s.media.inodes| == |states[0].media.inodes|
    decreases |moves|
  {
    u := t;
    if moves != [] {
      u := StaysRight(g, reserved, states[0], t, moves[0].thread, moves[0].action, states[1], c);
      RunFrom(g, states, moves, 1);
      assert forall k :: 0 <= k < |states[1..]| ==> states[1..][k] == states[k + 1];
      u := RunStaysRight(g, reserved, states[1..], moves[1..], u, c);
      assert states[1..][|moves[1..]|] == states[|moves|];
    }
  }

  /** Racing calls agree: all calls for one logical block, lookups and creations, however
      they overlap and wherever in the run each of them ends, find the same physical
      block, as long as no truncation under way reaches it. */
  lemma Agreement(g: Geometry, reserved: set<nat>, states: seq<System>, moves: seq<Move>, t: Tree, c: Path, k: nat, i: nat, j: nat)
    requires ValidGeometry(g) && Run(g, states, moves) && Inv(g, reserved, states[0], t) && RightFor(states[0], c)
    requires Position(g, |states[0].media.inodes|, c) && Leaf(c) && NeverReached(states, c)
    requires k <= |moves| && i < |states[k].threads| && states[k].threads[i].Found? && PathOf(states[k].threads[i]) == c
    requires j < |states[|moves|].threads| && states[|moves|].threads[j].Found? && PathOf(states[|moves|].threads[j]) == c
    ensures states[|moves|].threads[j].phys == states[k].threads[i].phys == Walk(states[|moves|].media, c)
  {
    RunPrefix(g, states, moves, k);
    var u := RunStaysRight(g, reserved, states[..k + 1], moves[..k], t, c);
    assert states[..k + 1][k] == states[k];
    FoundIsMapped(g, reserved, states[k], u, i);
    RunFrom(g, states, moves, k);
    RunKeepsRight(g, reserved, states[k..], moves[k..], u, c);
    assert states[k..][|moves[k..]|] == states[|moves|];
    assert Knows(states[|moves|].threads[j], c, states[|moves|].threads[j].phys);
  }

  /** From a state in which nothing wrong is known of a mapped block, it stays mapped and
      known rightly. */
  lemma RunKeepsRight(g: Geometry, reserved: set<nat>, states: seq<System>, moves: seq<Move>, t: Tree, c: Path)
    requires ValidGeometry(g) && Run(g, states, moves) && Inv(g, reserved, states[0], t) && RightFor(states[0], c)
    requires Position(g, |states[0].media.inodes|, c) && Leaf(c) && NeverReached(states, c) && Walk(states[0].media, c) != 0
    ensures Walk(states[|moves|].media, c) == Walk(states[0].media, c) && RightFor(states[|moves|], c)
  {
    forall k {:trigger moves[k]} | 0 <= k < |moves| ensures !Reaches(states[k].threads[moves[k].thread], c) {
      assert NobodyReaches(states[k], c);
      assert Step(g, states[k], moves[k].thread, moves[k].action, states[k + 1]);
    }
    MappedStays(g, reserved, states, moves, t, c);
    var u := RunStaysRight(g, reserved, states, moves, t, c);
  }

  /** What a call has found is what is mapped. */
  lemma FoundIsMapped(g: Geometry, reserved: set<nat>, s: System, t: Tree, i: nat)
    requires Inv(g, reserved, s, t) && i < |s.threads| && s.threads[i].Found? && RightFor(s, PathOf(s.threads[i]))
    ensures s.threads[i].phys != 0 && Walk(s.media, PathOf(s.threads[i])) == s.threads[i].phys
  {
    assert Local(g, s.media, t, s.threads[i]);
    assert Knows(s.threads[i], PathOf(s.threads[i]), s.threads[i].phys);
  }

  /** The blocks that are found by following pointers. */
  ghost predicate Reachable(g: Geometry, m: Media, b: nat) {
    exists p :: Position(g, |m.inodes|, p) && Walk(m, p) == b && b != 0
  }

  lemma ReachableIsOwned(g: Geometry, m: Media, t: Tree, b: nat)
    requires Rep(g, m, t) && 1 <= g.dataStart
    ensures Reachable(g, m, b) <==> b in t.Values
  {
    if Reachable(g, m, b) {
      var p :| Position(g, |m.inodes|, p) && Walk(m, p) == b && b != 0;
      WalkIsGet(g, m, t, p);
    }
    if b in t.Values {
      var p :| p in t && t[p] == b;
      assert Position(g, |m.inodes|, p);
      WalkIsGet(g, m, t, p);
    }
  }

  /** When all calls have returned, the set bits are the reserved ones and those of the
      blocks that can be reached: the losers of a race have given everything back, and a
      truncation has freed everything it cut off. */
  lemma NothingLost(g: Geometry, reserved: set<nat>, states: seq<System>, moves: seq<Move>, t: Tree, b: nat)
    requires ValidGeometry(g) && Run(g, states, moves) && AtRest(g, reserved, states[0], t)
    requires forall i :: 0 <= i < |states[|moves|].threads| ==> states[|moves|].threads[i].Idle?
    ensures var s := states[|moves|];
            && (b in s.busy <==> b in reserved || Reachable(g, s.media, b))
            && !(b in reserved && Reachable(g, s.media, b))
  {
    RestIsSafe(g, reserved, states[0], t);
    var trees := RunIsSafe(g, reserved, states, moves, t);
    var s, u := states[|moves|], trees[|moves|];
    assert AllHeld(s.threads) == {};
    ReachableIsOwned(g, s.media, u, b);
  }

  /** A block is freed once, by the only thread that knows of it. */
  lemma FreedByItsHolder(g: Geometry, reserved: set<nat>, s: System, t: Tree, i: nat, a: Action, r: System, b: nat)
    requires Inv(g, reserved, s, t) && Step(g, s, i, a, r) && b in s.busy && b !in r.busy
    ensures b in Held(s.threads[i]) && b !in reserved && !Reachable(g, s.media, b)
    ensures forall j :: 0 <= j < |s.threads| && j != i ==> b !in Held(s.threads[j])
  {
    assert b in Held(s.threads[i]) by {
      if s.threads[i].Undoing? && s.threads[i].branch != [] {
        DistinctTail(s.threads[i].branch);
      }
    }
    PutHeld(s.threads, i, Idle);
    ReachableIsOwned(g, s.media, t, b);
    forall j | 0 <= j < |s.threads| && j != i ensures b !in Held(s.threads[j]) {
      HeldOnce(s.threads, i, j, b);
    }
  }

  lemma SpliceChanges(s: System, i: nat, r: System)
    requires i < |s.threads| && Splices(s, i, r)
    ensures |r.media.inodes| == |s.media.inodes| && s.threads[i].Allocating? && s.threads[i].branch != []
    ensures r.threads[i].Found? ==> r.threads[i].phys == s.threads[i].branch[|s.threads[i].branch| - 1]
    ensures !r.threads[i].Found? ==> r.media == s.media && r.busy == s.busy
  {
  }

  lemma MappedWalks(g: Geometry, m: Media, t: Tree, r: Media, u: Tree, th: Thread)
    requires Rep(g, m, t) && Rep(g, r, u) && 1 <= g.dataStart && |r.inodes| == |m.inodes|
    requires MappedBy(t, u, th) && Local(g, m, t, th)
    ensures Walk(m, PathOf(th)) == 0 && Walk(r, PathOf(th)) == th.branch[|th.branch| - 1]
  {
    WalkIsGet(g, m, t, PathOf(th));
    WalkIsGet(g, r, u, PathOf(th));
  }

  /** A splice that goes through maps the logical block of its call in the tree as it is
      now, even if the pointers of its chain have gone to zero and back since they were
      read; one that does not changes no pointer. */
  lemma SpliceMaps(g: Geometry, reserved: set<nat>, s: System, t: Tree, i: nat, r: System)
    requires Inv(g, reserved, s, t) && i < |s.threads| && Splices(s, i, r)
    ensures r.threads[i].Found? ==>
              var c := PathOf(s.threads[i]);
              Walk(s.media, c) == 0 && Walk(r.media, c) == r.threads[i].phys && Maps(s.threads[i], c, r.threads[i].phys)
    ensures !r.threads[i].Found? ==> r.media == s.media && r.busy == s.busy
  {
    var u := SplicesKeeps(g, reserved, s, t, i, r);
    SpliceChanges(s, i, r);
    if r.threads[i].Found? {
      MappedWalks(g, s.media, t, r.media, u, s.threads[i]);
    }
  }

  /** Thread `i` may be truncating; what it has dealt with stays so in a step in which no
      block that it reaches is mapped. */
  lemma CutSafeStep(g: Geometry, reserved: set<nat>, s: System, t: Tree, j: nat, a: Action, r: System, i: nat) returns (u: Tree)
    requires Inv(g, reserved, s, t) && Step(g, s, j, a, r) && i < |s.threads| && CutSafe(t, s.threads[i])
    requires !MapsReached(s, j, a, i)
    ensures Inv(g, reserved, r, u) && i < |r.threads| && CutSafe(u, r.threads[i])
  {
    u := StepKeeps(g, reserved, s, t, j, a, r);
    OthersStay(g, s, j, a, r);
    if j != i && Truncating(s.threads[i]) {
      if MappedBy(t, u, s.threads[j]) && a.Splice? {
        CutSafeStays(g, s.media, t, u, s.threads[j], s.threads[i]);
      }
    }
  }

  /** Thread `j` is to splice in a block that the truncation of thread `i` reaches. */
  ghost predicate MapsReached(s: System, j: nat, a: Action, i: nat)
    requires i < |s.threads| && j < |s.threads|
  {
    a.Splice? && s.threads[j].Allocating? && Reaches(s.threads[i], PathOf(s.threads[j]))
  }

  ghost predicate NoneMapsReached(states: seq<System>, moves: seq<Move>, i: nat) {
    forall k {:trigger moves[k]} :: 0 <= k < |moves| < |states| ==>
      moves[k].thread < |states[k].threads| && i < |states[k].threads| ==> !MapsReached(states[k], moves[k].thread, moves[k].action, i)
  }

  lemma {:induction false} RunIsCutSafe(g: Geometry, reserved: set<nat>, states: seq<System>, moves: seq<Move>, t: Tree, i: nat)
    returns (u: Tree)
    requires ValidGeometry(g) && Run(g, states, moves) && Inv(g, reserved, states[0], t)
    requires i < |states[0].threads| && CutSafe(t, states[0].threads[i]) && NoneMapsReached(states, moves, i)
    ensures var s := states[|moves|]; Inv(g, reserved, s, u) && i < |s.threads| && CutSafe(u, s.threads[i])
    decreases |moves|
  {
    u := t;
    if moves != [] {
      u := CutSafeStep(g, reserved, states[0], t, moves[0].thread, moves[0].action, states[1], i);
      RunFrom(g, states, moves, 1);
      u := RunIsCutSafe(g, reserved, states[1..], moves[1..], u, i);
      assert states[1..][|moves[1..]|] == states[|moves|];
    }
  }

  /** A truncation goes on until its loops have been through all their pointers. */
  lemma TruncationGoesOn(g: Geometry, s: System, i: nat, a: Action, r: System)
    requires ValidGeometry(g) && Step(g, s, i, a, r) && Truncating(s.threads[i])
    ensures i < |r.threads|
    ensures if Truncating(r.threads[i]) then PathOf(r.threads[i]) == PathOf(s.threads[i])
            else r.threads[i].Idle? && FinishesCut(g, s, i, r)
  {
  }

  /** When gas_truncate_inode returns, no block from the cut on is mapped, unless a call
      has mapped one since the truncation began. */
  lemma CutIsDone(g: Geometry, reserved: set<nat>, states: seq<System>, moves: seq<Move>, t: Tree, i: nat, a: Action, r: System, c: Path)
    requires ValidGeometry(g) && Run(g, states, moves) && Inv(g, reserved, states[0], t)
    requires i < |states[0].threads| && !Truncating(states[0].threads[i]) && NoneMapsReached(states, moves, i)
    requires i < |states[|moves|].threads| && Truncating(states[|moves|].threads[i])
    requires Step(g, states[|moves|], i, a, r) && i < |r.threads| && !Truncating(r.threads[i])
    requires Position(g, |states[|moves|].media.inodes|, c) && Leaf(c) && Reaches(states[|moves|].threads[i], c)
    ensures Walk(r.media, c) == 0
  {
    var s := states[|moves|];
    TruncationGoesOn(g, s, i, a, r);
    var u := RunIsCutSafe(g, reserved, states, moves, t, i);
    WalkIsGet(g, s.media, u, c);
    if c in u {
      ClearedMeansCut(g, s.media, u, s.threads[i], c);
    }
  }

  /** Otherwise one can be mapped: a block that is spliced in after the loops have passed
      its place stays when the truncation returns. */
  lemma LateBlockStays(g: Geometry, reserved: set<nat>, s: System, t: Tree, j: nat, r: System, i: nat)
    requires Inv(g, reserved, s, t) && j < |s.threads| && i < |s.threads| && i != j
    requires Splices(s, j, r) && r.threads[j].Found? && MapsReached(s, j, Splice, i)
    requires s.threads[i].Clearing? && s.threads[i].limbo == {} && AllPassed(g, s.threads[i])
    ensures FinishesCut(g, r, i, Put(r, i, Idle))
    ensures Walk(Put(r, i, Idle).media, PathOf(s.threads[j])) != 0
  {
    var u := SplicesKeeps(g, reserved, s, t, j, r);
    SpliceMaps(g, reserved, s, t, j, r);
    SpliceChanges(s, j, r);
    assert Local(g, r.media, u, r.threads[j]);
  }

  /** No truncation ever has to read its chain again. */
  lemma CutNeverRereads(g: Geometry, reserved: set<nat>, states: seq<System>, moves: seq<Move>, t: Tree, i: nat)
    requires ValidGeometry(g) && Run(g, states, moves) && Inv(g, reserved, states[0], t)
    requires i < |states[|moves|].threads| && states[|moves|].threads[i].Cutting?
    ensures var chain := states[|moves|].threads[i].chain;
            chain != [] && LastOf(chain).key != 0 ==> Current(states[|moves|].media, chain)
  {
    var trees := RunIsSafe(g, reserved, states, moves, t);
    CutChainIsCurrent(g, reserved, states[|moves|], trees[|moves|], i);
  }
}
