/** What the protocol of module Protocol keeps, in every run and under every
    interleaving. */
module Safety {
  import opened Paths
  import opened Tree
  import opened Cut
  import opened Chains
  import opened Protocol

  // The invariant

  ghost predicate GoodPath(g: Geometry, n: nat, c: Path) {
    Position(g, n, c) && Leaf(c) && LogicalBlock(g.fan, c[1..]) < g.nblocks
  }

  /** Every pointer of the chain was found through the one before it. */
  ghost predicate ChainShape(c: Path, chain: seq<Indirect>) {
    |chain| < |c| && forall j {:trigger ShapeAt(c, chain, j)} :: 0 <= j < |chain| ==> ShapeAt(c, chain, j)
  }

  ghost predicate ShapeAt(c: Path, chain: seq<Indirect>, j: nat) {
    && j < |chain| < |c|
    && chain[j].p == (if j == 0 then InodeSlot(c[0], c[1]) else BlockSlot(chain[j - 1].key, c[j + 1]))
    && (j + 1 < |chain| ==> chain[j].key != 0)
  }

  /** The chain of a truncation lies on the tree. A pointer that was zero may have been
      filled since. */
  ghost predicate OnTree(g: Geometry, n: nat, t: Tree, c: Path, chain: seq<Indirect>) {
    |chain| < |c| && forall j {:trigger OnTreeAt(g, n, t, c, j, chain[j])} :: 0 <= j < |chain| ==> OnTreeAt(g, n, t, c, j, chain[j])
  }

  ghost predicate OnTreeAt(g: Geometry, n: nat, t: Tree, c: Path, j: nat, x: Indirect) {
    && j + 2 <= |c| && HasSlot(g, n, t, c[..j + 2]) && x.p == SlotOf(t, c[..j + 2])
    && (x.key != 0 ==> x.key == Get(t, c[..j + 2]))
  }

  predicate OnlyLastZero(chain: seq<Indirect>) {
    forall j :: 0 <= j < |chain| - 1 ==> chain[j].key != 0
  }

  /** Below position `p` there are data blocks from before `c` only. */
  ghost predicate LeavesLeft(t: Tree, p: Path, c: Path) {
    forall r :: r in t && p <= r && 2 <= |r| && Leaf(r) ==> LeftOf(r, c)
  }

  ghost predicate Local(g: Geometry, m: Media, t: Tree, th: Thread) {
    var n := |m.inodes|;
    match th
    case Idle => true
    case Reading(ino, offsets, create, chain) =>
      var c := [ino] + offsets;
      GoodPath(g, n, c) && ChainShape(c, chain) && (create ==> InRange(g, chain))
    case Allocating(ino, offsets, chain, branch) =>
      var c := [ino] + offsets;
      && GoodPath(g, n, c) && ChainShape(c, chain) && InRange(g, chain) && chain != [] && LastOf(chain).key == 0
      && Distinct(branch) && |chain| + |branch| <= |offsets| + 1 && Linked(m, offsets, |chain|, branch)
    case Joining(ino, offsets, chain, branch, b) =>
      var c := [ino] + offsets;
      && GoodPath(g, n, c) && ChainShape(c, chain) && InRange(g, chain) && chain != [] && LastOf(chain).key == 0
      && branch != [] && Distinct(branch) && b !in branch && |chain| + |branch| <= |offsets| && Linked(m, offsets, |chain|, branch)
    case Undoing(ino, offsets, branch, _) =>
      GoodPath(g, n, [ino] + offsets) && Distinct(branch) && |branch| <= |offsets|
    case Found(ino, offsets, phys) =>
      GoodPath(g, n, [ino] + offsets) && phys != 0
    case Cutting(ino, offsets, depth, chain) =>
      var c := [ino] + offsets;
      && GoodPath(g, n, c) && 2 <= |offsets| && 1 <= depth <= |offsets| && |chain| <= depth
      && ZerosFrom(c, depth + 1) && (1 < depth ==> offsets[depth - 1] != 0)
      && OnTree(g, n, t, c, chain) && OnlyLastZero(chain)
    case Clearing(ino, offsets, chain, minus, _, _) =>
      var c := [ino] + offsets;
      && GoodPath(g, n, c) && |chain| <= |offsets| && (|offsets| == 1 <==> chain == [])
      && (forall x :: 1 <= x < |chain| ==> OnPath(t, c, x, |chain| - 1, minus, chain[x].p))
      && (minus ==> 2 <= |chain| && ZerosFrom(c, |chain| + 1))
  }

  /** A call that may create has read numbers of blocks only; a lookup that has been
      overtaken may have read anything. */
  ghost predicate InRange(g: Geometry, chain: seq<Indirect>) {
    forall j :: 0 <= j < |chain| ==> chain[j].key < g.nblocks
  }

  /** What a truncation has dealt with holds data from before the cut only. The invariant
      does without this: it is lost when a call maps a block that the truncation reaches. */
  ghost predicate CutSafe(t: Tree, th: Thread) {
    match th
    case Cutting(ino, offsets, _, chain) =>
      chain != [] && |chain| <= |offsets| && LastOf(chain).key == 0 ==> DealtWith(t, ino, offsets, |chain|)
    case Clearing(ino, offsets, chain, minus, _, passed) =>
      && (!minus && chain != [] && |chain| <= |offsets| ==> DealtWith(t, ino, offsets, |chain|))
      && forall p :: p in passed ==> StartsWith(p, ino) && LeavesLeft(t, p, [ino] + offsets)
    case _ => true
  }

  ghost predicate DealtWith(t: Tree, ino: nat, offsets: seq<nat>, k: nat)
    requires k <= |offsets|
  {
    LeavesLeft(t, ([ino] + offsets)[..k + 1], [ino] + offsets)
  }

  ghost predicate StartsWith(p: Path, ino: nat) {
    1 <= |p| && p[0] == ino
  }

  ghost predicate ZerosFrom(c: Path, k: nat) {
    forall x :: k <= x < |c| ==> c[x] == 0
  }

  ghost predicate HeldApart(threads: seq<Thread>) {
    forall t, u :: 0 <= t < |threads| && 0 <= u < |threads| && t != u ==> Held(threads[t]) !! Held(threads[u])
  }

  /** Every set bit is reserved, or owned by a tree, or known to one thread only. */
  ghost predicate Ledger(g: Geometry, reserved: set<nat>, s: System, t: Tree) {
    var held := AllHeld(s.threads);
    && s.busy == reserved + t.Values + held
    && reserved !! t.Values && reserved !! held && t.Values !! held
    && HeldApart(s.threads)
    && (forall b :: b in held ==> g.dataStart <= b < g.nblocks)
    && (forall b :: 0 <= b < s.total && !(g.dataStart <= b < g.nblocks) ==> b in reserved)
  }

  ghost predicate AllCompatible(threads: seq<Thread>) {
    forall t, u :: 0 <= t < |threads| && 0 <= u < |threads| && t != u ==> Compatible(threads[t], threads[u])
  }

  ghost predicate Inv(g: Geometry, reserved: set<nat>, s: System, t: Tree) {
    match s
    case System(media, _, _, threads) =>
      && ValidGeometry(g) && Rep(g, media, t) && Ledger(g, reserved, s, t)
      && (forall i :: 0 <= i < |threads| ==> Local(g, media, t, threads[i]))
      && AllCompatible(threads)
  }

  // A change that the other threads do not notice

  ghost predicate Benign(m: Media, t: Tree, r: Media, u: Tree, th: Thread) {
    && |r.inodes| == |m.inodes| && |r.disk| == |m.disk|
    && (Truncating(th) ==> PathKept(t, u, PathOf(th)))
    && (th.Allocating? || th.Joining? ==> forall b :: b in Held(th) && b < |m.disk| ==> r.disk[b] == m.disk[b])
  }

  ghost predicate Keeps(t: Tree, u: Tree, q: Path) {
    q in t ==> q in u && u[q] == t[q]
  }

  ghost predicate PathKept(t: Tree, u: Tree, c: Path) {
    forall j :: 2 <= j <= |c| ==> Keeps(t, u, c[..j])
  }

  lemma OnTreeKept(g: Geometry, n: nat, t: Tree, u: Tree, c: Path, chain: seq<Indirect>)
    requires OnTree(g, n, t, c, chain) && PathKept(t, u, c)
    ensures OnTree(g, n, u, c, chain)
  {
    forall j | 0 <= j < |chain| ensures OnTreeAt(g, n, u, c, j, chain[j]) {
      assert OnTreeAt(g, n, t, c, j, chain[j]);
      assert Parent(c[..j + 2]) == c[..j + 1];
      assert Keeps(t, u, c[..j + 2]);
      assert 1 <= j ==> Keeps(t, u, c[..j + 1]);
    }
  }

  lemma LinkedKept(m: Media, r: Media, offsets: seq<nat>, start: nat, branch: seq<nat>)
    requires Linked(m, offsets, start, branch) && |r.disk| == |m.disk|
    requires forall b :: b in Elements(branch) && b < |m.disk| ==> r.disk[b] == m.disk[b]
    ensures Linked(r, offsets, start, branch)
  {
    forall j | 0 <= j < |branch| - 1 ensures LinksTo(r, offsets, start, branch, j) {
      assert LinksTo(m, offsets, start, branch, j);
      assert branch[j] in Elements(branch);
    }
  }

  lemma LocalKept(g: Geometry, m: Media, t: Tree, r: Media, u: Tree, th: Thread)
    requires Local(g, m, t, th) && Benign(m, t, r, u, th)
    ensures Local(g, r, u, th)
  {
    match th
    case Idle =>
    case Reading(ino, offsets, _, chain) =>
    case Allocating(ino, offsets, chain, branch) =>
      LinkedKept(m, r, offsets, |chain|, branch);
    case Joining(ino, offsets, chain, branch, _) =>
      LinkedKept(m, r, offsets, |chain|, branch);
    case Undoing(ino, offsets, branch, _) =>
    case Found(ino, offsets, phys) =>
    case Cutting(ino, offsets, depth, chain) =>
      var c := [ino] + offsets;
      OnTreeKept(g, |m.inodes|, t, u, c, chain);
    case Clearing(ino, offsets, chain, minus, _, _) =>
      var c := [ino] + offsets;
      forall x | 1 <= x < |chain| ensures OnPath(u, c, x, |chain| - 1, minus, chain[x].p) {
        assert OnPath(t, c, x, |chain| - 1, minus, chain[x].p);
        assert Keeps(t, u, c[..x + 1]);
      }
  }

  lemma PutHeld(threads: seq<Thread>, t: nat, th: Thread)
    requires t < |threads| && HeldApart(threads)
    ensures AllHeld(threads[t := th]) == (AllHeld(threads) - Held(threads[t])) + Held(th)
    ensures Held(threads[t]) <= AllHeld(threads)
  {
    var after := threads[t := th];
    forall b | b in AllHeld(after) ensures b in (AllHeld(threads) - Held(threads[t])) + Held(th) {
      var i :| 0 <= i < |after| && b in Held(after[i]);
      if i != t {
        assert after[i] == threads[i] && Held(threads[i]) !! Held(threads[t]);
      }
    }
    forall b | b in (AllHeld(threads) - Held(threads[t])) + Held(th) ensures b in AllHeld(after) {
      if b in Held(th) {
        assert after[t] == th;
      } else {
        var i :| 0 <= i < |threads| && b in Held(threads[i]);
        assert after[i] == threads[i];
      }
    }
  }

  lemma PutApart(threads: seq<Thread>, t: nat, th: Thread)
    requires t < |threads| && HeldApart(threads)
    requires Held(th) !! AllHeld(threads) - Held(threads[t])
    ensures HeldApart(threads[t := th])
  {
    var after := threads[t := th];
    forall u | 0 <= u < |threads| && u != t ensures Held(th) !! Held(threads[u]) {
      assert Held(threads[u]) !! Held(threads[t]);
      assert Held(threads[u]) <= AllHeld(threads);
    }
  }

  lemma PutCompatible(s: System, t: nat, th: Thread)
    requires t < |s.threads| && AllCompatible(s.threads) && Allows(s, t, th)
    ensures AllCompatible(s.threads[t := th])
  {
  }

  /** Put the pieces of a step together. */
  lemma Assemble(g: Geometry, reserved: set<nat>, s: System, t: Tree, i: nat, th: Thread, r: System, u: Tree)
    requires Inv(g, reserved, s, t) && i < |s.threads|
    requires r.threads == s.threads[i := th] && r.total == s.total
    requires Rep(g, r.media, u) && Local(g, r.media, u, th) && Allows(s, i, th)
    requires forall j :: 0 <= j < |s.threads| && j != i ==> Benign(s.media, t, r.media, u, s.threads[j])
    requires var rest := AllHeld(s.threads) - Held(s.threads[i]);
             && r.busy == reserved + u.Values + rest + Held(th)
             && u.Values !! rest && Held(th) !! reserved + u.Values + rest && reserved !! u.Values
             && forall b :: b in Held(th) ==> g.dataStart <= b < g.nblocks
    ensures Inv(g, reserved, r, u)
  {
    PutHeld(s.threads, i, th);
    PutApart(s.threads, i, th);
    PutCompatible(s, i, th);
    forall j | 0 <= j < |r.threads| ensures Local(g, r.media, u, r.threads[j]) {
      if j != i {
        LocalKept(g, s.media, t, r.media, u, s.threads[j]);
      }
    }
  }

  /** A step of one thread that changes neither pointers nor the map. */
  lemma Quiet(g: Geometry, reserved: set<nat>, s: System, t: Tree, i: nat, th: Thread)
    requires Inv(g, reserved, s, t) && i < |s.threads|
    requires Held(th) == Held(s.threads[i]) && Local(g, s.media, t, th) && Allows(s, i, th)
    ensures Inv(g, reserved, Put(s, i, th), t)
  {
    PutHeld(s.threads, i, th);
    Assemble(g, reserved, s, t, i, th, Put(s, i, th), t);
  }

  ghost predicate SameCall(x: Thread, y: Thread) {
    && !x.Idle? && !y.Idle? && x.ino == y.ino && x.offsets == y.offsets
    && (Getting(x) <==> Getting(y)) && (Truncating(x) <==> Truncating(y))
  }

  /** The next stage of a call is compatible with the others if the call was. */
  lemma StillAllowed(s: System, i: nat, th: Thread)
    requires i < |s.threads| && AllCompatible(s.threads)
    requires th.Idle? || SameCall(th, s.threads[i])
    ensures Allows(s, i, th)
  {
    forall u | 0 <= u < |s.threads| && u != i ensures Compatible(th, s.threads[u]) {
      assert Compatible(s.threads[i], s.threads[u]);
    }
  }

  // Reading

  /** A chain that still holds lies on the tree as it is now: whatever was cut off, given
      back and taken again in between. */
  lemma Verified(g: Geometry, m: Media, t: Tree, c: Path, chain: seq<Indirect>)
    requires Rep(g, m, t) && 1 <= g.dataStart && Position(g, |m.inodes|, c)
    requires chain != [] && ChainShape(c, chain) && Current(m, chain)
    ensures IsChain(g, |m.inodes|, t, c, chain)
  {
    forall j | 0 <= j < |chain| ensures IsLink(g, |m.inodes|, t, c, j, chain[j]) {
      VerifiedAt(g, m, t, c, chain, j);
    }
  }

  lemma {:induction false} VerifiedAt(g: Geometry, m: Media, t: Tree, c: Path, chain: seq<Indirect>, j: nat)
    requires Rep(g, m, t) && 1 <= g.dataStart && Position(g, |m.inodes|, c)
    requires j < |chain| && ChainShape(c, chain) && Current(m, chain)
    ensures IsLink(g, |m.inodes|, t, c, j, chain[j])
  {
    var p := c[..j + 2];
    assert p[0] == c[0] && p[1] == c[1];
    assert ShapeAt(c, chain, j);
    if j != 0 {
      VerifiedAt(g, m, t, c, chain, j - 1);
      assert ShapeAt(c, chain, j - 1);
      assert Parent(p) == c[..j + 1] && Last(p) == c[j + 1];
    }
    assert HasSlot(g, |m.inodes|, t, p);
    assert Holds(m, SlotOf(t, p), Get(t, p));
  }

  lemma ReadKeepsShape(m: Media, c: Path, ino: nat, offsets: seq<nat>, chain: seq<Indirect>)
    requires c == [ino] + offsets && ChainShape(c, chain) && |chain| < |offsets|
    requires chain != [] ==> LastOf(chain).key != 0
    requires Exists(m, NextSlot(ino, offsets, chain))
    ensures ChainShape(c, ReadInto(m, ino, offsets, chain))
    ensures Current(m, chain) ==> Current(m, ReadInto(m, ino, offsets, chain))
  {
    var after := ReadInto(m, ino, offsets, chain);
    forall j | 0 <= j < |after| ensures ShapeAt(c, after, j) {
      assert j < |chain| ==> ShapeAt(c, chain, j);
    }
  }

  /** What has been read to the end is the block mapped there. */
  lemma ReadMeans(g: Geometry, m: Media, t: Tree, c: Path, ino: nat, offsets: seq<nat>, chain: seq<Indirect>)
    requires Rep(g, m, t) && 1 <= g.dataStart && Position(g, |m.inodes|, c) && c == [ino] + offsets
    requires ChainShape(c, chain) && |chain| < |offsets| && Current(m, chain)
    requires chain != [] ==> LastOf(chain).key != 0
    requires Exists(m, NextSlot(ino, offsets, chain))
    ensures IsChain(g, |m.inodes|, t, c, ReadInto(m, ino, offsets, chain))
    ensures |chain| + 1 == |offsets| ==> LastOf(ReadInto(m, ino, offsets, chain)).key == Get(t, c)
  {
    var after := ReadInto(m, ino, offsets, chain);
    ReadKeepsShape(m, c, ino, offsets, chain);
    Verified(g, m, t, c, after);
    assert IsLink(g, |m.inodes|, t, c, |after| - 1, after[|after| - 1]);
    assert |after| == |offsets| ==> c[..|after| - 1 + 2] == c;
  }

  lemma ReadInRange(g: Geometry, m: Media, t: Tree, c: Path, ino: nat, offsets: seq<nat>, chain: seq<Indirect>)
    requires ValidGeometry(g) && Rep(g, m, t) && Position(g, |m.inodes|, c) && c == [ino] + offsets
    requires ChainShape(c, chain) && |chain| < |offsets| && Current(m, chain)
    requires chain != [] ==> LastOf(chain).key != 0
    requires Exists(m, NextSlot(ino, offsets, chain))
    ensures InRange(g, ReadInto(m, ino, offsets, chain))
  {
    var after := ReadInto(m, ino, offsets, chain);
    ReadMeans(g, m, t, c, ino, offsets, chain);
    forall j | 0 <= j < |after| ensures after[j].key < g.nblocks {
      assert IsLink(g, |m.inodes|, t, c, j, after[j]);
      assert c[..j + 2] in t ==> Position(g, |m.inodes|, c[..j + 2]);
    }
  }

  lemma StartsGetKeeps(g: Geometry, reserved: set<nat>, s: System, t: Tree, i: nat, ino: nat, block: nat, create: bool, r: System)
    requires Inv(g, reserved, s, t) && i < |s.threads| && StartsGet(g, s, i, ino, block, create, r)
    ensures Inv(g, reserved, r, t)
  {
    BlockPosition(g, |s.media.inodes|, ino, block);
    Quiet(g, reserved, s, t, i, Reading(ino, BlockToPath(g, block), create, []));
  }

  lemma ReadsFirstKeeps(g: Geometry, reserved: set<nat>, s: System, t: Tree, i: nat, r: System)
    requires Inv(g, reserved, s, t) && i < |s.threads| && ReadsFirst(s, i, r)
    ensures Inv(g, reserved, r, t)
  {
    match s.threads[i]
    case Reading(ino, offsets, create, chain) =>
      var c := [ino] + offsets;
      ReadKeepsShape(s.media, c, ino, offsets, chain);
      ReadInRange(g, s.media, t, c, ino, offsets, chain);
      var th := Reading(ino, offsets, create, ReadInto(s.media, ino, offsets, chain));
      StillAllowed(s, i, th);
      Quiet(g, reserved, s, t, i, th);
  }

  lemma ReadsNextKeeps(g: Geometry, reserved: set<nat>, s: System, t: Tree, i: nat, r: System)
    requires Inv(g, reserved, s, t) && i < |s.threads| && ReadsNext(s, i, r)
    ensures Inv(g, reserved, r, t)
  {
    match s.threads[i]
    case Reading(ino, offsets, create, chain) =>
      var c := [ino] + offsets;
      if (Current(s.media, chain) || !create) && Exists(s.media, NextSlot(ino, offsets, chain))
         && r == Put(s, i, Reading(ino, offsets, create, ReadInto(s.media, ino, offsets, chain))) {
        ReadKeepsShape(s.media, c, ino, offsets, chain);
        if create {
          ReadInRange(g, s.media, t, c, ino, offsets, chain);
        }
        var th := Reading(ino, offsets, create, ReadInto(s.media, ino, offsets, chain));
        StillAllowed(s, i, th);
        Quiet(g, reserved, s, t, i, th);
      } else {
        var th := if create then Reading(ino, offsets, create, []) else Idle;
        StillAllowed(s, i, th);
        Quiet(g, reserved, s, t, i, th);
      }
  }

  lemma ReadsDoneKeeps(g: Geometry, reserved: set<nat>, s: System, t: Tree, i: nat, r: System)
    requires Inv(g, reserved, s, t) && i < |s.threads| && ReadsDone(s, i, r)
    ensures Inv(g, reserved, r, t)
  {
    match s.threads[i]
    case Reading(ino, offsets, create, chain) =>
      var th := if LastOf(chain).key != 0 then Found(ino, offsets, LastOf(chain).key)
                else if create then Allocating(ino, offsets, chain, [])
                else Idle;
      if LastOf(chain).key != 0 {
        assert |chain| == |offsets|;
      }
      StillAllowed(s, i, th);
      Quiet(g, reserved, s, t, i, th);
  }

  // Allocating

  lemma FreshNumber(g: Geometry, reserved: set<nat>, s: System, t: Tree, b: nat)
    requires Ledger(g, reserved, s, t) && b !in s.busy && b < s.total
    ensures g.dataStart <= b < g.nblocks && b !in reserved && b !in t.Values && b !in AllHeld(s.threads)
  {
  }

  lemma HeldOnce(threads: seq<Thread>, i: nat, j: nat, b: nat)
    requires HeldApart(threads) && i < |threads| && j < |threads| && i != j && b in Held(threads[i])
    ensures b !in Held(threads[j])
  {
    assert Held(threads[i]) !! Held(threads[j]);
  }

  /** A change inside a block that one thread holds. */
  lemma PrivateChange(g: Geometry, reserved: set<nat>, s: System, t: Tree, i: nat, b: nat, row: seq<nat>)
    requires Inv(g, reserved, s, t) && i < |s.threads|
    requires b in Held(s.threads[i]) && b < |s.media.disk| && |row| == g.fan
    ensures var r := s.media.(disk := s.media.disk[b := row]);
            && Rep(g, r, t)
            && forall j :: 0 <= j < |s.threads| && j != i ==> Benign(s.media, t, r, t, s.threads[j])
  {
    PutHeld(s.threads, i, s.threads[i]);
    var r := s.media.(disk := s.media.disk[b := row]);
    Frame(g, s.media, r, t);
    forall j | 0 <= j < |s.threads| && j != i ensures Benign(s.media, t, r, t, s.threads[j]) {
      HeldOnce(s.threads, i, j, b);
    }
  }

  lemma TakesKeeps(g: Geometry, reserved: set<nat>, s: System, t: Tree, i: nat, b: nat, r: System)
    requires Inv(g, reserved, s, t) && i < |s.threads| && Takes(s, i, b, r)
    ensures Inv(g, reserved, r, t)
  {
    var th := r.threads[i];
    FreshNumber(g, reserved, s, t, b);
    PutHeld(s.threads, i, th);
    StillAllowed(s, i, th);
    assert Held(th) == Held(s.threads[i]) + {b};
    assert b !in Held(s.threads[i]);
    Assemble(g, reserved, s, t, i, th, r, t);
  }

  /** The link to the new block changes a block that the thread holds, and no other. */
  lemma LinksKeeps(g: Geometry, reserved: set<nat>, s: System, t: Tree, i: nat, r: System)
    requires Inv(g, reserved, s, t) && i < |s.threads| && Links(g, s, i, r)
    ensures Inv(g, reserved, r, t)
  {
    match s.threads[i]
    case Joining(ino, offsets, chain, branch, b) =>
      var th := Allocating(ino, offsets, chain, branch + [b]);
      var last, off := branch[|branch| - 1], offsets[|chain| + |branch| - 1];
      assert last in Elements(branch);
      PrivateChange(g, reserved, s, t, i, last, seq(g.fan, x => if x == off then b else 0));
      LinkLocal(g, s.media, r.media, t, s.threads[i], th);
      PutHeld(s.threads, i, th);
      StillAllowed(s, i, th);
      assert Elements(branch + [b]) == Elements(branch) + {b};
      Assemble(g, reserved, s, t, i, th, r, t);
  }

  lemma LinkLocal(g: Geometry, m: Media, r: Media, t: Tree, th: Thread, now: Thread)
    requires th.Joining? && Local(g, m, t, th) && now == Allocating(th.ino, th.offsets, th.chain, th.branch + [th.b])
    requires th.branch != [] && |th.chain| + |th.branch| <= |th.offsets| && th.branch[|th.branch| - 1] < |m.disk|
    requires r == Linking(g, m, th.branch[|th.branch| - 1], th.offsets[|th.chain| + |th.branch| - 1], th.b)
    ensures Local(g, r, t, now)
  {
    match th
    case Joining(ino, offsets, chain, branch, b) =>
      var last, off := branch[|branch| - 1], offsets[|chain| + |branch| - 1];
      DistinctAppend(branch, b);
      assert off == ([ino] + offsets)[|chain| + |branch|];
      assert PointsOnly(r, last, off, b);
      LinkedExtends(m, r, offsets, |chain|, branch, b);
  }

  lemma FindsNoSpaceKeeps(g: Geometry, reserved: set<nat>, s: System, t: Tree, i: nat, r: System)
    requires Inv(g, reserved, s, t) && i < |s.threads| && FindsNoSpace(s, i, r)
    ensures Inv(g, reserved, r, t)
  {
    match s.threads[i]
    case Allocating(ino, offsets, chain, branch) =>
      StillAllowed(s, i, Undoing(ino, offsets, branch, false));
      Quiet(g, reserved, s, t, i, Undoing(ino, offsets, branch, false));
  }

  lemma UndoesKeeps(g: Geometry, reserved: set<nat>, s: System, t: Tree, i: nat, r: System)
    requires Inv(g, reserved, s, t) && i < |s.threads| && Undoes(s, i, r)
    ensures Inv(g, reserved, r, t)
  {
    match s.threads[i]
    case Undoing(ino, offsets, branch, again) =>
      if branch == [] {
        var th := if again then Reading(ino, offsets, true, []) else Idle;
        StillAllowed(s, i, th);
        Quiet(g, reserved, s, t, i, th);
      } else {
        var th := Undoing(ino, offsets, branch[1..], again);
        StillAllowed(s, i, th);
        DistinctTail(branch);
        PutHeld(s.threads, i, th);
        Assemble(g, reserved, s, t, i, th, r, t);
      }
  }

  lemma DistinctTail(s: seq<nat>)
    requires Distinct(s) && s != []
    ensures Distinct(s[1..]) && Elements(s) == {s[0]} + Elements(s[1..]) && s[0] !in Elements(s[1..])
  {
    forall x, y | SameEntry(s[1..], x, y) ensures x == y {
      assert SameEntry(s, x + 1, y + 1);
    }
    DistinctRest(s, 0);
  }

  // Splicing

  /** What splice_branch has checked makes the chain one on the tree as it is now. */
  lemma SpliceChain(g: Geometry, m: Media, t: Tree, c: Path, chain: seq<Indirect>)
    requires Rep(g, m, t) && 1 <= g.dataStart && Position(g, |m.inodes|, c)
    requires ChainShape(c, chain) && chain != [] && LastOf(chain).key == 0
    requires Exists(m, LastOf(chain).p) && SpliceFits(m, chain)
    ensures IsChain(g, |m.inodes|, t, c, chain)
    ensures LastOf(chain).p.BlockSlot? ==> LastOf(chain).p.block in t.Values
  {
    assert chain == chain[..|chain| - 1] + [LastOf(chain)];
    Verified(g, m, t, c, chain);
    assert IsLink(g, |m.inodes|, t, c, |chain| - 1, chain[|chain| - 1]);
  }

  /** A splice that goes through lands at the position of its logical block in the tree
      as it is now. */
  lemma SpliceLands(g: Geometry, m: Media, t: Tree, ino: nat, offsets: seq<nat>, chain: seq<Indirect>, branch: seq<nat>)
    returns (u: Tree)
    requires ValidGeometry(g) && Rep(g, m, t) && Local(g, m, t, Allocating(ino, offsets, chain, branch))
    requires branch != [] && |branch| + |chain| == |offsets| + 1
    requires forall b :: b in branch ==> b !in t.Values && g.dataStart <= b < g.nblocks
    requires Exists(m, LastOf(chain).p) && SpliceFits(m, chain)
    ensures var c := [ino] + offsets;
            && Rep(g, Store(m, LastOf(chain).p, branch[0]), u)
            && u.Values == t.Values + Elements(branch)
            && Extends(t, u, c) && c !in t && Get(u, c) == branch[|branch| - 1]
    ensures LastOf(chain).p.BlockSlot? ==> LastOf(chain).p.block in t.Values
  {
    var c := [ino] + offsets;
    SpliceChain(g, m, t, c, chain);
    assert offsets == c[1..];
    u := BranchSpliced(g, m, t, c, offsets, chain, branch);
  }

  /** `th` has mapped its logical block, to the last block of its branch. */
  ghost predicate MappedBy(t: Tree, u: Tree, th: Thread) {
    && th.Allocating? && th.branch != []
    && Extends(t, u, PathOf(th)) && PathOf(th) !in t && Get(u, PathOf(th)) == th.branch[|th.branch| - 1]
  }

  lemma BranchIsFree(g: Geometry, reserved: set<nat>, s: System, t: Tree, i: nat)
    requires Ledger(g, reserved, s, t) && i < |s.threads| && s.threads[i].Allocating?
    ensures forall b :: b in s.threads[i].branch ==> b !in t.Values && g.dataStart <= b < g.nblocks
  {
    PutHeld(s.threads, i, Idle);
    assert forall b :: b in s.threads[i].branch ==> b in Elements(s.threads[i].branch);
  }

  lemma SplicesKeeps(g: Geometry, reserved: set<nat>, s: System, t: Tree, i: nat, r: System) returns (u: Tree)
    requires Inv(g, reserved, s, t) && i < |s.threads| && Splices(s, i, r)
    ensures Inv(g, reserved, r, u)
    ensures (u == t && r.media == s.media && r.threads[i].Undoing?) || (r.threads[i].Found? && MappedBy(t, u, s.threads[i]))
  {
    match s.threads[i]
    case Allocating(ino, offsets, chain, branch) =>
      if SpliceFits(s.media, chain) {
        BranchIsFree(g, reserved, s, t, i);
        u := SpliceLands(g, s.media, t, ino, offsets, chain, branch);
        SpliceAssembles(g, reserved, s, t, i, ino, offsets, chain, branch, r, u);
      } else {
        u := t;
        StillAllowed(s, i, Undoing(ino, offsets, branch, true));
        Quiet(g, reserved, s, t, i, Undoing(ino, offsets, branch, true));
      }
  }

  lemma SpliceAssembles(g: Geometry, reserved: set<nat>, s: System, t: Tree, i: nat, ino: nat, offsets: seq<nat>,
                        chain: seq<Indirect>, branch: seq<nat>, r: System, u: Tree)
    requires Inv(g, reserved, s, t) && i < |s.threads| && s.threads[i] == Allocating(ino, offsets, chain, branch)
    requires branch != [] && Exists(s.media, LastOf(chain).p)
    requires r == Put(s, i, Found(ino, offsets, branch[|branch| - 1])).(media := Store(s.media, LastOf(chain).p, branch[0]))
    requires Rep(g, r.media, u) && u.Values == t.Values + Elements(branch)
    requires Extends(t, u, [ino] + offsets) && Get(u, [ino] + offsets) == branch[|branch| - 1]
    requires LastOf(chain).p.BlockSlot? ==> LastOf(chain).p.block in t.Values
    ensures Inv(g, reserved, r, u)
  {
    var th := Found(ino, offsets, branch[|branch| - 1]);
    StillAllowed(s, i, th);
    PutHeld(s.threads, i, th);
    assert branch[|branch| - 1] in Elements(branch);
    forall j | 0 <= j < |s.threads| && j != i ensures Benign(s.media, t, r.media, u, s.threads[j]) {
      SpliceBenign(g, reserved, s, t, i, LastOf(chain).p, branch[0], u, j);
    }
    Assemble(g, reserved, s, t, i, th, r, u);
  }

  lemma SpliceBenign(g: Geometry, reserved: set<nat>, s: System, t: Tree, i: nat, p: Slot, v: nat, u: Tree, j: nat)
    requires Inv(g, reserved, s, t) && i < |s.threads| && j < |s.threads| && j != i
    requires s.threads[i].Allocating? && Extends(t, u, PathOf(s.threads[i]))
    requires Exists(s.media, p) && (p.BlockSlot? ==> p.block in t.Values)
    ensures Benign(s.media, t, Store(s.media, p, v), u, s.threads[j])
  {
    PutHeld(s.threads, j, Idle);
    StoreElsewhere(s.media, p, v);
  }

  lemma StoreElsewhere(m: Media, p: Slot, v: nat)
    requires Exists(m, p)
    ensures var r := Store(m, p, v);
            forall b :: 0 <= b < |m.disk| && !(p.BlockSlot? && p.block == b) ==> r.disk[b] == m.disk[b]
  {
  }

  // Truncating

  lemma {:induction false} DepthMeans(offsets: seq<nat>)
    requires 1 <= |offsets|
    ensures 1 <= Depth(offsets) <= |offsets|
    ensures forall x :: Depth(offsets) <= x < |offsets| ==> offsets[x] == 0
    ensures 1 < Depth(offsets) ==> offsets[Depth(offsets) - 1] != 0
  {
    if 1 < |offsets| && offsets[|offsets| - 1] == 0 {
      DepthMeans(offsets[..|offsets| - 1]);
      assert forall x :: 0 <= x < |offsets| - 1 ==> offsets[..|offsets| - 1][x] == offsets[x];
    }
  }

  lemma StartsCutKeeps(g: Geometry, reserved: set<nat>, s: System, t: Tree, i: nat, ino: nat, block: nat, r: System)
    requires Inv(g, reserved, s, t) && i < |s.threads| && StartsCut(g, s, i, ino, block, r)
    ensures Inv(g, reserved, r, t) && CutSafe(t, r.threads[i])
  {
    var offsets := BlockToPath(g, block);
    BlockPosition(g, |s.media.inodes|, ino, block);
    DepthMeans(offsets);
    var c := [ino] + offsets;
    assert forall x :: Depth(offsets) + 1 <= x < |c| ==> c[x] == offsets[x - 1];
    Quiet(g, reserved, s, t, i, r.threads[i]);
  }

  lemma CutReadsFirstKeeps(g: Geometry, reserved: set<nat>, s: System, t: Tree, i: nat, r: System)
    requires Inv(g, reserved, s, t) && i < |s.threads| && CutReadsFirst(s, i, r)
    ensures Inv(g, reserved, r, t) && CutSafe(t, r.threads[i])
  {
    match s.threads[i]
    case Cutting(ino, offsets, depth, chain) =>
      var c := [ino] + offsets;
      assert ChainShape(c, []);
      ReadMeans(g, s.media, t, c, ino, offsets, []);
      CutReadLocal(g, s.media, t, c, ino, offsets, depth, ReadInto(s.media, ino, offsets, []));
      StillAllowed(s, i, r.threads[i]);
      Quiet(g, reserved, s, t, i, r.threads[i]);
  }

  lemma CutReadLocal(g: Geometry, m: Media, t: Tree, c: Path, ino: nat, offsets: seq<nat>, depth: nat, chain: seq<Indirect>)
    requires Rep(g, m, t) && 1 <= g.dataStart && c == [ino] + offsets && chain != [] && IsChain(g, |m.inodes|, t, c, chain)
    requires GoodPath(g, |m.inodes|, c) && 2 <= |offsets| && 1 <= depth <= |offsets| && |chain| <= depth && ZerosFrom(c, depth + 1)
    requires OnlyLastZero(chain) && (1 < depth ==> offsets[depth - 1] != 0)
    ensures Local(g, m, t, Cutting(ino, offsets, depth, chain)) && CutSafe(t, Cutting(ino, offsets, depth, chain))
  {
    forall j | 0 <= j < |chain| ensures OnTreeAt(g, |m.inodes|, t, c, j, chain[j]) {
      assert IsLink(g, |m.inodes|, t, c, j, chain[j]);
    }
    if LastOf(chain).key == 0 {
      MissingAbove(g, |m.inodes|, t, c, chain);
      NothingBelowPosition(t, c[..|chain| + 1], c);
    }
  }

  lemma NothingBelowPosition(t: Tree, p: Path, c: Path)
    requires Closed(t) && p !in t && 2 <= |p|
    ensures LeavesLeft(t, p, c) && !HoldsLeft(t, p, c)
  {
    forall r | r in t ensures !(p <= r) {
      if p <= r {
        PrefixIn(t, p, r);
      }
    }
  }

  /** The chain of a truncation is shaped like any other. */
  lemma OnTreeShape(g: Geometry, m: Media, t: Tree, c: Path, chain: seq<Indirect>)
    requires Rep(g, m, t) && OnTree(g, |m.inodes|, t, c, chain) && Current(m, chain) && 1 <= g.dataStart
    ensures chain != [] ==> IsChain(g, |m.inodes|, t, c, chain)
  {
    forall j | 0 <= j < |chain| ensures IsLink(g, |m.inodes|, t, c, j, chain[j]) {
      assert OnTreeAt(g, |m.inodes|, t, c, j, chain[j]);
      assert Holds(m, SlotOf(t, c[..j + 2]), Get(t, c[..j + 2]));
    }
  }

  lemma CutReadsNextKeeps(g: Geometry, reserved: set<nat>, s: System, t: Tree, i: nat, r: System)
    requires Inv(g, reserved, s, t) && i < |s.threads| && CutReadsNext(s, i, r)
    ensures Inv(g, reserved, r, t) && CutSafe(t, r.threads[i])
  {
    match s.threads[i]
    case Cutting(ino, offsets, depth, chain) =>
      var c := [ino] + offsets;
      OnTreeShape(g, s.media, t, c, chain);
      NextOnTree(g, s.media, t, c, ino, offsets, chain);
      CutReadLocal(g, s.media, t, c, ino, offsets, depth, ReadInto(s.media, ino, offsets, chain));
      StillAllowed(s, i, r.threads[i]);
      Quiet(g, reserved, s, t, i, r.threads[i]);
  }

  lemma NextOnTree(g: Geometry, m: Media, t: Tree, c: Path, ino: nat, offsets: seq<nat>, chain: seq<Indirect>)
    requires Rep(g, m, t) && 1 <= g.dataStart && Position(g, |m.inodes|, c) && c == [ino] + offsets
    requires chain != [] && IsChain(g, |m.inodes|, t, c, chain) && |chain| < |offsets| && LastOf(chain).key != 0
    requires Exists(m, NextSlot(ino, offsets, chain))
    ensures IsChain(g, |m.inodes|, t, c, ReadInto(m, ino, offsets, chain))
  {
    var n, k := |m.inodes|, |chain|;
    var after := ReadInto(m, ino, offsets, chain);
    var p := c[..k + 2];
    assert IsLink(g, n, t, c, k - 1, chain[k - 1]);
    assert Parent(p) == c[..k - 1 + 2] && p[1] == c[1] && Last(p) == offsets[k];
    assert HasSlot(g, n, t, p);
    assert Holds(m, SlotOf(t, p), Get(t, p));
    forall j | 0 <= j <= k ensures IsLink(g, n, t, c, j, after[j]) {
      assert j < k ==> IsLink(g, n, t, c, j, chain[j]);
    }
  }

  /** verify_chain never fails in a truncation: nobody else takes pointers away in this
      inode. */
  lemma CutChainIsCurrent(g: Geometry, reserved: set<nat>, s: System, t: Tree, i: nat)
    requires Inv(g, reserved, s, t) && i < |s.threads| && s.threads[i].Cutting?
    ensures var chain := s.threads[i].chain;
            chain != [] && LastOf(chain).key != 0 ==> Current(s.media, chain)
  {
    match s.threads[i]
    case Cutting(ino, offsets, depth, chain) =>
      var c := [ino] + offsets;
      forall j | 0 <= j < |chain| && chain[j].key != 0
        ensures Exists(s.media, chain[j].p) && Load(s.media, chain[j].p) == chain[j].key
      {
        assert OnTreeAt(g, |s.media.inodes|, t, c, j, chain[j]);
        assert Holds(s.media, SlotOf(t, c[..j + 2]), Get(t, c[..j + 2]));
      }
  }


  /** What lies behind the stored pointer to a position is what the tree has below it. */
  lemma {:induction false} BehindIsBelow(g: Geometry, m: Media, t: Tree, p: Path, h: nat)
    requires Rep(g, m, t) && 1 <= g.dataStart && HasSlot(g, |m.inodes|, t, p) && |p| + h == 2 + Height(p[1])
    ensures Behind(m, Get(t, p), h) == Below(t, p)
    decreases h
  {
    var n, b := |m.inodes|, Get(t, p);
    if p !in t {
      NothingBelow(t, p);
    } else if h == 0 {
      LeafBelow(g, n, t, p);
    } else {
      var k: nat := h - 1;
      NodeStored(g, m, t, p);
      forall i | 0 <= i < g.fan ensures Behind(m, m.disk[b][i], k) == Below(t, p + [i]) {
        ChildStored(g, m, t, p, i);
        BehindIsBelow(g, m, t, p + [i], k);
      }
      BelowSplits(g, n, t, p);
      BehindIsBelowHere(g, m, t, p, b, k);
    }
  }

  lemma NodeStored(g: Geometry, m: Media, t: Tree, p: Path)
    requires Rep(g, m, t) && 1 <= g.dataStart && p in t
    ensures 0 < t[p] < |m.disk| && |m.disk[t[p]]| == g.fan
  {
    assert Position(g, |m.inodes|, p);
  }

  lemma ChildStored(g: Geometry, m: Media, t: Tree, p: Path, i: nat)
    requires Rep(g, m, t) && p in t && 2 <= |p| && !Leaf(p) && i < g.fan
    ensures HasSlot(g, |m.inodes|, t, p + [i]) && t[p] < |m.disk| && |m.disk[t[p]]| == g.fan && m.disk[t[p]][i] == Get(t, p + [i])
  {
    ChildSlot(g, |m.inodes|, t, p, i);
    assert Holds(m, SlotOf(t, p + [i]), Get(t, p + [i]));
  }

  lemma BehindIsBelowHere(g: Geometry, m: Media, t: Tree, p: Path, b: nat, k: nat)
    requires b < |m.disk| && |m.disk[b]| == g.fan && b != 0
    requires forall i :: 0 <= i < g.fan ==> Behind(m, m.disk[b][i], k) == Below(t, p + [i])
    ensures Behind(m, b, k + 1) == {b} + BelowRange(t, p, 0, g.fan)
  {
    var row := m.disk[b];
    forall x ensures x in BelowRange(t, p, 0, g.fan) <==> exists i :: 0 <= i < |row| && x in Behind(m, row[i], k) {
      if x in BelowRange(t, p, 0, g.fan) {
        var q :| q in t && p < q && 0 <= q[|p|] < g.fan && t[q] == x;
        assert q[..|p| + 1] == p + [q[|p|]];
        assert x in Below(t, p + [q[|p|]]);
        assert x in Behind(m, row[q[|p|]], k);
      }
      if i :| 0 <= i < |row| && x in Behind(m, row[i], k) {
        assert Behind(m, m.disk[b][i], k) == Below(t, p + [i]);
        var q :| q in t && p + [i] <= q && t[q] == x;
        assert p < q && q[|p|] == i;
      }
    }
  }

  /** Cutting off a subtree does not disturb the other calls. */
  lemma PruneBenign(g: Geometry, reserved: set<nat>, s: System, t: Tree, i: nat, p: Path, j: nat)
    requires Inv(g, reserved, s, t) && i < |s.threads| && j < |s.threads| && j != i
    requires Truncating(s.threads[i]) && HasSlot(g, |s.media.inodes|, t, p) && p[0] == s.threads[i].ino
    requires Exists(s.media, SlotOf(t, p))
    ensures Benign(s.media, t, Store(s.media, SlotOf(t, p), 0), Prune(t, p), s.threads[j])
  {
    var th := s.threads[j];
    assert Compatible(s.threads[i], th);
    PutHeld(s.threads, j, Idle);
    StoreElsewhere(s.media, SlotOf(t, p), 0);
    if Truncating(th) {
      forall x | 2 <= x <= |PathOf(th)| ensures Keeps(t, Prune(t, p), PathOf(th)[..x]) {
        assert PathOf(th)[..x][0] == th.ino;
      }
    }
    if 3 <= |p| {
      assert t[Parent(p)] in t.Values;
    }
  }

  /** `u` is `t` without a subtree that holds nothing from before the cut of `th`. */
  ghost predicate CutFrom(t: Tree, u: Tree, p: Path, th: Thread) {
    u == Prune(t, p) && Truncating(th) && 2 <= |p| && p[0] == th.ino && !HoldsLeft(t, p, PathOf(th))
  }

  /** The pointer to `p`, `h` levels up, can be cleared in a truncation. */
  ghost predicate Prunable(g: Geometry, m: Media, t: Tree, th: Thread, p: Path, h: nat) {
    match th
    case Cutting(ino, offsets, _, _) => PrunableAt(g, m, t, ino, [ino] + offsets, p, h)
    case Clearing(ino, offsets, _, _, _, _) => PrunableAt(g, m, t, ino, [ino] + offsets, p, h)
    case _ => false
  }

  ghost predicate PrunableAt(g: Geometry, m: Media, t: Tree, ino: nat, c: Path, p: Path, h: nat) {
    && HasSlot(g, |m.inodes|, t, p) && p[0] == ino && |p| + h == 2 + Height(p[1])
    && !HoldsLeft(t, p, c) && Exists(m, SlotOf(t, p))
  }

  /** The step from `s` to `r` clears the pointer to `p` and takes over what was behind it. */
  ghost predicate Detaching(g: Geometry, s: System, t: Tree, i: nat, p: Path, h: nat, th: Thread, r: System) {
    match s
    case System(media, _, _, threads) =>
      && i < |threads| && Prunable(g, media, t, threads[i], p, h)
      && r == Put(s, i, th).(media := Store(media, SlotOf(t, p), 0))
      && Held(th) == Held(threads[i]) + Behind(media, Load(media, SlotOf(t, p)), h)
      && SameCall(th, threads[i]) && Local(g, r.media, Prune(t, p), th) && (CutSafe(t, threads[i]) ==> CutSafe(Prune(t, p), th))
  }

  /** A step that cuts off a subtree. */
  lemma DetachKeeps(g: Geometry, reserved: set<nat>, s: System, t: Tree, i: nat, p: Path, h: nat, th: Thread, r: System)
    requires Inv(g, reserved, s, t) && Detaching(g, s, t, i, p, h, th, r)
    ensures Inv(g, reserved, r, Prune(t, p)) && CutFrom(t, Prune(t, p), p, s.threads[i])
    ensures CutSafe(t, s.threads[i]) ==> CutSafe(Prune(t, p), r.threads[i])
  {
    assert Holds(s.media, SlotOf(t, p), Get(t, p));
    BehindIsBelow(g, s.media, t, p, h);
    ClearCuts(g, s.media, t, p);
    PruneValues(t, p);
    PutHeld(s.threads, i, th);
    StillAllowed(s, i, th);
    forall j | 0 <= j < |s.threads| && j != i ensures Benign(s.media, t, r.media, Prune(t, p), s.threads[j]) {
      PruneBenign(g, reserved, s, t, i, p, j);
    }
    forall b | b in Below(t, p) ensures b in t.Values && g.dataStart <= b < g.nblocks {
      var q :| q in t && p <= q && t[q] == b;
      assert Position(g, |s.media.inodes|, q);
    }
    Assemble(g, reserved, s, t, i, th, r, Prune(t, p));
  }

  // The shared path

  /** Where the climb of find_shared ends, nothing from before the cut is below. */
  lemma {:induction false} ClimbMeans(g: Geometry, m: Media, t: Tree, c: Path, chain: seq<Indirect>, p: nat)
    requires Rep(g, m, t) && 1 <= g.dataStart && Position(g, |m.inodes|, c)
    requires OnTree(g, |m.inodes|, t, c, chain) && p < |chain| && !HoldsLeft(t, c[..p + 2], c)
    ensures !HoldsLeft(t, c[..ClimbTo(m, chain, p) + 2], c)
    ensures var q := ClimbTo(m, chain, p);
            1 <= q ==> OnPath(t, c, q, q, false, chain[q].p) && KeepsLeft(t, c, q)
  {
    if p != 0 {
      OnTreePath(g, |m.inodes|, t, c, chain, p);
      LeftPointers(g, m, t, c, p);
      var row, hi := m.disk[t[c[..p + 1]]], c[p + 1];
      assert ZeroBefore(m, chain[p].p) <==> forall i :: 0 <= i < hi ==> row[i] == 0;
      if ZeroBefore(m, chain[p].p) {
        ClimbStep(t, c, p);
        ClimbMeans(g, m, t, c, chain, p - 1);
      }
    }
  }

  lemma OnTreePath(g: Geometry, n: nat, t: Tree, c: Path, chain: seq<Indirect>, x: nat)
    requires OnTree(g, n, t, c, chain) && 1 <= x < |chain|
    ensures OnPath(t, c, x, x, false, chain[x].p)
  {
    assert OnTreeAt(g, n, t, c, x, chain[x]);
    var p := c[..x + 2];
    assert Parent(p) == c[..x + 1] && Last(p) == c[x + 1];
  }

  /** Where get_branch of find_shared ended, nothing from before the cut is below,
      unless the pointer has been filled since. */
  lemma PartialMeans(g: Geometry, m: Media, t: Tree, c: Path, chain: seq<Indirect>, depth: nat)
    requires Rep(g, m, t) && 1 <= g.dataStart && Position(g, |m.inodes|, c)
    requires OnTree(g, |m.inodes|, t, c, chain) && chain != [] && |chain| <= depth < |c| && ZerosFrom(c, depth + 1)
    requires LastOf(chain).key == 0 || |chain| == depth
    requires Exists(m, LastOf(chain).p) && (LastOf(chain).key == 0 ==> Load(m, LastOf(chain).p) == 0)
    ensures !HoldsLeft(t, c[..|chain| + 1], c)
  {
    var p := c[..|chain| + 1];
    assert OnTreeAt(g, |m.inodes|, t, c, |chain| - 1, LastOf(chain));
    assert p == c[..|chain| - 1 + 2];
    assert Holds(m, SlotOf(t, p), Get(t, p));
    if LastOf(chain).key == 0 {
      NothingBelowPosition(t, p, c);
    } else {
      forall r | r in t && p <= r ensures !LeftOf(r, c) {
        ZerosAfter(r, c, depth + 1);
      }
    }
  }

  /** Where find_shared cuts. */
  lemma ClimbEnds(g: Geometry, m: Media, t: Tree, th: Thread) returns (q: nat)
    requires Rep(g, m, t) && 1 <= g.dataStart && th.Cutting? && Local(g, m, t, th)
    requires th.chain != [] && (LastOf(th.chain).key == 0 || |th.chain| == th.depth) && Exists(m, LastOf(th.chain).p)
    requires LastOf(th.chain).key == 0 ==> Load(m, LastOf(th.chain).p) == 0
    ensures q == ClimbTo(m, th.chain, |th.chain| - 1) && q + 2 <= |PathOf(th)|
    ensures !HoldsLeft(t, PathOf(th)[..q + 2], PathOf(th))
  {
    q := ClimbEndsAt(g, m, t, PathOf(th), th.chain, th.depth);
  }

  lemma ClimbEndsAt(g: Geometry, m: Media, t: Tree, c: Path, chain: seq<Indirect>, depth: nat) returns (q: nat)
    requires Rep(g, m, t) && 1 <= g.dataStart && Position(g, |m.inodes|, c)
    requires OnTree(g, |m.inodes|, t, c, chain) && chain != [] && |chain| <= depth < |c| && ZerosFrom(c, depth + 1)
    requires (LastOf(chain).key == 0 || |chain| == depth) && Exists(m, LastOf(chain).p)
    requires LastOf(chain).key == 0 ==> Load(m, LastOf(chain).p) == 0
    ensures q == ClimbTo(m, chain, |chain| - 1) && q + 2 <= |c| && !HoldsLeft(t, c[..q + 2], c)
  {
    PartialMeans(g, m, t, c, chain, depth);
    assert c[..|chain| - 1 + 2] == c[..|chain| + 1];
    ClimbMeans(g, m, t, c, chain, |chain| - 1);
    q := ClimbTo(m, chain, |chain| - 1);
  }

  /** find_shared either changes no pointer, or cuts off at `p`. */
  lemma CutsSharedKeeps(g: Geometry, reserved: set<nat>, s: System, t: Tree, i: nat, r: System) returns (u: Tree, p: Path)
    requires Inv(g, reserved, s, t) && i < |s.threads| && CutsShared(s, i, r)
    ensures Inv(g, reserved, r, u) && (CutSafe(t, s.threads[i]) ==> CutSafe(u, r.threads[i]))
    ensures (u == t && r.media == s.media) || CutFrom(t, u, p, s.threads[i])
  {
    u, p := t, [];
    if CutsWhereClimbEnds(s, i, r) {
      var h, th;
      p, h, th := CutHere(g, s, t, i, r);
      DetachKeeps(g, reserved, s, t, i, p, h, th, r);
      u := Prune(t, p);
    } else if StepsBack(s, i, r) {
      SteppedBack(g, reserved, s, t, i, r);
    } else {
      LeftAlone(g, reserved, s, t, i, r);
    }
  }

  ghost predicate CutsWhereClimbEnds(s: System, i: nat, r: System) {
    && i < |s.threads| && s.threads[i].Cutting?
    && var th := s.threads[i];
       && th.chain != [] && (LastOf(th.chain).key == 0 || |th.chain| == th.depth) && Exists(s.media, LastOf(th.chain).p)
       && (LastOf(th.chain).key == 0 ==> Load(s.media, LastOf(th.chain).p) == 0)
       && CutsAt(s, i, ClimbTo(s.media, th.chain, |th.chain| - 1), r)
  }

  lemma LeftAlone(g: Geometry, reserved: set<nat>, s: System, t: Tree, i: nat, r: System)
    requires Inv(g, reserved, s, t) && i < |s.threads| && CutsShared(s, i, r)
    requires s.threads[i].Cutting? && LastOf(s.threads[i].chain).key == 0 && Load(s.media, LastOf(s.threads[i].chain).p) != 0
    ensures Inv(g, reserved, r, t) && (CutSafe(t, s.threads[i]) ==> CutSafe(t, r.threads[i]))
  {
    match s.threads[i]
    case Cutting(ino, offsets, depth, chain) =>
      var c := [ino] + offsets;
      forall x | 1 <= x < |chain| ensures OnPath(t, c, x, |chain| - 1, false, chain[x].p) {
        OnTreePath(g, |s.media.inodes|, t, c, chain, x);
      }
      StillAllowed(s, i, r.threads[i]);
      Quiet(g, reserved, s, t, i, r.threads[i]);
  }

  ghost predicate StepsBack(s: System, i: nat, r: System)
    requires i < |s.threads|
  {
    match s.threads[i]
    case Cutting(ino, offsets, depth, chain) =>
      && chain != []
      && var p := ClimbTo(s.media, chain, |chain| - 1);
         && p + 1 == depth && p > 0 && chain[p].p.BlockSlot? && 1 <= chain[p].p.i
         && r == Put(s, i, Clearing(ino, offsets, StepBack(chain, p), true, {}, {}))
    case _ => false
  }

  lemma SteppedBack(g: Geometry, reserved: set<nat>, s: System, t: Tree, i: nat, r: System)
    requires Inv(g, reserved, s, t) && i < |s.threads| && StepsBack(s, i, r)
    ensures Inv(g, reserved, r, t) && CutSafe(t, r.threads[i])
  {
    StepBackLocal(g, s, t, i, r);
    StillAllowed(s, i, r.threads[i]);
    Quiet(g, reserved, s, t, i, r.threads[i]);
  }

  lemma StepBackLocal(g: Geometry, s: System, t: Tree, i: nat, r: System)
    requires i < |s.threads| && StepsBack(s, i, r) && Local(g, s.media, t, s.threads[i])
    ensures Local(g, s.media, t, r.threads[i])
  {
    match s.threads[i]
    case Cutting(ino, offsets, depth, chain) =>
      var c := [ino] + offsets;
      var p := ClimbTo(s.media, chain, |chain| - 1);
      var after := StepBack(chain, p);
      forall x | 1 <= x < |after| ensures OnPath(t, c, x, |after| - 1, true, after[x].p) {
        OnTreePath(g, |s.media.inodes|, t, c, chain, x);
      }
  }

  ghost predicate CutsAt(s: System, i: nat, p: nat, r: System)
    requires i < |s.threads|
  {
    match s.threads[i]
    case Cutting(ino, offsets, depth, chain) =>
      && p < |chain| <= |offsets| && Exists(s.media, chain[p].p)
      && r == Put(s, i, Clearing(ino, offsets, chain[..p + 1], false,
                                 Behind(s.media, Load(s.media, chain[p].p), |offsets| - 1 - p), {}))
              .(media := Store(s.media, chain[p].p, 0))
    case _ => false
  }

  lemma CutHere(g: Geometry, s: System, t: Tree, i: nat, r: System) returns (p: Path, h: nat, th: Thread)
    requires CutsWhereClimbEnds(s, i, r)
    requires Rep(g, s.media, t) && 1 <= g.dataStart && Local(g, s.media, t, s.threads[i])
    ensures Detaching(g, s, t, i, p, h, th, r)
  {
    var q := ClimbEnds(g, s.media, t, s.threads[i]);
    p, h, th := CutDetaches(g, s, t, i, q, r);
  }

  lemma CutDetaches(g: Geometry, s: System, t: Tree, i: nat, q: nat, r: System) returns (p: Path, h: nat, th: Thread)
    requires i < |s.threads| && CutsAt(s, i, q, r)
    requires Local(g, s.media, t, s.threads[i]) && !HoldsLeft(t, PathOf(s.threads[i])[..q + 2], PathOf(s.threads[i]))
    ensures Detaching(g, s, t, i, p, h, th, r)
  {
    p, h, th := CutTo(s, i, q, r);
    CutLocal(g, s.media, r.media, t, s.threads[i], q, th);
    assert Prunable(g, s.media, t, s.threads[i], p, h) && SlotOf(t, p) == s.threads[i].chain[q].p;
  }

  lemma CutTo(s: System, i: nat, q: nat, r: System) returns (p: Path, h: nat, th: Thread)
    requires i < |s.threads| && CutsAt(s, i, q, r)
    ensures s.threads[i].Cutting? && q < |s.threads[i].chain| <= |s.threads[i].offsets| && Exists(s.media, s.threads[i].chain[q].p)
    ensures var c := s.threads[i];
            && p == PathOf(c)[..q + 2] && h == |c.offsets| - 1 - q
            && th == Clearing(c.ino, c.offsets, c.chain[..q + 1], false, Behind(s.media, Load(s.media, c.chain[q].p), h), {})
            && r == Put(s, i, th).(media := Store(s.media, c.chain[q].p, 0))
            && SameCall(th, c) && Held(c) == {}
  {
    var c := s.threads[i];
    p, h := PathOf(c)[..q + 2], |c.offsets| - 1 - q;
    th := Clearing(c.ino, c.offsets, c.chain[..q + 1], false, Behind(s.media, Load(s.media, c.chain[q].p), h), {});
  }

  lemma CutLocal(g: Geometry, m: Media, r: Media, t: Tree, th: Thread, q: nat, now: Thread)
    requires th.Cutting? && Local(g, m, t, th) && q < |th.chain| <= |th.offsets| && |r.inodes| == |m.inodes|
    requires now.Clearing? && now == Clearing(th.ino, th.offsets, th.chain[..q + 1], false, now.limbo, {})
    requires Exists(m, th.chain[q].p) && !HoldsLeft(t, PathOf(th)[..q + 2], PathOf(th))
    ensures var p := PathOf(th)[..q + 2];
            Local(g, r, Prune(t, p), now) && CutSafe(Prune(t, p), now) && Prunable(g, m, t, th, p, |th.offsets| - 1 - q) && SlotOf(t, p) == th.chain[q].p
  {
    var c := PathOf(th);
    var p, u := c[..q + 2], Prune(t, c[..q + 2]);
    assert OnTreeAt(g, |m.inodes|, t, c, q, th.chain[q]);
    assert p[0] == c[0] && p[1] == c[1];
    forall x | 1 <= x < q + 1 ensures OnPath(u, c, x, q, false, th.chain[x].p) {
      OnTreePath(g, |m.inodes|, t, c, th.chain, x);
    }
    NothingLeftBelow(t, p, c);
    assert |now.chain| + 1 == q + 2;
  }

  lemma NothingLeftBelow(t: Tree, p: Path, c: Path)
    ensures LeavesLeft(Prune(t, p), p, c)
  {
  }

  // The ends

  lemma ClearsEndKeeps(g: Geometry, reserved: set<nat>, s: System, t: Tree, i: nat, x: nat, k: nat, r: System) returns (u: Tree, p: Path)
    requires Inv(g, reserved, s, t) && i < |s.threads| && ClearsEnd(s, i, x, k, r)
    ensures Inv(g, reserved, r, u) && CutFrom(t, u, p, s.threads[i]) && (CutSafe(t, s.threads[i]) ==> CutSafe(u, r.threads[i]))
  {
    var h, th;
    p, h, th := EndDetaches(g, s, t, i, x, k, r);
    DetachKeeps(g, reserved, s, t, i, p, h, th, r);
    u := Prune(t, p);
  }

  lemma EndDetaches(g: Geometry, s: System, t: Tree, i: nat, x: nat, k: nat, r: System) returns (p: Path, h: nat, th: Thread)
    requires i < |s.threads| && ClearsEnd(s, i, x, k, r)
    requires Rep(g, s.media, t) && Local(g, s.media, t, s.threads[i])
    ensures Detaching(g, s, t, i, p, h, th, r)
  {
    p, h, th := EndTo(s, i, x, k, r);
    EndLocal(g, s.media, r.media, t, s.threads[i], x, k, th);
    assert Prunable(g, s.media, t, s.threads[i], p, h) && SlotOf(t, p) == BlockSlot(s.threads[i].chain[x].p.block, k);
  }

  lemma EndTo(s: System, i: nat, x: nat, k: nat, r: System) returns (p: Path, h: nat, th: Thread)
    requires i < |s.threads| && ClearsEnd(s, i, x, k, r)
    ensures s.threads[i].Clearing? && 1 <= x < |s.threads[i].chain| <= |s.threads[i].offsets| && |r.media.inodes| == |s.media.inodes|
    ensures var c := s.threads[i];
            && c.chain[x].p.BlockSlot? && c.chain[x].p.i < k && Exists(s.media, BlockSlot(c.chain[x].p.block, k))
            && p == PathOf(c)[..x + 1] + [k] && h == |c.offsets| - 1 - x && OnePast(c, p, th) && SameCall(th, c)
            && Held(th) == Held(c) + Behind(s.media, Load(s.media, BlockSlot(c.chain[x].p.block, k)), h)
            && r == Put(s, i, th).(media := Store(s.media, BlockSlot(c.chain[x].p.block, k), 0))
  {
    var c := s.threads[i];
    var q := BlockSlot(c.chain[x].p.block, k);
    p, h := EndOf(c.ino, c.offsets, x, k), |c.offsets| - 1 - x;
    th := Clearing(c.ino, c.offsets, c.chain, c.minus, c.limbo + Behind(s.media, Load(s.media, q), h), c.passed + {p});
  }

  lemma EndLocal(g: Geometry, m: Media, r: Media, t: Tree, th: Thread, x: nat, k: nat, now: Thread)
    requires Rep(g, m, t) && th.Clearing? && Local(g, m, t, th) && 1 <= x < |th.chain|
    requires th.chain[x].p.BlockSlot? && th.chain[x].p.i < k && Exists(m, BlockSlot(th.chain[x].p.block, k))
    requires OnePast(th, PathOf(th)[..x + 1] + [k], now) && |r.inodes| == |m.inodes|
    ensures var p := PathOf(th)[..x + 1] + [k];
            && x < |th.offsets| && Prunable(g, m, t, th, p, |th.offsets| - 1 - x) && SlotOf(t, p) == BlockSlot(th.chain[x].p.block, k)
            && Local(g, r, Prune(t, p), now) && (CutSafe(t, th) ==> CutSafe(Prune(t, p), now))
  {
    EndHasSlot(g, m, t, th, x, k);
    ClearingLocal(g, m, r, t, th, PathOf(th)[..x + 1] + [k], now);
  }

  /** A pointer after the path is the one of a position at or after the cut. */
  lemma EndHasSlot(g: Geometry, m: Media, t: Tree, th: Thread, x: nat, k: nat)
    requires Rep(g, m, t) && th.Clearing? && Local(g, m, t, th) && 1 <= x < |th.chain|
    requires th.chain[x].p.BlockSlot? && th.chain[x].p.i < k && Exists(m, BlockSlot(th.chain[x].p.block, k))
    ensures var p := PathOf(th)[..x + 1] + [k];
            && x < |th.offsets| && Prunable(g, m, t, th, p, |th.offsets| - 1 - x) && SlotOf(t, p) == BlockSlot(th.chain[x].p.block, k)
            && forall y :: 2 <= y <= |th.chain| ==> !(p <= PathOf(th)[..y])
  {
    var c, l := PathOf(th), |th.chain| - 1;
    assert OnPath(t, c, x, l, th.minus, th.chain[x].p);
    var q := c[..x + 1];
    assert q[1] == c[1];
    assert k < g.fan;
    ChildSlot(g, |m.inodes|, t, q, k);
    EndIsBeyond(g, t, c, x, l, th.minus, k);
    EndOffPath(c, x, l, th.minus, k);
  }

  lemma EndOffPath(c: Path, x: nat, m: nat, minus: bool, k: nat)
    requires 1 <= x <= m && m + 1 < |c| && FirstCleared(c, x, m, minus) <= k
    ensures forall y :: 2 <= y <= m + 1 ==> !(c[..x + 1] + [k] <= c[..y])
  {
    forall y | 2 <= y <= m + 1 ensures !(c[..x + 1] + [k] <= c[..y]) {
      assert (c[..x + 1] + [k])[x + 1] == k;
      assert x + 1 < y ==> c[..y][x + 1] == c[x + 1];
    }
  }

  lemma EndIsBeyond(g: Geometry, t: Tree, c: Path, x: nat, m: nat, minus: bool, k: nat)
    requires 1 <= x <= m && m + 1 < |c| && FirstCleared(c, x, m, minus) <= k
    requires minus ==> ZerosFrom(c, m + 2)
    ensures !HoldsLeft(t, c[..x + 1] + [k], c)
  {
    forall r | r in t && c[..x + 1] + [k] <= r ensures !LeftOf(r, c) {
      assert forall y :: 0 <= y < x + 1 ==> r[y] == (c[..x + 1] + [k])[y] == c[y];
      assert r[x + 1] == (c[..x + 1] + [k])[x + 1] == k;
      LeftOfAfter(r, c, x + 1);
      if k == c[x + 1] {
        assert c[..x + 2] == c[..x + 1] + [k];
        ZerosAfter(r, c, x + 2);
      }
    }
  }

  /** `y` is `x` after the pointer at position `p`. */
  ghost predicate OnePast(x: Thread, p: Path, y: Thread) {
    && x.Clearing? && y.Clearing?
    && y == Clearing(x.ino, x.offsets, x.chain, x.minus, y.limbo, x.passed + {p})
  }

  /** What remains to be cleared is still where it was. */
  lemma ClearingLocal(g: Geometry, m: Media, r: Media, t: Tree, th: Thread, p: Path, now: Thread)
    requires OnePast(th, p, now) && Local(g, m, t, th) && |r.inodes| == |m.inodes|
    requires 2 <= |p| && p[0] == th.ino && forall y :: 2 <= y <= |th.chain| ==> !(p <= PathOf(th)[..y])
    ensures Local(g, r, Prune(t, p), now) && (CutSafe(t, th) ==> CutSafe(Prune(t, p), now))
  {
    NothingLeftBelow(t, p, PathOf(th));
    match th
    case Clearing(ino, offsets, chain, minus, _, _) =>
      var c := [ino] + offsets;
      forall x | 1 <= x < |chain| ensures OnPath(Prune(t, p), c, x, |chain| - 1, minus, chain[x].p) {
        assert OnPath(t, c, x, |chain| - 1, minus, chain[x].p);
        assert c == PathOf(th) && !(p <= PathOf(th)[..x + 1]);
      }
  }

  lemma ClearsSlotKeeps(g: Geometry, reserved: set<nat>, s: System, t: Tree, i: nat, k: nat, r: System) returns (u: Tree, p: Path)
    requires Inv(g, reserved, s, t) && i < |s.threads| && ClearsSlot(s, i, k, r)
    ensures Inv(g, reserved, r, u) && CutFrom(t, u, p, s.threads[i]) && (CutSafe(t, s.threads[i]) ==> CutSafe(u, r.threads[i]))
  {
    var h, th;
    p, h, th := SlotDetaches(g, s, t, i, k, r);
    DetachKeeps(g, reserved, s, t, i, p, h, th, r);
    u := Prune(t, p);
  }

  lemma SlotDetaches(g: Geometry, s: System, t: Tree, i: nat, k: nat, r: System) returns (p: Path, h: nat, th: Thread)
    requires i < |s.threads| && ClearsSlot(s, i, k, r)
    requires Local(g, s.media, t, s.threads[i])
    ensures Detaching(g, s, t, i, p, h, th, r)
  {
    match s.threads[i]
    case Clearing(ino, offsets, chain, minus, limbo, passed) =>
      var c := PathOf(s.threads[i]);
      p, h := [ino, k], Height(k);
      assert HasSlot(g, |s.media.inodes|, t, p) && SlotOf(t, p) == InodeSlot(ino, k);
      SlotIsBeyond(t, c, k);
      SlotOffPath(c, k);
      th := Clearing(ino, offsets, chain, minus, limbo + Behind(s.media, Load(s.media, SlotOf(t, p)), h), passed + {p});
      ClearingLocal(g, s.media, r.media, t, s.threads[i], p, th);
  }

  lemma SlotOffPath(c: Path, k: nat)
    requires 2 <= |c| && FirstSlot(c[1..]) <= k
    ensures 2 < |c| ==> forall y :: 2 <= y <= |c| ==> !([c[0], k] <= c[..y])
  {
    forall y | 2 <= y <= |c| && 2 < |c| ensures !([c[0], k] <= c[..y]) {
      assert [c[0], k][1] == k && c[..y][1] == c[1];
    }
  }

  lemma SlotIsBeyond(t: Tree, c: Path, k: nat)
    requires 2 <= |c| && FirstSlot(c[1..]) <= k
    ensures !HoldsLeft(t, [c[0], k], c)
  {
    forall r | r in t && [c[0], k] <= r ensures !LeftOf(r, c) {
      assert r[0] == [c[0], k][0] && r[1] == [c[0], k][1];
      LeftOfAfter(r, c, 1);
      if |c| == 2 && k == c[1] {
        assert c[..2] == [c[0], k];
        ZerosAfter(r, c, 2);
      }
    }
  }

  lemma ScrubsKeeps(g: Geometry, reserved: set<nat>, s: System, t: Tree, i: nat, b: nat, row: seq<nat>, r: System)
    requires Inv(g, reserved, s, t) && i < |s.threads| && Scrubs(s, i, b, row, r)
    ensures Inv(g, reserved, r, t)
  {
    PrivateChange(g, reserved, s, t, i, b, row);
    PutHeld(s.threads, i, s.threads[i]);
    assert r.threads == s.threads[i := s.threads[i]];
    StillAllowed(s, i, s.threads[i]);
    Assemble(g, reserved, s, t, i, s.threads[i], r, t);
  }

  lemma FreesOneKeeps(g: Geometry, reserved: set<nat>, s: System, t: Tree, i: nat, b: nat, r: System)
    requires Inv(g, reserved, s, t) && i < |s.threads| && FreesOne(s, i, b, r)
    ensures Inv(g, reserved, r, t) && (CutSafe(t, s.threads[i]) ==> CutSafe(t, r.threads[i]))
  {
    var th := Freed(s.threads[i], b);
    FreedLocal(g, s.media, t, s.threads[i], b);
    PutHeld(s.threads, i, th);
    StillAllowed(s, i, th);
    assert r.threads == s.threads[i := th] && r.busy == s.busy - {b};
    Assemble(g, reserved, s, t, i, th, r, t);
  }

  function Freed(th: Thread, b: nat): Thread {
    match th
    case Clearing(ino, offsets, chain, minus, limbo, passed) => Clearing(ino, offsets, chain, minus, limbo - {b}, passed)
    case _ => th
  }

  lemma FreedLocal(g: Geometry, m: Media, t: Tree, th: Thread, b: nat)
    requires Local(g, m, t, th) && th.Clearing?
    ensures Local(g, m, t, Freed(th, b)) && SameCall(Freed(th, b), th) && Held(Freed(th, b)) == Held(th) - {b}
    ensures CutSafe(t, th) ==> CutSafe(t, Freed(th, b))
  {
  }

  /** Behind a pointer after the path there is data from before the cut only. */
  lemma EndBelow(g: Geometry, m: Media, t: Tree, th: Thread, q: Path, x: nat)
    requires th.Clearing? && Local(g, m, t, th) && CutSafe(t, th) && AllPassed(g, th)
    requires q in t && 2 <= |q| && Leaf(q)
    requires 1 <= x < |th.chain| && x + 1 < |q| && q[..x + 1] == PathOf(th)[..x + 1] && q[x + 1] < g.fan
    requires FirstCleared(PathOf(th), x, |th.chain| - 1, th.minus) <= q[x + 1]
    ensures LeftOf(q, PathOf(th))
  {
    assert OnPath(t, PathOf(th), x, |th.chain| - 1, th.minus, th.chain[x].p);
    var p := EndOf(th.ino, th.offsets, x, q[x + 1]);
    assert p in th.passed && p == q[..x + 2];
    assert LeavesLeft(t, p, PathOf(th));
  }

  lemma SlotBelow(g: Geometry, t: Tree, th: Thread, q: Path)
    requires th.Clearing? && CutSafe(t, th) && AllPassed(g, th)
    requires q in t && 2 <= |q| && Leaf(q)
    requires q[0] == th.ino && FirstSlot(th.offsets) <= q[1] < SLOTS
    ensures LeftOf(q, PathOf(th))
  {
    var p: Path := [th.ino, q[1]];
    assert p in th.passed && p == q[..2];
    assert LeavesLeft(t, p, PathOf(th));
  }

  lemma SlicesAgree(c: Path, q: Path, j: nat, k: nat)
    requires k <= j <= |c| && j <= |q| && c[..j] == q[..j]
    ensures c[..k] == q[..k] && (k < j ==> c[k] == q[k])
  {
    assert c[..k] == c[..j][..k] && q[..k] == q[..j][..k];
    assert k < j ==> c[k] == c[..j][k] && q[k] == q[..j][k];
  }

  lemma SharedPrefix(c: Path, q: Path, j: nat, k: nat)
    requires k <= j < |c| && j < |q| && c[..j] == q[..j] && (k == j ==> c[j] == q[j])
    ensures c[..k + 1] <= q
  {
    forall x | 0 <= x < k + 1 ensures c[x] == q[x] {
      assert x < j ==> c[x] == c[..j][x] && q[x] == q[..j][x];
    }
  }

  /** A data block that leaves the path at level `j`, at or after the cut. */
  lemma BeyondIsLeft(g: Geometry, m: Media, t: Tree, th: Thread, q: Path, j: nat)
    requires th.Clearing? && Local(g, m, t, th) && CutSafe(t, th) && AllPassed(g, th)
    requires q in t && Position(g, |m.inodes|, q) && Leaf(q)
    requires 1 <= j < |q| && j < |PathOf(th)| && PathOf(th)[..j] == q[..j]
    requires PathOf(th)[j] < q[j] || (PathOf(th)[j] == q[j] && j == |PathOf(th)| - 1)
    ensures LeftOf(q, PathOf(th))
  {
    var c, l := PathOf(th), |th.chain|;
    SlicesAgree(c, q, j, 0);
    if j == 1 {
      SlotBelow(g, t, th, q);
    } else if j <= l && (c[j] < q[j] || th.minus) {
      EndBelow(g, m, t, th, q, j - 1);
    } else if th.minus {
      SlicesAgree(c, q, j, l);
      EndBelow(g, m, t, th, q, l - 1);
    } else {
      SharedPrefix(c, q, j, l);
      assert DealtWith(t, th.ino, th.offsets, l);
    }
  }

  /** When truncation has been through all its pointers, no block from the cut on is
      mapped, if it has kept what CutSafe says. */
  lemma ClearedMeansCut(g: Geometry, m: Media, t: Tree, th: Thread, q: Path)
    requires Rep(g, m, t) && th.Clearing? && Local(g, m, t, th) && CutSafe(t, th) && AllPassed(g, th)
    requires q in t && 2 <= |q| && Leaf(q) && q[0] == th.ino
    ensures LeftOf(q, PathOf(th))
  {
    var c := PathOf(th);
    assert Position(g, |m.inodes|, q);
    NothingBelowLeaf(g, |m.inodes|, c, q);
    NothingBelowLeaf(g, |m.inodes|, q, c);
    if q == c {
      BeyondIsLeft(g, m, t, th, q, |c| - 1);
    } else {
      var j := FirstDifference(q, c);
      if PartAt(c, q, j) {
        BeyondIsLeft(g, m, t, th, q, j);
      }
    }
  }

  /** What a truncation has dealt with stays so while others map blocks that it does not
      reach, or cut. */
  lemma CutSafeStays(g: Geometry, m: Media, t: Tree, u: Tree, x: Thread, th: Thread)
    requires MappedBy(t, u, x) && Local(g, m, t, x) && !Reaches(th, PathOf(x))
    requires Truncating(th) && CutSafe(t, th)
    ensures CutSafe(u, th)
  {
    var d, c := PathOf(x), PathOf(th);
    forall q | q in u && q !in t && 2 <= |q| && Leaf(q) ensures q == d {
      assert q in Trail(d, 2) && q == d[..|q|];
      assert q[1] == d[1];
    }
    match th
    case Cutting(ino, offsets, _, chain) =>
    case Clearing(ino, offsets, chain, _, _, passed) =>
      forall p | p in passed ensures LeavesLeft(u, p, c) {
        LeavesLeftKept(t, u, p, c, d);
      }
  }

  lemma LeavesLeftKept(t: Tree, u: Tree, p: Path, c: Path, d: Path)
    requires LeavesLeft(t, p, c) && forall q :: q in u && q !in t && 2 <= |q| && Leaf(q) ==> q == d
    requires p <= d ==> LeftOf(d, c)
    ensures LeavesLeft(u, p, c)
  {
  }
}
