/** What the calls of module Protocol come to: in which ways they can end, that they can
    always go on, and that a call that is left alone gets done. */
module Calls {
  import opened Paths
  import opened Tree
  import opened Cut
  import opened Chains
  import opened Protocol
  import opened Safety
  import opened Runs

  // How a creation ends

  /** The end of a call for which there was no space. */
  predicate GivingUp(th: Thread) {
    th.Undoing? && !th.again
  }

  ghost predicate SamePath(x: Thread, y: Thread) {
    !x.Idle? && !y.Idle? && PathOf(x) == PathOf(y)
  }

  /** A creation goes on until it has found its block or has found no space. */
  lemma CreationGoesOn(g: Geometry, s: System, i: nat, a: Action, r: System)
    requires ValidGeometry(g) && Step(g, s, i, a, r) && Creating(s.threads[i]) && !GivingUp(s.threads[i])
    ensures i < |r.threads| && SamePath(r.threads[i], s.threads[i])
    ensures r.threads[i].Found? || Creating(r.threads[i])
    ensures GivingUp(r.threads[i]) ==> a.NoSpace?
  {
  }

  lemma GivingUpGoesOn(g: Geometry, s: System, i: nat, a: Action, r: System)
    requires ValidGeometry(g) && Step(g, s, i, a, r) && GivingUp(s.threads[i])
    ensures i < |r.threads| && (r.threads[i].Idle? || (GivingUp(r.threads[i]) && SamePath(r.threads[i], s.threads[i])))
  {
  }

  /** Thread `th` is in a call for a logical block. */
  ghost predicate CallFor(g: Geometry, th: Thread, ino: nat, block: nat)
    requires 1 <= g.fan
  {
    Getting(th) && th.ino == ino && 1 <= |th.offsets| && LogicalBlock(g.fan, th.offsets) == block
  }

  lemma StartsFor(g: Geometry, s: System, i: nat, ino: nat, block: nat, create: bool, r: System)
    requires ValidGeometry(g) && Step(g, s, i, StartGet(ino, block, create), r)
    ensures i < |r.threads| && r.threads[i].Reading? && r.threads[i].create == create && r.threads[i].chain == []
    ensures CallFor(g, r.threads[i], ino, block)
  {
    PathReadsBack(g, block);
  }

  ghost predicate NoSpaceIn(moves: seq<Move>, i: nat) {
    exists k :: 0 <= k < |moves| && moves[k] == Move(i, NoSpace)
  }

  /** A creation under way: going on, or done, or giving up because there was no space. */
  ghost predicate UnderWay(g: Geometry, moves: seq<Move>, i: nat, th: Thread, ino: nat, block: nat)
    requires 1 <= g.fan
  {
    CallFor(g, th, ino, block) && (th.Found? || Creating(th)) && (GivingUp(th) ==> NoSpaceIn(moves, i))
  }

  lemma UnderWayStep(g: Geometry, moves: seq<Move>, i: nat, s: System, move: Move, r: System, ino: nat, block: nat)
    requires ValidGeometry(g) && Step(g, s, move.thread, move.action, r)
    requires i < |s.threads| && UnderWay(g, moves, i, s.threads[i], ino, block)
    ensures i < |r.threads|
    ensures r.threads[i].Idle? ==> s.threads[i].Found? || NoSpaceIn(moves, i)
    ensures !r.threads[i].Idle? ==> UnderWay(g, moves + [move], i, r.threads[i], ino, block)
  {
    OthersStay(g, s, move.thread, move.action, r);
    assert forall k :: 0 <= k < |moves| ==> (moves + [move])[k] == moves[k];
    assert (moves + [move])[|moves|] == move;
    if move.thread == i {
      if GivingUp(s.threads[i]) {
        GivingUpGoesOn(g, s, i, move.action, r);
      } else if Creating(s.threads[i]) {
        CreationGoesOn(g, s, i, move.action, r);
        PathSplits(s.threads[i], r.threads[i]);
      } else {
        ReturnsOnly(g, s, i, move.action, r);
      }
    }
  }

  lemma PathSplits(x: Thread, y: Thread)
    requires SamePath(x, y)
    ensures x.ino == y.ino && x.offsets == y.offsets
  {
    assert PathOf(x)[0] == PathOf(y)[0] && PathOf(x)[1..] == PathOf(y)[1..];
    assert PathOf(x)[1..] == x.offsets && PathOf(y)[1..] == y.offsets;
  }

  lemma ReturnsOnly(g: Geometry, s: System, i: nat, a: Action, r: System)
    requires ValidGeometry(g) && Step(g, s, i, a, r) && s.threads[i].Found?
    ensures i < |r.threads| && r.threads[i].Idle?
  {
  }

  lemma {:induction false} CreationIsUnderWay(g: Geometry, states: seq<System>, moves: seq<Move>, i: nat, ino: nat, block: nat)
    requires ValidGeometry(g) && Run(g, states, moves) && moves != [] && moves[0] == Move(i, StartGet(ino, block, true))
    requires forall k :: 1 <= k < |states| && i < |states[k].threads| ==> !states[k].threads[i].Idle?
    ensures i < |states[|moves|].threads| && UnderWay(g, moves, i, states[|moves|].threads[i], ino, block)
    decreases |moves|
  {
    var n := |moves| - 1;
    assert Step(g, states[n], moves[n].thread, moves[n].action, states[n + 1]);
    if n == 0 {
      StartsFor(g, states[0], i, ino, block, true, states[1]);
    } else {
      RunPrefix(g, states, moves, n);
      CreationIsUnderWay(g, states[..n + 1], moves[..n], i, ino, block);
      assert states[..n + 1][n] == states[n] && moves[..n] + [moves[n]] == moves;
      UnderWayStep(g, moves[..n], i, states[n], moves[n], states[n + 1], ino, block);
    }
  }

  /** A call of gas_get_block that may create ends in two ways: it has found its block, or
      there was no space. It never returns with nothing tried. */
  lemma CreationEnds(g: Geometry, states: seq<System>, moves: seq<Move>, i: nat, ino: nat, block: nat)
    requires ValidGeometry(g) && Run(g, states, moves) && 2 <= |moves| && moves[0] == Move(i, StartGet(ino, block, true))
    requires forall k :: 1 <= k < |moves| && i < |states[k].threads| ==> !states[k].threads[i].Idle?
    requires i < |states[|moves|].threads| && states[|moves|].threads[i].Idle?
    ensures var n := |moves| - 1;
            && i < |states[n].threads|
            && ((states[n].threads[i].Found? && CallFor(g, states[n].threads[i], ino, block)) || NoSpaceIn(moves, i))
  {
    var n := |moves| - 1;
    RunPrefix(g, states, moves, n);
    CreationIsUnderWay(g, states[..n + 1], moves[..n], i, ino, block);
    assert states[..n + 1][n] == states[n] && Step(g, states[n], moves[n].thread, moves[n].action, states[n + 1]);
    UnderWayStep(g, moves[..n], i, states[n], moves[n], states[n + 1], ino, block);
    if NoSpaceIn(moves[..n], i) {
      var k :| 0 <= k < n && moves[..n][k] == Move(i, NoSpace);
      assert moves[k] == Move(i, NoSpace);
    }
  }

  // A creation that is left alone gets done

  /** The pointers that the call has read still hold, and the last one can be spliced. */
  ghost predicate StillGood(m: Media, th: Thread) {
    match th
    case Reading(_, _, _, chain) => Current(m, chain)
    case Allocating(_, _, chain, _) => CanSplice(m, chain)
    case Joining(_, _, chain, _, _) => CanSplice(m, chain)
    case _ => true
  }

  ghost predicate CanSplice(m: Media, chain: seq<Indirect>) {
    chain != [] && Exists(m, LastOf(chain).p) && SpliceFits(m, chain)
  }

  /** How far a creation is from its end, when nobody interferes. */
  ghost function Remaining(m: Media, th: Thread): int {
    match th
    case Reading(_, offsets, _, chain) =>
      if Current(m, chain) then 3 * |offsets| + 3 - |chain| else 6 * |offsets| + 9
    case Allocating(_, offsets, chain, branch) =>
      2 + 2 * (|offsets| + 1 - |chain| - |branch|) + (if CanSplice(m, chain) then 0 else 4 * |offsets| + 6)
    case Joining(_, offsets, chain, branch, _) =>
      1 + 2 * (|offsets| + 1 - |chain| - |branch|) + (if CanSplice(m, chain) then 0 else 4 * |offsets| + 6)
    case Undoing(_, offsets, branch, _) => 3 * |offsets| + 4 + |branch|
    case _ => 0
  }

  lemma RemainingBounds(g: Geometry, m: Media, t: Tree, th: Thread)
    requires Local(g, m, t, th)
    ensures 0 <= Remaining(m, th) <= 33
  {
    if Creating(th) {
      var c := PathOf(th);
      assert c[1..] == th.offsets && c[1] == th.offsets[0];
    }
  }

  /** The step brings the creation of thread `i` nearer to its end. */
  ghost predicate Nearer(s: System, i: nat, r: System) {
    i < |s.threads| == |r.threads|
    && (r.threads[i].Found?
        || (Creating(r.threads[i]) && !GivingUp(r.threads[i]) && Remaining(r.media, r.threads[i]) < Remaining(s.media, s.threads[i])))
  }

  lemma ReadingNearer(g: Geometry, reserved: set<nat>, s: System, t: Tree, i: nat, r: System)
    requires Inv(g, reserved, s, t) && i < |s.threads| && Creating(s.threads[i])
    requires ReadsFirst(s, i, r) || ReadsNext(s, i, r)
    ensures Nearer(s, i, r)
  {
    match s.threads[i]
    case Reading(ino, offsets, create, chain) =>
      assert Local(g, s.media, t, s.threads[i]);
      if chain == [] || Current(s.media, chain) {
        ReadKeepsShape(s.media, [ino] + offsets, ino, offsets, chain);
      }
  }

  lemma DoneNearer(g: Geometry, reserved: set<nat>, s: System, t: Tree, i: nat, r: System)
    requires Inv(g, reserved, s, t) && i < |s.threads| && Creating(s.threads[i]) && ReadsDone(s, i, r)
    ensures Nearer(s, i, r)
  {
    match s.threads[i]
    case Reading(ino, offsets, create, chain) =>
      assert Local(g, s.media, t, s.threads[i]);
      if Current(s.media, chain) && LastOf(chain).key == 0 {
        assert CanSplice(s.media, chain);
      }
  }

  lemma TakeNearer(g: Geometry, reserved: set<nat>, s: System, t: Tree, i: nat, b: nat, r: System)
    requires Inv(g, reserved, s, t) && i < |s.threads| && Takes(s, i, b, r)
    ensures Nearer(s, i, r)
  {
  }

  /** A link changes no pointer of the chain. */
  lemma LinkNearer(g: Geometry, reserved: set<nat>, s: System, t: Tree, i: nat, r: System)
    requires Inv(g, reserved, s, t) && i < |s.threads| && Links(g, s, i, r)
    ensures Nearer(s, i, r)
  {
    match s.threads[i]
    case Joining(ino, offsets, chain, branch, b) =>
      assert Local(g, s.media, t, s.threads[i]);
      if CanSplice(s.media, chain) {
        LinkKeepsGood(g, reserved, s, t, i, r);
      }
  }

  lemma LinkKeepsGood(g: Geometry, reserved: set<nat>, s: System, t: Tree, i: nat, r: System)
    requires Inv(g, reserved, s, t) && i < |s.threads| && Links(g, s, i, r) && CanSplice(s.media, s.threads[i].chain)
    ensures CanSplice(r.media, s.threads[i].chain)
  {
    match s.threads[i]
    case Joining(ino, offsets, chain, branch, b) =>
      assert Local(g, s.media, t, s.threads[i]);
      SpliceChain(g, s.media, t, [ino] + offsets, chain);
      var last := branch[|branch| - 1];
      assert last in Held(s.threads[i]);
      PutHeld(s.threads, i, Idle);
      assert last !in t.Values;
      forall j | 0 <= j < |chain| ensures Exists(r.media, chain[j].p) && Load(r.media, chain[j].p) == Load(s.media, chain[j].p) {
        ChainOnTree(g, s.media, t, [ino] + offsets, chain, j);
      }
  }

  lemma ChainOnTree(g: Geometry, m: Media, t: Tree, c: Path, chain: seq<Indirect>, j: nat)
    requires Rep(g, m, t) && IsChain(g, |m.inodes|, t, c, chain) && j < |chain|
    ensures Exists(m, chain[j].p) && (chain[j].p.BlockSlot? ==> chain[j].p.block in t.Values)
  {
    var p := c[..j + 2];
    assert IsLink(g, |m.inodes|, t, c, j, chain[j]);
    assert Holds(m, SlotOf(t, p), Get(t, p));
    if 3 <= |p| {
      assert t[Parent(p)] in t.Values;
    }
  }

  lemma SpliceNearer(g: Geometry, reserved: set<nat>, s: System, t: Tree, i: nat, r: System)
    requires Inv(g, reserved, s, t) && i < |s.threads| && Splices(s, i, r)
    ensures Nearer(s, i, r)
  {
    assert Local(g, s.media, t, s.threads[i]);
  }

  lemma UndoNearer(g: Geometry, s: System, i: nat, r: System)
    requires i < |s.threads| && Undoes(s, i, r) && !GivingUp(s.threads[i])
    ensures Nearer(s, i, r)
  {
  }

  /** Every step of a creation but NoSpace brings it nearer to its end. */
  lemma SoloNearer(g: Geometry, reserved: set<nat>, s: System, t: Tree, i: nat, a: Action, r: System)
    requires Inv(g, reserved, s, t) && Step(g, s, i, a, r) && Creating(s.threads[i]) && !GivingUp(s.threads[i]) && !a.NoSpace?
    ensures Nearer(s, i, r)
  {
    match a
    case ReadFirst => ReadingNearer(g, reserved, s, t, i, r);
    case ReadNext => ReadingNearer(g, reserved, s, t, i, r);
    case ReadDone => DoneNearer(g, reserved, s, t, i, r);
    case Take(b) => TakeNearer(g, reserved, s, t, i, b, r);
    case Link => LinkNearer(g, reserved, s, t, i, r);
    case Splice => SpliceNearer(g, reserved, s, t, i, r);
    case Undo => UndoNearer(g, s, i, r);
    case _ =>
  }

  ghost predicate Solo(moves: seq<Move>, i: nat) {
    forall k :: 0 <= k < |moves| ==> moves[k].thread == i && !moves[k].action.NoSpace?
  }

  /** A creation that is left alone, and finds space, has found its block after at most 34
      steps (see RemainingBounds), however much has interfered until then. */
  lemma {:induction false} SoloFinds(g: Geometry, reserved: set<nat>, states: seq<System>, moves: seq<Move>, t: Tree, i: nat)
    returns (k: nat)
    requires ValidGeometry(g) && Run(g, states, moves) && Inv(g, reserved, states[0], t) && Solo(moves, i)
    requires i < |states[0].threads| && Creating(states[0].threads[i]) && !GivingUp(states[0].threads[i])
    requires Remaining(states[0].media, states[0].threads[i]) < |moves|
    ensures k <= |moves| && i < |states[k].threads| && states[k].threads[i].Found?
    decreases |moves|
  {
    var move := moves[0];
    SoloNearer(g, reserved, states[0], t, i, move.action, states[1]);
    if states[1].threads[i].Found? {
      k := 1;
    } else {
      var u := StepKeeps(g, reserved, states[0], t, i, move.action, states[1]);
      RemainingBounds(g, states[1].media, u, states[1].threads[i]);
      RunFrom(g, states, moves, 1);
      k := SoloFinds(g, reserved, states[1..], moves[1..], u, i);
      k := k + 1;
    }
  }

  // Nobody is stuck

  /** The pointers of a creation can be looked at. */
  lemma SlotsExist(g: Geometry, m: Media, t: Tree, c: Path, chain: seq<Indirect>, j: nat)
    requires ValidGeometry(g) && Rep(g, m, t) && GoodPath(g, |m.inodes|, c) && ChainShape(c, chain) && InRange(g, chain) && j < |chain|
    ensures Exists(m, chain[j].p)
  {
    assert ShapeAt(c, chain, j);
  }

  /** The pointer after a chain that holds can be read. */
  lemma NextExists(g: Geometry, m: Media, t: Tree, c: Path, ino: nat, offsets: seq<nat>, chain: seq<Indirect>)
    requires ValidGeometry(g) && Rep(g, m, t) && GoodPath(g, |m.inodes|, c) && c == [ino] + offsets && |chain| < |offsets|
    requires ChainShape(c, chain) && Current(m, chain) && (chain != [] ==> LastOf(chain).key != 0)
    ensures Exists(m, NextSlot(ino, offsets, chain))
  {
    if chain != [] {
      var k := |chain| - 1;
      Verified(g, m, t, c, chain);
      assert IsLink(g, |m.inodes|, t, c, k, chain[k]);
      assert c[..k + 2] in t && Position(g, |m.inodes|, c[..k + 2]);
    }
  }

  lemma ReadingCanStep(g: Geometry, reserved: set<nat>, s: System, t: Tree, i: nat) returns (a: Action, r: System)
    requires Inv(g, reserved, s, t) && i < |s.threads| && s.threads[i].Reading?
    ensures Step(g, s, i, a, r) && !a.NoSpace?
  {
    match s.threads[i]
    case Reading(ino, offsets, create, chain) =>
      assert Local(g, s.media, t, s.threads[i]);
      var c := [ino] + offsets;
      if chain == [] {
        NextExists(g, s.media, t, c, ino, offsets, chain);
        a, r := ReadFirst, Put(s, i, Reading(ino, offsets, create, ReadInto(s.media, ino, offsets, chain)));
      } else if LastOf(chain).key == 0 || |chain| == |offsets| {
        a := ReadDone;
        r := Put(s, i, if LastOf(chain).key != 0 then Found(ino, offsets, LastOf(chain).key)
                       else if create then Allocating(ino, offsets, chain, [])
                       else Idle);
      } else if Current(s.media, chain) {
        NextExists(g, s.media, t, c, ino, offsets, chain);
        a, r := ReadNext, Put(s, i, Reading(ino, offsets, create, ReadInto(s.media, ino, offsets, chain)));
      } else {
        a, r := ReadNext, Put(s, i, if create then Reading(ino, offsets, create, []) else Idle);
      }
  }

  lemma AllocatingCanStep(g: Geometry, reserved: set<nat>, s: System, t: Tree, i: nat) returns (a: Action, r: System)
    requires Inv(g, reserved, s, t) && i < |s.threads| && s.threads[i].Allocating?
    ensures Step(g, s, i, a, r)
    ensures a.NoSpace? ==> forall b :: 0 <= b < s.total ==> b in s.busy
  {
    match s.threads[i]
    case Allocating(ino, offsets, chain, branch) =>
      assert Local(g, s.media, t, s.threads[i]);
      if |branch| + |chain| <= |offsets| {
        if b: nat :| b < s.total && b !in s.busy {
          a := Take(b);
          r := Put(s, i, if branch == [] then Allocating(ino, offsets, chain, [b]) else Joining(ino, offsets, chain, branch, b))
               .(busy := s.busy + {b});
        } else {
          a, r := NoSpace, Put(s, i, Undoing(ino, offsets, branch, false));
        }
      } else {
        SlotsExist(g, s.media, t, [ino] + offsets, chain, |chain| - 1);
        a := Splice;
        if SpliceFits(s.media, chain) {
          r := Put(s, i, Found(ino, offsets, branch[|branch| - 1])).(media := Store(s.media, LastOf(chain).p, branch[0]));
        } else {
          r := Put(s, i, Undoing(ino, offsets, branch, true));
        }
      }
  }

  lemma JoiningCanStep(g: Geometry, reserved: set<nat>, s: System, t: Tree, i: nat) returns (a: Action, r: System)
    requires Inv(g, reserved, s, t) && i < |s.threads| && s.threads[i].Joining?
    ensures Step(g, s, i, a, r) && !a.NoSpace?
  {
    match s.threads[i]
    case Joining(ino, offsets, chain, branch, b) =>
      assert Local(g, s.media, t, s.threads[i]);
      var last := branch[|branch| - 1];
      assert last in Held(s.threads[i]);
      PutHeld(s.threads, i, Idle);
      a := Link;
      r := Put(s, i, Allocating(ino, offsets, chain, branch + [b]))
           .(media := Linking(g, s.media, last, offsets[|chain| + |branch| - 1], b));
  }

  /** A call of gas_get_block can always take a step, and need not give up for want of
      space as long as there is a free block. */
  lemma CallCanStep(g: Geometry, reserved: set<nat>, s: System, t: Tree, i: nat) returns (a: Action, r: System)
    requires Inv(g, reserved, s, t) && i < |s.threads| && Getting(s.threads[i])
    ensures Step(g, s, i, a, r)
    ensures a.NoSpace? ==> forall b :: 0 <= b < s.total ==> b in s.busy
  {
    match s.threads[i]
    case Reading(_, _, _, _) => a, r := ReadingCanStep(g, reserved, s, t, i);
    case Allocating(_, _, _, _) => a, r := AllocatingCanStep(g, reserved, s, t, i);
    case Joining(_, _, _, _, _) => a, r := JoiningCanStep(g, reserved, s, t, i);
    case Undoing(ino, offsets, branch, again) =>
      a := Undo;
      if branch != [] {
        r := Put(s, i, Undoing(ino, offsets, branch[1..], again)).(busy := s.busy - {branch[0]});
      } else {
        r := Put(s, i, if again then Reading(ino, offsets, true, []) else Idle);
      }
    case Found(_, _, _) => a, r := Return, Put(s, i, Idle);
  }

  // A block that is mapped is found

  /** The pointers of the chain are those of the tree on the way to `c`, all of them set. */
  ghost predicate OnWay(t: Tree, c: Path, chain: seq<Indirect>) {
    |chain| < |c| && forall j {:trigger OnWayAt(t, c, chain, j)} :: 0 <= j < |chain| ==> OnWayAt(t, c, chain, j)
  }

  ghost predicate OnWayAt(t: Tree, c: Path, chain: seq<Indirect>, j: nat) {
    && j < |chain| && j + 2 <= |c| && c[..j + 2] in t && (1 <= j ==> c[..j + 1] in t)
    && chain[j] == Indirect(if j == 0 then InodeSlot(c[0], c[1]) else BlockSlot(t[c[..j + 1]], c[j + 1]), t[c[..j + 2]])
  }

  /** If the call of `th` is for the logical block at `c`, it is on its way there. */
  ghost predicate OnItsWay(t: Tree, th: Thread, c: Path) {
    match th
    case Reading(ino, offsets, _, chain) => [ino] + offsets == c ==> OnWay(t, c, chain)
    case Allocating(ino, offsets, _, _) => [ino] + offsets != c
    case Joining(ino, offsets, _, _, _) => [ino] + offsets != c
    case Undoing(ino, offsets, _, _) => [ino] + offsets != c
    case _ => true
  }

  /** A chain on the way to a mapped block holds, and so does its next pointer. */
  lemma OnWayHolds(g: Geometry, m: Media, t: Tree, c: Path, ino: nat, offsets: seq<nat>, chain: seq<Indirect>)
    requires Rep(g, m, t) && 1 <= g.dataStart && Position(g, |m.inodes|, c) && c in t && c == [ino] + offsets
    requires OnWay(t, c, chain) && |chain| < |offsets|
    ensures Current(m, chain) && (chain != [] ==> LastOf(chain).key != 0)
    ensures Exists(m, NextSlot(ino, offsets, chain)) && OnWay(t, c, ReadInto(m, ino, offsets, chain))
  {
    var n, k := |m.inodes|, |chain|;
    forall j | 0 <= j < k ensures Exists(m, chain[j].p) && Load(m, chain[j].p) == chain[j].key && chain[j].key != 0 {
      assert OnWayAt(t, c, chain, j);
      PointerOnWay(g, m, t, c, j);
    }
    PointerOnWay(g, m, t, c, k);
    assert k != 0 ==> OnWayAt(t, c, chain, k - 1);
    var after := ReadInto(m, ino, offsets, chain);
    forall j | 0 <= j <= k ensures OnWayAt(t, c, after, j) {
      assert j < k ==> OnWayAt(t, c, chain, j);
    }
  }

  /** The pointer at level `j` on the way to a mapped block. */
  lemma PointerOnWay(g: Geometry, m: Media, t: Tree, c: Path, j: nat)
    requires Rep(g, m, t) && 1 <= g.dataStart && Position(g, |m.inodes|, c) && c in t && j + 2 <= |c|
    ensures var p := c[..j + 2];
            && p in t && (1 <= j ==> c[..j + 1] in t) && t[p] != 0
            && SlotOf(t, p) == (if j == 0 then InodeSlot(c[0], c[1]) else BlockSlot(t[c[..j + 1]], c[j + 1]))
            && Holds(m, SlotOf(t, p), t[p])
  {
    var p := c[..j + 2];
    PrefixIn(t, p, c);
    assert Position(g, |m.inodes|, p) && p[0] == c[0] && p[1] == c[1];
    if 1 <= j {
      PrefixIn(t, c[..j + 1], c);
      assert Parent(p) == c[..j + 1] && Last(p) == c[j + 1];
    }
    assert HasSlot(g, |m.inodes|, t, p);
    assert Holds(m, SlotOf(t, p), Get(t, p));
  }

  /** What is on the way to a mapped block stays there, unless a truncation reaches it. */
  lemma WayStays(t: Tree, u: Tree, th: Thread, c: Path)
    requires Changed(t, u, th) && Closed(t) && c in t && 2 <= |c| && Leaf(c) && !Reaches(th, c)
    ensures c in u && PathKept(t, u, c)
  {
    forall j | 2 <= j <= |c| ensures Keeps(t, u, c[..j]) {
      var q := c[..j];
      if MappedBy(t, u, th) {
        assert q in t ==> q in u.Keys;
      } else if u != t {
        var p :| CutFrom(t, u, p, th);
        assert !(p <= c);
        assert p <= q ==> p <= c;
      }
    }
    assert Keeps(t, u, c[..|c|]) && c == c[..|c|];
  }

  lemma OnWayStays(t: Tree, u: Tree, th: Thread, c: Path, chain: seq<Indirect>)
    requires Changed(t, u, th) && Closed(t) && c in t && 2 <= |c| && Leaf(c) && !Reaches(th, c) && OnWay(t, c, chain)
    ensures OnWay(u, c, chain)
  {
    WayStays(t, u, th, c);
    forall j | 0 <= j < |chain| ensures OnWayAt(u, c, chain, j) {
      assert OnWayAt(t, c, chain, j) && Keeps(t, u, c[..j + 2]);
      assert 1 <= j ==> Keeps(t, u, c[..j + 1]);
    }
  }

  lemma WayOfReading(g: Geometry, reserved: set<nat>, s: System, t: Tree, i: nat, a: Action, r: System, c: Path)
    requires Inv(g, reserved, s, t) && Step(g, s, i, a, r) && NobodyReaches(s, c)
    requires Position(g, |s.media.inodes|, c) && Leaf(c) && c in t && OnItsWay(t, s.threads[i], c)
    requires s.threads[i].Reading? && PathOf(s.threads[i]) == c
    ensures OnItsWay(t, r.threads[i], c) && !r.threads[i].Idle?
  {
    match s.threads[i]
    case Reading(ino, offsets, create, chain) =>
      if |chain| < |offsets| {
        OnWayHolds(g, s.media, t, c, ino, offsets, chain);
      } else {
        assert OnWayAt(t, c, chain, |chain| - 1);
        PointerOnWay(g, s.media, t, c, |chain| - 1);
      }
  }

  lemma OffTheWay(g: Geometry, s: System, t: Tree, i: nat, a: Action, r: System, u: Tree, c: Path)
    requires ValidGeometry(g) && Step(g, s, i, a, r) && OnItsWay(t, s.threads[i], c) && 2 <= |c|
    requires !(s.threads[i].Reading? && PathOf(s.threads[i]) == c)
    ensures i < |r.threads| && OnItsWay(u, r.threads[i], c)
  {
  }

  /** Thread `i` stays on its way in every step. */
  lemma WayStep(g: Geometry, reserved: set<nat>, s: System, t: Tree, j: nat, a: Action, r: System, i: nat, c: Path) returns (u: Tree)
    requires Inv(g, reserved, s, t) && Step(g, s, j, a, r) && NobodyReaches(s, c) && i < |s.threads|
    requires Position(g, |s.media.inodes|, c) && Leaf(c) && c in t && OnItsWay(t, s.threads[i], c)
    ensures Inv(g, reserved, r, u) && i < |r.threads| && |r.media.inodes| == |s.media.inodes|
    ensures c in u && OnItsWay(u, r.threads[i], c)
  {
    u := StepKeeps(g, reserved, s, t, j, a, r);
    SameSize(g, s, j, a, r);
    OthersStay(g, s, j, a, r);
    WayStays(t, u, s.threads[j], c);
    if j != i {
      match s.threads[i]
      case Reading(ino, offsets, _, chain) =>
        if [ino] + offsets == c {
          OnWayStays(t, u, s.threads[j], c, chain);
        }
      case _ =>
    } else if s.threads[i].Reading? && PathOf(s.threads[i]) == c {
      WayOfReading(g, reserved, s, t, i, a, r, c);
      assert !a.Splice?;
    } else {
      OffTheWay(g, s, t, i, a, r, u, c);
    }
  }

  lemma {:induction false} RunOnWay(g: Geometry, reserved: set<nat>, states: seq<System>, moves: seq<Move>, t: Tree, i: nat, c: Path)
    returns (u: Tree)
    requires ValidGeometry(g) && Run(g, states, moves) && Inv(g, reserved, states[0], t) && NeverReached(states, c)
    requires Position(g, |states[0].media.inodes|, c) && Leaf(c) && c in t
    requires i < |states[0].threads| && OnItsWay(t, states[0].threads[i], c)
    ensures var s := states[|moves|];
            && Inv(g, reserved, s, u) && |s.media.inodes| == |states[0].media.inodes| && i < |s.threads|
            && c in u && OnItsWay(u, s.threads[i], c)
    decreases |moves|
  {
    u := t;
    if moves != [] {
      assert NobodyReaches(states[0], c);
      u := WayStep(g, reserved, states[0], t, moves[0].thread, moves[0].action, states[1], i, c);
      RunFrom(g, states, moves, 1);
      assert forall k :: 0 <= k < |states[1..]| ==> states[1..][k] == states[k + 1];
      u := RunOnWay(g, reserved, states[1..], moves[1..], u, i, c);
      assert states[1..][|moves[1..]|] == states[|moves|];
    }
  }

  /** A lookup does not miss a block that is mapped: over a run in which no truncation under
      way reaches the logical block, a call that begins when it is mapped, and has not
      returned it yet, can only go on reading, or has found it. */
  lemma MappedIsFound(g: Geometry, reserved: set<nat>, states: seq<System>, moves: seq<Move>, t: Tree, i: nat, a: Action, r: System, c: Path)
    requires ValidGeometry(g) && Run(g, states, moves) && Inv(g, reserved, states[0], t) && NeverReached(states, c)
    requires Position(g, |states[0].media.inodes|, c) && Leaf(c) && Walk(states[0].media, c) != 0
    requires i < |states[0].threads| && states[0].threads[i].Idle?
    requires i < |states[|moves|].threads| && Getting(states[|moves|].threads[i]) && PathOf(states[|moves|].threads[i]) == c
    requires Step(g, states[|moves|], i, a, r) && i < |r.threads|
    ensures states[|moves|].threads[i].Reading? || states[|moves|].threads[i].Found?
    ensures r.threads[i].Idle? ==> states[|moves|].threads[i].Found?
  {
    WalkIsGet(g, states[0].media, t, c);
    var u := RunOnWay(g, reserved, states, moves, t, i, c);
    var s := states[|moves|];
    assert NobodyReaches(s, c);
    if s.threads[i].Reading? {
      WayOfReading(g, reserved, s, u, i, a, r, c);
    }
  }

  // Truncations

  /** A truncation of an inode to `block` blocks reaches just the logical blocks from
      `block` on. */
  lemma CutReachesFrom(g: Geometry, s: System, i: nat, ino: nat, block: nat, r: System, c: Path)
    requires ValidGeometry(g) && Step(g, s, i, StartCut(ino, block), r)
    requires Position(g, |s.media.inodes|, c) && Leaf(c)
    ensures i < |r.threads| && Truncating(r.threads[i])
    ensures Reaches(r.threads[i], c) <==> c[0] == ino && block <= LogicalBlock(g.fan, c[1..])
  {
    BlockPosition(g, |s.media.inodes|, ino, block);
    var d := [ino] + BlockToPath(g, block);
    assert PathOf(r.threads[i]) == d;
    if c[0] == ino {
      OrderOfPositions(g, |s.media.inodes|, c, d);
    }
  }

  lemma CutReadingCanStep(g: Geometry, reserved: set<nat>, s: System, t: Tree, i: nat) returns (a: Action, r: System)
    requires Inv(g, reserved, s, t) && i < |s.threads| && s.threads[i].Cutting?
    requires s.threads[i].chain == [] || (LastOf(s.threads[i].chain).key != 0 && |s.threads[i].chain| < s.threads[i].depth)
    ensures Step(g, s, i, a, r)
  {
    match s.threads[i]
    case Cutting(ino, offsets, depth, chain) =>
      assert Local(g, s.media, t, s.threads[i]);
      var c := [ino] + offsets;
      if chain == [] {
        NextExists(g, s.media, t, c, ino, offsets, chain);
        a, r := CutReadFirst, Put(s, i, Cutting(ino, offsets, depth, ReadInto(s.media, ino, offsets, chain)));
      } else {
        CutChainIsCurrent(g, reserved, s, t, i);
        OnTreeShape(g, s.media, t, c, chain);
        ChainNext(g, s.media, t, c, ino, offsets, chain);
        a, r := CutReadNext, Put(s, i, Cutting(ino, offsets, depth, ReadInto(s.media, ino, offsets, chain)));
      }
  }

  lemma ChainNext(g: Geometry, m: Media, t: Tree, c: Path, ino: nat, offsets: seq<nat>, chain: seq<Indirect>)
    requires ValidGeometry(g) && Rep(g, m, t) && GoodPath(g, |m.inodes|, c) && c == [ino] + offsets
    requires chain != [] && |chain| < |offsets| && IsChain(g, |m.inodes|, t, c, chain) && LastOf(chain).key != 0
    ensures Exists(m, NextSlot(ino, offsets, chain))
  {
    var k := |chain| - 1;
    assert IsLink(g, |m.inodes|, t, c, k, chain[k]);
    assert c[..k + 2] in t && Position(g, |m.inodes|, c[..k + 2]);
  }

  /** The pointers of a truncation are in blocks of its tree. */
  lemma CutSlotsExist(g: Geometry, m: Media, t: Tree, c: Path, chain: seq<Indirect>, j: nat)
    requires Rep(g, m, t) && OnTree(g, |m.inodes|, t, c, chain) && j < |chain|
    ensures Exists(m, chain[j].p)
    ensures 1 <= j ==> chain[j].p.BlockSlot? && chain[j].p.i == c[j + 1]
  {
    assert OnTreeAt(g, |m.inodes|, t, c, j, chain[j]);
    assert Holds(m, SlotOf(t, c[..j + 2]), Get(t, c[..j + 2]));
    assert Last(c[..j + 2]) == c[j + 1];
  }

  lemma CutSharedCanStep(g: Geometry, reserved: set<nat>, s: System, t: Tree, i: nat) returns (r: System)
    requires Inv(g, reserved, s, t) && i < |s.threads| && s.threads[i].Cutting? && s.threads[i].chain != []
    requires LastOf(s.threads[i].chain).key == 0 || |s.threads[i].chain| == s.threads[i].depth
    ensures CutsShared(s, i, r)
  {
    var th := s.threads[i];
    var p := ClimbTo(s.media, th.chain, |th.chain| - 1);
    assert Local(g, s.media, t, th);
    CutSlotsExist(g, s.media, t, PathOf(th), th.chain, |th.chain| - 1);
    CutSlotsExist(g, s.media, t, PathOf(th), th.chain, p);
    r := CutSharedFrom(s, i, p);
  }

  lemma CutSharedFrom(s: System, i: nat, p: nat) returns (r: System)
    requires i < |s.threads| && s.threads[i].Cutting? && s.threads[i].chain != []
    requires var th := s.threads[i];
             && (LastOf(th.chain).key == 0 || |th.chain| == th.depth) && |th.chain| <= |th.offsets|
             && p == ClimbTo(s.media, th.chain, |th.chain| - 1)
             && Exists(s.media, LastOf(th.chain).p) && Exists(s.media, th.chain[p].p)
             && (p + 1 == th.depth && p > 0 ==> th.chain[p].p.BlockSlot? && 1 <= th.chain[p].p.i)
    ensures CutsShared(s, i, r)
  {
    var th := s.threads[i];
    if LastOf(th.chain).key == 0 && Load(s.media, LastOf(th.chain).p) != 0 {
      r := Put(s, i, Clearing(th.ino, th.offsets, th.chain, false, {}, {}));
    } else if p + 1 == th.depth && p > 0 {
      r := Put(s, i, Clearing(th.ino, th.offsets, StepBack(th.chain, p), true, {}, {}));
    } else {
      r := CutOffAt(s, i, p);
    }
  }

  lemma CutOffAt(s: System, i: nat, p: nat) returns (r: System)
    requires i < |s.threads| && s.threads[i].Cutting? && p < |s.threads[i].chain| <= |s.threads[i].offsets|
    requires Exists(s.media, s.threads[i].chain[p].p)
    ensures CutsAt(s, i, p, r)
  {
    var th := s.threads[i];
    var q := th.chain[p].p;
    r := Put(s, i, Clearing(th.ino, th.offsets, th.chain[..p + 1], false, Behind(s.media, Load(s.media, q), |th.offsets| - 1 - p), {}))
         .(media := Store(s.media, q, 0));
  }

  lemma EndExists(g: Geometry, m: Media, t: Tree, th: Thread, x: nat, k: nat)
    requires Rep(g, m, t) && th.Clearing? && Local(g, m, t, th) && 1 <= x < |th.chain| && k < g.fan
    ensures th.chain[x].p.BlockSlot? && Exists(m, BlockSlot(th.chain[x].p.block, k))
  {
    var c := PathOf(th);
    assert OnPath(t, c, x, |th.chain| - 1, th.minus, th.chain[x].p);
    var q := c[..x + 1];
    assert q[1] == c[1];
    ChildSlot(g, |m.inodes|, t, q, k);
    assert Holds(m, SlotOf(t, q + [k]), Get(t, q + [k]));
  }

  lemma ClearEndCanStep(g: Geometry, s: System, t: Tree, i: nat, x: nat, k: nat) returns (r: System)
    requires ValidGeometry(g) && Rep(g, s.media, t) && i < |s.threads| && s.threads[i].Clearing? && Local(g, s.media, t, s.threads[i])
    requires Alone(s, i) && 1 <= x < |s.threads[i].chain| && s.threads[i].chain[x].p.BlockSlot? && s.threads[i].chain[x].p.i < k < g.fan
    requires EndOf(s.threads[i].ino, s.threads[i].offsets, x, k) !in s.threads[i].passed
    ensures ClearsEnd(s, i, x, k, r)
  {
    match s.threads[i]
    case Clearing(ino, offsets, chain, minus, limbo, passed) =>
      EndExists(g, s.media, t, s.threads[i], x, k);
      var p, q := BlockSlot(chain[x].p.block, k), EndOf(ino, offsets, x, k);
      r := Put(s, i, Clearing(ino, offsets, chain, minus, limbo + Behind(s.media, Load(s.media, p), |offsets| - 1 - x), passed + {q}))
           .(media := Store(s.media, p, 0));
  }

  lemma ClearSlotCanStep(g: Geometry, s: System, t: Tree, i: nat, k: nat) returns (r: System)
    requires Rep(g, s.media, t) && i < |s.threads| && s.threads[i].Clearing? && Local(g, s.media, t, s.threads[i])
    requires Alone(s, i) && FirstSlot(s.threads[i].offsets) <= k < SLOTS && [s.threads[i].ino, k] !in s.threads[i].passed
    ensures ClearsSlot(s, i, k, r)
  {
    match s.threads[i]
    case Clearing(ino, offsets, chain, minus, limbo, passed) =>
      var p := InodeSlot(ino, k);
      r := Put(s, i, Clearing(ino, offsets, chain, minus, limbo + Behind(s.media, Load(s.media, p), Height(k)), passed + {[ino, k]}))
           .(media := Store(s.media, p, 0));
  }

  lemma FreeOneCanStep(s: System, i: nat, b: nat) returns (r: System)
    requires i < |s.threads| && s.threads[i].Clearing? && b in s.threads[i].limbo
    ensures FreesOne(s, i, b, r)
  {
    var th := s.threads[i];
    r := Put(s, i, Clearing(th.ino, th.offsets, th.chain, th.minus, th.limbo - {b}, th.passed)).(busy := s.busy - {b});
  }

  lemma ClearingCanStep(g: Geometry, reserved: set<nat>, s: System, t: Tree, i: nat) returns (a: Action, r: System)
    requires Inv(g, reserved, s, t) && i < |s.threads| && s.threads[i].Clearing? && Alone(s, i)
    ensures Step(g, s, i, a, r)
  {
    var th := s.threads[i];
    assert Local(g, s.media, t, th) && |PathOf(th)| == 1 + |th.offsets|;
    if b: nat :| b in th.limbo {
      a := FreeOne(b);
      r := FreeOneCanStep(s, i, b);
    } else if k: nat :| UnpassedSlot(th, k) {
      a := ClearSlot(k);
      r := ClearSlotCanStep(g, s, t, i, k);
    } else if x: nat, k: nat :| Unpassed(g, th, x, k) {
      a := ClearEnd(x, k);
      r := ClearEndCanStep(g, s, t, i, x, k);
    } else {
      NothingLeft(g, th);
      a, r := FinishCut, Put(s, i, Idle);
    }
  }

  ghost predicate UnpassedSlot(th: Thread, k: nat)
    requires th.Clearing?
  {
    th.offsets != [] && FirstSlot(th.offsets) <= k < SLOTS && [th.ino, k] !in th.passed
  }

  lemma NothingLeft(g: Geometry, th: Thread)
    requires th.Clearing? && th.offsets != [] && |th.chain| <= |th.offsets|
    requires forall k: nat :: !UnpassedSlot(th, k)
    requires forall x: nat, k: nat :: !Unpassed(g, th, x, k)
    ensures AllPassed(g, th)
  {
    forall k: nat | FirstSlot(th.offsets) <= k < SLOTS ensures [th.ino, k] in th.passed {
      assert !UnpassedSlot(th, k);
    }
    forall x: nat, k: nat | 1 <= x < |th.chain| && th.chain[x].p.BlockSlot? && th.chain[x].p.i < k < g.fan
      ensures EndOf(th.ino, th.offsets, x, k) in th.passed
    {
      assert !Unpassed(g, th, x, k);
    }
  }

  ghost predicate Unpassed(g: Geometry, th: Thread, x: nat, k: nat)
    requires th.Clearing?
  {
    && 1 <= x < |th.chain| && |th.chain| <= |th.offsets| && th.chain[x].p.BlockSlot? && th.chain[x].p.i < k < g.fan
    && EndOf(th.ino, th.offsets, x, k) !in th.passed
  }

  /** A truncation can always take a step, or has to wait for a call that may create a
      block that it reaches. */
  lemma CutCanStep(g: Geometry, reserved: set<nat>, s: System, t: Tree, i: nat) returns (a: Action, r: System)
    requires Inv(g, reserved, s, t) && i < |s.threads| && Truncating(s.threads[i])
    requires s.threads[i].Clearing? ==> Alone(s, i)
    ensures Step(g, s, i, a, r)
  {
    match s.threads[i]
    case Cutting(_, _, depth, chain) =>
      if chain == [] || (LastOf(chain).key != 0 && |chain| < depth) {
        a, r := CutReadingCanStep(g, reserved, s, t, i);
      } else {
        assert Local(g, s.media, t, s.threads[i]);
        a := CutShared;
        r := CutSharedCanStep(g, reserved, s, t, i);
      }
    case Clearing(_, _, _, _, _, _) =>
      a, r := ClearingCanStep(g, reserved, s, t, i);
  }

  // What is stored in blocks that hold no pointers

  lemma SlotIsPointers(g: Geometry, n: nat, t: Tree, p: Path)
    requires HasSlot(g, n, t, p)
    ensures SlotOf(t, p).BlockSlot? ==> IsPointers(t, SlotOf(t, p).block)
  {
    if 3 <= |p| {
      assert Parent(p)[1] == p[1];
    }
  }

  /** The step stores to a pointer of the tree, or nowhere. */
  ghost predicate StoresPointer(g: Geometry, m: Media, t: Tree, r: Media) {
    r == m || exists p, v :: HasSlot(g, |m.inodes|, t, p) && Exists(m, SlotOf(t, p)) && r == Store(m, SlotOf(t, p), v)
  }

  lemma StoreOnRow(g: Geometry, m: Media, t: Tree, r: Media, b: nat)
    requires StoresPointer(g, m, t, r) && b < |m.disk| && !IsPointers(t, b)
    ensures b < |r.disk| && r.disk[b] == m.disk[b]
  {
    if r != m {
      var p, v :| HasSlot(g, |m.inodes|, t, p) && Exists(m, SlotOf(t, p)) && r == Store(m, SlotOf(t, p), v);
      SlotIsPointers(g, |m.inodes|, t, p);
      StoreElsewhere(m, SlotOf(t, p), v);
    }
  }

  lemma SpliceStores(g: Geometry, reserved: set<nat>, s: System, t: Tree, i: nat, r: System)
    requires Inv(g, reserved, s, t) && i < |s.threads| && Splices(s, i, r)
    ensures StoresPointer(g, s.media, t, r.media)
  {
    match s.threads[i]
    case Allocating(ino, offsets, chain, branch) =>
      assert Local(g, s.media, t, s.threads[i]);
      if SpliceFits(s.media, chain) {
        var c, k := [ino] + offsets, |chain| - 1;
        SpliceChain(g, s.media, t, c, chain);
        assert IsLink(g, |s.media.inodes|, t, c, k, chain[k]);
        assert SlotOf(t, c[..k + 2]) == LastOf(chain).p;
      }
  }

  lemma DetachStores(g: Geometry, s: System, t: Tree, i: nat, p: Path, h: nat, th: Thread, r: System)
    requires Detaching(g, s, t, i, p, h, th, r)
    ensures StoresPointer(g, s.media, t, r.media)
  {
  }

  lemma CutStores(g: Geometry, reserved: set<nat>, s: System, t: Tree, i: nat, a: Action, r: System)
    requires Inv(g, reserved, s, t) && Step(g, s, i, a, r) && (a.CutShared? || a.ClearEnd? || a.ClearSlot?)
    ensures StoresPointer(g, s.media, t, r.media)
  {
    var p, h, th;
    match a
    case CutShared =>
      if CutsWhereClimbEnds(s, i, r) {
        p, h, th := CutHere(g, s, t, i, r);
        DetachStores(g, s, t, i, p, h, th, r);
      }
    case ClearEnd(x, k) =>
      p, h, th := EndDetaches(g, s, t, i, x, k, r);
      DetachStores(g, s, t, i, p, h, th, r);
    case ClearSlot(k) =>
      p, h, th := SlotDetaches(g, s, t, i, k, r);
      DetachStores(g, s, t, i, p, h, th, r);
  }

  /** A step changes nothing in a block but in one of pointers, or in one that only its
      own thread knows of. */
  lemma StepOnRow(g: Geometry, reserved: set<nat>, s: System, t: Tree, i: nat, a: Action, r: System, b: nat)
    requires Inv(g, reserved, s, t) && Step(g, s, i, a, r)
    requires b < |s.media.disk| && b !in Held(s.threads[i]) && !IsPointers(t, b)
    ensures b < |r.media.disk| && r.media.disk[b] == s.media.disk[b]
  {
    if a.Splice? {
      SpliceStores(g, reserved, s, t, i, r);
      StoreOnRow(g, s.media, t, r.media, b);
    } else if a.CutShared? || a.ClearEnd? || a.ClearSlot? {
      CutStores(g, reserved, s, t, i, a, r);
      StoreOnRow(g, s.media, t, r.media, b);
    } else {
      PrivateOnRow(g, s, t, i, a, r, b);
    }
  }

  lemma PrivateOnRow(g: Geometry, s: System, t: Tree, i: nat, a: Action, r: System, b: nat)
    requires ValidGeometry(g) && Step(g, s, i, a, r) && !(a.Splice? || a.CutShared? || a.ClearEnd? || a.ClearSlot?)
    requires b < |s.media.disk| && b !in Held(s.threads[i])
    ensures b < |r.media.disk| && r.media.disk[b] == s.media.disk[b]
  {
    if s.threads[i].Joining? && s.threads[i].branch != [] {
      assert s.threads[i].branch[|s.threads[i].branch| - 1] in Held(s.threads[i]);
    }
  }

  /** Metadata is never written to by these calls. */
  lemma {:induction false} ReservedStays(g: Geometry, reserved: set<nat>, states: seq<System>, moves: seq<Move>, t: Tree, b: nat)
    requires ValidGeometry(g) && Run(g, states, moves) && Inv(g, reserved, states[0], t)
    requires b in reserved && b < |states[0].media.disk|
    ensures b < |states[|moves|].media.disk| && states[|moves|].media.disk[b] == states[0].media.disk[b]
    decreases |moves|
  {
    if moves != [] {
      var s, move := states[0], moves[0];
      PutHeld(s.threads, move.thread, Idle);
      assert b !in t.Values;
      StepOnRow(g, reserved, s, t, move.thread, move.action, states[1], b);
      var u := StepKeeps(g, reserved, s, t, move.thread, move.action, states[1]);
      RunFrom(g, states, moves, 1);
      ReservedStays(g, reserved, states[1..], moves[1..], u, b);
      assert states[1..][|moves[1..]|] == states[|moves|];
    }
  }

  /** The data of a file stays as it is: no step changes what is in a data block, as long as
      no truncation that reaches it takes one. */
  lemma {:induction false} DataStays(g: Geometry, reserved: set<nat>, states: seq<System>, moves: seq<Move>, t: Tree, c: Path)
    requires ValidGeometry(g) && Run(g, states, moves) && Inv(g, reserved, states[0], t)
    requires Position(g, |states[0].media.inodes|, c) && Leaf(c) && Walk(states[0].media, c) != 0
    requires forall k {:trigger moves[k]} :: 0 <= k < |moves| ==> !Reaches(states[k].threads[moves[k].thread], c)
    ensures var b := Walk(states[0].media, c);
            && Walk(states[|moves|].media, c) == b
            && b < |states[0].media.disk| && b < |states[|moves|].media.disk|
            && states[|moves|].media.disk[b] == states[0].media.disk[b]
    decreases |moves|
  {
    var s, b := states[0], Walk(states[0].media, c);
    WalkIsGet(g, s.media, t, c);
    if moves != [] {
      var move := moves[0];
      DataIsNotHeld(g, reserved, s, t, move.thread, c);
      StepOnRow(g, reserved, s, t, move.thread, move.action, states[1], b);
      StepOnBlock(g, reserved, s, t, move.thread, move.action, states[1], c);
      var u := StepKeeps(g, reserved, s, t, move.thread, move.action, states[1]);
      RunFrom(g, states, moves, 1);
      DataStays(g, reserved, states[1..], moves[1..], u, c);
      assert states[1..][|moves[1..]|] == states[|moves|];
    }
  }

  lemma DataIsNotHeld(g: Geometry, reserved: set<nat>, s: System, t: Tree, i: nat, c: Path)
    requires Inv(g, reserved, s, t) && i < |s.threads| && c in t && 2 <= |c| && Leaf(c)
    ensures t[c] < |s.media.disk| && t[c] !in Held(s.threads[i]) && !IsPointers(t, t[c])
  {
    PutHeld(s.threads, i, Idle);
    assert t[c] in t.Values && Position(g, |s.media.inodes|, c);
    forall q | q in t && t[q] == t[c] ensures q == c {
      assert SameBlock(t, q, c);
    }
  }
}
