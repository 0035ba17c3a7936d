/** The protocol between threads (src/kern/gas_itree.c): any number of threads run
    gas_get_block and gas_truncate_inode on the stored pointers and the allocation
    map, one step at a time.

    A step is what the code does under one acquisition of `pointers_lock` or
    `bitmap_lock`, or one access of its own. Calls may overlap as they like, with two
    exceptions that the kernel sees to: truncations of one inode exclude each other
    (i_mutex; see Compatible), and when a truncation clears a pointer without the lock
    no call is about to create a block at or beyond the new end of the file (page
    locks; see Alone). Lookups take part in neither, as gas_bmap takes no locks. */
module Protocol {
  import opened Paths
  import opened Tree
  import opened Cut
  import opened Chains

  datatype Thread =
    | Idle
    /** get_branch of gas_get_block; the chain is what has been read. */
    | Reading(ino: nat, offsets: seq<nat>, create: bool, chain: seq<Indirect>)
    /** alloc_branch: the blocks taken so far, all but the last one linked. */
    | Allocating(ino: nat, offsets: seq<nat>, chain: seq<Indirect>, branch: seq<nat>)
    /** alloc_branch between gas_new_block, which gave `b`, and the link to that block. */
    | Joining(ino: nat, offsets: seq<nat>, chain: seq<Indirect>, branch: seq<nat>, b: nat)
    /** Giving a branch back, in order to read again or to give up. */
    | Undoing(ino: nat, offsets: seq<nat>, branch: seq<nat>, again: bool)
    /** gas_get_block is about to return `phys`. */
    | Found(ino: nat, offsets: seq<nat>, phys: nat)
    /** get_branch of find_shared, as far as level `depth`. */
    | Cutting(ino: nat, offsets: seq<nat>, depth: nat, chain: seq<Indirect>)
    /** The rest of gas_truncate_inode: the pointers from which its loops go on, the
        blocks that have been cut off and not freed yet, and the pointers that the loops
        have been through, by position. */
    | Clearing(ino: nat, offsets: seq<nat>, chain: seq<Indirect>, minus: bool, limbo: set<nat>, passed: set<Path>)

  /** `total` is the number of bits in the allocation map. */
  datatype System = System(media: Media, busy: set<nat>, total: nat, threads: seq<Thread>)

  datatype Action =
    | StartGet(ino: nat, block: nat, create: bool)
    | ReadFirst
    | ReadNext
    | ReadDone
    | Take(b: nat)
    | Link
    | NoSpace
    | Splice
    | Undo
    | Return
    | StartCut(ino: nat, block: nat)
    | CutReadFirst
    | CutReadNext
    | CutShared
    | ClearEnd(level: nat, i: nat)
    | ClearSlot(k: nat)
    | Scrub(b: nat, row: seq<nat>)
    | FreeOne(b: nat)
    | FinishCut

  // What threads look at

  function PathOf(th: Thread): Path
    requires !th.Idle?
  {
    [th.ino] + th.offsets
  }

  predicate Getting(th: Thread) {
    th.Reading? || th.Allocating? || th.Joining? || th.Undoing? || th.Found?
  }

  predicate Truncating(th: Thread) {
    th.Cutting? || th.Clearing?
  }

  /** gas_get_block may go on to map a block. */
  predicate Creating(th: Thread) {
    (th.Reading? && th.create) || th.Allocating? || th.Joining? || th.Undoing?
  }

  /** The truncation of `th` reaches position `c`. */
  ghost predicate Reaches(th: Thread, c: Path) {
    Truncating(th) && 1 <= |c| && c[0] == th.ino && !LeftOf(c, PathOf(th))
  }

  /** The blocks that only this thread knows of. */
  function Held(th: Thread): set<nat> {
    match th
    case Allocating(_, _, _, branch) => Elements(branch)
    case Joining(_, _, _, branch, b) => Elements(branch) + {b}
    case Undoing(_, _, branch, _) => Elements(branch)
    case Clearing(_, _, _, _, limbo, _) => limbo
    case _ => {}
  }

  function AllHeld(threads: seq<Thread>): set<nat> {
    set i, b | 0 <= i < |threads| && b in Held(threads[i]) :: b
  }

  /** Two calls may be under way together. */
  predicate Compatible(x: Thread, y: Thread) {
    !(Truncating(x) && Truncating(y) && x.ino == y.ino)
  }

  /** verify_chain. */
  predicate Current(m: Media, chain: seq<Indirect>) {
    forall j :: 0 <= j < |chain| ==> Exists(m, chain[j].p) && Load(m, chain[j].p) == chain[j].key
  }

  function LastOf(chain: seq<Indirect>): Indirect
    requires chain != []
  {
    chain[|chain| - 1]
  }

  /** The pointer that get_branch reads next. */
  function NextSlot(ino: nat, offsets: seq<nat>, chain: seq<Indirect>): Slot
    requires |chain| < |offsets|
  {
    if chain == [] then InodeSlot(ino, offsets[0]) else BlockSlot(LastOf(chain).key, offsets[|chain|])
  }

  function ReadInto(m: Media, ino: nat, offsets: seq<nat>, chain: seq<Indirect>): seq<Indirect>
    requires |chain| < |offsets| && Exists(m, NextSlot(ino, offsets, chain))
  {
    var s := NextSlot(ino, offsets, chain);
    chain + [Indirect(s, Load(m, s))]
  }

  /** The length of the path without the zeros at its end, as find_shared cuts it. */
  function Depth(offsets: seq<nat>): nat {
    if 1 < |offsets| && offsets[|offsets| - 1] == 0 then Depth(offsets[..|offsets| - 1]) else |offsets|
  }

  predicate ZeroBefore(m: Media, s: Slot) {
    s.BlockSlot? && s.block < |m.disk| && s.i <= |m.disk[s.block]| && forall i :: 0 <= i < s.i ==> m.disk[s.block][i] == 0
  }

  /** The climb of find_shared. */
  function ClimbTo(m: Media, chain: seq<Indirect>, p: nat): (level: nat)
    requires p < |chain|
    ensures level <= p
  {
    if p == 0 || !ZeroBefore(m, chain[p].p) then p else ClimbTo(m, chain, p - 1)
  }

  /** The blocks behind a pointer: block `b` and everything it leads to, `h` levels down. */
  function Behind(m: Media, b: nat, h: nat): set<nat>
    decreases h
  {
    if b == 0 then {}
    else if h == 0 || |m.disk| <= b then {b}
    else
      var row, k: nat := m.disk[b], h - 1;
      {b} + set i, x | 0 <= i < |row| && x in Behind(m, row[i], k) :: x
  }

  // Steps

  function Put(s: System, t: nat, th: Thread): System
    requires t < |s.threads|
  {
    s.(threads := s.threads[t := th])
  }

  predicate Allows(s: System, t: nat, th: Thread)
    requires t < |s.threads|
  {
    forall u :: 0 <= u < |s.threads| && u != t ==> Compatible(th, s.threads[u])
  }

  /** No call may create a block that the truncation of thread `t` reaches. */
  ghost predicate Alone(s: System, t: nat)
    requires t < |s.threads|
  {
    forall u :: 0 <= u < |s.threads| && Creating(s.threads[u]) ==> !Reaches(s.threads[t], PathOf(s.threads[u]))
  }

  /** A truncation that reaches the block of thread `t` is clearing pointers without the lock. */
  ghost predicate Overtaken(s: System, t: nat)
    requires t < |s.threads| && !s.threads[t].Idle?
  {
    exists u :: 0 <= u < |s.threads| && s.threads[u].Clearing? && Reaches(s.threads[u], PathOf(s.threads[t]))
  }

  ghost predicate Step(g: Geometry, s: System, t: nat, a: Action, r: System)
    requires ValidGeometry(g)
  {
    && t < |s.threads|
    && match a
       case StartGet(ino, block, create) => StartsGet(g, s, t, ino, block, create, r)
       case ReadFirst => ReadsFirst(s, t, r)
       case ReadNext => ReadsNext(s, t, r)
       case ReadDone => ReadsDone(s, t, r)
       case Take(b) => Takes(s, t, b, r)
       case Link => Links(g, s, t, r)
       case NoSpace => FindsNoSpace(s, t, r)
       case Splice => Splices(s, t, r)
       case Undo => Undoes(s, t, r)
       case Return => Returns(s, t, r)
       case StartCut(ino, block) => StartsCut(g, s, t, ino, block, r)
       case CutReadFirst => CutReadsFirst(s, t, r)
       case CutReadNext => CutReadsNext(s, t, r)
       case CutShared => CutsShared(s, t, r)
       case ClearEnd(x, i) => ClearsEnd(s, t, x, i, r)
       case ClearSlot(k) => ClearsSlot(s, t, k, r)
       case Scrub(b, row) => Scrubs(s, t, b, row, r)
       case FreeOne(b) => FreesOne(s, t, b, r)
       case FinishCut => FinishesCut(g, s, t, r)
  }

  ghost predicate StartsGet(g: Geometry, s: System, t: nat, ino: nat, block: nat, create: bool, r: System)
    requires 1 <= g.fan && t < |s.threads|
  {
    var now := Reading(ino, BlockToPath(g, block), create, []);
    && s.threads[t].Idle? && ino < |s.media.inodes| && block < g.nblocks
    && Allows(s, t, now) && r == Put(s, t, now)
  }

  /** The first read of get_branch takes no lock. */
  ghost predicate ReadsFirst(s: System, t: nat, r: System)
    requires t < |s.threads|
  {
    match s.threads[t]
    case Reading(ino, offsets, create, chain) =>
      && chain == [] && offsets != [] && Exists(s.media, NextSlot(ino, offsets, chain))
      && r == Put(s, t, Reading(ino, offsets, create, ReadInto(s.media, ino, offsets, chain)))
    case _ => false
  }

  /** The other reads verify the chain first; if it has changed, a call that may
      create starts over and a lookup fails. A truncation that has overtaken a lookup
      may clear its chain between the two, so that the read goes ahead regardless. */
  ghost predicate ReadsNext(s: System, t: nat, r: System)
    requires t < |s.threads|
  {
    match s.threads[t]
    case Reading(ino, offsets, create, chain) =>
      && chain != [] && LastOf(chain).key != 0 && |chain| < |offsets|
      && (|| (&& (Current(s.media, chain) || (!create && Overtaken(s, t)))
              && Exists(s.media, NextSlot(ino, offsets, chain))
              && r == Put(s, t, Reading(ino, offsets, create, ReadInto(s.media, ino, offsets, chain))))
          || (&& !Current(s.media, chain)
              && r == Put(s, t, if create then Reading(ino, offsets, create, []) else Idle)))
    case _ => false
  }

  ghost predicate ReadsDone(s: System, t: nat, r: System)
    requires t < |s.threads|
  {
    match s.threads[t]
    case Reading(ino, offsets, create, chain) =>
      && chain != [] && (LastOf(chain).key == 0 || |chain| == |offsets|)
      && r == Put(s, t, if LastOf(chain).key != 0 then Found(ino, offsets, LastOf(chain).key)
                        else if create then Allocating(ino, offsets, chain, [])
                        else Idle)
    case _ => false
  }

  /** gas_new_block. */
  ghost predicate Takes(s: System, t: nat, b: nat, r: System)
    requires t < |s.threads|
  {
    match s.threads[t]
    case Allocating(ino, offsets, chain, branch) =>
      && |branch| + |chain| <= |offsets| && b !in s.busy && b < s.total
      && r == Put(s, t, if branch == [] then Allocating(ino, offsets, chain, [b]) else Joining(ino, offsets, chain, branch, b))
              .(busy := s.busy + {b})
    case _ => false
  }

  /** The block before is cleared and linked to the new one. */
  ghost predicate Links(g: Geometry, s: System, t: nat, r: System)
    requires t < |s.threads|
  {
    match s.threads[t]
    case Joining(ino, offsets, chain, branch, b) =>
      && branch != [] && |chain| + |branch| <= |offsets|
      && var last := branch[|branch| - 1];
         && last < |s.media.disk|
         && r == Put(s, t, Allocating(ino, offsets, chain, branch + [b]))
                 .(media := Linking(g, s.media, last, offsets[|chain| + |branch| - 1], b))
    case _ => false
  }

  ghost predicate FindsNoSpace(s: System, t: nat, r: System)
    requires t < |s.threads|
  {
    match s.threads[t]
    case Allocating(ino, offsets, chain, branch) => r == Put(s, t, Undoing(ino, offsets, branch, false))
    case _ => false
  }

  /** splice_branch. */
  ghost predicate Splices(s: System, t: nat, r: System)
    requires t < |s.threads|
  {
    match s.threads[t]
    case Allocating(ino, offsets, chain, branch) =>
      && chain != [] && branch != [] && |branch| + |chain| == |offsets| + 1
      && Exists(s.media, LastOf(chain).p)
      && (SpliceFits(s.media, chain) ==>
            r == Put(s, t, Found(ino, offsets, branch[|branch| - 1])).(media := Store(s.media, LastOf(chain).p, branch[0])))
      && (!SpliceFits(s.media, chain) ==>
            r == Put(s, t, Undoing(ino, offsets, branch, true)))
    case _ => false
  }

  predicate SpliceFits(m: Media, chain: seq<Indirect>)
    requires chain != [] && Exists(m, LastOf(chain).p)
  {
    Current(m, chain[..|chain| - 1]) && Load(m, LastOf(chain).p) == 0
  }

  /** The roll-back loops of alloc_branch and splice_branch. */
  ghost predicate Undoes(s: System, t: nat, r: System)
    requires t < |s.threads|
  {
    match s.threads[t]
    case Undoing(ino, offsets, branch, again) =>
      && (branch != [] ==>
            r == Put(s, t, Undoing(ino, offsets, branch[1..], again)).(busy := s.busy - {branch[0]}))
      && (branch == [] ==>
            r == Put(s, t, if again then Reading(ino, offsets, true, []) else Idle))
    case _ => false
  }

  ghost predicate Returns(s: System, t: nat, r: System)
    requires t < |s.threads|
  {
    s.threads[t].Found? && r == Put(s, t, Idle)
  }

  ghost predicate StartsCut(g: Geometry, s: System, t: nat, ino: nat, block: nat, r: System)
    requires 1 <= g.fan && t < |s.threads|
  {
    var offsets := BlockToPath(g, block);
    var now := if |offsets| == 1 then Clearing(ino, offsets, [], false, {}, {}) else Cutting(ino, offsets, Depth(offsets), []);
    && s.threads[t].Idle? && ino < |s.media.inodes| && block < g.nblocks
    && Allows(s, t, now) && r == Put(s, t, now)
  }

  ghost predicate CutReadsFirst(s: System, t: nat, r: System)
    requires t < |s.threads|
  {
    match s.threads[t]
    case Cutting(ino, offsets, depth, chain) =>
      && chain == [] && offsets != [] && Exists(s.media, NextSlot(ino, offsets, chain))
      && r == Put(s, t, Cutting(ino, offsets, depth, ReadInto(s.media, ino, offsets, chain)))
    case _ => false
  }

  /** The chain of a truncation never changes under it; see CutChainIsCurrent. */
  ghost predicate CutReadsNext(s: System, t: nat, r: System)
    requires t < |s.threads|
  {
    match s.threads[t]
    case Cutting(ino, offsets, depth, chain) =>
      && chain != [] && LastOf(chain).key != 0 && |chain| < depth <= |offsets|
      && Current(s.media, chain) && Exists(s.media, NextSlot(ino, offsets, chain))
      && r == Put(s, t, Cutting(ino, offsets, depth, ReadInto(s.media, ino, offsets, chain)))
    case _ => false
  }

  /** The locked part of find_shared: leave a pointer alone that has been filled since
      it was read, or step back in the last block of the path, or cut where the climb
      ends. */
  ghost predicate CutsShared(s: System, t: nat, r: System)
    requires t < |s.threads|
  {
    match s.threads[t]
    case Cutting(ino, offsets, depth, chain) =>
      && chain != [] && |chain| <= |offsets| && (LastOf(chain).key == 0 || |chain| == depth)
      && Exists(s.media, LastOf(chain).p)
      && var p := ClimbTo(s.media, chain, |chain| - 1);
         if LastOf(chain).key == 0 && Load(s.media, LastOf(chain).p) != 0 then
           r == Put(s, t, Clearing(ino, offsets, chain, false, {}, {}))
         else if p + 1 == depth && p > 0 then
           && chain[p].p.BlockSlot? && 1 <= chain[p].p.i
           && r == Put(s, t, Clearing(ino, offsets, StepBack(chain, p), true, {}, {}))
         else
           && Exists(s.media, chain[p].p)
           && r == Put(s, t, Clearing(ino, offsets, chain[..p + 1], false,
                                      Behind(s.media, Load(s.media, chain[p].p), |offsets| - 1 - p), {}))
                   .(media := Store(s.media, chain[p].p, 0))
    case _ => false
  }

  /** The chain up to level `p`, there with the pointer before the one on the path. */
  function StepBack(chain: seq<Indirect>, p: nat): seq<Indirect>
    requires p < |chain| && chain[p].p.BlockSlot? && 1 <= chain[p].p.i
  {
    chain[..p] + [chain[p].(p := BlockSlot(chain[p].p.block, chain[p].p.i - 1))]
  }

  /** Read the pointer at position `q`, clear it if it is set, and take over what lies
      behind it. */
  ghost predicate Detaches(s: System, t: nat, q: Path, p: Slot, h: nat, r: System)
    requires t < |s.threads| && s.threads[t].Clearing?
  {
    match s.threads[t]
    case Clearing(ino, offsets, chain, minus, limbo, passed) =>
      && q !in passed && Exists(s.media, p) && (Load(s.media, p) != 0 ==> Alone(s, t))
      && r == Put(s, t, Clearing(ino, offsets, chain, minus, limbo + Behind(s.media, Load(s.media, p), h), passed + {q}))
              .(media := Store(s.media, p, 0))
  }

  /** A pointer after the path, in a block of pointers on the path. */
  ghost predicate ClearsEnd(s: System, t: nat, x: nat, i: nat, r: System)
    requires t < |s.threads|
  {
    match s.threads[t]
    case Clearing(ino, offsets, chain, minus, limbo, passed) =>
      && 1 <= x < |chain| <= |offsets| && chain[x].p.BlockSlot? && chain[x].p.i < i
      && Detaches(s, t, EndOf(ino, offsets, x, i), BlockSlot(chain[x].p.block, i), |offsets| - 1 - x, r)
    case _ => false
  }

  /** The position of pointer `i` in the block at level `x` of the path. */
  function EndOf(ino: nat, offsets: seq<nat>, x: nat, i: nat): Path
    requires x <= |offsets|
  {
    ([ino] + offsets)[..x + 1] + [i]
  }

  /** A pointer after the path, in the inode. */
  ghost predicate ClearsSlot(s: System, t: nat, k: nat, r: System)
    requires t < |s.threads|
  {
    match s.threads[t]
    case Clearing(ino, offsets, chain, minus, limbo, passed) =>
      && offsets != [] && FirstSlot(offsets) <= k < SLOTS
      && Detaches(s, t, [ino, k], InodeSlot(ino, k), Height(k), r)
    case _ => false
  }

  /** The first pointer of the inode that truncation clears with everything behind it. */
  function FirstSlot(offsets: seq<nat>): nat
    requires offsets != []
  {
    if |offsets| == 1 then offsets[0] else offsets[0] + 1
  }

  /** free_branches clears pointers in blocks that have been cut off. */
  ghost predicate Scrubs(s: System, t: nat, b: nat, row: seq<nat>, r: System)
    requires t < |s.threads|
  {
    && s.threads[t].Clearing? && b in s.threads[t].limbo && b < |s.media.disk| && |row| == |s.media.disk[b]|
    && r == s.(media := s.media.(disk := s.media.disk[b := row]))
  }

  ghost predicate FreesOne(s: System, t: nat, b: nat, r: System)
    requires t < |s.threads|
  {
    match s.threads[t]
    case Clearing(ino, offsets, chain, minus, limbo, passed) =>
      b in limbo && r == Put(s, t, Clearing(ino, offsets, chain, minus, limbo - {b}, passed)).(busy := s.busy - {b})
    case _ => false
  }

  ghost predicate FinishesCut(g: Geometry, s: System, t: nat, r: System)
    requires t < |s.threads|
  {
    s.threads[t].Clearing? && s.threads[t].limbo == {} && AllPassed(g, s.threads[t]) && r == Put(s, t, Idle)
  }

  /** Clear a block of pointers and let it point to the next block of the branch. */
  function Linking(g: Geometry, m: Media, b: nat, i: nat, v: nat): Media
    requires b < |m.disk|
  {
    m.(disk := m.disk[b := seq(g.fan, x => if x == i then v else 0)])
  }

  /** The loops of gas_truncate_inode have been through all their pointers. */
  ghost predicate AllPassed(g: Geometry, th: Thread)
    requires th.Clearing?
  {
    && th.offsets != [] && |th.chain| <= |th.offsets|
    && (forall k: nat :: FirstSlot(th.offsets) <= k < SLOTS ==> [th.ino, k] in th.passed)
    && (forall x, i: nat :: 1 <= x < |th.chain| && th.chain[x].p.BlockSlot? && th.chain[x].p.i < i < g.fan
          ==> EndOf(th.ino, th.offsets, x, i) in th.passed)
  }
}
