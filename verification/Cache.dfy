/** The write-back cache of the formatter (src/makefs/mkfs.c): a list of block buffers,
    which callers change in place, over a device that is written block by block. */
module Cache {
  import opened Words

  /** Words in a block of 4096 bytes. */
  const BLOCK_WORDS: nat := 512

  // What the cache means

  datatype Cached = Cached(id: nat, data: seq<Word>, dirty: bool)

  /** `list` is newest first. */
  datatype State = State(disk: seq<seq<Word>>, list: seq<Cached>)

  /** The position of a block in the list, or the length of the list. */
  function IndexOf(list: seq<Cached>, id: nat): (i: nat)
    ensures i <= |list| && (i < |list| ==> list[i].id == id)
    ensures forall j :: 0 <= j < i ==> list[j].id != id
  {
    if list == [] then 0 else if list[0].id == id then 0 else 1 + IndexOf(list[1..], id)
  }

  predicate IsCached(list: seq<Cached>, id: nat) {
    IndexOf(list, id) < |list|
  }

  /** What a reader of block `id` gets. */
  function View(s: State, id: nat): seq<Word>
    requires id < |s.disk|
  {
    var i := IndexOf(s.list, id);
    if i < |s.list| then s.list[i].data else s.disk[id]
  }

  /** Block numbers in the list are unique and on the device. */
  ghost predicate Proper(s: State) {
    && (forall i :: 0 <= i < |s.list| ==> s.list[i].id < |s.disk|)
    && (forall i, j :: 0 <= i < j < |s.list| ==> s.list[i].id != s.list[j].id)
  }

  // What the operations do

  /** bc_read brings a block into the list. */
  function Fetched(s: State, id: nat): State
    requires id < |s.disk|
  {
    if IsCached(s.list, id) then s else s.(list := [Cached(id, s.disk[id], false)] + s.list)
  }

  /** A caller changes the buffer of a block. */
  function Touched(s: State, id: nat, data: seq<Word>): State {
    var i := IndexOf(s.list, id);
    if i < |s.list| then s.(list := s.list[i := s.list[i].(data := data)]) else s
  }

  /** bc_write marks a block, or writes it through. */
  function Marked(s: State, id: nat, through: bool): State
    requires id < |s.disk|
  {
    var i := IndexOf(s.list, id);
    if i == |s.list| then s
    else if through then State(s.disk[id := s.list[i].data], s.list[i := s.list[i].(dirty := false)])
    else s.(list := s.list[i := s.list[i].(dirty := true)])
  }

  /** The device after bc_sync, which writes the dirty blocks of the list in order. */
  function Flushed(disk: seq<seq<Word>>, list: seq<Cached>): (r: seq<seq<Word>>)
    requires forall i :: 0 <= i < |list| ==> list[i].id < |disk|
    ensures |r| == |disk|
    decreases |list|
  {
    if list == [] then disk
    else Flushed(if list[0].dirty then disk[list[0].id := list[0].data] else disk, list[1..])
  }

  function Synced(s: State): State
    requires forall i :: 0 <= i < |s.list| ==> s.list[i].id < |s.disk|
  {
    State(Flushed(s.disk, s.list), [])
  }

  // Transparency

  /** The buffer of block `id` has been changed, and nothing says so. */
  predicate Unmarked(s: State, id: nat)
    requires id < |s.disk|
  {
    var i := IndexOf(s.list, id);
    i < |s.list| && !s.list[i].dirty && s.list[i].data != s.disk[id]
  }

  lemma SameIndex(a: seq<Cached>, b: seq<Cached>, id: nat)
    requires |a| == |b| && forall i :: 0 <= i < |a| ==> a[i].id == b[i].id
    ensures IndexOf(a, id) == IndexOf(b, id)
  {
  }

  lemma {:induction false} FlushedBlock(disk: seq<seq<Word>>, list: seq<Cached>, id: nat)
    requires Proper(State(disk, list)) && id < |disk|
    ensures var i := IndexOf(list, id);
            Flushed(disk, list)[id] == if i < |list| && list[i].dirty then list[i].data else disk[id]
    decreases |list|
  {
    if list != [] {
      var next := if list[0].dirty then disk[list[0].id := list[0].data] else disk;
      FlushedBlock(next, list[1..], id);
      assert list[0].id == id ==> forall j :: 0 <= j < |list| - 1 ==> list[1..][j].id != id;
    }
  }

  /** bc_sync keeps what readers get of a block, unless the block was changed and not
      marked. */
  lemma SyncKeeps(s: State, id: nat)
    requires Proper(s) && id < |s.disk|
    ensures View(Synced(s), id) == View(s, id) <==> !Unmarked(s, id)
  {
    FlushedBlock(s.disk, s.list, id);
  }

  datatype Operation =
    | Read(id: nat)
    | Change(id: nat, data: seq<Word>)
    | Write(id: nat, through: bool)
    | Sync

  predicate OnDisk(n: nat, op: Operation) {
    op.Sync? || op.id < n
  }

  ghost function Do(s: State, op: Operation): State
    requires OnDisk(|s.disk|, op) && Proper(s)
  {
    match op
    case Read(id) => Fetched(s, id)
    case Change(id, data) => Touched(s, id, data)
    case Write(id, through) => Marked(s, id, through)
    case Sync => Synced(s)
  }

  lemma TouchedView(s: State, x: nat, data: seq<Word>, id: nat)
    requires Proper(s) && id < |s.disk|
    ensures Proper(Touched(s, x, data))
    ensures View(Touched(s, x, data), id) == if x == id && IsCached(s.list, id) then data else View(s, id)
    ensures Unmarked(Touched(s, x, data), id) ==> Unmarked(s, id) || x == id
  {
    SameIndex(s.list, Touched(s, x, data).list, id);
  }

  lemma MarkedView(s: State, x: nat, through: bool, id: nat)
    requires Proper(s) && id < |s.disk| && x < |s.disk|
    ensures Proper(Marked(s, x, through)) && View(Marked(s, x, through), id) == View(s, id)
    ensures Unmarked(Marked(s, x, through), id) ==> Unmarked(s, id) && x != id
  {
    SameIndex(s.list, Marked(s, x, through).list, id);
  }

  lemma FetchedView(s: State, x: nat, id: nat)
    requires Proper(s) && id < |s.disk| && x < |s.disk|
    ensures Proper(Fetched(s, x)) && View(Fetched(s, x), id) == View(s, id)
    ensures Unmarked(Fetched(s, x), id) ==> Unmarked(s, id)
  {
    if !IsCached(s.list, x) {
      assert Fetched(s, x).list[1..] == s.list;
    }
  }

  /** No operation but a change by a caller changes what readers get of any block, if no
      change is left unmarked when the cache is synced. */
  lemma Transparent(s: State, op: Operation, id: nat)
    requires Proper(s) && OnDisk(|s.disk|, op) && id < |s.disk|
    requires op.Sync? ==> !Unmarked(s, id)
    ensures Proper(Do(s, op)) && |Do(s, op).disk| == |s.disk|
    ensures View(Do(s, op), id) == if op.Change? && op.id == id && IsCached(s.list, id) then op.data else View(s, id)
    ensures Unmarked(Do(s, op), id) ==> (Unmarked(s, id) && !(op.Write? && op.id == id)) || (op.Change? && op.id == id)
  {
    match op
    case Read(x) => FetchedView(s, x, id);
    case Change(x, data) => TouchedView(s, x, data, id);
    case Write(x, through) => MarkedView(s, x, through, id);
    case Sync => SyncKeeps(s, id);
  }

  ghost predicate Run(states: seq<State>, ops: seq<Operation>) {
    && |states| == |ops| + 1 && Proper(states[0])
    && forall k {:trigger ops[k]} :: 0 <= k < |ops| ==> Does(states[k], ops[k], states[k + 1])
  }

  ghost predicate Does(s: State, op: Operation, r: State) {
    Proper(s) && OnDisk(|s.disk|, op) && r == Do(s, op)
  }

  /** What a reader of block `id` should get: the last change of it. */
  function Latest(first: seq<Word>, ops: seq<Operation>, id: nat): seq<Word> {
    if ops == [] then first
    else
      var op := ops[|ops| - 1];
      if op.Change? && op.id == id then op.data else Latest(first, ops[..|ops| - 1], id)
  }

  /** Every change of a block goes to a buffer that has been read and is still there, and
      is marked before the next sync. */
  ghost predicate Disciplined(states: seq<State>, ops: seq<Operation>, id: nat)
    requires Run(states, ops)
  {
    forall k {:trigger ops[k]} :: 0 <= k < |ops| && id < |states[k].disk| ==>
      && (ops[k].Change? && ops[k].id == id ==> IsCached(states[k].list, id))
      && (ops[k].Sync? ==> !Unmarked(states[k], id))
  }

  /** Whatever the order of operations, readers get the last change, and after a sync so
      does the device. */
  lemma {:induction false} LatestIsRead(states: seq<State>, ops: seq<Operation>, id: nat)
    requires Run(states, ops) && id < |states[0].disk| && Disciplined(states, ops, id)
    ensures Proper(states[|ops|]) && |states[|ops|].disk| == |states[0].disk|
    ensures View(states[|ops|], id) == Latest(View(states[0], id), ops, id)
    ensures ops != [] && ops[|ops| - 1].Sync? ==> states[|ops|].disk[id] == Latest(View(states[0], id), ops, id)
    decreases |ops|
  {
    if ops != [] {
      var k := |ops| - 1;
      RunPrefix(states, ops, id);
      LatestIsRead(states[..k + 1], ops[..k], id);
      assert states[..k + 1][k] == states[k] && ops[k] in ops;
      Transparent(states[k], ops[k], id);
    }
  }

  lemma RunPrefix(states: seq<State>, ops: seq<Operation>, id: nat)
    requires Run(states, ops) && ops != [] && id < |states[0].disk| && Disciplined(states, ops, id)
    ensures var k := |ops| - 1; Run(states[..k + 1], ops[..k]) && Disciplined(states[..k + 1], ops[..k], id)
  {
    var k := |ops| - 1;
    forall i | 0 <= i < k ensures Does(states[..k + 1][i], ops[..k][i], states[..k + 1][i + 1]) {
      assert Does(states[i], ops[i], states[i + 1]);
    }
    assert Run(states[..k + 1], ops[..k]);
    assert forall i :: 0 <= i < k ==> ops[..k][i] == ops[i] && states[..k + 1][i] == states[i];
  }

  // The cache itself

  class Entry {
    const id: nat
    const block: array<Word>
    var dirty: bool

    constructor (id: nat, block: array<Word>)
      ensures this.id == id && this.block == block && !dirty
    {
      this.id, this.block, dirty := id, block, false;
    }
  }

  class BlockCache {
    var disk: seq<seq<Word>>
    /** Newest first. */
    var list: seq<Entry>
    /** What the cache means. */
    ghost var now: State
    /** The objects that make up the cache. */
    ghost var Repr: set<object>

    ghost predicate Valid()
      reads this, Repr
    {
      && Owned() && Separate() && now.disk == disk && |now.list| == |list|
      && forall i :: 0 <= i < |list| ==> now.list[i] == Cached(list[i].id, list[i].block[..], list[i].dirty)
    }

    ghost predicate Owned()
      reads this, Repr
    {
      this in Repr && forall i :: 0 <= i < |list| ==> list[i] in Repr && list[i].block in Repr
    }

    /** Entries share no buffers, and have one block number each. */
    ghost predicate Separate()
      reads this, list
    {
      && (forall k :: 0 <= k < |disk| ==> |disk[k]| == BLOCK_WORDS)
      && (forall i :: 0 <= i < |list| ==> list[i].id < |disk| && list[i].block.Length == BLOCK_WORDS)
      && (forall i, j :: 0 <= i < j < |list| ==> list[i].id != list[j].id && list[i].block != list[j].block)
    }

    constructor (disk: seq<seq<Word>>)
      requires forall k :: 0 <= k < |disk| ==> |disk[k]| == BLOCK_WORDS
      ensures Valid() && now == State(disk, []) && fresh(Repr)
    {
      this.disk, list, now := disk, [], State(disk, []);
      Repr := {this};
    }

    /** bc_find: the position of a block in the list, or the length of the list. */
    method Find(id: nat) returns (i: nat)
      requires Valid()
      ensures i == IndexOf(now.list, id)
    {
      i := 0;
      while i < |list| && list[i].id != id
        invariant i <= |list| && forall j :: 0 <= j < i ==> list[j].id != id
      {
        i := i + 1;
      }
      assert forall j :: 0 <= j < i ==> now.list[j].id == list[j].id;
      assert i < |list| ==> now.list[i].id == list[i].id;
    }

    /** bc_read: the buffer of a block. */
    method Read(id: nat) returns (block: array<Word>)
      requires Valid() && id < |disk|
      modifies this`list, this`now, this`Repr
      ensures Valid() && now == Fetched(old(now), id)
      ensures var i := IndexOf(now.list, id); i < |list| && block == list[i].block
      ensures old(Repr) <= Repr && fresh(Repr - old(Repr))
    {
      var i := Find(id);
      if i < |list| {
        return list[i].block;
      }
      block := Fetch(id);
    }

    /** bc_read, of a block that is not in the list. */
    method Fetch(id: nat) returns (block: array<Word>)
      requires Valid() && id < |disk| && !IsCached(now.list, id)
      modifies this`list, this`now, this`Repr
      ensures Valid() && now == Fetched(old(now), id)
      ensures 0 < |list| && list[0].id == id && block == list[0].block
      ensures old(Repr) <= Repr && fresh(Repr - old(Repr))
    {
      var it := Load(id);
      forall j | 0 <= j < |list| ensures list[j].id != id && list[j].block != it.block {
        assert now.list[j].id == list[j].id && list[j].block in Repr;
      }
      Insert(it);
      return it.block;
    }

    /** write_block: straight to the device. */
    method WriteBlock(id: nat, block: array<Word>)
      requires Valid() && id < |disk| && block.Length == BLOCK_WORDS
      modifies this`disk, this`now
      ensures Valid() && now == old(now).(disk := old(now).disk[id := block[..]])
    {
      disk := disk[id := block[..]];
      now := now.(disk := disk);
    }

    /** bc_insert. */
    method Insert(it: Entry)
      requires Valid() && it.id < |disk| && it.block.Length == BLOCK_WORDS
      requires forall j :: 0 <= j < |list| ==> list[j].id != it.id && list[j].block != it.block
      modifies this`list, this`now, this`Repr
      ensures Valid() && list == [it] + old(list) && Repr == old(Repr) + {it, it.block}
      ensures now == old(now).(list := [Cached(it.id, it.block[..], it.dirty)] + old(now).list)
    {
      ghost var first := Cached(it.id, it.block[..], it.dirty);
      list, now := [it] + list, now.(list := [first] + now.list);
      Repr := Repr + {it, it.block};
      assert forall j :: 0 < j < |list| ==> list[j] == old(list[j - 1]) && now.list[j] == old(now.list[j - 1]);
    }

    /** read_block, into a new entry. */
    method Load(id: nat) returns (it: Entry)
      requires Valid() && id < |disk|
      ensures fresh(it) && fresh(it.block) && it.id == id && it.block[..] == disk[id] && !it.dirty && it.block.Length == BLOCK_WORDS
    {
      var data := disk[id];
      var block := new Word[BLOCK_WORDS](j requires 0 <= j < |data| => data[j]);
      assert block[..] == data;
      it := new Entry(id, block);
    }

    /** bc_write: mark a block as changed, or write it through. */
    method Write(id: nat, through: bool)
      requires Valid() && id < |disk|
      modifies this`disk, this`now, list
      ensures Valid() && list == old(list) && now == Marked(old(now), id, through)
    {
      var i := Find(id);
      if i < |list| {
        if through {
          disk := disk[id := list[i].block[..]];
          now := now.(disk := disk);
        }
        SetDirty(i, !through);
      }
    }

    method SetDirty(i: nat, dirty: bool)
      requires Valid() && i < |list|
      modifies this`now, list[i]
      ensures Valid() && now == old(now).(list := old(now).list[i := old(now).list[i].(dirty := dirty)])
    {
      list[i].dirty := dirty;
      now := now.(list := now.list[i := now.list[i].(dirty := dirty)]);
    }

    lemma NowProper()
      requires Valid()
      ensures Proper(now)
    {
      forall i, j | 0 <= i < j < |now.list| ensures now.list[i].id != now.list[j].id {
        assert list[i].id != list[j].id;
      }
    }

    /** bc_sync: write what is dirty, and drop the list. */
    method Sync()
      requires Valid()
      modifies this
      ensures Valid() && Proper(old(now)) && now == Synced(old(now))
    {
      NowProper();
      while list != []
        invariant Valid() && Proper(now) && Flushed(now.disk, now.list) == Flushed(old(now.disk), old(now.list))
        decreases |list|
      {
        var it := list[0];
        if it.dirty {
          disk := disk[it.id := it.block[..]];
        }
        list, now := list[1..], State(disk, now.list[1..]);
        NowProper();
      }
    }

    /** A caller has changed the buffer at position `i` of the list, and no other. */
    ghost method Change(i: nat)
      requires Owned() && Separate() && now.disk == disk && i < |list| == |now.list|
      requires forall j :: 0 <= j < |list| && j != i ==> now.list[j] == Cached(list[j].id, list[j].block[..], list[j].dirty)
      requires now.list[i].id == list[i].id && now.list[i].dirty == list[i].dirty
      modifies this`now
      ensures Valid() && now == Touched(old(now), list[i].id, list[i].block[..])
    {
      assert IndexOf(now.list, list[i].id) == i by {
        assert forall j :: 0 <= j < |list| ==> now.list[j].id == list[j].id;
      }
      now := now.(list := now.list[i := now.list[i].(data := list[i].block[..])]);
    }
  }
}
