/** The formatter (src/makefs/mkfs.c): where it puts things, the allocation maps it
    writes, and the root directory it makes. */
module Mkfs {
  import opened Words
  import opened Cache

  /** BITS_PER_BLOCK */
  const BITS: nat := 32768
  const INODES_PER_BLOCK: nat := 64
  const BLOCK_SIZE: nat := 4096
  const ROOT_INO: nat := 1
  const BAM_START: nat := 1

  /** The root directory has room for 64 entries of 260 bytes. */
  const ROOT_SIZE: nat := 64 * 260
  const ROOT_BLOCKS: nat := 5
  /** S_IFDIR | 0755 */
  const ROOT_MODE: nat := 0x41ED

  // Layout

  datatype Layout = Layout(blkCnt: nat, bamBlk: nat, inoBlk: nat, inoCnt: nat, iamBlk: nat, dataSt: nat)

  function LayoutOf(blkCnt: nat): Layout {
    var bamBlk := (blkCnt + BITS - 1) / BITS;
    var inoBlk := (blkCnt / 4) / INODES_PER_BLOCK;
    var inoCnt := inoBlk * INODES_PER_BLOCK;
    var iamBlk := (inoCnt + BITS - 1) / BITS;
    Layout(blkCnt, bamBlk, inoBlk, inoCnt, iamBlk, 1 + bamBlk + iamBlk + inoBlk)
  }

  /** IAM_BLOCK_START */
  function IamStart(l: Layout): nat {
    BAM_START + l.bamBlk
  }

  /** INODE_LIST_START */
  function ListStart(l: Layout): nat {
    IamStart(l) + l.iamBlk
  }

  /** A device of `n` blocks holds all that the formatter writes, with room for every
      number in the maps and less than one map to spare. */
  ghost predicate Fits(l: Layout, n: nat) {
    && l.blkCnt == n && ListStart(l) + l.inoBlk == l.dataSt && l.dataSt + ROOT_BLOCKS <= n
    && l.inoCnt == l.inoBlk * INODES_PER_BLOCK
    && n <= l.bamBlk * BITS < n + BITS
    && INODES_PER_BLOCK <= l.inoCnt <= l.iamBlk * BITS < l.inoCnt + BITS
    && 1 <= l.bamBlk && 1 <= l.iamBlk
  }

  /** A device of 256 blocks or more is large enough, and has one inode for four blocks as
      far as they fill blocks of inodes. */
  lemma LayoutFits(blkCnt: nat)
    requires 256 <= blkCnt
    ensures Fits(LayoutOf(blkCnt), blkCnt)
    ensures 4 * LayoutOf(blkCnt).inoCnt <= blkCnt < 4 * (LayoutOf(blkCnt).inoCnt + INODES_PER_BLOCK)
  {
    var l := LayoutOf(blkCnt);
    assert l.bamBlk <= blkCnt / BITS + 1;
    assert l.inoBlk <= blkCnt / 256;
    assert l.iamBlk <= l.inoCnt / BITS + 1;
  }

  /** A smaller device has no inodes, and no inode map. */
  lemma LayoutNeeds256(blkCnt: nat)
    ensures LayoutOf(blkCnt).iamBlk == 0 <==> blkCnt < 256
    ensures LayoutOf(blkCnt).inoCnt == 0 <==> blkCnt < 256
  {
  }

  // Allocation maps

  /** Bit `b` of the maps that start at block `first`. */
  predicate MapBit(disk: seq<seq<Word>>, first: nat, b: nat)
    requires first + b / BITS < |disk| && |disk[first + b / BITS]| == BLOCK_WORDS
  {
    At(disk[first + b / BITS], b % BITS)
  }

  /** The bits of map `k` are those before `preset` and those from `total` on. */
  ghost predicate Preset(words: seq<Word>, k: nat, preset: nat, total: nat) {
    |words| == BLOCK_WORDS && forall j :: 0 <= j < BITS ==> (At(words, j) <==> k * BITS + j < preset || total <= k * BITS + j)
  }

  ghost predicate PresetAt(disk: seq<seq<Word>>, first: nat, k: nat, preset: nat, total: nat) {
    first + k < |disk| && Preset(disk[first + k], k, preset, total)
  }

  /** memset. */
  method Fill(buffer: array<Word>, v: bool)
    modifies buffer
    ensures AllAre(buffer[..], 0, 64 * buffer.Length, v)
  {
    var i := 0;
    while i < buffer.Length
      invariant i <= buffer.Length && forall j :: 0 <= j < i ==> buffer[j] == if v then ONES else 0
    {
      buffer[i] := if v then ONES else 0;
      i := i + 1;
    }
    forall b | 0 <= b < 64 * buffer.Length ensures At(buffer[..], b) == v {
      if v {
        AllOnes(b % 64);
      } else {
        ZeroBits(b % 64);
      }
    }
  }

  /** init_block_alloc_map and init_inode_alloc_map. */
  method InitMaps(c: BlockCache, first: nat, maps: nat, preset: nat, total: nat)
    requires c.Valid() && first + maps <= |c.disk| && total <= maps * BITS < total + BITS
    modifies c`disk, c`now
    ensures c.Valid() && c.now.list == old(c.now.list) && |c.disk| == |old(c.disk)|
    ensures forall k :: 0 <= k < |c.disk| && !(first <= k < first + maps) ==> c.disk[k] == old(c.disk[k])
    ensures forall k :: 0 <= k < maps ==> PresetAt(c.disk, first, k, preset, total)
  {
    var buffer := new Word[BLOCK_WORDS](_ => 0);
    var preallocated := preset;
    var i := 0;
    while i < maps
      invariant i <= maps && c.Valid() && c.now.list == old(c.now.list) && |c.disk| == |old(c.disk)|
      invariant preallocated == if preset <= i * BITS then 0 else preset - i * BITS
      invariant forall k :: 0 <= k < |c.disk| && !(first <= k < first + i) ==> c.disk[k] == old(c.disk[k])
      invariant forall k :: 0 <= k < i ==> PresetAt(c.disk, first, k, preset, total)
    {
      preallocated := InitMap(buffer, i, preallocated, preset, if i == maps - 1 then maps * BITS - total else 0, total);
      ghost var before := c.disk;
      c.WriteBlock(first + i, buffer);
      forall k | 0 <= k < i + 1 ensures PresetAt(c.disk, first, k, preset, total) {
        assert k < i ==> PresetAt(before, first, k, preset, total);
      }
      i := i + 1;
    }
  }

  /** One map; `bits` bits at its end stand for nothing. */
  method InitMap(buffer: array<Word>, ghost i: nat, preallocated: nat, ghost preset: nat, bits: nat, ghost total: nat)
    returns (left: nat)
    requires buffer.Length == BLOCK_WORDS && bits < BITS
    requires preallocated == if preset <= i * BITS then 0 else preset - i * BITS
    requires if bits == 0 then (i + 1) * BITS <= total else total == (i + 1) * BITS - bits
    modifies buffer
    ensures Preset(buffer[..], i, preset, total)
    ensures left == if preset <= (i + 1) * BITS then 0 else preset - (i + 1) * BITS
  {
    left := preallocated;
    if preallocated > BITS {
      Fill(buffer, true);
      left := preallocated - BITS;
    } else {
      Fill(buffer, false);
      if preallocated != 0 {
        BitmapSet(buffer, 0, preallocated);
        left := 0;
      }
    }
    assert forall j :: 0 <= j < BITS ==> (At(buffer[..], j) <==> i * BITS + j < preset);
    if bits != 0 {
      BitmapSet(buffer, BITS - bits, bits);
    }
  }

  // The inode list

  const HALF: nat := 0x1_0000_0000
  const INODE_HALVES: nat := 16
  const POINTERS: nat := 9
  /** Where the pointers start in an inode, in numbers of 32 bits. */
  const FIRST_POINTER: nat := 7

  /** The numbers of 32 bits in a block, the low half of a word first. */
  function HalfAt(words: seq<Word>, h: nat): nat
    requires h < 2 * |words|
  {
    if h % 2 == 0 then words[h / 2] % HALF else words[h / 2] / HALF
  }

  /** Where pointer `j` of inode `ino` lies in its block. */
  function PointerPlace(ino: nat, j: nat): (h: nat)
    requires j < POINTERS
    ensures h < 2 * BLOCK_WORDS
  {
    INODE_HALVES * (ino % INODES_PER_BLOCK) + FIRST_POINTER + j
  }

  /** Pointer `j` of inode `ino`, as stored. */
  function PointerIn(disk: seq<seq<Word>>, l: Layout, ino: nat, j: nat): nat {
    var k := ListStart(l) + ino / INODES_PER_BLOCK;
    if k < |disk| && |disk[k]| == BLOCK_WORDS && j < POINTERS then HalfAt(disk[k], PointerPlace(ino, j)) else 0
  }

  ghost predicate AllClear(words: seq<Word>) {
    |words| == BLOCK_WORDS && forall i :: 0 <= i < BLOCK_WORDS ==> words[i] == 0
  }

  ghost predicate ClearAt(disk: seq<seq<Word>>, first: nat, k: nat) {
    first + k < |disk| && AllClear(disk[first + k])
  }

  ghost predicate ListClear(disk: seq<seq<Word>>, l: Layout, n: nat) {
    forall k :: 0 <= k < n ==> ClearAt(disk, ListStart(l), k)
  }

  lemma ClearHalf(words: seq<Word>, h: nat)
    requires AllClear(words) && h < 2 * BLOCK_WORDS
    ensures HalfAt(words, h) == 0
  {
    assert words[h / 2] == 0;
  }

  /** init_inode_list. */
  method InitInodeList(c: BlockCache, l: Layout)
    requires c.Valid() && ListStart(l) + l.inoBlk <= |c.disk|
    modifies c`disk, c`now
    ensures c.Valid() && c.now.list == old(c.now.list) && |c.disk| == |old(c.disk)|
    ensures forall k :: 0 <= k < |c.disk| && !(ListStart(l) <= k < ListStart(l) + l.inoBlk) ==> c.disk[k] == old(c.disk[k])
    ensures ListClear(c.disk, l, l.inoBlk)
  {
    var buffer := new Word[BLOCK_WORDS](_ => 0);
    var i := 0;
    while i < l.inoBlk
      invariant i <= l.inoBlk && c.Valid() && c.now.list == old(c.now.list) && |c.disk| == |old(c.disk)|
      invariant forall k :: 0 <= k < |c.disk| && !(ListStart(l) <= k < ListStart(l) + i) ==> c.disk[k] == old(c.disk[k])
      invariant ListClear(c.disk, l, i) && forall j :: 0 <= j < BLOCK_WORDS ==> buffer[j] == 0
    {
      ghost var before := c.disk;
      c.WriteBlock(ListStart(l) + i, buffer);
      forall k | 0 <= k < i + 1 ensures ClearAt(c.disk, ListStart(l), k) {
        assert k < i ==> ClearAt(before, ListStart(l), k);
      }
      i := i + 1;
    }
  }

  /** Only number `h` of a block has changed, to `v` as far as it fits. */
  ghost predicate HalfSet(before: seq<Word>, after: seq<Word>, h: nat, v: nat) {
    && |after| == |before|
    && forall x :: 0 <= x < 2 * |before| ==> HalfAt(after, x) == if x == h then v % HALF else HalfAt(before, x)
  }

  method SetHalf(words: array<Word>, h: nat, v: nat)
    requires h < 2 * words.Length
    modifies words
    ensures HalfSet(old(words[..]), words[..], h, v)
  {
    var w := words[h / 2];
    words[h / 2] := if h % 2 == 0 then w / HALF * HALF + v % HALF else v % HALF * HALF + w % HALF;
    forall x | 0 <= x < 2 * words.Length ensures HalfAt(words[..], x) == if x == h then v % HALF else HalfAt(old(words[..]), x) {
      assert x / 2 == h / 2 ==> x == h || x % 2 != h % 2;
    }
  }

  /** What new_inode is told or asks the system for. */
  datatype Attributes = Attributes(mode: nat, uid: nat, gid: nat, time: nat)

  /** S_ISDIR */
  predicate IsDirectory(mode: nat) {
    mode / 0x1000 % 16 == 4
  }

  /** The inode up to its pointers: mode and links, owner, size, three times. */
  function Fields(a: Attributes): (f: seq<nat>)
    ensures |f| == FIRST_POINTER
  {
    [a.mode % 0x1_0000 + 0x1_0000 * (if IsDirectory(a.mode) then 2 else 1), a.uid, a.gid, 0, a.time, a.time, a.time]
  }

  /** The first `n` of the numbers `f` have been stored from number `base` on. */
  ghost predicate FieldsSet(before: seq<Word>, after: seq<Word>, base: nat, f: seq<nat>, n: nat) {
    && n <= |f| && |before| == |after| == BLOCK_WORDS
    && forall x :: 0 <= x < 2 * BLOCK_WORDS ==>
         HalfAt(after, x) == if base <= x < base + n then f[x - base] % HALF else HalfAt(before, x)
  }

  method SetFields(words: array<Word>, base: nat, f: seq<nat>)
    requires words.Length == BLOCK_WORDS && base + |f| <= 2 * BLOCK_WORDS
    modifies words
    ensures FieldsSet(old(words[..]), words[..], base, f, |f|)
  {
    var i := 0;
    while i < |f|
      invariant i <= |f| && FieldsSet(old(words[..]), words[..], base, f, i)
    {
      SetHalf(words, base + i, f[i]);
      i := i + 1;
    }
  }

  // The superblock

  const MAGIC: nat := 0x6A5000F5

  /** The seven numbers of the superblock. */
  function SuperFields(l: Layout): (f: seq<nat>)
    ensures |f| == 7
  {
    [MAGIC, BLOCK_SIZE, l.bamBlk, l.iamBlk, l.inoBlk, l.blkCnt, l.inoCnt]
  }

  ghost predicate SuperStored(disk: seq<seq<Word>>, l: Layout) {
    && 0 < |disk| && |disk[0]| == BLOCK_WORDS
    && forall i :: 0 <= i < 7 ==> HalfAt(disk[0], i) == SuperFields(l)[i] % HALF
  }

  /** init_super_block. */
  method InitSuperBlock(c: BlockCache, l: Layout)
    requires c.Valid() && 0 < |c.disk|
    modifies c`disk, c`now
    ensures c.Valid() && c.now.list == old(c.now.list) && |c.disk| == |old(c.disk)| && SuperStored(c.disk, l)
    ensures forall k :: 0 < k < |c.disk| ==> c.disk[k] == old(c.disk[k])
  {
    var buffer := new Word[BLOCK_WORDS](_ => 0);
    SetFields(buffer, 0, SuperFields(l));
    c.WriteBlock(0, buffer);
  }

  // Entries of directories

  const ENTRY_BYTES: nat := 260
  const ENTRY_HALVES: nat := 65
  const NAME_MAX: nat := 255
  /** "." */
  const DOT: seq<nat> := [0x2E]

  /** Byte `i` of the name in an entry: what strncpy copies, and zeros after it. */
  function NameByte(name: seq<nat>, i: nat): (b: nat)
    ensures b < 0x100
  {
    if i < |name| && i < NAME_MAX then name[i] % 0x100 else 0
  }

  /** struct gas_dir_entry in numbers of 32 bits. */
  function EntryFields(name: seq<nat>, ino: nat): (f: seq<nat>)
    ensures |f| == ENTRY_HALVES
  {
    seq(ENTRY_HALVES, h requires 0 <= h => if h == ENTRY_HALVES - 1 then ino else NameHalf(name, h))
  }

  function NameHalf(name: seq<nat>, h: nat): nat {
    NameByte(name, 4 * h) + 0x100 * NameByte(name, 4 * h + 1)
    + 0x1_0000 * NameByte(name, 4 * h + 2) + 0x100_0000 * NameByte(name, 4 * h + 3)
  }

  /** Entry `k` of a block of a directory. */
  ghost predicate EntryAt(words: seq<Word>, k: nat, name: seq<nat>, ino: nat) {
    && |words| == BLOCK_WORDS && ENTRY_HALVES * k + ENTRY_HALVES <= 2 * BLOCK_WORDS
    && forall i :: 0 <= i < ENTRY_HALVES ==> HalfAt(words, ENTRY_HALVES * k + i) == EntryFields(name, ino)[i] % HALF
  }

  /** Where i_size lies in the block of an inode. */
  function SizePlace(ino: nat): (h: nat)
    ensures h < 2 * BLOCK_WORDS
  {
    INODE_HALVES * (ino % INODES_PER_BLOCK) + 3
  }

  // Allocating through the cache

  /** What bitmap_alloc_region does to a map: nothing when no region is free, else the
      first one is taken. */
  ghost predicate Region(before: seq<Word>, after: seq<Word>, start: nat, nr: nat, n: nat) {
    && |before| == BLOCK_WORDS && |after| == BLOCK_WORDS
    && ((forall p :: !Candidate(before, BITS, start, nr, 1, p)) ==> n == 0 && after == before)
    && (forall p :: Candidate(before, BITS, start, nr, 1, p) ==>
          Candidate(before, BITS, start, nr, 1, n) && n <= p && Filled(before, after, n, n + nr, true))
  }

  /** A reader of block `k` gets what it got before, and no change of it is unmarked
      that was not. */
  ghost predicate Alone(s: State, r: State, k: nat) {
    k < |s.disk| == |r.disk| ==> View(r, k) == View(s, k) && (Unmarked(r, k) ==> Unmarked(s, k))
  }

  ghost predicate OnlyBlock(s: State, r: State, id: nat) {
    && Proper(s) && Proper(r) && id < |r.disk| == |s.disk|
    && (forall k :: 0 <= k < |s.disk| && k != id ==> Alone(s, r, k))
    && (View(r, id) == View(s, id) ==> Alone(s, r, id))
    && StaysMarked(s, r)
  }

  /** The buffer of block `k` is in the cache and marked as changed. */
  ghost predicate IsDirty(s: State, k: nat) {
    var i := IndexOf(s.list, k);
    i < |s.list| && s.list[i].dirty
  }

  /** What is in the cache stays there, and what is marked stays marked. */
  ghost predicate StaysMarked(s: State, r: State) {
    forall k: nat :: (IsCached(s.list, k) ==> IsCached(r.list, k)) && (IsDirty(s, k) ==> IsDirty(r, k))
  }

  lemma FetchThenTouchAt(s: State, id: nat, data: seq<Word>, k: nat)
    requires Proper(s) && id < |s.disk| && k < |s.disk|
    ensures var f := Fetched(s, id); var r := Touched(f, id, data);
            && Proper(r) && |r.disk| == |s.disk| && IsCached(r.list, id)
            && (k == id ==> View(r, k) == data) && (k != id || data == View(s, id) ==> Alone(s, r, k))
  {
    var f := Fetched(s, id);
    FetchedView(s, id, k);
    TouchedView(f, id, data, k);
    SameIndex(f.list, Touched(f, id, data).list, id);
  }

  lemma FetchedStaysMarked(s: State, id: nat)
    requires id < |s.disk|
    ensures StaysMarked(s, Fetched(s, id)) && IsCached(Fetched(s, id).list, id)
  {
    if !IsCached(s.list, id) {
      assert Fetched(s, id).list[1..] == s.list;
    }
  }

  lemma TouchedStaysMarked(s: State, id: nat, data: seq<Word>)
    ensures StaysMarked(s, Touched(s, id, data))
  {
    forall k: nat ensures (IsCached(s.list, k) ==> IsCached(Touched(s, id, data).list, k)) && (IsDirty(s, k) ==> IsDirty(Touched(s, id, data), k)) {
      SameIndex(s.list, Touched(s, id, data).list, k);
    }
  }

  lemma MarkedStaysMarked(s: State, id: nat)
    requires id < |s.disk|
    ensures StaysMarked(s, Marked(s, id, false)) && (IsCached(s.list, id) ==> IsDirty(Marked(s, id, false), id))
  {
    var m := Marked(s, id, false);
    forall k: nat ensures (IsCached(s.list, k) ==> IsCached(m.list, k)) && (IsDirty(s, k) ==> IsDirty(m, k)) {
      SameIndex(s.list, m.list, k);
    }
    SameIndex(s.list, m.list, id);
  }

  lemma FetchThenTouch(s: State, id: nat, data: seq<Word>)
    requires Proper(s) && id < |s.disk|
    ensures var r := Touched(Fetched(s, id), id, data);
            OnlyBlock(s, r, id) && View(r, id) == data && IsCached(r.list, id)
  {
    var r := Touched(Fetched(s, id), id, data);
    forall k | 0 <= k < |s.disk| && k != id ensures Alone(s, r, k) {
      FetchThenTouchAt(s, id, data, k);
    }
    FetchThenTouchAt(s, id, data, id);
    FetchedStaysMarked(s, id);
    TouchedStaysMarked(Fetched(s, id), id, data);
  }

  lemma MarkAfter(s: State, r: State, id: nat)
    requires OnlyBlock(s, r, id) && id < |s.disk|
    ensures var m := Marked(r, id, false);
            OnlyBlock(s, m, id) && View(m, id) == View(r, id) && !Unmarked(m, id) && (IsCached(r.list, id) ==> IsDirty(m, id))
  {
    var m := Marked(r, id, false);
    MarkedStaysMarked(r, id);
    forall k | 0 <= k < |s.disk| && k != id ensures Alone(s, m, k) {
      assert Alone(s, r, k);
      MarkedView(r, id, false, k);
    }
    MarkedView(r, id, false, id);
  }

  /** Find and take a region in the map in block `id`. */
  method AllocateIn(c: BlockCache, id: nat, start: nat, nr: nat) returns (n: nat)
    requires c.Valid() && id < |c.disk| && 1 <= nr && |View(c.now, id)| == BLOCK_WORDS
    modifies c.Repr
    ensures c.Valid() && fresh(c.Repr - old(c.Repr)) && OnlyBlock(old(c.now), c.now, id)
    ensures Region(old(View(c.now, id)), View(c.now, id), start, nr, n)
  {
    c.NowProper();
    FetchedView(c.now, id, id);
    var words := c.Read(id);
    ghost var i := IndexOf(c.now.list, id);
    n := AllocRegion(words, BITS, start, nr);
    c.Change(i);
    FetchThenTouch(old(c.now), id, words[..]);
  }

  /** A region of the map in block `id` has been taken and marked, or there was none. */
  ghost predicate TakenIn(s: State, r: State, id: nat, start: nat, nr: nat, n: nat) {
    && OnlyBlock(s, r, id) && Region(View(s, id), View(r, id), start, nr, n)
    && (n != 0 ==> n + nr <= BITS && !Unmarked(r, id))
  }

  /** Take a region, and mark the map if one was found. */
  method AllocateMarked(c: BlockCache, id: nat, start: nat, nr: nat) returns (n: nat)
    requires c.Valid() && id < |c.disk| && 1 <= nr && |View(c.now, id)| == BLOCK_WORDS
    modifies c.Repr
    ensures c.Valid() && fresh(c.Repr - old(c.Repr)) && TakenIn(old(c.now), c.now, id, start, nr, n)
  {
    n := AllocateIn(c, id, start, nr);
    if n != 0 {
      MarkAfter(old(c.now), c.now, id);
      c.Write(id, false);
    }
  }

  /** free_inode; only inodes of the first inode block can be freed. */
  method FreeInode(c: BlockCache, l: Layout, ino: nat)
    requires c.Valid() && IamStart(l) < |c.disk| && |View(c.now, IamStart(l))| == BLOCK_WORDS
    modifies c.Repr
    ensures c.Valid() && fresh(c.Repr - old(c.Repr)) && InodeFreed(old(c.now), c.now, IamStart(l), ino)
  {
    var id := IamStart(l);
    if ino >= INODES_PER_BLOCK {
      c.NowProper();
      FetchesOnly(c.now, id);
      var words := c.Read(id);
      return;
    }
    FreeIn(c, id, ino);
    MarkAfter(old(c.now), c.now, id);
    c.Write(id, false);
  }

  ghost predicate InodeFreed(s: State, r: State, id: nat, ino: nat) {
    && OnlyBlock(s, r, id)
    && (ino < INODES_PER_BLOCK ==> Filled(View(s, id), View(r, id), ino, ino + 1, false))
    && (ino >= INODES_PER_BLOCK ==> View(r, id) == View(s, id))
  }

  /** Clear a bit of the map in block `id`. */
  method FreeIn(c: BlockCache, id: nat, pos: nat)
    requires c.Valid() && id < |c.disk| && pos < BITS && |View(c.now, id)| == BLOCK_WORDS
    modifies c.Repr
    ensures c.Valid() && fresh(c.Repr - old(c.Repr)) && OnlyBlock(old(c.now), c.now, id)
    ensures Filled(old(View(c.now, id)), View(c.now, id), pos, pos + 1, false)
  {
    c.NowProper();
    FetchedView(c.now, id, id);
    var words := c.Read(id);
    ghost var i := IndexOf(c.now.list, id);
    FreeRegion(words, pos, 1);
    c.Change(i);
    FetchThenTouch(old(c.now), id, words[..]);
  }

  lemma FetchesOnly(s: State, id: nat)
    requires Proper(s) && id < |s.disk|
    ensures OnlyBlock(s, Fetched(s, id), id) && View(Fetched(s, id), id) == View(s, id)
  {
    forall k | 0 <= k < |s.disk| && k != id ensures Alone(s, Fetched(s, id), k) {
      FetchedView(s, id, k);
    }
    FetchedView(s, id, id);
    FetchedStaysMarked(s, id);
  }

  /** Block map `k`, as a reader gets it. */
  ghost function BlockMap(s: State, k: nat): seq<Word> {
    if BAM_START + k < |s.disk| then View(s, BAM_START + k) else []
  }

  /** A free region of a map is passed over when its place in the map is 0, which stands
      for failure. */
  ghost predicate PassedOver(words: seq<Word>, nr: nat) {
    |words| == BLOCK_WORDS && forall p :: Candidate(words, BITS, 0, nr, 1, p) ==> Candidate(words, BITS, 0, nr, 1, 0)
  }

  /** Nothing has changed but the first `i` block maps. */
  ghost predicate OnlyMaps(s: State, r: State, i: nat) {
    && Proper(r) && |r.disk| == |s.disk|
    && forall k :: 0 <= k < |s.disk| && !(BAM_START <= k < BAM_START + i) ==> Alone(s, r, k)
  }

  /** Nothing has changed but the first `i` block maps and block `id`. */
  ghost predicate OnlyMapsAnd(s: State, r: State, i: nat, id: nat) {
    && Proper(r) && |r.disk| == |s.disk|
    && forall k :: 0 <= k < |s.disk| && !(BAM_START <= k < BAM_START + i) && k != id ==> Alone(s, r, k)
  }

  ghost predicate AllPassedOver(s: State, i: nat, nr: nat) {
    forall k :: 0 <= k < i ==> PassedOver(BlockMap(s, k), nr)
  }

  ghost predicate NoneFree(words: seq<Word>, nr: nat) {
    |words| == BLOCK_WORDS && forall p :: !Candidate(words, BITS, 0, nr, 1, p)
  }

  /** The first `i` maps had nothing; those without a free region have not changed. */
  ghost predicate Passed(s: State, r: State, i: nat, nr: nat) {
    AllPassedOver(s, i, nr) && forall k :: 0 <= k < i && NoneFree(BlockMap(s, k), nr) ==> Alone(s, r, BAM_START + k)
  }

  /** The region of `nr` blocks at place `n` of map `i` has been taken, and the maps after
      it are as before. */
  ghost predicate Taken(s: State, r: State, maps: nat, i: nat, n: nat, nr: nat) {
    && Passed(s, r, i, nr) && BAM_START + i < |s.disk| == |r.disk|
    && n != 0 && n + nr <= BITS && Region(BlockMap(s, i), BlockMap(r, i), 0, nr, n) && !Unmarked(r, BAM_START + i)
    && forall k :: BAM_START + i < k < BAM_START + maps ==> Alone(s, r, k)
  }

  lemma NextMap(s: State, r: State, q: State, maps: nat, i: nat, nr: nat, n: nat)
    requires BAM_START + i < |s.disk| && i < maps && BAM_START + maps <= |s.disk|
    requires OnlyMaps(s, r, i) && Passed(s, r, i, nr)
    requires BAM_START + i < |r.disk| && TakenIn(r, q, BAM_START + i, 0, nr, n)
    ensures OnlyMaps(s, q, i + 1) && (if n == 0 then Passed(s, q, i + 1, nr) else Taken(s, q, maps, i, n, nr))
  {
    assert BlockMap(r, i) == BlockMap(s, i) by {
      assert Alone(s, r, BAM_START + i);
    }
    assert n == 0 ==> PassedOver(BlockMap(r, i), nr);
    assert n == 0 && NoneFree(BlockMap(s, i), nr) ==> View(q, BAM_START + i) == View(r, BAM_START + i);
    forall k | 0 <= k < i + (if n == 0 then 1 else 0) && NoneFree(BlockMap(s, k), nr) ensures Alone(s, q, BAM_START + k) {
      assert Alone(s, r, BAM_START + k) && Alone(r, q, BAM_START + k);
    }
    forall k | 0 <= k < |s.disk| && !(BAM_START <= k < BAM_START + i + 1) ensures Alone(s, q, k) {
      assert Alone(s, r, k) && Alone(r, q, k);
    }
  }

  /** The blocks from `n` on have been taken. */
  ghost predicate TakenAt(s: State, r: State, maps: nat, n: nat, nr: nat) {
    exists i: nat, o: nat :: i < maps && n == o + i * BITS && Taken(s, r, maps, i, o, nr)
  }

  /** One round of allocate_blk. */
  method TryMap(c: BlockCache, maps: nat, i: nat, blocks: nat, ghost s: State) returns (n: nat)
    requires c.Valid() && 1 <= blocks && i < maps && BAM_START + maps <= |c.disk| && |BlockMap(s, i)| == BLOCK_WORDS
    requires OnlyMaps(s, c.now, i) && Passed(s, c.now, i, blocks)
    modifies c.Repr
    ensures c.Valid() && fresh(c.Repr - old(c.Repr)) && OnlyMaps(s, c.now, i + 1)
    ensures if n == 0 then Passed(s, c.now, i + 1, blocks) else Taken(s, c.now, maps, i, n, blocks)
  {
    assert BlockMap(c.now, i) == BlockMap(s, i) by {
      assert Alone(s, c.now, BAM_START + i);
    }
    ghost var before := c.now;
    n := AllocateMarked(c, BAM_START + i, 0, blocks);
    NextMap(s, before, c.now, maps, i, blocks, n);
  }

  /** allocate_blk: a region of blocks in the first map that has one, though not at its
      first place. */
  method AllocateBlk(c: BlockCache, l: Layout, blocks: nat) returns (n: nat)
    requires c.Valid() && 1 <= blocks && BAM_START + l.bamBlk <= |c.disk|
    requires forall k :: 0 <= k < l.bamBlk ==> |BlockMap(c.now, k)| == BLOCK_WORDS
    modifies c.Repr
    ensures c.Valid() && fresh(c.Repr - old(c.Repr))
    ensures OnlyMaps(old(c.now), c.now, l.bamBlk)
    ensures if n == 0 then AllPassedOver(old(c.now), l.bamBlk, blocks)
            else TakenAt(old(c.now), c.now, l.bamBlk, n, blocks)
  {
    n := 0;
    var i := 0;
    c.NowProper();
    while i < l.bamBlk
      invariant i <= l.bamBlk && c.Valid() && fresh(c.Repr - old(c.Repr))
      invariant OnlyMaps(old(c.now), c.now, i) && Passed(old(c.now), c.now, i, blocks) && n == 0
    {
      var o := TryMap(c, l.bamBlk, i, blocks, old(c.now));
      if o != 0 {
        n := o + i * BITS;
        assert Taken(old(c.now), c.now, l.bamBlk, i, o, blocks);
        return;
      }
      i := i + 1;
    }
  }

  // The root directory

  /** What new_inode comes to; get_inode knows only the inodes of the first inode block,
      and ends the program for any other. */
  datatype Made = Made(ino: nat, addr: nat) | NoRoom | Fatal

  /** allocate_inode. */
  method AllocateInode(c: BlockCache, l: Layout) returns (n: nat)
    requires c.Valid() && IamStart(l) < |c.disk| && |BlockMap(c.now, l.bamBlk)| == BLOCK_WORDS
    modifies c.Repr
    ensures c.Valid() && fresh(c.Repr - old(c.Repr))
    ensures InodeTaken(old(c.now), c.now, l, n)
  {
    n := AllocateMarked(c, IamStart(l), ROOT_INO, 1);
  }

  /** The first free inode has been taken, or there was none. */
  ghost predicate InodeTaken(s: State, p: State, l: Layout, ino: nat) {
    IamStart(l) < |s.disk| && TakenIn(s, p, IamStart(l), ROOT_INO, 1, ino)
  }

  /** What a reader gets after new_inode has come to `r`. */
  ghost predicate MadeFrom(s: State, q: State, l: Layout, blocks: nat, r: Made) {
    match r
    case Made(ino, addr) => MadeInode(s, q, l, blocks, ino, addr)
    case NoRoom => GaveUp(s, q, l, blocks)
    case Fatal => NoneFreeBelow(BlockMap(s, l.bamBlk), INODES_PER_BLOCK)
  }

  ghost predicate MadeInode(s: State, q: State, l: Layout, blocks: nat, ino: nat, addr: nat) {
    && 1 <= ino < INODES_PER_BLOCK && TakenAt(s, q, l.bamBlk, addr, blocks)
    && Region(BlockMap(s, l.bamBlk), BlockMap(q, l.bamBlk), ROOT_INO, 1, ino)
    && OnlyMapsAnd(s, q, l.bamBlk + 1, ListStart(l)) && (IamStart(l) < |q.disk| ==> !Unmarked(q, IamStart(l)))
    && PointerStored(s, q, l, ino, addr)
  }

  /** The inode has its first block, and what follows it in the first inode block is as
      before; the block is marked. */
  ghost predicate PointerStored(s: State, q: State, l: Layout, ino: nat, addr: nat) {
    && ino < INODES_PER_BLOCK && ListStart(l) < |s.disk| == |q.disk| && !Unmarked(q, ListStart(l))
    && InodeStored(View(s, ListStart(l)), View(q, ListStart(l)), ino, addr)
  }

  ghost predicate InodeStored(before: seq<Word>, after: seq<Word>, ino: nat, addr: nat) {
    && |before| == |after| == BLOCK_WORDS && ino < INODES_PER_BLOCK
    && forall x :: 0 <= x < 2 * BLOCK_WORDS && !(INODE_HALVES * ino <= x < INODE_HALVES * ino + FIRST_POINTER) ==>
         HalfAt(after, x) == if x == PointerPlace(ino, 0) then addr % HALF else HalfAt(before, x)
  }

  ghost predicate HasFields(words: seq<Word>, ino: nat, f: seq<nat>) {
    && |words| == BLOCK_WORDS && ino < INODES_PER_BLOCK && |f| == FIRST_POINTER
    && forall i :: 0 <= i < FIRST_POINTER ==> HalfAt(words, INODE_HALVES * ino + i) == f[i] % HALF
  }

  /** The inode map is as before, and it or the block maps had no room. */
  ghost predicate GaveUp(s: State, q: State, l: Layout, blocks: nat) {
    && BlockMap(q, l.bamBlk) == BlockMap(s, l.bamBlk)
    && (AllPassedOver(s, l.bamBlk, blocks) || NoneFreeBelow(BlockMap(s, l.bamBlk), BITS))
  }

  ghost predicate NoneFreeBelow(inodes: seq<Word>, n: nat) {
    |inodes| == BLOCK_WORDS && forall p :: Candidate(inodes, BITS, ROOT_INO, 1, 1, p) ==> n <= p
  }

  /** new_inode. */
  method NewInode(c: BlockCache, l: Layout, size: nat, a: Attributes) returns (r: Made)
    requires c.Valid() && 1 <= size && 1 <= l.iamBlk && ListStart(l) < |c.disk|
    requires forall k :: 0 <= k <= l.bamBlk ==> |BlockMap(c.now, k)| == BLOCK_WORDS
    requires |View(c.now, ListStart(l))| == BLOCK_WORDS
    modifies c.Repr
    ensures c.Valid() && fresh(c.Repr - old(c.Repr)) && |c.disk| == |old(c.disk)|
    ensures MadeFrom(old(c.now), c.now, l, (size + BLOCK_SIZE - 1) / BLOCK_SIZE, r)
    ensures r.Made? ==> HasFields(View(c.now, ListStart(l)), r.ino, Fields(a)) && IsDirty(c.now, ListStart(l))
  {
    ghost var s := c.now;
    var blocks := (size + BLOCK_SIZE - 1) / BLOCK_SIZE;
    var ino := AllocateInode(c, l);
    ghost var p := c.now;
    InodeMaps(s, p, l, ino);
    var addr := 0;
    if 0 < ino < INODES_PER_BLOCK {
      assert Alone(s, p, ListStart(l));
      addr := NewBlocks(c, l, blocks, ino, a);
    }
    r := if ino == 0 then NoRoom else if ino >= INODES_PER_BLOCK then Fatal else if addr == 0 then NoRoom else Made(ino, addr);
    InodeResult(s, p, c.now, l, blocks, ino, addr, r);
  }

  lemma InodeMaps(s: State, p: State, l: Layout, ino: nat)
    requires InodeTaken(s, p, l, ino) && forall k :: 0 <= k <= l.bamBlk ==> |BlockMap(s, k)| == BLOCK_WORDS
    ensures |p.disk| == |s.disk| && forall k :: 0 <= k <= l.bamBlk ==> |BlockMap(p, k)| == BLOCK_WORDS
  {
    MapsUntouched(s, p, l, 1, IamStart(l));
  }

  lemma InodeResult(s: State, p: State, q: State, l: Layout, blocks: nat, ino: nat, addr: nat, r: Made)
    requires 1 <= l.iamBlk
    requires InodeTaken(s, p, l, ino) && (if 0 < ino < INODES_PER_BLOCK then BlocksMade(p, q, l, blocks, ino, addr) else q == p)
    requires r == if ino == 0 then NoRoom else if ino >= INODES_PER_BLOCK then Fatal else if addr == 0 then NoRoom else Made(ino, addr)
    ensures MadeFrom(s, q, l, blocks, r)
  {
    if 0 < ino < INODES_PER_BLOCK {
      if addr == 0 {
        InodeGivenBack(s, p, q, l, blocks, ino);
      } else {
        InodeMade(s, p, q, l, blocks, ino, addr);
      }
    }
  }

  lemma InodeMade(s: State, p: State, q: State, l: Layout, blocks: nat, ino: nat, addr: nat)
    requires 1 <= ino < INODES_PER_BLOCK && addr != 0 && 1 <= l.iamBlk
    requires InodeTaken(s, p, l, ino) && BlocksMade(p, q, l, blocks, ino, addr)
    ensures MadeInode(s, q, l, blocks, ino, addr)
  {
    TakenFromFirst(s, p, q, l, addr, blocks, IamStart(l));
    InodeMapKept(s, p, q, l, ino);
    PointerSince(s, p, q, l, ino, addr);
    MapsThrough(s, p, q, l);
  }

  lemma InodeMapKept(s: State, p: State, q: State, l: Layout, ino: nat)
    requires 1 <= ino && 1 <= l.iamBlk && InodeTaken(s, p, l, ino) && OnlyMapsAnd(p, q, l.bamBlk, ListStart(l))
    ensures Region(BlockMap(s, l.bamBlk), BlockMap(q, l.bamBlk), ROOT_INO, 1, ino)
    ensures IamStart(l) < |q.disk| && !Unmarked(q, IamStart(l))
  {
    assert Alone(p, q, IamStart(l));
    assert BlockMap(q, l.bamBlk) == View(p, IamStart(l));
  }

  lemma PointerSince(s: State, p: State, q: State, l: Layout, ino: nat, addr: nat)
    requires 1 <= l.iamBlk && OnlyBlock(s, p, IamStart(l)) && PointerStored(p, q, l, ino, addr)
    ensures PointerStored(s, q, l, ino, addr)
  {
    assert Alone(s, p, ListStart(l));
    assert View(s, ListStart(l)) == View(p, ListStart(l));
  }

  lemma MapsThrough(s: State, p: State, q: State, l: Layout)
    requires OnlyBlock(s, p, IamStart(l)) && OnlyMapsAnd(p, q, l.bamBlk, ListStart(l))
    ensures OnlyMapsAnd(s, q, l.bamBlk + 1, ListStart(l))
  {
    forall k | 0 <= k < |s.disk| && !(BAM_START <= k < BAM_START + l.bamBlk + 1) && k != ListStart(l) ensures Alone(s, q, k) {
      assert Alone(s, p, k) && Alone(p, q, k);
    }
  }

  lemma InodeGivenBack(s: State, p: State, q: State, l: Layout, blocks: nat, ino: nat)
    requires 1 <= ino && InodeTaken(s, p, l, ino) && BlocksMade(p, q, l, blocks, ino, 0)
    ensures GaveUp(s, q, l, blocks)
  {
    MapsUntouched(s, p, l, blocks, IamStart(l));
    Restored(BlockMap(s, l.bamBlk), BlockMap(p, l.bamBlk), BlockMap(q, l.bamBlk), ino);
  }

  ghost predicate BlocksMade(p: State, q: State, l: Layout, blocks: nat, ino: nat, addr: nat) {
    match l
    case Layout(_, bamBlk, _, _, _, _) =>
      if addr == 0 then
        && AllPassedOver(p, bamBlk, blocks)
        && Filled(BlockMap(p, bamBlk), BlockMap(q, bamBlk), ino, ino + 1, false)
      else
        && TakenAt(p, q, bamBlk, addr, blocks) && OnlyMapsAnd(p, q, bamBlk, ListStart(l))
        && PointerStored(p, q, l, ino, addr)
  }

  /** The blocks of a new inode, and its fields; without blocks, the inode is given back,
      with a first pointer of zero. */
  method NewBlocks(c: BlockCache, l: Layout, blocks: nat, ino: nat, a: Attributes) returns (addr: nat)
    requires c.Valid() && 1 <= blocks && 1 <= l.iamBlk && ListStart(l) < |c.disk| && 1 <= ino < INODES_PER_BLOCK
    requires forall k :: 0 <= k <= l.bamBlk ==> |BlockMap(c.now, k)| == BLOCK_WORDS
    requires |View(c.now, ListStart(l))| == BLOCK_WORDS
    modifies c.Repr
    ensures c.Valid() && fresh(c.Repr - old(c.Repr)) && |c.disk| == |old(c.disk)|
    ensures BlocksMade(old(c.now), c.now, l, blocks, ino, addr)
    ensures addr != 0 ==> HasFields(View(c.now, ListStart(l)), ino, Fields(a)) && IsDirty(c.now, ListStart(l))
  {
    ghost var s := c.now;
    addr := AllocateFor(c, l, blocks, ino);
    ghost var p := c.now;
    if addr == 0 {
      assert Alone(s, p, IamStart(l));
      FreeInode(c, l, ino);
      InodeMapFreed(s, p, c.now, l, ino);
    } else {
      StoreFields(c, l, ino, Fields(a));
      FieldsAfter(s, p, c.now, l, blocks, ino, addr, Fields(a));
    }
  }

  /** get_inode, allocate_blk, and the store of the address in the inode. */
  method AllocateFor(c: BlockCache, l: Layout, blocks: nat, ino: nat) returns (addr: nat)
    requires c.Valid() && 1 <= blocks && 1 <= l.iamBlk && ListStart(l) < |c.disk| && ino < INODES_PER_BLOCK
    requires forall k :: 0 <= k <= l.bamBlk ==> |BlockMap(c.now, k)| == BLOCK_WORDS
    requires |View(c.now, ListStart(l))| == BLOCK_WORDS
    modifies c.Repr
    ensures c.Valid() && fresh(c.Repr - old(c.Repr)) && Allocated(old(c.now), c.now, l, blocks, ino, addr)
  {
    ghost var s := c.now;
    GetInode(c, l);
    ghost var p := c.now;
    SizesStay(s, p, l);
    addr := AllocateAndStore(c, l, blocks, ino);
    AllocatedAfterRead(s, p, c.now, l, blocks, ino, addr);
  }

  lemma SizesStay(s: State, p: State, l: Layout)
    requires 1 <= l.iamBlk && ListStart(l) < |s.disk| && OnlyBlock(s, p, ListStart(l))
    requires forall k :: 0 <= k <= l.bamBlk ==> |BlockMap(s, k)| == BLOCK_WORDS
    ensures forall k :: 0 <= k <= l.bamBlk ==> |BlockMap(p, k)| == BLOCK_WORDS
  {
    forall k | 0 <= k <= l.bamBlk ensures |BlockMap(p, k)| == BLOCK_WORDS {
      assert Alone(s, p, BAM_START + k) && |BlockMap(s, k)| == BLOCK_WORDS;
    }
  }

  method AllocateAndStore(c: BlockCache, l: Layout, blocks: nat, ino: nat) returns (addr: nat)
    requires c.Valid() && 1 <= blocks && 1 <= l.iamBlk && ListStart(l) < |c.disk| && ino < INODES_PER_BLOCK
    requires forall k :: 0 <= k <= l.bamBlk ==> |BlockMap(c.now, k)| == BLOCK_WORDS
    requires |View(c.now, ListStart(l))| == BLOCK_WORDS
    modifies c.Repr
    ensures c.Valid() && fresh(c.Repr - old(c.Repr)) && Allocated(old(c.now), c.now, l, blocks, ino, addr)
  {
    ghost var p := c.now;
    addr := AllocateBlk(c, l, blocks);
    ghost var q := c.now;
    assert Alone(p, q, ListStart(l));
    StoreInInode(c, l, PointerPlace(ino, 0), addr);
    AllocatedThenStored(p, q, c.now, l, blocks, ino, addr);
  }

  /** get_inode, for an inode of the first inode block. */
  method GetInode(c: BlockCache, l: Layout)
    requires c.Valid() && ListStart(l) < |c.disk|
    modifies c.Repr
    ensures c.Valid() && fresh(c.Repr - old(c.Repr)) && OnlyBlock(old(c.now), c.now, ListStart(l))
    ensures View(c.now, ListStart(l)) == old(View(c.now, ListStart(l)))
  {
    c.NowProper();
    FetchesOnly(c.now, ListStart(l));
    var block := c.Read(ListStart(l));
  }

  /** The blocks from `addr` on have been taken, if there were any, and `addr` is stored. */
  ghost predicate Allocated(s: State, r: State, l: Layout, blocks: nat, ino: nat, addr: nat) {
    && (if addr == 0 then AllPassedOver(s, l.bamBlk, blocks) else TakenAt(s, r, l.bamBlk, addr, blocks))
    && OnlyMapsAnd(s, r, l.bamBlk, ListStart(l)) && ListStart(l) < |s.disk| && ino < INODES_PER_BLOCK
    && HalfSet(View(s, ListStart(l)), View(r, ListStart(l)), PointerPlace(ino, 0), addr)
    && |View(s, ListStart(l))| == BLOCK_WORDS
  }

  lemma AllocatedThenStored(p: State, q: State, r: State, l: Layout, blocks: nat, ino: nat, addr: nat)
    requires 1 <= l.iamBlk && ListStart(l) < |p.disk| && ino < INODES_PER_BLOCK && |View(p, ListStart(l))| == BLOCK_WORDS
    requires OnlyMaps(p, q, l.bamBlk) && OnlyBlock(q, r, ListStart(l))
    requires if addr == 0 then AllPassedOver(p, l.bamBlk, blocks) else TakenAt(p, q, l.bamBlk, addr, blocks)
    requires HalfSet(View(q, ListStart(l)), View(r, ListStart(l)), PointerPlace(ino, 0), addr)
    ensures Allocated(p, r, l, blocks, ino, addr)
  {
    assert Alone(p, q, ListStart(l));
    forall k | 0 <= k < |p.disk| && !(BAM_START <= k < BAM_START + l.bamBlk) && k != ListStart(l) ensures Alone(p, r, k) {
      assert Alone(p, q, k) && Alone(q, r, k);
    }
    if addr != 0 {
      TakenThenBlock(p, q, r, l, addr, blocks);
    }
  }

  lemma AllocatedAfterRead(s: State, p: State, r: State, l: Layout, blocks: nat, ino: nat, addr: nat)
    requires ListStart(l) < |s.disk| && OnlyBlock(s, p, ListStart(l)) && View(p, ListStart(l)) == View(s, ListStart(l))
    requires Allocated(p, r, l, blocks, ino, addr)
    ensures Allocated(s, r, l, blocks, ino, addr)
  {
    MapsUntouched(s, p, l, blocks, ListStart(l));
    forall k | 0 <= k < |s.disk| && !(BAM_START <= k < BAM_START + l.bamBlk) && k != ListStart(l) ensures Alone(s, r, k) {
      assert Alone(s, p, k) && Alone(p, r, k);
    }
    if addr != 0 {
      TakenFromFirst(s, p, r, l, addr, blocks, ListStart(l));
    }
  }

  /** A change of another block leaves the region taken. */
  lemma TakenThenBlock(s: State, q: State, r: State, l: Layout, addr: nat, blocks: nat)
    requires ListStart(l) < |q.disk| && OnlyBlock(q, r, ListStart(l)) && TakenAt(s, q, l.bamBlk, addr, blocks)
    ensures TakenAt(s, r, l.bamBlk, addr, blocks)
  {
    var i: nat, o: nat :| i < l.bamBlk && addr == o + i * BITS && Taken(s, q, l.bamBlk, i, o, blocks);
    assert Alone(q, r, BAM_START + i);
    forall k | 0 <= k < i && NoneFree(BlockMap(s, k), blocks) ensures Alone(s, r, BAM_START + k) {
      assert Alone(s, q, BAM_START + k) && Alone(q, r, BAM_START + k);
    }
    forall k | BAM_START + i < k < BAM_START + l.bamBlk ensures Alone(s, r, k) {
      assert Alone(s, q, k) && Alone(q, r, k);
    }
    assert Taken(s, r, l.bamBlk, i, o, blocks);
  }

  /** A store into a field of an inode; its buffer is still in the list. */
  method StoreInInode(c: BlockCache, l: Layout, h: nat, v: nat)
    requires c.Valid() && ListStart(l) < |c.disk| && h < 2 * BLOCK_WORDS && |View(c.now, ListStart(l))| == BLOCK_WORDS
    modifies c.Repr
    ensures c.Valid() && fresh(c.Repr - old(c.Repr)) && OnlyBlock(old(c.now), c.now, ListStart(l))
    ensures HalfSet(old(View(c.now, ListStart(l))), View(c.now, ListStart(l)), h, v)
  {
    var id := ListStart(l);
    c.NowProper();
    FetchedView(c.now, id, id);
    var block := c.Read(id);
    ghost var i := IndexOf(c.now.list, id);
    SetHalf(block, h, v);
    c.Change(i);
    FetchThenTouch(old(c.now), id, block[..]);
  }

  /** Store numbers of 32 bits into the buffer of block `id`. */
  method WriteFields(c: BlockCache, id: nat, base: nat, f: seq<nat>)
    requires c.Valid() && id < |c.disk| && base + |f| <= 2 * BLOCK_WORDS
    modifies c.Repr
    ensures c.Valid() && fresh(c.Repr - old(c.Repr)) && OnlyBlock(old(c.now), c.now, id) && IsCached(c.now.list, id)
    ensures FieldsSet(old(View(c.now, id)), View(c.now, id), base, f, |f|)
  {
    c.NowProper();
    ViewSize(c, id);
    FetchedView(c.now, id, id);
    var block := c.Read(id);
    ghost var i := IndexOf(c.now.list, id);
    SetFields(block, base, f);
    c.Change(i);
    FetchThenTouch(old(c.now), id, block[..]);
  }

  /** The stores into the other fields, and the mark. */
  method StoreFields(c: BlockCache, l: Layout, ino: nat, f: seq<nat>)
    requires c.Valid() && ListStart(l) < |c.disk| && ino < INODES_PER_BLOCK && |View(c.now, ListStart(l))| == BLOCK_WORDS
    requires |f| == FIRST_POINTER
    modifies c.Repr
    ensures c.Valid() && fresh(c.Repr - old(c.Repr)) && OnlyBlock(old(c.now), c.now, ListStart(l))
    ensures !Unmarked(c.now, ListStart(l)) && IsDirty(c.now, ListStart(l))
    ensures FieldsSet(old(View(c.now, ListStart(l))), View(c.now, ListStart(l)), INODE_HALVES * ino, f, FIRST_POINTER)
  {
    var id := ListStart(l);
    WriteFields(c, id, INODE_HALVES * ino, f);
    MarkAfter(old(c.now), c.now, id);
    c.Write(id, false);
  }

  lemma FieldsAfter(s: State, p: State, q: State, l: Layout, blocks: nat, ino: nat, addr: nat, f: seq<nat>)
    requires Allocated(s, p, l, blocks, ino, addr) && addr != 0 && ListStart(l) < |p.disk| && OnlyBlock(p, q, ListStart(l))
    requires !Unmarked(q, ListStart(l)) && FieldsSet(View(p, ListStart(l)), View(q, ListStart(l)), INODE_HALVES * ino, f, FIRST_POINTER)
    requires |f| == FIRST_POINTER
    ensures BlocksMade(s, q, l, blocks, ino, addr) && HasFields(View(q, ListStart(l)), ino, f)
  {
    TakenThenBlock(s, p, q, l, addr, blocks);
    forall k | 0 <= k < |s.disk| && !(BAM_START <= k < BAM_START + l.bamBlk) && k != ListStart(l) ensures Alone(s, q, k) {
      assert Alone(s, p, k) && Alone(p, q, k);
    }
    InodeIsStored(View(s, ListStart(l)), View(p, ListStart(l)), View(q, ListStart(l)), ino, addr, f);
  }

  lemma InodeIsStored(a: seq<Word>, b: seq<Word>, d: seq<Word>, ino: nat, addr: nat, f: seq<nat>)
    requires ino < INODES_PER_BLOCK && |a| == BLOCK_WORDS && HalfSet(a, b, PointerPlace(ino, 0), addr)
    requires |f| == FIRST_POINTER && FieldsSet(b, d, INODE_HALVES * ino, f, FIRST_POINTER)
    ensures InodeStored(a, d, ino, addr) && HasFields(d, ino, f)
  {
    forall i | 0 <= i < FIRST_POINTER ensures HalfAt(d, INODE_HALVES * ino + i) == f[i] % HALF {
      var x := INODE_HALVES * ino + i;
      assert f[x - INODE_HALVES * ino] == f[i];
    }
  }

  lemma InodeMapFreed(s: State, p: State, q: State, l: Layout, ino: nat)
    requires 1 <= l.iamBlk && OnlyMapsAnd(s, p, l.bamBlk, ListStart(l)) && IamStart(l) < |s.disk|
    requires InodeFreed(p, q, IamStart(l), ino) && ino < INODES_PER_BLOCK
    ensures Filled(BlockMap(s, l.bamBlk), BlockMap(q, l.bamBlk), ino, ino + 1, false)
  {
    assert Alone(s, p, IamStart(l));
  }

  lemma MapsUntouched(s: State, p: State, l: Layout, blocks: nat, id: nat)
    requires IamStart(l) <= id < |s.disk| && OnlyBlock(s, p, id)
    ensures forall k :: 0 <= k < l.bamBlk ==> BlockMap(p, k) == BlockMap(s, k)
    ensures AllPassedOver(p, l.bamBlk, blocks) <==> AllPassedOver(s, l.bamBlk, blocks)
  {
    forall k | 0 <= k < l.bamBlk ensures BlockMap(p, k) == BlockMap(s, k) {
      assert Alone(s, p, BAM_START + k);
    }
  }

  lemma Restored(a: seq<Word>, b: seq<Word>, c: seq<Word>, ino: nat)
    requires Region(a, b, ROOT_INO, 1, ino) && ino != 0 && Filled(b, c, ino, ino + 1, false)
    ensures c == a
  {
    assert exists p :: Candidate(a, BITS, ROOT_INO, 1, 1, p);
    ClearUndoesSet(a, b, c, ino, 1);
  }

  lemma TakenFromFirst(s: State, p: State, q: State, l: Layout, addr: nat, blocks: nat, id: nat)
    requires IamStart(l) <= id < |s.disk| && OnlyBlock(s, p, id)
    requires TakenAt(p, q, l.bamBlk, addr, blocks)
    ensures TakenAt(s, q, l.bamBlk, addr, blocks)
  {
    var i: nat, o: nat :| i < l.bamBlk && addr == o + i * BITS && Taken(p, q, l.bamBlk, i, o, blocks);
    TakenEarlier(s, p, q, l, i, o, blocks, id);
  }

  lemma TakenEarlier(s: State, p: State, q: State, l: Layout, i: nat, o: nat, blocks: nat, id: nat)
    requires IamStart(l) <= id < |s.disk| && OnlyBlock(s, p, id) && i < l.bamBlk && Taken(p, q, l.bamBlk, i, o, blocks)
    ensures Taken(s, q, l.bamBlk, i, o, blocks)
  {
    PassedEarlier(s, p, q, l, i, blocks, id);
    forall k | BAM_START + i < k < BAM_START + l.bamBlk ensures Alone(s, q, k) {
      assert Alone(p, q, k) && Alone(s, p, k);
    }
    assert Alone(s, p, BAM_START + i);
    assert BlockMap(p, i) == BlockMap(s, i);
  }

  lemma PassedEarlier(s: State, p: State, q: State, l: Layout, i: nat, blocks: nat, id: nat)
    requires IamStart(l) <= id < |s.disk| && OnlyBlock(s, p, id) && i < l.bamBlk && Passed(p, q, i, blocks)
    ensures Passed(s, q, i, blocks)
  {
    MapsUntouched(s, p, l, blocks, id);
    forall k | 0 <= k < i
      ensures PassedOver(BlockMap(s, k), blocks) && (NoneFree(BlockMap(s, k), blocks) ==> Alone(s, q, BAM_START + k))
    {
      assert PassedOver(BlockMap(p, k), blocks) && Alone(s, p, BAM_START + k);
    }
  }

  // The device that the formatter leaves

  /** The block maps and the inode map, as stored. */
  ghost predicate MapsStored(disk: seq<seq<Word>>, l: Layout, usedBlocks: nat, usedInodes: nat) {
    && (forall k :: 0 <= k < l.bamBlk ==> PresetAt(disk, BAM_START, k, usedBlocks, l.blkCnt))
    && (forall k :: 0 <= k < l.iamBlk ==> PresetAt(disk, IamStart(l), k, usedInodes, l.inoCnt))
  }

  /** Nothing is allocated yet, and nothing is in the cache. */
  ghost predicate Initial(s: State, l: Layout) {
    Fits(l, |s.disk|) && s.list == [] && MapsStored(s.disk, l, l.dataSt, 1) && ListClear(s.disk, l, l.inoBlk)
    && SuperStored(s.disk, l)
  }

  /** An empty device: the superblock; in the allocation maps everything before the data
      zone, inode 0, and the bits that stand for nothing; and an inode list of zeros. */
  method InitDevice(disk: seq<seq<Word>>) returns (c: BlockCache)
    requires 256 <= |disk| && forall k :: 0 <= k < |disk| ==> |disk[k]| == BLOCK_WORDS
    ensures fresh(c.Repr) && c.Valid() && |c.disk| == |disk| && Initial(c.now, LayoutOf(|disk|))
  {
    var l := LayoutOf(|disk|);
    LayoutFits(|disk|);
    c := new BlockCache(disk);
    InitSuperBlock(c, l);
    InitMaps(c, BAM_START, l.bamBlk, l.dataSt, l.blkCnt);
    ghost var between := c.disk;
    InitMaps(c, IamStart(l), l.iamBlk, 1, l.inoCnt);
    forall k | 0 <= k < l.bamBlk ensures PresetAt(c.disk, BAM_START, k, l.dataSt, l.blkCnt) {
      assert PresetAt(between, BAM_START, k, l.dataSt, l.blkCnt);
    }
    ghost var maps := c.disk;
    InitInodeList(c, l);
    KeepMaps(maps, c.disk, l);
  }

  lemma KeepMaps(a: seq<seq<Word>>, b: seq<seq<Word>>, l: Layout)
    requires |a| == |b| && Fits(l, |a|) && MapsStored(a, l, l.dataSt, 1)
    requires forall k :: 0 <= k < |a| && !(ListStart(l) <= k < ListStart(l) + l.inoBlk) ==> b[k] == a[k]
    ensures MapsStored(b, l, l.dataSt, 1)
  {
    forall k | 0 <= k < l.bamBlk ensures PresetAt(b, BAM_START, k, l.dataSt, l.blkCnt) {
      assert PresetAt(a, BAM_START, k, l.dataSt, l.blkCnt);
    }
    forall k | 0 <= k < l.iamBlk ensures PresetAt(b, IamStart(l), k, 1, l.inoCnt) {
      assert PresetAt(a, IamStart(l), k, 1, l.inoCnt);
    }
  }

  /** In the map where the preset bits end, the first free region starts there. */
  lemma FirstFree(words: seq<Word>, k: nat, preset: nat, total: nat, start: nat, o: nat, nr: nat)
    requires Preset(words, k, preset, total) && 1 <= nr && preset + nr <= total
    requires preset == k * BITS + o && start <= o && o + nr <= BITS
    ensures Candidate(words, BITS, start, nr, 1, o)
    ensures forall p :: Candidate(words, BITS, start, nr, 1, p) ==> o <= p
  {
    forall p | Candidate(words, BITS, start, nr, 1, p) ensures o <= p {
      assert !At(words, p);
    }
  }

  lemma FirstTaken(words: seq<Word>, after: seq<Word>, k: nat, preset: nat, total: nat, start: nat, o: nat, nr: nat, n: nat)
    requires Preset(words, k, preset, total) && 1 <= nr && preset + nr <= total
    requires preset == k * BITS + o && start <= o && o + nr <= BITS
    requires Region(words, after, start, nr, n)
    ensures n == o && Preset(after, k, preset + nr, total)
  {
    FirstFree(words, k, preset, total, start, o, nr);
  }

  /** The blocks of the root directory can lie at the start of the data zone: within one
      map, and not at its first place. */
  predicate RootFits(l: Layout) {
    l.dataSt % BITS != 0 && l.dataSt % BITS + ROOT_BLOCKS <= BITS
  }

  /** A map with all its bits set has no free region. */
  lemma FullMap(words: seq<Word>, k: nat, preset: nat, total: nat, nr: nat)
    requires Preset(words, k, preset, total) && (k + 1) * BITS <= preset && 1 <= nr
    ensures PassedOver(words, nr) && NoneFree(words, nr)
  {
    forall p: nat ensures !Candidate(words, BITS, 0, nr, 1, p) {
      if p + nr <= BITS {
        assert At(words, p);
      }
    }
  }

  lemma RootInode(s: State, q: State, l: Layout, r: Made)
    requires Initial(s, l) && MadeFrom(s, q, l, ROOT_BLOCKS, r)
    ensures r.Made? ==> r.ino == ROOT_INO
    ensures !r.Fatal? && (r.NoRoom? ==> AllPassedOver(s, l.bamBlk, ROOT_BLOCKS))
  {
    assert PresetAt(s.disk, IamStart(l), 0, 1, l.inoCnt);
    FirstFree(BlockMap(s, l.bamBlk), 0, 1, l.inoCnt, ROOT_INO, 1, 1);
  }

  lemma RootPlace(s: State, l: Layout)
    requires Initial(s, l) && RootFits(l)
    ensures var k, o := l.dataSt / BITS, l.dataSt % BITS;
            && k < l.bamBlk && |BlockMap(s, k)| == BLOCK_WORDS && !PassedOver(BlockMap(s, k), ROOT_BLOCKS)
            && Candidate(BlockMap(s, k), BITS, 0, ROOT_BLOCKS, 1, o)
            && forall p :: Candidate(BlockMap(s, k), BITS, 0, ROOT_BLOCKS, 1, p) ==> o <= p
  {
    var k, o := l.dataSt / BITS, l.dataSt % BITS;
    assert PresetAt(s.disk, BAM_START, k, l.dataSt, l.blkCnt);
    FirstFree(BlockMap(s, k), k, l.dataSt, l.blkCnt, 0, o, ROOT_BLOCKS);
    assert At(BlockMap(s, k), 0);
  }

  lemma MapsBefore(s: State, l: Layout, i: nat)
    requires Initial(s, l) && i < l.dataSt / BITS
    ensures i < l.bamBlk && NoneFree(BlockMap(s, i), ROOT_BLOCKS)
  {
    assert PresetAt(s.disk, BAM_START, i, l.dataSt, l.blkCnt);
    FullMap(BlockMap(s, i), i, l.dataSt, l.blkCnt, ROOT_BLOCKS);
  }

  /** The root directory lies at the start of the data zone exactly when it fits there. */
  lemma RootIsFirst(s: State, q: State, l: Layout, r: Made)
    requires Initial(s, l) && MadeFrom(s, q, l, ROOT_BLOCKS, r)
    ensures r == Made(ROOT_INO, l.dataSt) <==> RootFits(l)
    ensures RootFits(l) ==> Taken(s, q, l.bamBlk, l.dataSt / BITS, l.dataSt % BITS, ROOT_BLOCKS)
  {
    RootInode(s, q, l, r);
    if RootFits(l) {
      RootPlace(s, l);
    }
    if r.Made? {
      var i: nat, o: nat :| i < l.bamBlk && r.addr == o + i * BITS && Taken(s, q, l.bamBlk, i, o, ROOT_BLOCKS);
      assert r.addr / BITS == i && r.addr % BITS == o;
      if RootFits(l) {
        RootMap(s, q, l, i, o);
      }
    }
  }

  lemma RootMap(s: State, q: State, l: Layout, i: nat, o: nat)
    requires Initial(s, l) && RootFits(l) && i < l.bamBlk && Taken(s, q, l.bamBlk, i, o, ROOT_BLOCKS)
    ensures i == l.dataSt / BITS && o == l.dataSt % BITS
  {
    assert l.dataSt / BITS < i ==> PassedOver(BlockMap(s, l.dataSt / BITS), ROOT_BLOCKS);
    RootPlace(s, l);
    if i < l.dataSt / BITS {
      MapsBefore(s, l, i);
    }
  }

  // What is stored at the end

  /** The device as readers get it. */
  ghost function Seen(s: State): seq<seq<Word>> {
    seq(|s.disk|, k requires 0 <= k < |s.disk| => View(s, k))
  }

  ghost predicate AllMarked(s: State) {
    forall k :: 0 <= k < |s.disk| ==> !Unmarked(s, k)
  }

  /** When every change is marked, bc_sync stores what readers get. */
  lemma SyncStores(s: State)
    requires Proper(s) && AllMarked(s)
    ensures Synced(s).disk == Seen(s)
  {
    forall k | 0 <= k < |s.disk| ensures Synced(s).disk[k] == View(s, k) {
      SyncKeeps(s, k);
    }
  }

  /** The root directory has been made where it should be. */
  ghost predicate Rooted(s: State, q: State, l: Layout, r: Made) {
    match r
    case Made(ino, addr) =>
      && ino == ROOT_INO && addr == l.dataSt && RootFits(l)
      && Initial(s, l) && Proper(s) && Proper(q) && MadeInode(s, q, l, ROOT_BLOCKS, ino, addr)
      && Taken(s, q, l.bamBlk, l.dataSt / BITS, l.dataSt % BITS, ROOT_BLOCKS)
    case _ => false
  }

  lemma RootMapSeen(s: State, q: State, l: Layout, k: nat)
    requires Initial(s, l) && RootFits(l) && |q.disk| == |s.disk| && k == l.dataSt / BITS && k < l.bamBlk
    requires Taken(s, q, l.bamBlk, k, l.dataSt % BITS, ROOT_BLOCKS)
    ensures PresetAt(Seen(q), BAM_START, k, l.dataSt + ROOT_BLOCKS, l.blkCnt) && !Unmarked(q, BAM_START + k)
  {
    assert PresetAt(s.disk, BAM_START, k, l.dataSt, l.blkCnt);
    FirstTaken(BlockMap(s, k), BlockMap(q, k), k, l.dataSt, l.blkCnt, 0, l.dataSt % BITS, ROOT_BLOCKS, l.dataSt % BITS);
  }

  lemma InodeMapSeen(s: State, q: State, l: Layout, r: Made)
    requires Rooted(s, q, l, r)
    ensures PresetAt(Seen(q), IamStart(l), 0, ROOT_INO + 1, l.inoCnt) && !Unmarked(q, IamStart(l))
  {
    assert PresetAt(s.disk, IamStart(l), 0, 1, l.inoCnt);
    FirstTaken(BlockMap(s, l.bamBlk), BlockMap(q, l.bamBlk), 0, 1, l.inoCnt, ROOT_INO, 1, 1, ROOT_INO);
  }

  /** The blocks that have changed: the map of the root directory, the first inode map, and
      the first block of the inode list. */
  predicate Changes(l: Layout, id: nat) {
    id == BAM_START + l.dataSt / BITS || id == IamStart(l) || id == ListStart(l)
  }

  lemma OtherSeen(s: State, q: State, l: Layout, r: Made, id: nat)
    requires Rooted(s, q, l, r) && id < |s.disk| && !Changes(l, id)
    ensures id < |q.disk| && Seen(q)[id] == s.disk[id] && !Unmarked(q, id)
  {
    if BAM_START <= id < BAM_START + l.dataSt / BITS {
      FullMapAlone(s, q, l, id - BAM_START);
    }
    assert Alone(s, q, id);
  }

  lemma FullMapAlone(s: State, q: State, l: Layout, k: nat)
    requires Initial(s, l) && k < l.dataSt / BITS && Passed(s, q, l.dataSt / BITS, ROOT_BLOCKS)
    ensures Alone(s, q, BAM_START + k)
  {
    MapsBefore(s, l, k);
    assert NoneFree(BlockMap(s, k), ROOT_BLOCKS);
  }

  ghost predicate SameSeen(s: State, q: State, id: nat) {
    id < |s.disk| && id < |q.disk| && View(q, id) == s.disk[id] && !Unmarked(q, id)
  }

  ghost predicate OthersKept(s: State, q: State, l: Layout) {
    |q.disk| == |s.disk| && forall id :: 0 <= id < |s.disk| && !Changes(l, id) ==> SameSeen(s, q, id)
  }

  lemma RootedOthers(s: State, q: State, l: Layout, r: Made)
    requires Rooted(s, q, l, r)
    ensures OthersKept(s, q, l) && AllMarked(q)
  {
    forall id | 0 <= id < |s.disk| && !Changes(l, id) ensures SameSeen(s, q, id) {
      OtherSeen(s, q, l, r, id);
    }
    RootPlace(s, l);
    RootMapSeen(s, q, l, l.dataSt / BITS);
    InodeMapSeen(s, q, l, r);
    assert PointerStored(s, q, l, ROOT_INO, l.dataSt);
    ChangesMarked(s, q, l);
  }

  lemma ChangesMarked(s: State, q: State, l: Layout)
    requires OthersKept(s, q, l) && ListStart(l) < |q.disk| && BAM_START + l.dataSt / BITS < |q.disk|
    requires !Unmarked(q, ListStart(l)) && !Unmarked(q, IamStart(l)) && !Unmarked(q, BAM_START + l.dataSt / BITS)
    ensures AllMarked(q)
  {
    forall id | 0 <= id < |q.disk| ensures !Unmarked(q, id) {
      assert !Changes(l, id) ==> SameSeen(s, q, id);
    }
  }

  /** A map that has not changed, but for the number of preset bits that it shows. */
  lemma MapSeen(s: State, q: State, l: Layout, first: nat, k: nat, preset: nat, used: nat, total: nat)
    requires OthersKept(s, q, l) && PresetAt(s.disk, first, k, preset, total) && !Changes(l, first + k)
    requires preset <= used && ((k + 1) * BITS <= preset || used <= k * BITS)
    ensures PresetAt(Seen(q), first, k, used, total)
  {
    assert SameSeen(s, q, first + k);
  }

  lemma RootMapsSeen(s: State, q: State, l: Layout, r: Made)
    requires Rooted(s, q, l, r) && OthersKept(s, q, l)
    ensures MapsStored(Seen(q), l, l.dataSt + ROOT_BLOCKS, ROOT_INO + 1)
  {
    var blocks, inodes := l.dataSt + ROOT_BLOCKS, ROOT_INO + 1;
    RootPlace(s, l);
    RootMapSeen(s, q, l, l.dataSt / BITS);
    InodeMapSeen(s, q, l, r);
    BlockMapsSeen(s, q, l, blocks);
    InodeMapsSeen(s, q, l, inodes);
  }

  lemma BlockMapsSeen(s: State, q: State, l: Layout, blocks: nat)
    requires OthersKept(s, q, l) && Initial(s, l) && RootFits(l) && blocks == l.dataSt + ROOT_BLOCKS
    requires PresetAt(Seen(q), BAM_START, l.dataSt / BITS, blocks, l.blkCnt)
    ensures forall k :: 0 <= k < l.bamBlk ==> PresetAt(Seen(q), BAM_START, k, blocks, l.blkCnt)
  {
    forall k | 0 <= k < l.bamBlk ensures PresetAt(Seen(q), BAM_START, k, blocks, l.blkCnt) {
      if k != l.dataSt / BITS {
        assert PresetAt(s.disk, BAM_START, k, l.dataSt, l.blkCnt);
        MapSeen(s, q, l, BAM_START, k, l.dataSt, blocks, l.blkCnt);
      }
    }
  }

  lemma InodeMapsSeen(s: State, q: State, l: Layout, inodes: nat)
    requires OthersKept(s, q, l) && Initial(s, l) && inodes == ROOT_INO + 1
    requires l.dataSt / BITS < l.bamBlk && PresetAt(Seen(q), IamStart(l), 0, inodes, l.inoCnt)
    ensures forall k :: 0 <= k < l.iamBlk ==> PresetAt(Seen(q), IamStart(l), k, inodes, l.inoCnt)
  {
    forall k | 0 <= k < l.iamBlk ensures PresetAt(Seen(q), IamStart(l), k, inodes, l.inoCnt) {
      if k != 0 {
        assert PresetAt(s.disk, IamStart(l), k, 1, l.inoCnt);
        MapSeen(s, q, l, IamStart(l), k, 1, inodes, l.inoCnt);
      }
    }
  }

  lemma InitialMaps(s: State, l: Layout)
    requires Initial(s, l)
    ensures 1 <= l.iamBlk && ListStart(l) < |s.disk| && |View(s, ListStart(l))| == BLOCK_WORDS
    ensures forall k :: 0 <= k <= l.bamBlk ==> |BlockMap(s, k)| == BLOCK_WORDS
  {
    assert ClearAt(s.disk, ListStart(l), 0);
    forall k | 0 <= k <= l.bamBlk ensures |BlockMap(s, k)| == BLOCK_WORDS {
      assert if k < l.bamBlk then PresetAt(s.disk, BAM_START, k, l.dataSt, l.blkCnt) else PresetAt(s.disk, IamStart(l), 0, 1, l.inoCnt);
    }
  }

  /** The root directory is made at the start of the data zone exactly when it fits there;
      then the metadata, the root directory and the bits that stand for nothing are set
      in the stored maps, and no others; the superblock says where they are; the only
      pointer in the inode list that is not zero is the first one of the root; and the
      root is a directory with two links and two entries, for itself and its parent. */
  ghost predicate RootAndMaps(disk: seq<seq<Word>>, l: Layout, r: Made) {
    && (r == Made(ROOT_INO, l.dataSt) <==> RootFits(l))
    && (RootFits(l) && l.dataSt < HALF ==> Stored(disk, l))
  }

  ghost predicate Stored(disk: seq<seq<Word>>, l: Layout) {
    && MapsStored(disk, l, l.dataSt + ROOT_BLOCKS, ROOT_INO + 1) && ListStored(disk, l) && SuperStored(disk, l)
    && DirectoryStored(disk, l)
  }

  ghost predicate ListStored(disk: seq<seq<Word>>, l: Layout) {
    forall ino, j :: 0 <= ino < l.inoCnt && 0 <= j < POINTERS ==>
      PointerIn(disk, l, ino, j) == if ino == ROOT_INO && j == 0 then l.dataSt % HALF else 0
  }

  lemma RootListSeen(s: State, q: State, l: Layout)
    requires OthersKept(s, q, l) && Initial(s, l) && PointerStored(s, q, l, ROOT_INO, l.dataSt) && l.dataSt / BITS < l.bamBlk
    ensures ListStored(Seen(q), l)
  {
    forall ino, j | 0 <= ino < l.inoCnt && 0 <= j < POINTERS
      ensures PointerIn(Seen(q), l, ino, j) == if ino == ROOT_INO && j == 0 then l.dataSt % HALF else 0
    {
      if ino < INODES_PER_BLOCK {
        assert ClearAt(s.disk, ListStart(l), 0);
        FirstListBlock(View(s, ListStart(l)), View(q, ListStart(l)), l.dataSt, ino, j);
      } else {
        StaysClear(s, q, l, ino / INODES_PER_BLOCK);
        ClearHalf(Seen(q)[ListStart(l) + ino / INODES_PER_BLOCK], PointerPlace(ino, j));
      }
    }
  }

  lemma FirstListBlock(before: seq<Word>, after: seq<Word>, addr: nat, ino: nat, j: nat)
    requires AllClear(before) && InodeStored(before, after, ROOT_INO, addr) && ino < INODES_PER_BLOCK && j < POINTERS
    ensures HalfAt(after, PointerPlace(ino, j)) == if ino == ROOT_INO && j == 0 then addr % HALF else 0
  {
    ClearHalf(before, PointerPlace(ino, j));
    PlacesDiffer(ROOT_INO, ino, j);
  }

  /** A pointer lies in no other inode, and after the fields of its own. */
  lemma PlacesDiffer(a: nat, ino: nat, j: nat)
    requires a < INODES_PER_BLOCK && ino < INODES_PER_BLOCK && j < POINTERS
    ensures PointerPlace(ino, j) == PointerPlace(a, 0) <==> ino == a && j == 0
    ensures !(INODE_HALVES * a <= PointerPlace(ino, j) < INODE_HALVES * a + FIRST_POINTER)
  {
  }

  lemma StaysClear(s: State, q: State, l: Layout, k: nat)
    requires OthersKept(s, q, l) && Initial(s, l) && l.dataSt / BITS < l.bamBlk && 1 <= k < l.inoBlk
    ensures ClearAt(Seen(q), ListStart(l), k)
  {
    assert ClearAt(s.disk, ListStart(l), k);
    assert SameSeen(s, q, ListStart(l) + k);
  }

  lemma SuperSeen(s: State, q: State, l: Layout)
    requires OthersKept(s, q, l) && SuperStored(s.disk, l)
    ensures SuperStored(Seen(q), l)
  {
    assert SameSeen(s, q, 0);
  }

  /** What readers get once the root has its inode and its blocks. */
  ghost predicate RootSeen(q: State, l: Layout) {
    && Fits(l, |q.disk|) && AllMarked(q)
    && MapsStored(Seen(q), l, l.dataSt + ROOT_BLOCKS, ROOT_INO + 1) && ListStored(Seen(q), l) && SuperStored(Seen(q), l)
  }

  lemma RootedSeen(s: State, q: State, l: Layout, r: Made)
    requires Rooted(s, q, l, r)
    ensures RootSeen(q, l)
  {
    RootedOthers(s, q, l, r);
    RootMapsSeen(s, q, l, r);
    RootPlace(s, l);
    RootListSeen(s, q, l);
    SuperSeen(s, q, l);
  }

  // The entries of the root directory

  /** gas_add_dentry of "." and ".." have left `w` from `q`. */
  ghost predicate EntriesMade(q: State, w: State, l: Layout) {
    && Proper(q) && Proper(w) && |w.disk| == |q.disk| && ListStart(l) < l.dataSt < |q.disk|
    && (forall k :: 0 <= k < |q.disk| && k != ListStart(l) && k != l.dataSt ==> Alone(q, w, k))
    && StaysMarked(q, w) && IsDirty(w, l.dataSt)
    && HalfSet(View(q, ListStart(l)), View(w, ListStart(l)), SizePlace(ROOT_INO), 2 * ENTRY_BYTES)
    && EntryAt(View(w, l.dataSt), 0, DOT, ROOT_INO) && EntryAt(View(w, l.dataSt), 1, DOT + DOT, ROOT_INO)
  }

  /** The root as an inode and as a directory. */
  ghost predicate DirectoryStored(disk: seq<seq<Word>>, l: Layout) {
    && ListStart(l) < |disk| && l.dataSt < |disk|
    && |disk[ListStart(l)]| == BLOCK_WORDS
    && HalfAt(disk[ListStart(l)], INODE_HALVES * ROOT_INO) == ROOT_MODE + 2 * 0x1_0000
    && HalfAt(disk[ListStart(l)], SizePlace(ROOT_INO)) == 2 * ENTRY_BYTES
    && EntryAt(disk[l.dataSt], 0, DOT, ROOT_INO) && EntryAt(disk[l.dataSt], 1, DOT + DOT, ROOT_INO)
  }

  lemma EntriesAreMarked(q: State, w: State, l: Layout)
    requires EntriesMade(q, w, l) && AllMarked(q) && IsDirty(q, ListStart(l))
    ensures AllMarked(w)
  {
    forall k | 0 <= k < |w.disk| ensures !Unmarked(w, k) {
      if k != ListStart(l) && k != l.dataSt {
        assert Alone(q, w, k);
      }
    }
  }

  /** The two entries are in no metadata block but the inode of the root. */
  lemma EntriesElsewhere(q: State, w: State, l: Layout, k: nat)
    requires EntriesMade(q, w, l) && k < l.dataSt && k != ListStart(l)
    ensures Seen(w)[k] == Seen(q)[k]
  {
    assert Alone(q, w, k);
  }

  lemma MapStays(q: State, w: State, l: Layout, first: nat, k: nat, used: nat, total: nat)
    requires EntriesMade(q, w, l) && first + k < ListStart(l) && PresetAt(Seen(q), first, k, used, total)
    ensures PresetAt(Seen(w), first, k, used, total)
  {
    EntriesElsewhere(q, w, l, first + k);
  }

  lemma MapsStay(q: State, w: State, l: Layout, blocks: nat, inodes: nat)
    requires EntriesMade(q, w, l) && MapsStored(Seen(q), l, blocks, inodes)
    ensures MapsStored(Seen(w), l, blocks, inodes)
  {
    forall k | 0 <= k < l.bamBlk ensures PresetAt(Seen(w), BAM_START, k, blocks, l.blkCnt) {
      assert PresetAt(Seen(q), BAM_START, k, blocks, l.blkCnt);
      MapStays(q, w, l, BAM_START, k, blocks, l.blkCnt);
    }
    forall k | 0 <= k < l.iamBlk ensures PresetAt(Seen(w), IamStart(l), k, inodes, l.inoCnt) {
      assert PresetAt(Seen(q), IamStart(l), k, inodes, l.inoCnt);
      MapStays(q, w, l, IamStart(l), k, inodes, l.inoCnt);
    }
  }

  lemma ListStays(q: State, w: State, l: Layout)
    requires EntriesMade(q, w, l) && Fits(l, |q.disk|) && ListStored(Seen(q), l) && |View(q, ListStart(l))| == BLOCK_WORDS
    ensures ListStored(Seen(w), l)
  {
    forall ino, j | 0 <= ino < l.inoCnt && 0 <= j < POINTERS ensures PointerIn(Seen(w), l, ino, j) == PointerIn(Seen(q), l, ino, j) {
      if INODES_PER_BLOCK <= ino {
        EntriesElsewhere(q, w, l, ListStart(l) + ino / INODES_PER_BLOCK);
      } else {
        PointersStay(View(q, ListStart(l)), View(w, ListStart(l)), ino, j);
      }
    }
  }

  lemma PointersStay(before: seq<Word>, after: seq<Word>, ino: nat, j: nat)
    requires |before| == BLOCK_WORDS && HalfSet(before, after, SizePlace(ROOT_INO), 2 * ENTRY_BYTES)
    requires ino < INODES_PER_BLOCK && j < POINTERS
    ensures HalfAt(after, PointerPlace(ino, j)) == HalfAt(before, PointerPlace(ino, j))
  {
    PlacesDiffer(ROOT_INO, ino, j);
  }

  lemma EntriesStored(q: State, w: State, l: Layout, f: seq<nat>)
    requires RootSeen(q, l) && EntriesMade(q, w, l) && IsDirty(q, ListStart(l))
    requires HasFields(View(q, ListStart(l)), ROOT_INO, f) && f[0] == ROOT_MODE + 2 * 0x1_0000
    ensures Stored(Synced(w).disk, l)
  {
    EntriesAreMarked(q, w, l);
    SyncStores(w);
    MapsStay(q, w, l, l.dataSt + ROOT_BLOCKS, ROOT_INO + 1);
    ListStays(q, w, l);
    SuperStays(q, w, l);
    FieldStays(View(q, ListStart(l)), View(w, ListStart(l)), f);
  }

  lemma SuperStays(q: State, w: State, l: Layout)
    requires EntriesMade(q, w, l) && 0 < ListStart(l) && SuperStored(Seen(q), l)
    ensures SuperStored(Seen(w), l)
  {
    EntriesElsewhere(q, w, l, 0);
  }

  lemma FieldStays(before: seq<Word>, after: seq<Word>, f: seq<nat>)
    requires HasFields(before, ROOT_INO, f) && HalfSet(before, after, SizePlace(ROOT_INO), 2 * ENTRY_BYTES)
    ensures HalfAt(after, INODE_HALVES * ROOT_INO) == f[0] % HALF && HalfAt(after, SizePlace(ROOT_INO)) == 2 * ENTRY_BYTES
  {
    assert INODE_HALVES * ROOT_INO + 0 == INODE_HALVES * ROOT_INO;
  }

  // The end

  /** What gas_add_dentry leaves: an entry in block `b`, and the size of the inode. */
  ghost predicate DentryAdded(s: State, r: State, l: Layout, ino: nat, b: nat, size: nat, name: seq<nat>, target: nat) {
    && Proper(s) && Proper(r) && |r.disk| == |s.disk| && ListStart(l) < |s.disk| && b < |s.disk| && b != ListStart(l)
    && (forall k :: 0 <= k < |s.disk| && k != ListStart(l) && k != b ==> Alone(s, r, k))
    && StaysMarked(s, r) && IsDirty(r, b)
    && HalfSet(View(s, ListStart(l)), View(r, ListStart(l)), SizePlace(ino), size + ENTRY_BYTES)
    && FieldsSet(View(s, b), View(r, b), size / 4, EntryFields(name, target), ENTRY_HALVES)
  }

  /** What gas_add_dentry can do: the block has room, and is on the device. Otherwise it
      gives up, or what it does is undefined. */
  predicate HasRoom(size: nat, b: nat, n: nat) {
    size + ENTRY_BYTES <= BLOCK_SIZE && size % 4 == 0 && b < n
  }

  /** The fields of an inode that gas_add_dentry looks at. */
  method ReadInode(c: BlockCache, l: Layout, ino: nat) returns (size: nat, b: nat)
    requires c.Valid() && ListStart(l) < |c.disk| && |View(c.now, ListStart(l))| == BLOCK_WORDS
    modifies c.Repr
    ensures c.Valid() && fresh(c.Repr - old(c.Repr)) && OnlyBlock(old(c.now), c.now, ListStart(l))
    ensures View(c.now, ListStart(l)) == old(View(c.now, ListStart(l)))
    ensures size == HalfAt(View(c.now, ListStart(l)), SizePlace(ino)) && b == HalfAt(View(c.now, ListStart(l)), PointerPlace(ino, 0))
  {
    c.NowProper();
    FetchesOnly(c.now, ListStart(l));
    var block := c.Read(ListStart(l));
    size, b := HalfIn(block, SizePlace(ino)), HalfIn(block, PointerPlace(ino, 0));
  }

  function HalfIn(block: array<Word>, h: nat): (v: nat)
    requires h < 2 * block.Length
    reads block
    ensures v == HalfAt(block[..], h)
  {
    if h % 2 == 0 then block[h / 2] % HALF else block[h / 2] / HALF
  }

  /** The entry itself. */
  method WriteEntry(c: BlockCache, b: nat, size: nat, name: seq<nat>, target: nat)
    requires c.Valid() && HasRoom(size, b, |c.disk|)
    modifies c.Repr
    ensures c.Valid() && fresh(c.Repr - old(c.Repr)) && OnlyBlock(old(c.now), c.now, b) && IsCached(c.now.list, b)
    ensures FieldsSet(old(View(c.now, b)), View(c.now, b), size / 4, EntryFields(name, target), ENTRY_HALVES)
  {
    WriteFields(c, b, size / 4, EntryFields(name, target));
  }

  lemma ViewSize(c: BlockCache, id: nat)
    requires c.Valid() && id < |c.disk|
    ensures |View(c.now, id)| == BLOCK_WORDS
  {
    var i := IndexOf(c.now.list, id);
    if i < |c.now.list| {
      assert c.now.list[i].data == c.list[i].block[..];
    }
  }

  /** Write the entry, add to the size, and mark the block of the entry. */
  method EnterDentry(c: BlockCache, l: Layout, ino: nat, b: nat, size: nat, name: seq<nat>, target: nat)
    requires c.Valid() && ListStart(l) < |c.disk| && HasRoom(size, b, |c.disk|)
    modifies c.Repr
    ensures c.Valid() && fresh(c.Repr - old(c.Repr)) && |c.disk| == |old(c.disk)|
    ensures b != ListStart(l) ==> DentryAdded(old(c.now), c.now, l, ino, b, size, name, target)
  {
    ghost var p := c.now;
    WriteEntry(c, b, size, name, target);
    ghost var q := c.now;
    ViewSize(c, ListStart(l));
    ghost var r := StoreAndMark(c, l, SizePlace(ino), size + ENTRY_BYTES, b);
    if b != ListStart(l) {
      AddedBetween(p, q, r, c.now, l, ino, b, size, name, target);
    }
  }

  /** Store into an inode, which leads to `r`, and mark block `b`. */
  method StoreAndMark(c: BlockCache, l: Layout, h: nat, v: nat, b: nat) returns (ghost r: State)
    requires c.Valid() && ListStart(l) < |c.disk| && h < 2 * BLOCK_WORDS && |View(c.now, ListStart(l))| == BLOCK_WORDS && b < |c.disk|
    modifies c.Repr
    ensures c.Valid() && fresh(c.Repr - old(c.Repr)) && OnlyBlock(old(c.now), r, ListStart(l)) && OnlyBlock(r, c.now, b)
    ensures HalfSet(old(View(c.now, ListStart(l))), View(r, ListStart(l)), h, v)
    ensures View(c.now, b) == View(r, b) && (IsCached(r.list, b) ==> IsDirty(c.now, b))
  {
    StoreInInode(c, l, h, v);
    r := c.now;
    MarkAfter(r, r, b);
    c.Write(b, false);
  }

  lemma AddedBetween(p: State, q: State, r: State, w: State, l: Layout, ino: nat, b: nat, size: nat, name: seq<nat>, target: nat)
    requires b != ListStart(l)
    requires OnlyBlock(p, q, b) && IsCached(q.list, b) && OnlyBlock(q, r, ListStart(l))
    requires OnlyBlock(r, w, b) && View(w, b) == View(r, b) && (IsCached(r.list, b) ==> IsDirty(w, b))
    requires FieldsSet(View(p, b), View(q, b), size / 4, EntryFields(name, target), ENTRY_HALVES)
    requires HalfSet(View(q, ListStart(l)), View(r, ListStart(l)), SizePlace(ino), size + ENTRY_BYTES)
    ensures DentryAdded(p, w, l, ino, b, size, name, target)
  {
    assert Alone(q, r, b) && Alone(p, q, ListStart(l)) && Alone(r, w, ListStart(l));
    forall k | 0 <= k < |p.disk| && k != ListStart(l) && k != b ensures Alone(p, w, k) {
      assert Alone(p, q, k) && Alone(q, r, k) && Alone(r, w, k);
    }
  }

  lemma AddedAfterRead(s: State, p: State, w: State, l: Layout, ino: nat, b: nat, size: nat, name: seq<nat>, target: nat)
    requires OnlyBlock(s, p, ListStart(l)) && View(p, ListStart(l)) == View(s, ListStart(l))
    requires DentryAdded(p, w, l, ino, b, size, name, target)
    ensures DentryAdded(s, w, l, ino, b, size, name, target)
  {
    assert Alone(s, p, b);
    forall k | 0 <= k < |s.disk| && k != ListStart(l) && k != b ensures Alone(s, w, k) {
      assert Alone(s, p, k) && Alone(p, w, k);
    }
  }

  /** gas_add_dentry; `target` is the inode that the entry names. */
  method AddDentry(c: BlockCache, l: Layout, ino: nat, name: seq<nat>, target: nat) returns (ok: bool)
    requires c.Valid() && ListStart(l) < |c.disk| && ino < INODES_PER_BLOCK
    modifies c.Repr
    ensures c.Valid() && fresh(c.Repr - old(c.Repr)) && |c.disk| == |old(c.disk)|
    ensures var inode := old(View(c.now, ListStart(l)));
            && |inode| == BLOCK_WORDS
            && var size, b := HalfAt(inode, SizePlace(ino)), HalfAt(inode, PointerPlace(ino, 0));
               && (ok <==> HasRoom(size, b, |c.disk|))
               && (ok && b != ListStart(l) ==> DentryAdded(old(c.now), c.now, l, ino, b, size, name, target))
  {
    ghost var s := c.now;
    ViewSize(c, ListStart(l));
    var size, b := ReadInode(c, l, ino);
    ok := HasRoom(size, b, |c.disk|);
    if ok {
      ghost var p := c.now;
      EnterDentry(c, l, ino, b, size, name, target);
      if b != ListStart(l) {
        AddedAfterRead(s, p, c.now, l, ino, b, size, name, target);
      }
    }
  }

  /** The inode of the root is empty and has its first block at the start of the data zone. */
  ghost predicate EmptyRoot(s: State, l: Layout) {
    && Proper(s) && ListStart(l) < l.dataSt < |s.disk| && |View(s, ListStart(l))| == BLOCK_WORDS
    && HalfAt(View(s, ListStart(l)), SizePlace(ROOT_INO)) == 0
    && HalfAt(View(s, ListStart(l)), PointerPlace(ROOT_INO, 0)) == l.dataSt
  }

  /** The entries that make_rootdir adds. */
  method MakeEntries(c: BlockCache, l: Layout, ino: nat)
    requires c.Valid() && ListStart(l) < |c.disk| && ino < INODES_PER_BLOCK
    modifies c.Repr
    ensures c.Valid() && |c.disk| == |old(c.disk)|
    ensures ino == ROOT_INO && EmptyRoot(old(c.now), l) ==> EntriesMade(old(c.now), c.now, l)
  {
    ghost var q := c.now;
    var ok := AddDentry(c, l, ino, DOT, ROOT_INO);
    if ok {
      ghost var p := c.now;
      if ino == ROOT_INO && EmptyRoot(q, l) {
        OneEntry(q, p, l);
      }
      ok := AddDentry(c, l, ino, DOT + DOT, ROOT_INO);
      if ino == ROOT_INO && EmptyRoot(q, l) {
        TwoEntries(q, p, c.now, l);
      }
    }
  }

  lemma OneEntry(q: State, p: State, l: Layout)
    requires EmptyRoot(q, l) && DentryAdded(q, p, l, ROOT_INO, l.dataSt, 0, DOT, ROOT_INO)
    ensures HalfAt(View(p, ListStart(l)), SizePlace(ROOT_INO)) == ENTRY_BYTES
    ensures HalfAt(View(p, ListStart(l)), PointerPlace(ROOT_INO, 0)) == l.dataSt
  {
  }

  lemma TwoEntries(q: State, p: State, w: State, l: Layout)
    requires EmptyRoot(q, l) && DentryAdded(q, p, l, ROOT_INO, l.dataSt, 0, DOT, ROOT_INO)
    requires DentryAdded(p, w, l, ROOT_INO, l.dataSt, ENTRY_BYTES, DOT + DOT, ROOT_INO)
    ensures EntriesMade(q, w, l)
  {
    forall k | 0 <= k < |q.disk| && k != ListStart(l) && k != l.dataSt ensures Alone(q, w, k) {
      assert Alone(q, p, k) && Alone(p, w, k);
    }
    EntriesApart(View(q, l.dataSt), View(p, l.dataSt), View(w, l.dataSt));
  }

  lemma EntriesApart(a: seq<Word>, b: seq<Word>, d: seq<Word>)
    requires FieldsSet(a, b, 0, EntryFields(DOT, ROOT_INO), ENTRY_HALVES)
    requires FieldsSet(b, d, ENTRY_BYTES / 4, EntryFields(DOT + DOT, ROOT_INO), ENTRY_HALVES)
    ensures EntryAt(d, 0, DOT, ROOT_INO) && EntryAt(d, 1, DOT + DOT, ROOT_INO)
  {
  }

  /** A new inode is empty, and what it is given as first block is stored. */
  lemma RootIsEmpty(s: State, q: State, l: Layout, a: Attributes)
    requires Proper(q) && ListStart(l) < l.dataSt < |q.disk| && l.dataSt < HALF
    requires PointerStored(s, q, l, ROOT_INO, l.dataSt) && HasFields(View(q, ListStart(l)), ROOT_INO, Fields(a))
    ensures EmptyRoot(q, l)
  {
    assert HalfAt(View(q, ListStart(l)), INODE_HALVES * ROOT_INO + 3) == Fields(a)[3] % HALF;
    PlacesDiffer(ROOT_INO, ROOT_INO, 0);
  }

  lemma MadeIsRooted(s: State, q: State, l: Layout, r: Made)
    requires Initial(s, l) && Proper(s) && Proper(q) && MadeFrom(s, q, l, ROOT_BLOCKS, r) && RootFits(l)
    ensures Rooted(s, q, l, r) && PointerStored(s, q, l, ROOT_INO, l.dataSt) && r == Made(ROOT_INO, l.dataSt)
    ensures ListStart(l) < l.dataSt < |q.disk|
  {
    RootIsFirst(s, q, l, r);
  }

  /** main, from the superblock to the last bc_sync. */
  method Format(disk: seq<seq<Word>>, uid: nat, gid: nat, time: nat) returns (c: BlockCache, r: Made)
    requires 256 <= |disk| && forall k :: 0 <= k < |disk| ==> |disk[k]| == BLOCK_WORDS
    ensures c.Valid() && |c.disk| == |disk| && RootAndMaps(c.disk, LayoutOf(|disk|), r)
  {
    var l := LayoutOf(|disk|);
    c := InitDevice(disk);
    InitialMaps(c.now, l);
    c.NowProper();
    ghost var s := c.now;
    r := MakeRoot(c, l, Attributes(ROOT_MODE, uid, gid, time));
    c.Sync();
  }

  /** make_rootdir. */
  method MakeRoot(c: BlockCache, l: Layout, a: Attributes) returns (r: Made)
    requires c.Valid() && Initial(c.now, l) && a.mode == ROOT_MODE
    modifies c.Repr
    ensures c.Valid() && |c.disk| == |old(c.disk)| && Proper(c.now) && RootAndMaps(Synced(c.now).disk, l, r)
  {
    ghost var s := c.now;
    c.NowProper();
    InitialMaps(c.now, l);
    r := NewInode(c, l, ROOT_SIZE, a);
    ghost var q := c.now;
    c.NowProper();
    if r.Made? {
      MakeEntries(c, l, r.ino);
      c.NowProper();
    }
    RootMade(s, q, c.now, l, r, a);
  }

  lemma RootMade(s: State, q: State, w: State, l: Layout, r: Made, a: Attributes)
    requires Initial(s, l) && Proper(s) && Proper(q) && Proper(w) && MadeFrom(s, q, l, ROOT_BLOCKS, r) && a.mode == ROOT_MODE
    requires r.Made? ==> ListStart(l) < |q.disk| && HasFields(View(q, ListStart(l)), r.ino, Fields(a)) && IsDirty(q, ListStart(l))
    requires r.Made? && r.ino == ROOT_INO && EmptyRoot(q, l) ==> EntriesMade(q, w, l)
    ensures RootAndMaps(Synced(w).disk, l, r)
  {
    RootIff(s, q, l, r);
    if RootFits(l) && l.dataSt < HALF {
      MadeIsRooted(s, q, l, r);
      RootIsEmpty(s, q, l, a);
      RootedSeen(s, q, l, r);
      RootFields(a);
      EntriesStored(q, w, l, Fields(a));
    }
  }

  lemma RootIff(s: State, q: State, l: Layout, r: Made)
    requires Initial(s, l) && MadeFrom(s, q, l, ROOT_BLOCKS, r)
    ensures r == Made(ROOT_INO, l.dataSt) <==> RootFits(l)
  {
    RootIsFirst(s, q, l, r);
  }

  /** The root is a directory, and so has two links. */
  lemma RootFields(a: Attributes)
    requires a.mode == ROOT_MODE
    ensures Fields(a)[0] == ROOT_MODE + 2 * 0x1_0000
  {
  }
}
