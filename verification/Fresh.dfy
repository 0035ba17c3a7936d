/** From the formatter to the kernel: a device as src/makefs/mkfs.c leaves it is at rest
    in the sense of module Runs, so that all that is proved there holds from the first
    call on. */
module Fresh {
  import opened Words
  import Cache
  import Mkfs
  import opened Paths
  import opened Tree
  import opened Protocol
  import opened Runs
  import BitMap
  import Dir

  /** Pointers in a block of 4096 bytes. */
  const FAN: nat := 1024

  /** The geometry that the kernel works with. */
  function KernelGeometry(b: Super): Geometry
    requires b.Mounted?
  {
    Geometry(b.blockSize / 4, b.nblocks, b.dataBlockStart)
  }

  function GeometryOf(l: Mkfs.Layout): Geometry {
    Geometry(FAN, l.blkCnt, l.dataSt)
  }

  // What the kernel makes of a superblock (src/kern/gas_super.c)

  const INODE_BYTES: nat := 64
  /** The place of i_blkaddr in struct gas_inode. */
  const POINTER_BYTE: nat := 28

  datatype Super =
    | Mounted(blockSize: nat, bamBlocks: nat, iamBlocks: nat, inodeBlocks: nat, nblocks: nat, ninodes: nat,
              inodesPerBlock: nat, bitsPerBlock: nat, inodeListStart: nat, dataBlockStart: nat)
    | Refused

  /** gas_super_block_read, and the test of gas_fill_super; sums are those of 32 bits. */
  function ReadSuper(disk: seq<seq<Word>>): Super
    requires 0 < |disk| && |disk[0]| == Cache.BLOCK_WORDS
  {
    var magic, size := Mkfs.HalfAt(disk[0], 0), Mkfs.HalfAt(disk[0], 1);
    var bam, iam, inodes := Mkfs.HalfAt(disk[0], 2), Mkfs.HalfAt(disk[0], 3), Mkfs.HalfAt(disk[0], 4);
    if magic != Mkfs.MAGIC || bam == 0 || iam == 0 || inodes == 0 then Refused
    else
      var listStart := (bam + iam + 1) % Mkfs.HALF;
      Mounted(size, bam, iam, inodes, Mkfs.HalfAt(disk[0], 5), Mkfs.HalfAt(disk[0], 6),
              size / INODE_BYTES, 8 * size % Mkfs.HALF, listStart, (listStart + inodes) % Mkfs.HALF)
  }

  lemma NumbersFit(l: Mkfs.Layout)
    requires 256 <= l.blkCnt <= Capacity(FAN) && l == Mkfs.LayoutOf(l.blkCnt)
    ensures l.dataSt < l.blkCnt < Mkfs.HALF && 1 <= l.bamBlk && 1 <= l.iamBlk && 1 <= l.inoBlk
    ensures l.inoCnt <= l.blkCnt
  {
    CapacityIs();
    Mkfs.LayoutFits(l.blkCnt);
  }

  /** The kernel mounts what the formatter leaves, and finds everything where it is. */
  lemma FormattedMounts(disk: seq<seq<Word>>, l: Mkfs.Layout)
    requires 256 <= l.blkCnt <= Capacity(FAN) && l == Mkfs.LayoutOf(l.blkCnt) && Mkfs.SuperStored(disk, l)
    ensures ReadSuper(disk) == SuperOf(l)
  {
    NumbersFit(l);
    SuperReads(disk, l);
    assert (l.bamBlk + l.iamBlk + 1) % Mkfs.HALF == Mkfs.ListStart(l);
    assert (Mkfs.ListStart(l) + l.inoBlk) % Mkfs.HALF == l.dataSt;
  }

  function SuperOf(l: Mkfs.Layout): Super {
    Mounted(Mkfs.BLOCK_SIZE, l.bamBlk, l.iamBlk, l.inoBlk, l.blkCnt, l.inoCnt,
            Mkfs.INODES_PER_BLOCK, Mkfs.BITS, Mkfs.ListStart(l), l.dataSt)
  }

  lemma SuperReads(disk: seq<seq<Word>>, l: Mkfs.Layout)
    requires Mkfs.SuperStored(disk, l)
    requires l.bamBlk < Mkfs.HALF && l.iamBlk < Mkfs.HALF && l.inoBlk < Mkfs.HALF && l.blkCnt < Mkfs.HALF && l.inoCnt < Mkfs.HALF
    ensures Mkfs.HalfAt(disk[0], 0) == Mkfs.MAGIC && Mkfs.HalfAt(disk[0], 1) == Mkfs.BLOCK_SIZE
    ensures Mkfs.HalfAt(disk[0], 2) == l.bamBlk && Mkfs.HalfAt(disk[0], 3) == l.iamBlk && Mkfs.HalfAt(disk[0], 4) == l.inoBlk
    ensures Mkfs.HalfAt(disk[0], 5) == l.blkCnt && Mkfs.HalfAt(disk[0], 6) == l.inoCnt
  {
    forall i | 0 <= i < 7 ensures Mkfs.HalfAt(disk[0], i) == Mkfs.SuperFields(l)[i] {
      assert Mkfs.SuperFields(l)[i] < Mkfs.HALF;
    }
  }

  /** A pointer of an inode, where gas_inode_block and gas_inode_offset look for it. */
  function KernelPointer(disk: seq<seq<Word>>, b: Super, ino: nat, k: nat): nat
    requires b.Mounted? && 1 <= b.inodesPerBlock
  {
    var block := b.inodeListStart + ino / b.inodesPerBlock;
    var byte := INODE_BYTES * (ino % b.inodesPerBlock) + POINTER_BYTE + 4 * k;
    if block < |disk| && byte / 4 < 2 * |disk[block]| then Mkfs.HalfAt(disk[block], byte / 4) else 0
  }

  /** That is where the formatter keeps it. */
  lemma KernelFindsPointer(disk: seq<seq<Word>>, l: Mkfs.Layout, ino: nat, k: nat)
    requires k < SLOTS && forall x :: 0 <= x < |disk| ==> |disk[x]| == Cache.BLOCK_WORDS
    ensures KernelPointer(disk, SuperOf(l), ino, k) == Mkfs.PointerIn(disk, l, ino, k)
  {
    assert (INODE_BYTES * (ino % Mkfs.INODES_PER_BLOCK) + POINTER_BYTE + 4 * k) / 4 == Mkfs.PointerPlace(ino, k);
  }

  /** The numbers of the bits that are set in the block maps. */
  ghost function SetBits(disk: seq<seq<Word>>, l: Mkfs.Layout): set<nat>
    requires Mkfs.MapsStored(disk, l, l.dataSt + Mkfs.ROOT_BLOCKS, Mkfs.ROOT_INO + 1)
  {
    set b: nat | b < l.bamBlk * Mkfs.BITS && BitOf(disk, l, b)
  }

  ghost predicate BitOf(disk: seq<seq<Word>>, l: Mkfs.Layout, b: nat)
    requires Mkfs.MapsStored(disk, l, l.dataSt + Mkfs.ROOT_BLOCKS, Mkfs.ROOT_INO + 1)
    requires b < l.bamBlk * Mkfs.BITS
  {
    assert Mkfs.PresetAt(disk, Mkfs.BAM_START, b / Mkfs.BITS, l.dataSt + Mkfs.ROOT_BLOCKS, l.blkCnt);
    Mkfs.MapBit(disk, Mkfs.BAM_START, b)
  }

  /** The pointers in the blocks and in the inodes of a device, as the kernel reads them. */
  function MediaOf(disk: seq<seq<Word>>, b: Super): Media
    requires b.Mounted? && 1 <= b.inodesPerBlock
  {
    Media(seq(b.nblocks, x requires 0 <= x => PointersIn(disk, x)),
          seq(b.ninodes, ino requires 0 <= ino => InodeIn(disk, b, ino)))
  }

  function InodeIn(disk: seq<seq<Word>>, b: Super, ino: nat): seq<nat>
    requires b.Mounted? && 1 <= b.inodesPerBlock
  {
    seq(SLOTS, k requires 0 <= k => KernelPointer(disk, b, ino, k))
  }

  function PointersIn(disk: seq<seq<Word>>, b: nat): seq<nat> {
    seq(FAN, i requires 0 <= i < FAN => if b < |disk| && i < 2 * |disk[b]| then Mkfs.HalfAt(disk[b], i) else 0)
  }

  /** No inode has a block but the root. */
  ghost predicate OnlyRoot(l: Mkfs.Layout, m: Media) {
    && Sized(GeometryOf(l), m) && |m.inodes| == l.inoCnt
    && forall ino, k :: 0 <= ino < |m.inodes| && 0 <= k < SLOTS ==>
         m.inodes[ino][k] == if ino == Mkfs.ROOT_INO && k == 0 then l.dataSt else 0
  }

  lemma CapacityIs()
    ensures Capacity(FAN) == 1074791430
  {
    assert SlotStart(FAN, 6) == 6;
    assert SlotStart(FAN, 7) == 6 + FAN;
    assert SlotStart(FAN, 8) == 6 + FAN + FAN * FAN;
  }

  /** The formatter stores no pointer but that of the root directory. */
  lemma FormattedList(disk: seq<seq<Word>>, l: Mkfs.Layout)
    requires 256 <= l.blkCnt <= Capacity(FAN) && l == Mkfs.LayoutOf(l.blkCnt) && Mkfs.ListStored(disk, l)
    requires forall x :: 0 <= x < |disk| ==> |disk[x]| == Cache.BLOCK_WORDS
    ensures OnlyRoot(l, MediaOf(disk, SuperOf(l)))
  {
    NumbersFit(l);
    assert l.dataSt % Mkfs.HALF == l.dataSt;
    var m := MediaOf(disk, SuperOf(l));
    forall ino, k | 0 <= ino < |m.inodes| && 0 <= k < SLOTS
      ensures m.inodes[ino][k] == if ino == Mkfs.ROOT_INO && k == 0 then l.dataSt else 0
    {
      KernelFindsPointer(disk, l, ino, k);
    }
  }

  ghost function RootTree(l: Mkfs.Layout): Tree {
    map[[Mkfs.ROOT_INO, 0] := l.dataSt]
  }

  lemma RootRep(l: Mkfs.Layout, m: Media)
    requires 256 <= l.blkCnt && l == Mkfs.LayoutOf(l.blkCnt) && OnlyRoot(l, m)
    ensures Rep(GeometryOf(l), m, RootTree(l))
  {
    Mkfs.LayoutFits(l.blkCnt);
    var g, t := GeometryOf(l), RootTree(l);
    var root: Path := [Mkfs.ROOT_INO, 0];
    assert LogicalBlock(FAN, root[1..]) == 0;
    forall p | HasSlot(g, |m.inodes|, t, p) ensures Holds(m, SlotOf(t, p), Get(t, p)) {
      assert |p| == 2 && p == [p[0], p[1]];
    }
  }

  lemma BitIs(disk: seq<seq<Word>>, l: Mkfs.Layout, b: nat)
    requires Mkfs.MapsStored(disk, l, l.dataSt + Mkfs.ROOT_BLOCKS, Mkfs.ROOT_INO + 1)
    requires b < l.bamBlk * Mkfs.BITS
    ensures BitOf(disk, l, b) <==> b < l.dataSt + Mkfs.ROOT_BLOCKS || l.blkCnt <= b
  {
    assert Mkfs.PresetAt(disk, Mkfs.BAM_START, b / Mkfs.BITS, l.dataSt + Mkfs.ROOT_BLOCKS, l.blkCnt);
  }

  lemma BitsAre(disk: seq<seq<Word>>, l: Mkfs.Layout)
    requires Mkfs.MapsStored(disk, l, l.dataSt + Mkfs.ROOT_BLOCKS, Mkfs.ROOT_INO + 1)
    ensures forall x: nat :: x in SetBits(disk, l) <==> x < l.bamBlk * Mkfs.BITS && (x < l.dataSt + Mkfs.ROOT_BLOCKS || l.blkCnt <= x)
  {
    forall x: nat | x < l.bamBlk * Mkfs.BITS ensures BitOf(disk, l, x) <==> x < l.dataSt + Mkfs.ROOT_BLOCKS || l.blkCnt <= x {
      BitIs(disk, l, x);
    }
  }

  /** The formatted device is at rest; the four blocks after the first one of the root
      directory stay reserved for good, as no pointer leads to them. */
  lemma FormattedIsAtRest(disk: seq<seq<Word>>, l: Mkfs.Layout, b: Super, s: System)
    requires 256 <= l.blkCnt <= Capacity(FAN) && l == Mkfs.LayoutOf(l.blkCnt) && Mkfs.RootFits(l)
    requires Mkfs.RootAndMaps(disk, l, Mkfs.Made(Mkfs.ROOT_INO, l.dataSt))
    requires forall x :: 0 <= x < |disk| ==> |disk[x]| == Cache.BLOCK_WORDS
    requires b == ReadSuper(disk) && b.Mounted? && 1 <= b.inodesPerBlock
    requires s.media == MediaOf(disk, b) && s.busy == SetBits(disk, l) && s.total == b.bamBlocks * b.bitsPerBlock
    requires forall i :: 0 <= i < |s.threads| ==> s.threads[i].Idle?
    ensures KernelGeometry(b) == GeometryOf(l) && AtRest(KernelGeometry(b), s.busy - {l.dataSt}, s, RootTree(l))
    ensures forall x :: l.dataSt < x < l.dataSt + Mkfs.ROOT_BLOCKS ==> x in s.busy && !Reachable(GeometryOf(l), s.media, x)
  {
    NumbersFit(l);
    FormattedMounts(disk, l);
    FormattedList(disk, l);
    Mkfs.LayoutFits(l.blkCnt);
    RootRep(l, s.media);
    var t := RootTree(l);
    assert t.Values == {l.dataSt} by {
      assert t[[Mkfs.ROOT_INO, 0]] == l.dataSt;
    }
    BitsAre(disk, l);
    forall x | l.dataSt < x < l.dataSt + Mkfs.ROOT_BLOCKS ensures x in s.busy && !Reachable(GeometryOf(l), s.media, x) {
      ReachableIsOwned(GeometryOf(l), s.media, t, x);
    }
  }

  // The root directory, as the kernel reads it

  /** Byte `i` of a block. */
  function ByteAt(words: seq<Word>, i: nat): nat
    requires i < 8 * |words|
  {
    var v := Mkfs.HalfAt(words, i / 4);
    if i % 4 == 0 then v % 0x100 else if i % 4 == 1 then v / 0x100 % 0x100
    else if i % 4 == 2 then v / 0x1_0000 % 0x100 else v / 0x100_0000
  }

  /** The C string at byte `at`, from its character `i` on. */
  function NameFrom(words: seq<Word>, at: nat, i: nat): Dir.Name
    requires at + 256 <= 8 * |words|
    decreases 256 - i
  {
    if 256 <= i || ByteAt(words, at + i) == 0 then ""
    else [(ByteAt(words, at + i) % 0x100) as char] + NameFrom(words, at, i + 1)
  }

  /** The slots in a block of a directory. */
  function PageOf(words: seq<Word>): seq<Dir.Slot>
    requires |words| == Cache.BLOCK_WORDS
  {
    seq(Dir.PER_PAGE, k requires 0 <= k < Dir.PER_PAGE =>
      Dir.Slot(NameFrom(words, Dir.ENTRY * k, 0), Mkfs.HalfAt(words, Mkfs.ENTRY_HALVES * k + 64)))
  }

  /** An entry of dots reads as a slot with their name. */
  lemma DotsRead(words: seq<Word>, k: nat, name: seq<nat>, dots: Dir.Name, ino: nat)
    requires k < Dir.PER_PAGE && Mkfs.EntryAt(words, k, name, ino) && ino < Mkfs.HALF
    requires (name == Mkfs.DOT && dots == ".") || (name == Mkfs.DOT + Mkfs.DOT && dots == "..")
    ensures PageOf(words)[k] == Dir.Slot(dots, ino)
  {
    var at := Dir.ENTRY * k;
    assert Mkfs.HalfAt(words, Mkfs.ENTRY_HALVES * k + 0) == Mkfs.EntryFields(name, ino)[0] % Mkfs.HALF;
    assert Mkfs.HalfAt(words, Mkfs.ENTRY_HALVES * k + 64) == Mkfs.EntryFields(name, ino)[64] % Mkfs.HALF;
    var v := Mkfs.HalfAt(words, at / 4);
    assert v == Mkfs.NameHalf(name, 0);
    assert v == (if |name| == 1 then 0x2E else 0x2E2E);
    NameReads(words, at, dots, v);
  }

  lemma NameReads(words: seq<Word>, at: nat, dots: Dir.Name, v: nat)
    requires at + 256 <= 8 * |words| && at % 4 == 0 && v == Mkfs.HalfAt(words, at / 4)
    requires (v == 0x2E && dots == ".") || (v == 0x2E2E && dots == "..")
    ensures NameFrom(words, at, 0) == dots
  {
    assert (at + 1) / 4 == at / 4 && (at + 2) / 4 == at / 4;
    assert ByteAt(words, at) == 0x2E && ByteAt(words, at + 1) == (if v == 0x2E then 0 else 0x2E) && ByteAt(words, at + 2) == 0;
    assert (0x2E % 0x100) as char == '.';
    assert NameFrom(words, at, 2) == "";
    assert NameFrom(words, at, 1) == if v == 0x2E then "" else ".";
  }

  /** The root is a directory with two links and the entries that gas_make_empty would have
      made for it. */
  lemma FormattedRoot(disk: seq<seq<Word>>, l: Mkfs.Layout)
    requires Mkfs.DirectoryStored(disk, l)
    ensures var inode := disk[Mkfs.ListStart(l)];
            var head, size := Mkfs.HalfAt(inode, Mkfs.INODE_HALVES * Mkfs.ROOT_INO), Mkfs.HalfAt(inode, Mkfs.SizePlace(Mkfs.ROOT_INO));
            && Mkfs.IsDirectory(head % 0x1_0000) && head / 0x1_0000 == 2
            && Dir.Shaped([PageOf(disk[l.dataSt])], size)
            && Dir.Table([PageOf(disk[l.dataSt])], size) == [Dir.Slot(".", Mkfs.ROOT_INO), Dir.Slot("..", Mkfs.ROOT_INO)]
  {
    var words := disk[l.dataSt];
    DotsRead(words, 0, Mkfs.DOT, ".", Mkfs.ROOT_INO);
    DotsRead(words, 1, Mkfs.DOT + Mkfs.DOT, "..", Mkfs.ROOT_INO);
    Dir.CountOfSize(2);
    assert Dir.SizeOf(2) == 520;
  }

  /** On a formatted device of 32800 blocks gas_count_free_blocks looks at 32768 bits, and
      misses the last 32 blocks, which are free. */
  lemma FormattedIsMiscounted(disk: seq<seq<Word>>, l: Mkfs.Layout)
    requires l == Mkfs.LayoutOf(32800) && Mkfs.RootAndMaps(disk, l, Mkfs.Made(Mkfs.ROOT_INO, l.dataSt))
    ensures Mkfs.RootFits(l) && l.dataSt < l.blkCnt && BitMap.Counted(l.dataSt, l.blkCnt, Mkfs.BITS) == 32768
    ensures |BitMap.ClearBelow(SetBits(disk, l), 32768)| + 32 == |BitMap.ClearBelow(SetBits(disk, l), l.bamBlk * Mkfs.BITS)|
  {
    assert l == Mkfs.Layout(32800, 2, 128, 8192, 1, 132);
    var busy := SetBits(disk, l);
    forall b: nat | b < 65536 ensures b in busy <==> b < 137 || 32800 <= b {
      BitIs(disk, l, b);
    }
    Added(busy, 32768, 32);
    assert BitMap.ClearBelow(busy, 65536) == BitMap.ClearBelow(busy, 32800);
  }

  /** On a formatted device of 32900 blocks, whose data zone takes as many bits as one map
      has, it looks at both maps. */
  lemma FormattedIsCounted(l: Mkfs.Layout)
    requires l == Mkfs.LayoutOf(32900)
    ensures l.dataSt < l.blkCnt && l.blkCnt - l.dataSt == Mkfs.BITS && Mkfs.RootFits(l)
    ensures BitMap.Counted(l.dataSt, l.blkCnt, Mkfs.BITS) == l.bamBlk * Mkfs.BITS
  {
    assert l == Mkfs.Layout(32900, 2, 128, 8192, 1, 132);
    BitMap.WholeMaps(l.dataSt, 1, Mkfs.BITS);
  }

  lemma {:induction false} Added(busy: set<nat>, n: nat, k: nat)
    requires forall b :: n <= b < n + k ==> b !in busy
    ensures |BitMap.ClearBelow(busy, n + k)| == |BitMap.ClearBelow(busy, n)| + k
  {
    if k != 0 {
      Added(busy, n, k - 1);
      assert BitMap.ClearBelow(busy, n + k) == BitMap.ClearBelow(busy, n + k - 1) + {n + k - 1};
    }
  }
}
