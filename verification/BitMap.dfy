/** The allocation maps of the kernel (src/kern/bitmap.c). One class serves for
    blocks and for inodes, whose scan and free code is the same: a number of map
    blocks with `width` bits each, scanned cyclically from the map used last. */
module BitMap {
  import opened Paths

  /** The numbers of the clear bits below `n`. */
  function ClearBelow(busy: set<nat>, n: nat): set<nat> {
    set b: nat | b < n && b !in busy
  }

  /** Map `i` comes before map `to` when one goes up from map `from`, and after the last
      map on from map 0. */
  predicate Precedes(i: nat, from: nat, to: nat) {
    if from <= to then from <= i < to else from <= i || i < to
  }

  /** How many maps lie from `a` on before `b`, cyclically. */
  function Distance(maps: nat, a: nat, b: nat): nat
    requires a < maps && b < maps
  {
    if a <= b then b - a else b + maps - a
  }

  lemma PrecedesIsNearer(maps: nat, a: nat, b: nat)
    requires a < maps && b < maps
    ensures forall i :: 0 <= i < maps && Precedes(i, a, b) ==> Distance(maps, a, i) < Distance(maps, a, b)
  {
  }

  /** The number that bit `j` of map `i` stands for. */
  function Number(i: nat, j: nat, width: nat): nat {
    i * width + j
  }

  lemma NumberInjective(i: nat, j: nat, width: nat)
    requires j < width
    ensures forall x: nat, y: nat :: y < width && Number(x, y, width) == Number(i, j, width) ==> x == i && y == j
  {
    DigitsUnique(i, j, width);
    forall x: nat, y: nat | y < width && Number(x, y, width) == Number(i, j, width) ensures x == i && y == j {
      DigitsUnique(x, y, width);
    }
  }

  lemma NumberBelow(i: nat, j: nat, maps: nat, width: nat)
    requires i < maps && j < width
    ensures Number(i, j, width) < maps * width
  {
    MulStep(i, maps, width);
  }

  lemma NumberOf(b: nat, width: nat)
    requires 1 <= width
    ensures b % width < width && b == Number(b / width, b % width, width)
    ensures forall maps: nat :: b / width < maps <==> b < maps * width
  {
    DivBounds(b, width);
    forall maps: nat ensures b / width < maps <==> b < maps * width {
      QuotientBelow(b, width, maps);
    }
  }

  class AllocMap {
    const maps: nat
    const width: nat
    /** Only numbers from `first` and below `limit` may be freed. */
    const first: nat
    const limit: nat
    const bits: array2<bool>
    var last: nat
    /** The numbers of the set bits. */
    ghost var busy: set<nat>

    ghost predicate Valid()
      reads this, bits
    {
      && bits.Length0 == maps && bits.Length1 == width
      && 1 <= width && last < maps
      && (forall i, j :: 0 <= i < maps && 0 <= j < width ==> (bits[i, j] <==> Number(i, j, width) in busy))
      && (forall b :: b in busy ==> b < maps * width)
    }

    /** The maps as `gas_fill_super` finds them. */
    constructor (maps: nat, width: nat, first: nat, limit: nat, contents: array2<bool>)
      requires 1 <= maps && 1 <= width
      requires contents.Length0 == maps && contents.Length1 == width
      ensures Valid() && last == 0
      ensures this.maps == maps && this.width == width && this.first == first && this.limit == limit
      ensures bits == contents
    {
      this.maps, this.width, this.first, this.limit := maps, width, first, limit;
      bits := contents;
      last := 0;
      busy := set b: nat | b < maps * width && b / width < maps && contents[b / width, b % width];
      new;
      forall i, j | 0 <= i < maps && 0 <= j < width
        ensures bits[i, j] <==> Number(i, j, width) in busy
      {
        NumberBelow(i, j, maps, width);
        DigitsUnique(i, j, width);
      }
    }

    method FindFirstZero(i: nat) returns (j: nat)
      requires Valid() && i < maps
      ensures j <= width
      ensures forall x :: 0 <= x < j ==> bits[i, x]
      ensures j < width ==> !bits[i, j]
    {
      j := 0;
      while j < width && bits[i, j]
        invariant j <= width
        invariant forall x :: 0 <= x < j ==> bits[i, x]
      {
        j := j + 1;
      }
    }

    ghost predicate Full(i: nat)
      requires Valid() && i < maps
      reads this, bits
    {
      forall j :: 0 <= j < width ==> bits[i, j]
    }

    /** gas_new_block, and the scan of gas_new_inode. Fails if and only if every
        bit of every map is set; otherwise takes the first clear bit of the first
        map, from the map used last, that has one. */
    method New() returns (ok: bool, b: nat)
      requires Valid()
      modifies this`last, this`busy, bits
      ensures Valid()
      ensures !ok ==> b == 0 && busy == old(busy) && last == old(last) && forall x :: 0 <= x < maps * width ==> x in busy
      ensures ok ==> b !in old(busy) && b < maps * width && busy == old(busy) + {b}
      ensures ok ==> b == Number(last, b % width, width)
      ensures ok ==> forall y: nat :: y < b % width ==> Number(last, y, width) in old(busy)
      ensures ok ==> forall i, y: nat :: 0 <= i < maps && y < width && Precedes(i, old(last), last) ==> Number(i, y, width) in old(busy)
    {
      var i, n: nat := last, 0;
      while true
        invariant Valid() && busy == old(busy) && last == old(last)
        invariant 0 <= n < maps && 0 <= i < maps && Distance(maps, last, i) == n
        invariant forall m :: 0 <= m < maps && Distance(maps, last, m) < n ==> Full(m)
        decreases maps - n
      {
        var j := FindFirstZero(i);
        if j < width {
          b := i * width + j;
          DigitsUnique(i, j, width);
          assert forall y: nat :: y < j ==> bits[i, y] ==> Number(i, y, width) in busy;
          assert forall m, y: nat :: 0 <= m < maps && y < width && Full(m) && bits[m, y] ==> Number(m, y, width) in busy;
          PrecedesIsNearer(maps, last, i);
          assert forall m :: 0 <= m < maps && Precedes(m, last, i) ==> Full(m);
          SetBit(i, j);
          last := i;
          return true, b;
        }
        i := if i + 1 == maps then 0 else i + 1;
        n := n + 1;
        if i == last {
          break;
        }
      }
      AllFullMeansBusy();
      return false, 0;
    }

    method SetBit(i: nat, j: nat)
      requires Valid() && i < maps && j < width
      modifies this`busy, bits
      ensures Valid() && busy == old(busy) + {Number(i, j, width)}
    {
      NumberInjective(i, j, width);
      NumberBelow(i, j, maps, width);
      bits[i, j] := true;
      busy := busy + {Number(i, j, width)};
    }

    /** The guards and test_and_clear_bit of gas_free_block and gas_free_inode; says
        whether the bit was set. */
    method Free(b: nat) returns (was: bool)
      requires Valid()
      modifies this`busy, bits
      ensures Valid()
      ensures busy == if first <= b < limit then old(busy) - {b} else old(busy)
      ensures was <==> first <= b < limit && b in old(busy)
    {
      if b < first || limit <= b {
        return false;
      }
      var i, j := b / width, b % width;
      NumberOf(b, width);
      if maps <= i {
        return false;
      }
      NumberInjective(i, j, width);
      was := bits[i, j];
      bits[i, j] := false;
      busy := busy - {Number(i, j, width)};
    }

    lemma AllFullMeansBusy()
      requires Valid() && forall m :: 0 <= m < maps ==> Full(m)
      ensures forall b :: 0 <= b < maps * width ==> b in busy
    {
      forall b | 0 <= b < maps * width ensures b in busy {
        NumberOf(b, width);
        assert Full(b / width) && bits[b / width, b % width];
      }
    }

    /** hweight16: the number of set bits in a word of 16. */
    method Weight16(i: nat, w: nat) returns (n: nat)
      requires Valid() && i < maps && 16 * w + 16 <= width
      ensures n + |ClearIn(i * width + 16 * w, i * width + 16 * w + 16)| == 16
    {
      n := 0;
      var x, base := 0, i * width + 16 * w;
      assert ClearIn(base, base) == {};
      while x < 16
        invariant x <= 16 && n + |ClearIn(base, base + x)| == x
      {
        var set1 := bits[i, 16 * w + x];
        assert set1 <==> Number(i, 16 * w + x, width) in busy;
        ClearInStep(base, base + x);
        if set1 {
          n := n + 1;
        }
        x := x + 1;
      }
    }

    /** The numbers of the clear bits from `lo` and below `hi`. */
    ghost function ClearIn(lo: nat, hi: nat): set<nat>
      reads this
    {
      set b: nat | lo <= b < hi && b !in busy
    }

    lemma ClearInStep(lo: nat, hi: nat)
      requires lo <= hi
      ensures |ClearIn(lo, hi + 1)| == |ClearIn(lo, hi)| + if hi in busy then 0 else 1
    {
      if hi in busy {
        assert ClearIn(lo, hi + 1) == ClearIn(lo, hi);
      } else {
        assert ClearIn(lo, hi + 1) == ClearIn(lo, hi) + {hi};
      }
    }

    lemma ClearInJoin(mid: nat, hi: nat)
      requires mid <= hi
      ensures |ClearBelow(busy, hi)| == |ClearBelow(busy, mid)| + |ClearIn(mid, hi)|
    {
      assert ClearBelow(busy, hi) == ClearBelow(busy, mid) + ClearIn(mid, hi);
    }

    /** count_free: the clear bits of as many maps as `numbits` bits take. */
    method CountFree(numbits: nat) returns (sum: nat)
      requires Valid() && width % 16 == 0
      requires (numbits + width - 1) / width <= maps
      ensures sum == |ClearBelow(busy, (numbits + width - 1) / width * width)|
    {
      sum := 0;
      var blocks := (numbits + width - 1) / width;
      var i := 0;
      assert ClearBelow(busy, 0) == {};
      while i < blocks
        invariant i <= blocks && sum == |ClearBelow(busy, i * width)|
      {
        var w := 0;
        while w < width / 16
          invariant 16 * w <= width && sum == |ClearBelow(busy, i * width + 16 * w)|
        {
          var n := Weight16(i, w);
          ClearInJoin(i * width + 16 * w, i * width + 16 * w + 16);
          sum := sum + (16 - n);
          w := w + 1;
        }
        assert i * width + width == (i + 1) * width;
        i := i + 1;
      }
    }

    /** gas_count_free_blocks. */
    method CountFreeBlocks() returns (sum: nat)
      requires Valid() && width % 16 == 0 && 1 <= first < limit <= maps * width
      ensures sum == |ClearBelow(busy, Counted(first, limit, width))|
    {
      CountedFits(first, limit, maps, width);
      sum := CountFree(limit - first + 1);
    }
  }

  /** The number of bits that gas_count_free_blocks looks at: whole maps, as many as the
      blocks of the data zone and one more take. */
  function Counted(dataStart: nat, nblocks: nat, width: nat): (r: nat)
    requires dataStart < nblocks && 1 <= width
    ensures nblocks - dataStart < r <= nblocks - dataStart + width && exists k: nat :: r == k * width
  {
    DivBounds(nblocks - dataStart + width, width);
    (nblocks - dataStart + 1 + width - 1) / width * width
  }

  lemma CountedFits(dataStart: nat, nblocks: nat, maps: nat, width: nat)
    requires 1 <= dataStart < nblocks <= maps * width && 1 <= width
    ensures (nblocks - dataStart + 1 + width - 1) / width <= maps && Counted(dataStart, nblocks, width) <= maps * width
  {
    var n := nblocks - dataStart + 1 + width - 1;
    MulStep(maps, maps + 1, width);
    QuotientBelow(n, width, maps + 1);
    if n / width < maps {
      MulStep(n / width, maps, width);
    }
  }

  /** Everything outside the data zone is set, as it is on every device. */
  ghost predicate OutsideSet(busy: set<nat>, dataStart: nat, nblocks: nat, total: nat) {
    forall b: nat :: b < total && !(dataStart <= b < nblocks) ==> b in busy
  }

  /** gas_count_free_blocks counts the free blocks of a device, whatever is allocated, if
      and only if the maps that it looks at reach as far as the device. */
  lemma FreeCountIsRight(dataStart: nat, nblocks: nat, maps: nat, width: nat)
    requires 1 <= dataStart < nblocks <= maps * width && 1 <= width
    ensures var counted, total := Counted(dataStart, nblocks, width), maps * width;
            (forall busy: set<nat> :: OutsideSet(busy, dataStart, nblocks, total) ==>
               |ClearBelow(busy, counted)| == |ClearBelow(busy, total)|)
            <==> nblocks <= counted
  {
    var counted, total := Counted(dataStart, nblocks, width), maps * width;
    CountedFits(dataStart, nblocks, maps, width);
    forall busy: set<nat> | OutsideSet(busy, dataStart, nblocks, total) && nblocks <= counted
      ensures |ClearBelow(busy, counted)| == |ClearBelow(busy, total)|
    {
      CountIsExact(busy, counted, total);
    }
    if counted < nblocks {
      var zone := ClearBelow(ClearBelow({}, dataStart), nblocks);
      var busy := ClearBelow(zone, total);
      assert OutsideSet(busy, dataStart, nblocks, total);
      CountIsExact(busy, counted, total);
      var last: nat := nblocks - 1;
      assert counted <= last < total && last !in busy;
    }
  }

  /** When the data zone is a whole number of maps, one more map than that is counted. */
  lemma WholeMaps(dataStart: nat, k: nat, width: nat)
    requires 1 <= k && 1 <= width && dataStart < dataStart + k * width
    ensures Counted(dataStart, dataStart + k * width, width) == (k + 1) * width
  {
    var n := k * width + width;
    DivBounds(n, width);
    QuotientBelow(n, width, k + 1);
    QuotientBelow(n, width, k + 2);
  }

  /** A count over fewer bits is never too large, and right if and only if nothing is free
      among the others. */
  lemma CountIsExact(busy: set<nat>, counted: nat, all: nat)
    requires counted <= all
    ensures |ClearBelow(busy, counted)| <= |ClearBelow(busy, all)|
    ensures |ClearBelow(busy, counted)| == |ClearBelow(busy, all)|
            <==> forall b: nat :: counted <= b < all ==> b in busy
  {
    var rest := set b: nat | counted <= b < all && b !in busy;
    assert ClearBelow(busy, all) == ClearBelow(busy, counted) + rest;
    if b: nat :| counted <= b < all && b !in busy {
      assert b in rest;
    }
  }
}
