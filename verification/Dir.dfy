/** Directories (src/kern/gas_dir.c): a file of pages with fifteen slots each, which is
    a finite map from names to inode numbers.

    A slot takes 260 bytes, and none straddles two pages of 4096 bytes. The size of the
    directory says how many slots there are; a slot with inode number zero is free. */
module Dir {
  const PAGE: nat := 4096
  const ENTRY: nat := 260
  const PER_PAGE: nat := 15
  const NAME_MAX: nat := 255

  /** Names are C strings: no character is NUL. */
  type Name = string

  datatype Slot = Slot(name: Name, ino: nat)

  const FREE: Slot := Slot("", 0)

  datatype Errno = OK | EEXIST | EINVAL | ENOSPC

  // Sizes

  /** The size of a directory with `count` slots. */
  function SizeOf(count: nat): nat {
    if count == 0 then 0 else PAGE * ((count - 1) / PER_PAGE) + ENTRY * ((count - 1) % PER_PAGE + 1)
  }

  function CountOf(size: nat): nat {
    PER_PAGE * (size / PAGE) + size % PAGE / ENTRY
  }

  lemma CountOfSize(count: nat)
    ensures CountOf(SizeOf(count)) == count
    ensures Pages(SizeOf(count)) == (count + PER_PAGE - 1) / PER_PAGE
    ensures count != 0 ==> exists a, m: nat :: 1 <= m <= PER_PAGE && SizeOf(count) == PAGE * a + ENTRY * m
  {
    if count != 0 {
      var a, m := (count - 1) / PER_PAGE, (count - 1) % PER_PAGE + 1;
      assert 1 <= m <= PER_PAGE && SizeOf(count) == PAGE * a + ENTRY * m;
      assert SizeOf(count) / PAGE == a && SizeOf(count) % PAGE == ENTRY * m;
    }
  }

  /** gas_dir_pages. */
  function Pages(size: nat): nat {
    (size + PAGE - 1) / PAGE
  }

  /** gas_last_byte. */
  function LastByte(size: nat, n: nat): nat {
    if n == size / PAGE then size % PAGE else PAGE
  }

  // The table

  ghost predicate Shaped(pages: seq<seq<Slot>>, size: nat) {
    var count := CountOf(size);
    && size == SizeOf(count) && |pages| == Pages(size)
    && forall n :: 0 <= n < |pages| ==> |pages[n]| == PER_PAGE
  }

  /** The slots of a directory, in order. */
  function Table(pages: seq<seq<Slot>>, size: nat): (t: seq<Slot>)
    requires Shaped(pages, size)
    ensures |t| == CountOf(size)
    ensures forall j :: 0 <= j < |t| ==> j / PER_PAGE < |pages| && t[j] == pages[j / PER_PAGE][j % PER_PAGE]
  {
    CountOfSize(CountOf(size));
    seq(CountOf(size), j requires 0 <= j < CountOf(size) => pages[j / PER_PAGE][j % PER_PAGE])
  }

  /** Where a place in a page lies in the table: before the end, or at the end, which is
      where the size says, or at the start of a page that is not there yet. */
  lemma PlaceMeans(pages: seq<seq<Slot>>, size: nat, n: nat, k: nat)
    requires Shaped(pages, size) && k < PER_PAGE && PER_PAGE * n + k <= CountOf(size)
    ensures var j := PER_PAGE * n + k;
            && (j < CountOf(size) ==> n < |pages| && Table(pages, size)[j] == pages[n][k] && ENTRY * k != LastByte(size, n))
            && (j == CountOf(size) ==> ENTRY * k == LastByte(size, n) || (n == |pages| && k == 0))
  {
    var j, count := PER_PAGE * n + k, CountOf(size);
    CountOfSize(count);
    assert j / PER_PAGE == n && j % PER_PAGE == k;
    if count != 0 {
      var a, m := (count - 1) / PER_PAGE, (count - 1) % PER_PAGE + 1;
      assert size / PAGE == a && size % PAGE == ENTRY * m;
    }
  }

  lemma LastPlace(pages: seq<seq<Slot>>, size: nat, n: nat, k: nat)
    requires Shaped(pages, size) && n < Pages(size)
    ensures ENTRY * k <= LastByte(size, n) - ENTRY ==>
              k < PER_PAGE && PER_PAGE * n + k < CountOf(size) && Table(pages, size)[PER_PAGE * n + k] == pages[n][k]
    ensures ENTRY * k > LastByte(size, n) - ENTRY && k <= PER_PAGE ==> k == PER_PAGE || PER_PAGE * n + k >= CountOf(size)
  {
    var j, count := PER_PAGE * n + k, CountOf(size);
    CountOfSize(count);
    if count != 0 {
      var a, m := (count - 1) / PER_PAGE, (count - 1) % PER_PAGE + 1;
      assert size / PAGE == a && size % PAGE == ENTRY * m;
    }
    if k < PER_PAGE {
      assert j / PER_PAGE == n && j % PER_PAGE == k;
    }
  }

  lemma SizesGrow(a: nat, b: nat)
    requires a <= b
    ensures SizeOf(a) <= SizeOf(b)
  {
  }

  /** The pages with a slot stored at place `k` of page `n`. */
  function WithSlot(pages: seq<seq<Slot>>, n: nat, k: nat, slot: Slot): seq<seq<Slot>>
    requires n <= |pages| && k < PER_PAGE && (n < |pages| ==> |pages[n]| == PER_PAGE)
  {
    if n < |pages| then pages[n := pages[n][k := slot]] else pages + [seq(PER_PAGE, i => if i == k then slot else FREE)]
  }

  lemma StoresSlot(pages: seq<seq<Slot>>, size: nat, n: nat, k: nat, slot: Slot, after: nat)
    requires Shaped(pages, size) && k < PER_PAGE && PER_PAGE * n + k <= CountOf(size)
    requires var end := PAGE * n + ENTRY * k + ENTRY; after == if end > size then end else size
    ensures n <= |pages| && (n == |pages| ==> k == 0) && Shaped(WithSlot(pages, n, k, slot), after)
    ensures Table(WithSlot(pages, n, k, slot), after) == Stored(Table(pages, size), PER_PAGE * n + k, slot)
  {
    var j, count := PER_PAGE * n + k, CountOf(size);
    assert j / PER_PAGE == n && j % PER_PAGE == k;
    CountOfSize(count);
    CountOfSize(count + 1);
    assert SizeOf(j + 1) == PAGE * n + ENTRY * k + ENTRY;
    if j < count {
      SizesGrow(j + 1, count);
    } else {
      SizesGrow(count, count + 1);
      assert after == SizeOf(count + 1);
    }
    StoredAt(pages, size, n, k, slot, after);
  }

  lemma StoredAt(pages: seq<seq<Slot>>, size: nat, n: nat, k: nat, slot: Slot, after: nat)
    requires Shaped(pages, size) && k < PER_PAGE && n <= |pages| && PER_PAGE * n + k <= CountOf(size)
    requires Shaped(WithSlot(pages, n, k, slot), after)
    requires CountOf(after) == if PER_PAGE * n + k == CountOf(size) then CountOf(size) + 1 else CountOf(size)
    ensures Table(WithSlot(pages, n, k, slot), after) == Stored(Table(pages, size), PER_PAGE * n + k, slot)
  {
    var t, r := Table(pages, size), Table(WithSlot(pages, n, k, slot), after);
    forall i | 0 <= i < |r| ensures r[i] == Stored(t, PER_PAGE * n + k, slot)[i] {
      assert i / PER_PAGE == n && i % PER_PAGE == k <==> i == PER_PAGE * n + k;
    }
  }

  /** The first free slot, or the number of slots. */
  function FirstFree(t: seq<Slot>): (f: nat)
    ensures f <= |t| && (f < |t| ==> t[f].ino == 0)
    ensures forall j :: 0 <= j < f ==> t[j].ino != 0
  {
    if t == [] || t[0].ino == 0 then 0 else 1 + FirstFree(t[1..])
  }

  /** The first live slot with this name, or the number of slots. */
  function FirstNamed(t: seq<Slot>, name: Name): (f: nat)
    ensures f <= |t| && (f < |t| ==> t[f].ino != 0 && t[f].name == name)
    ensures forall j :: 0 <= j < f ==> !(t[j].ino != 0 && t[j].name == name)
  {
    if t == [] || (t[0].ino != 0 && t[0].name == name) then 0 else 1 + FirstNamed(t[1..], name)
  }

  /** The table with a slot stored at place `f`. */
  function Stored(t: seq<Slot>, f: nat, slot: Slot): seq<Slot>
    requires f <= |t|
  {
    if f < |t| then t[f := slot] else t + [slot]
  }

  class Directory {
    var pages: seq<seq<Slot>>
    /** i_size */
    var size: nat

    ghost predicate Valid()
      reads this
    {
      Shaped(pages, size)
    }

    ghost function Slots(): seq<Slot>
      requires Valid()
      reads this
    {
      Table(pages, size)
    }

    constructor ()
      ensures Valid() && Slots() == []
    {
      pages, size := [], 0;
    }

    /** gas_dir_get_page; a page beyond the end of the file reads as zeros. */
    function GetPage(n: nat): (page: seq<Slot>)
      requires Valid()
      reads this
      ensures |page| == PER_PAGE
    {
      if n < |pages| then pages[n] else seq(PER_PAGE, _ => FREE)
    }

    /** The search of gas_add_link: the first slot that can be used, unless the name is
        seen before it. */
    method FindRoom(name: Name) returns (err: Errno, n: nat, k: nat)
      requires Valid()
      ensures k < PER_PAGE && Passed(Slots(), name, PER_PAGE * n + k) && Ends(Slots(), name, PER_PAGE * n + k, err)
    {
      CountOfSize(CountOf(size));
      n, k, err := 0, 0, EINVAL;
      while n <= Pages(size) && err == EINVAL
        invariant Passed(Slots(), name, PER_PAGE * n + k)
        invariant if err == EINVAL then k == 0 else k < PER_PAGE && Ends(Slots(), name, PER_PAGE * n + k, err)
        decreases if err == EINVAL then 1 + Pages(size) - n else 0
      {
        err, k := ScanPage(name, n);
        if err == EINVAL {
          n, k := n + 1, 0;
        }
      }
    }

    /** gas_add_link; `space` is whether a block for the slot can be had. */
    method AddLink(name: Name, ino: nat, space: bool) returns (err: Errno)
      requires Valid() && |name| <= NAME_MAX && ino != 0
      modifies this
      ensures Valid() && err != EINVAL
      ensures var t := old(Slots()); var f := FirstFree(t);
              && (err == EEXIST <==> FirstNamed(t, name) < f)
              && (err == ENOSPC <==> FirstNamed(t, name) >= f && !space)
              && Slots() == if err == OK then Stored(t, f, Slot(name, ino)) else t
    {
      var n, k;
      err, n, k := FindRoom(name);
      SearchMeans(Slots(), name, PER_PAGE * n + k, err);
      if err == OK {
        if !space {
          return ENOSPC;
        }
        Put(n, k, Slot(name, ino));
      }
    }

    /** Write a slot, and grow the file if it lies at its end. */
    method Put(n: nat, k: nat, slot: Slot)
      requires Valid() && k < PER_PAGE && PER_PAGE * n + k <= |Slots()|
      modifies this
      ensures Valid() && Slots() == Stored(old(Slots()), PER_PAGE * n + k, slot)
    {
      var pos := PAGE * n + ENTRY * k;
      var after := if pos + ENTRY > size then pos + ENTRY else size;
      StoresSlot(pages, size, n, k, slot, after);
      pages, size := WithSlot(pages, n, k, slot), after;
    }

    /** gas_make_empty. */
    method MakeEmpty(self: nat, parent: nat, space: bool) returns (err: Errno)
      requires Valid() && Slots() == []
      modifies this
      ensures Valid() && err == (if space then OK else ENOSPC)
      ensures Slots() == if space then [Slot(".", self), Slot("..", parent)] else []
    {
      if !space {
        return ENOSPC;
      }
      pages := [[Slot(".", self), Slot("..", parent)] + seq(PER_PAGE - 2, _ => FREE)];
      size := 2 * ENTRY;
      return OK;
    }

    /** gas_find_entry. */
    method FindEntry(name: Name) returns (found: bool, n: nat, k: nat)
      requires Valid()
      ensures found <==> FirstNamed(Slots(), name) < |Slots()|
      ensures found ==> k < PER_PAGE && n < |pages| && FirstNamed(Slots(), name) == PER_PAGE * n + k
    {
      CountOfSize(CountOf(size));
      n, k, found := 0, 0, false;
      while n < Pages(size)
        invariant n <= Pages(size) && NotNamed(Slots(), name, PER_PAGE * n)
      {
        k := 0;
        while ENTRY * k <= LastByte(size, n) - ENTRY
          invariant k <= PER_PAGE && NotNamed(Slots(), name, PER_PAGE * n + k)
        {
          LastPlace(pages, size, n, k);
          var slot := GetPage(n)[k];
          if slot.ino != 0 && slot.name == name {
            return true, n, k;
          }
          k := k + 1;
        }
        n := n + 1;
      }
    }

    /** gas_delete_entry. */
    method DeleteEntry(n: nat, k: nat, space: bool) returns (err: Errno)
      requires Valid() && k < PER_PAGE && PER_PAGE * n + k < |Slots()|
      modifies this
      ensures Valid() && err == (if space then OK else ENOSPC)
      ensures var t, j := old(Slots()), PER_PAGE * n + k;
              Slots() == if space then t[j := Slot(t[j].name, 0)] else t
    {
      if !space {
        return ENOSPC;
      }
      PlaceMeans(pages, size, n, k);
      Put(n, k, Slot(pages[n][k].name, 0));
      return OK;
    }

    /** gas_empty_dir. */
    method EmptyDir(self: nat) returns (empty: bool)
      requires Valid()
      ensures empty <==> OnlyDots(Slots(), self)
    {
      CountOfSize(CountOf(size));
      var n := 0;
      while n < Pages(size)
        invariant n <= Pages(size) && forall j :: 0 <= j < PER_PAGE * n && j < |Slots()| ==> IsDot(Slots()[j], self)
      {
        var k := 0;
        while ENTRY * k <= LastByte(size, n) - ENTRY
          invariant k <= PER_PAGE
          invariant forall j :: 0 <= j < PER_PAGE * n + k && j < |Slots()| ==> IsDot(Slots()[j], self)
        {
          LastPlace(pages, size, n, k);
          var slot := GetPage(n)[k];
          if slot.ino != 0 {
            if CharAt(slot.name, 0) != '.' {
              return false;
            }
            if CharAt(slot.name, 1) == NUL {
              if slot.ino != self {
                return false;
              }
            } else if CharAt(slot.name, 1) != '.' {
              return false;
            } else if CharAt(slot.name, 2) != NUL {
              return false;
            }
          }
          k := k + 1;
        }
        n := n + 1;
      }
      return true;
    }

    /** gas_inode_by_name, by way of gas_iterate, which takes steps of 260 bytes up to the
        end of a page and so finds a sixteenth entry there; `tails` is what it reads at
        the ends of the pages. */
    method InodeByName(name: Name, tails: seq<Slot>) returns (ino: nat)
      requires Valid() && |tails| == |pages|
      ensures ino == Lookup(Walked(pages, size, tails), name)
    {
      CountOfSize(CountOf(size));
      var steps, n := 0, 0;
      while n < Pages(size)
        invariant n <= Pages(size) && steps == Min(PER_WALK * n, |Walked(pages, size, tails)|)
        invariant NotNamed(Walked(pages, size, tails), name, steps)
      {
        ino, steps := WalkPage(name, tails, n, steps);
        if ino != 0 {
          return;
        }
        n := n + 1;
      }
      return 0;
    }

    /** One page of gas_iterate; the position is 260 bytes times `steps`. */
    method WalkPage(name: Name, tails: seq<Slot>, n: nat, steps: nat) returns (ino: nat, now: nat)
      requires Valid() && |tails| == |pages| && n < |pages|
      requires steps == Min(PER_WALK * n, |Walked(pages, size, tails)|) && NotNamed(Walked(pages, size, tails), name, steps)
      ensures ino != 0 ==> ino == Lookup(Walked(pages, size, tails), name)
      ensures ino == 0 ==> now == Min(PER_WALK * (n + 1), |Walked(pages, size, tails)|) && NotNamed(Walked(pages, size, tails), name, now)
    {
      var k := 0;
      now := steps;
      while ENTRY * k < PAGE && ENTRY * now < size
        invariant k <= PER_WALK && now == Min(PER_WALK * n + k, |Walked(pages, size, tails)|)
        invariant NotNamed(Walked(pages, size, tails), name, now)
      {
        var slot := if k < PER_PAGE then pages[n][k] else tails[n];
        assert now / PER_WALK == n && now % PER_WALK == k;
        if slot.ino != 0 && slot.name == name {
          return slot.ino, now;
        }
        now, k := now + 1, k + 1;
      }
      return 0, now;
    }

    /** One page of the search. */
    method ScanPage(name: Name, n: nat) returns (err: Errno, k: nat)
      requires Valid() && n <= Pages(size) && Passed(Slots(), name, PER_PAGE * n)
      ensures Passed(Slots(), name, PER_PAGE * n + k)
      ensures if err == EINVAL then k == PER_PAGE else k < PER_PAGE && Ends(Slots(), name, PER_PAGE * n + k, err)
    {
      var page, dirEnd := GetPage(n), LastByte(size, n);
      k := 0;
      while ENTRY * k <= PAGE - ENTRY
        invariant k <= PER_PAGE && Passed(Slots(), name, PER_PAGE * n + k)
      {
        PlaceMeans(pages, size, n, k);
        if ENTRY * k == dirEnd || page[k].ino == 0 {
          return OK, k;
        }
        if page[k].name == name {
          return EEXIST, k;
        }
        k := k + 1;
      }
      return EINVAL, k;
    }
  }

  /** The first `j` slots are in use, and have other names. */
  ghost predicate Passed(t: seq<Slot>, name: Name, j: nat) {
    j <= |t| && forall i :: 0 <= i < j ==> t[i].ino != 0 && t[i].name != name
  }

  lemma SearchMeans(t: seq<Slot>, name: Name, j: nat, err: Errno)
    requires Passed(t, name, j) && Ends(t, name, j, err)
    ensures err == EEXIST <==> FirstNamed(t, name) < FirstFree(t)
    ensures err != EEXIST ==> err == OK && j == FirstFree(t)
  {
  }

  /** None of the first `j` slots is live and has this name. */
  ghost predicate NotNamed(t: seq<Slot>, name: Name, j: nat) {
    forall i :: 0 <= i < j && i < |t| ==> !(t[i].ino != 0 && t[i].name == name)
  }

  /** The search of gas_add_link ends at slot `j`. */
  ghost predicate Ends(t: seq<Slot>, name: Name, j: nat, err: Errno) {
    match err
    case OK => j == |t| || (j < |t| && t[j].ino == 0)
    case EEXIST => j < |t| && t[j].ino != 0 && t[j].name == name
    case _ => false
  }

  const PER_WALK: nat := 16

  function Min(a: nat, b: nat): nat {
    if a <= b then a else b
  }

  /** The entries that gas_iterate visits, in order. */
  function Walked(pages: seq<seq<Slot>>, size: nat, tails: seq<Slot>): (w: seq<Slot>)
    requires Shaped(pages, size) && |tails| == |pages|
    ensures |w| == (size + ENTRY - 1) / ENTRY
    ensures forall i :: 0 <= i < |w| ==>
              var n, k := i / PER_WALK, i % PER_WALK;
              n < |pages| && w[i] == if k < PER_PAGE then pages[n][k] else tails[n]
  {
    CountOfSize(CountOf(size));
    seq((size + ENTRY - 1) / ENTRY, i requires 0 <= i < (size + ENTRY - 1) / ENTRY =>
      var n, k := i / PER_WALK, i % PER_WALK;
      if k < PER_PAGE then pages[n][k] else tails[n])
  }

  /** On one page, gas_iterate visits the slots of the directory. */
  lemma WalkIsTable(pages: seq<seq<Slot>>, size: nat, tails: seq<Slot>)
    requires Shaped(pages, size) && |tails| == |pages| && size <= ENTRY * PER_PAGE
    ensures Walked(pages, size, tails) == Table(pages, size)
  {
  }

  /** Looking a name up in the two ways gives the same result, whatever lies at the ends
      of the pages, exactly when the slots of the directory fill no page. */
  lemma LookupsAgreeIff(pages: seq<seq<Slot>>, size: nat, name: Name)
    requires Shaped(pages, size) && name !in Names(Table(pages, size))
    ensures (forall tails :: |tails| == |pages| ==> Lookup(Walked(pages, size, tails), name) == Lookup(Table(pages, size), name))
            <==> size <= ENTRY * PER_PAGE
  {
    if size <= ENTRY * PER_PAGE {
      forall tails | |tails| == |pages| ensures Lookup(Walked(pages, size, tails), name) == Lookup(Table(pages, size), name) {
        WalkIsTable(pages, size, tails);
      }
    } else {
      var tails := seq(|pages|, _ => Slot(name, 1));
      var w := Walked(pages, size, tails);
      assert w[PER_PAGE].name == name && w[PER_PAGE].ino != 0;
      NamedIff(Table(pages, size), name);
      NamedIff(w, name);
      assert name in Names(w);
      assert Lookup(w, name) != Lookup(Table(pages, size), name);
    }
  }

  /** An entry of the walk that is not read at the end of a page is a slot of the table. */
  lemma WalkedSlot(pages: seq<seq<Slot>>, size: nat, tails: seq<Slot>, i: nat)
    requires Shaped(pages, size) && |tails| == |pages|
    requires i < |Walked(pages, size, tails)| && i % PER_WALK < PER_PAGE
    ensures var j := PER_PAGE * (i / PER_WALK) + i % PER_WALK;
            j < CountOf(size) && Walked(pages, size, tails)[i] == Table(pages, size)[j]
  {
    var count, n, k := CountOf(size), i / PER_WALK, i % PER_WALK;
    CountOfSize(count);
    WalkedPlace(count, n, k);
    assert i == PER_WALK * n + k;
    assert (PER_PAGE * n + k) / PER_PAGE == n && (PER_PAGE * n + k) % PER_PAGE == k;
  }

  lemma WalkedPlace(count: nat, n: nat, k: nat)
    requires k < PER_PAGE && ENTRY * (PER_WALK * n + k) < SizeOf(count)
    ensures PER_PAGE * n + k < count
  {
    var a, m := (count - 1) / PER_PAGE, (count - 1) % PER_PAGE + 1;
    assert SizeOf(count) == PAGE * a + ENTRY * m && count == PER_PAGE * a + m;
  }

  /** The only slot with its name is at place `k` of page `n`. */
  ghost predicate OnlyAt(pages: seq<seq<Slot>>, size: nat, name: Name, n: nat, k: nat) {
    && Shaped(pages, size) && k < PER_PAGE && PER_PAGE * n + k < CountOf(size)
    && FirstNamed(Table(pages, size), name) == PER_PAGE * n + k
    && forall j :: 0 <= j < CountOf(size) && j != PER_PAGE * n + k ==> !IsNamed(Table(pages, size)[j], name)
  }

  predicate IsNamed(slot: Slot, name: Name) {
    slot.ino != 0 && slot.name == name
  }

  lemma FirstIs(t: seq<Slot>, name: Name, j: nat)
    requires j < |t| && IsNamed(t[j], name) && forall i :: 0 <= i < j ==> !IsNamed(t[i], name)
    ensures FirstNamed(t, name) == j
  {
    var f := FirstNamed(t, name);
    assert f < j ==> !IsNamed(t[f], name);
  }

  /** Where the walk comes to the one slot with a name, if it does. */
  lemma WalkComesTo(pages: seq<seq<Slot>>, size: nat, tails: seq<Slot>, name: Name, n: nat, k: nat, i: nat)
    requires OnlyAt(pages, size, name, n, k) && |tails| == |pages| && i < |Walked(pages, size, tails)|
    requires i % PER_WALK < PER_PAGE || !IsNamed(tails[i / PER_WALK], name)
    ensures IsNamed(Walked(pages, size, tails)[i], name) <==> i == PER_WALK * n + k
  {
    assert (PER_WALK * n + k) / PER_WALK == n && (PER_WALK * n + k) % PER_WALK == k;
    assert Walked(pages, size, tails)[i] == if i % PER_WALK < PER_PAGE then pages[i / PER_WALK][i % PER_WALK] else tails[i / PER_WALK];
    if i % PER_WALK < PER_PAGE {
      WalkedSlot(pages, size, tails, i);
      assert PER_PAGE * (i / PER_WALK) + i % PER_WALK == PER_PAGE * n + k <==> i / PER_WALK == n && i % PER_WALK == k;
    }
  }

  /** A name that is there is found, when the ends of the pages do not hold it, if and only
      if the steps of 260 bytes come to its slot before they come to the size; otherwise
      gas_inode_by_name says that there is no such file. */
  lemma FoundIffReached(pages: seq<seq<Slot>>, size: nat, tails: seq<Slot>, name: Name, n: nat, k: nat)
    requires OnlyAt(pages, size, name, n, k) && |tails| == |pages|
    requires forall i :: 0 <= i < |tails| ==> !IsNamed(tails[i], name)
    ensures Lookup(Walked(pages, size, tails), name)
            == if ENTRY * (PER_WALK * n + k) < size then Lookup(Table(pages, size), name) else 0
  {
    var w, x := Walked(pages, size, tails), PER_WALK * n + k;
    OnlyStep(pages, size, tails, name, n, k);
    StepsReach(size, x);
    if x < |w| {
      FirstIs(w, name, x);
      PlaceOfStep(n, k);
      WalkedSlot(pages, size, tails, x);
    } else {
      NoneNamed(w, name);
    }
  }

  lemma OnlyStep(pages: seq<seq<Slot>>, size: nat, tails: seq<Slot>, name: Name, n: nat, k: nat)
    requires OnlyAt(pages, size, name, n, k) && |tails| == |pages|
    requires forall i :: 0 <= i < |tails| ==> !IsNamed(tails[i], name)
    ensures var w := Walked(pages, size, tails);
            forall i :: 0 <= i < |w| ==> (IsNamed(w[i], name) <==> i == PER_WALK * n + k)
  {
    var w := Walked(pages, size, tails);
    forall i | 0 <= i < |w| ensures IsNamed(w[i], name) <==> i == PER_WALK * n + k {
      WalkComesTo(pages, size, tails, name, n, k, i);
    }
  }

  lemma StepsReach(size: nat, x: nat)
    ensures x < (size + ENTRY - 1) / ENTRY <==> ENTRY * x < size
  {
  }

  lemma PlaceOfStep(n: nat, k: nat)
    requires k < PER_PAGE
    ensures (PER_WALK * n + k) / PER_WALK == n && (PER_WALK * n + k) % PER_WALK == k
  {
  }

  lemma NoneNamed(t: seq<Slot>, name: Name)
    requires forall i :: 0 <= i < |t| ==> !IsNamed(t[i], name)
    ensures Lookup(t, name) == 0
  {
    var f := FirstNamed(t, name);
    assert f < |t| ==> !IsNamed(t[f], name);
  }

  /** On the first page a name is found, whatever lies at the ends of the pages. */
  lemma FirstPageFound(pages: seq<seq<Slot>>, size: nat, tails: seq<Slot>, name: Name, k: nat)
    requires OnlyAt(pages, size, name, 0, k) && |tails| == |pages|
    ensures Lookup(Walked(pages, size, tails), name) == Lookup(Table(pages, size), name)
  {
    var w := Walked(pages, size, tails);
    CountOfSize(CountOf(size));
    assert k < |w|;
    forall i | 0 <= i <= k ensures IsNamed(w[i], name) <==> i == k {
      WalkComesTo(pages, size, tails, name, 0, k, i);
    }
    FirstIs(w, name, k);
    WalkedSlot(pages, size, tails, k);
  }

  /** A name that is there is looked up alike in the two ways, whatever lies at the ends of
      the pages, exactly when its slot is on the first page. */
  lemma LiveLookupsAgreeIff(pages: seq<seq<Slot>>, size: nat, name: Name, n: nat, k: nat)
    requires OnlyAt(pages, size, name, n, k)
    ensures (forall tails :: |tails| == |pages| ==> Lookup(Walked(pages, size, tails), name) == Lookup(Table(pages, size), name))
            <==> n == 0
  {
    if n == 0 {
      forall tails | |tails| == |pages| ensures Lookup(Walked(pages, size, tails), name) == Lookup(Table(pages, size), name) {
        FirstPageFound(pages, size, tails, name, k);
      }
    } else {
      var tails := WrongTails(pages, size, name, n, k);
      assert Lookup(Walked(pages, size, tails), name) != Lookup(Table(pages, size), name);
    }
  }

  /** Ends of pages that make the walk find another inode. */
  lemma WrongTails(pages: seq<seq<Slot>>, size: nat, name: Name, n: nat, k: nat) returns (tails: seq<Slot>)
    requires OnlyAt(pages, size, name, n, k) && n != 0
    ensures |tails| == |pages| && Lookup(Walked(pages, size, tails), name) != Lookup(Table(pages, size), name)
  {
    var ino := Lookup(Table(pages, size), name);
    tails := seq(|pages|, _ => Slot(name, ino + 1));
    var w := Walked(pages, size, tails);
    CountOfSize(CountOf(size));
    assert PER_PAGE < |w|;
    forall i | 0 <= i < PER_PAGE ensures !IsNamed(w[i], name) {
      WalkComesTo(pages, size, tails, name, n, k, i);
    }
    assert w[PER_PAGE] == tails[0];
    FirstIs(w, name, PER_PAGE);
  }

  /** A directory with 76 slots, the last one in use. */
  function Slots76(name: Name, ino: nat): seq<seq<Slot>> {
    seq(6, n => seq(PER_PAGE, k => if n == 5 && k == 0 then Slot(name, ino) else FREE))
  }

  /** The file in slot 75 is there, and gas_inode_by_name does not find it: it takes 80
      steps of 260 bytes to the size of 20740, and the slot comes after them. */
  lemma LastOf76IsMissed(name: Name, ino: nat)
    requires ino != 0
    ensures var pages, size, tails := Slots76(name, ino), SizeOf(76), seq(6, _ => FREE);
            && Shaped(pages, size) && size == 20740 && name in Names(Table(pages, size))
            && Lookup(Table(pages, size), name) == ino && Lookup(Walked(pages, size, tails), name) == 0
  {
    var pages, size, tails := Slots76(name, ino), SizeOf(76), seq(6, _ => FREE);
    var t := Table(pages, size);
    assert forall j :: 0 <= j < 76 ==> (IsNamed(t[j], name) <==> j == 75);
    assert FirstNamed(t, name) == 75;
    NamedIff(t, name);
    FoundIffReached(pages, size, tails, name, 5, 0);
  }

  const NUL: char := '\0'

  /** A character of a C string. */
  function CharAt(name: Name, i: nat): char {
    if i < |name| then name[i] else NUL
  }

  predicate CString(name: Name) {
    |name| <= NAME_MAX && NUL !in name
  }

  /** A free slot, or the entry of the directory itself, or that of its parent. */
  predicate IsDot(slot: Slot, self: nat) {
    slot.ino == 0
    || (CharAt(slot.name, 0) == '.' && CharAt(slot.name, 1) == NUL && slot.ino == self)
    || (CharAt(slot.name, 0) == '.' && CharAt(slot.name, 1) == '.' && CharAt(slot.name, 2) == NUL)
  }

  ghost predicate OnlyDots(t: seq<Slot>, self: nat) {
    forall j :: 0 <= j < |t| ==> IsDot(t[j], self)
  }

  // The map that a table stands for

  ghost function Names(t: seq<Slot>): set<Name> {
    set j | 0 <= j < |t| && t[j].ino != 0 :: t[j].name
  }

  /** Names and the inodes that the slots give them. */
  ghost function MapOf(t: seq<Slot>): map<Name, nat> {
    map name | name in Names(t) :: Lookup(t, name)
  }

  /** What gas_find_entry leads to; zero when there is no such name. */
  function Lookup(t: seq<Slot>, name: Name): nat {
    var f := FirstNamed(t, name);
    if f < |t| then t[f].ino else 0
  }

  /** No two live slots have the same name. */
  ghost predicate Unique(t: seq<Slot>) {
    forall i, j :: 0 <= i < |t| && 0 <= j < |t| && t[i].ino != 0 && t[j].ino != 0 && t[i].name == t[j].name ==> i == j
  }

  lemma NamedIff(t: seq<Slot>, name: Name)
    ensures name in Names(t) <==> FirstNamed(t, name) < |t|
    ensures name in Names(t) <==> Lookup(t, name) != 0
  {
    if name in Names(t) {
      var j :| 0 <= j < |t| && t[j].ino != 0 && t[j].name == name;
    }
    assert FirstNamed(t, name) < |t| ==> t[FirstNamed(t, name)].name in Names(t);
  }

  lemma LookupIs(t: seq<Slot>, j: nat)
    requires Unique(t) && j < |t| && t[j].ino != 0
    ensures FirstNamed(t, t[j].name) == j && Lookup(t, t[j].name) == t[j].ino
  {
  }

  lemma StoredUnique(t: seq<Slot>, f: nat, slot: Slot)
    requires Unique(t) && f <= |t| && (f < |t| ==> t[f].ino == 0) && slot.ino != 0
    ensures Unique(Stored(t, f, slot)) <==> slot.name !in Names(t)
  {
    var r := Stored(t, f, slot);
    assert r[f] == slot && forall i :: 0 <= i < |t| && i != f ==> r[i] == t[i];
    if slot.name in Names(t) {
      var j :| 0 <= j < |t| && t[j].ino != 0 && t[j].name == slot.name;
      assert r[j].name == r[f].name;
    }
  }

  lemma LookupStored(t: seq<Slot>, f: nat, slot: Slot, x: Name)
    requires Unique(t) && f <= |t| && (f < |t| ==> t[f].ino == 0) && slot.ino != 0 && slot.name !in Names(t)
    ensures Lookup(Stored(t, f, slot), x) == if x == slot.name then slot.ino else Lookup(t, x)
  {
    var r, i := Stored(t, f, slot), FirstNamed(t, x);
    StoredUnique(t, f, slot);
    assert r[f] == slot && forall j :: 0 <= j < |t| && j != f ==> r[j] == t[j];
    NamedIff(t, x);
    if x == slot.name {
      LookupIs(r, f);
    } else if i < |t| {
      LookupIs(r, i);
    } else {
      NamedIff(r, x);
      assert forall j :: 0 <= j < |r| ==> !(r[j].ino != 0 && r[j].name == x);
    }
  }

  lemma SameMap(t: seq<Slot>, m: map<Name, nat>)
    requires forall x :: (x in Names(t) <==> x in m) && (x in m ==> m[x] == Lookup(t, x))
    ensures MapOf(t) == m
  {
  }

  /** Adding a name that is not there adds it to the map. */
  lemma AddIsUpdate(t: seq<Slot>, name: Name, ino: nat)
    requires Unique(t) && ino != 0 && name !in Names(t)
    ensures MapOf(Stored(t, FirstFree(t), Slot(name, ino))) == MapOf(t)[name := ino]
  {
    var f, slot := FirstFree(t), Slot(name, ino);
    var r := Stored(t, f, slot);
    forall x ensures Lookup(r, x) == (if x == name then ino else Lookup(t, x)) && (x in Names(r) <==> x == name || x in Names(t)) {
      LookupStored(t, f, slot, x);
      NamedIff(r, x);
      NamedIff(t, x);
    }
    SameMap(r, MapOf(t)[name := ino]);
  }

  /** gas_add_link looks for the name only up to the first free slot; when it goes on to
      store a slot, live names stay unique exactly when the name was not there at all. */
  lemma AddKeepsUnique(t: seq<Slot>, name: Name, ino: nat)
    requires Unique(t) && ino != 0
    ensures FirstNamed(t, name) >= FirstFree(t) ==>
              (Unique(Stored(t, FirstFree(t), Slot(name, ino))) <==> name !in Names(t))
    ensures name !in Names(t) ==> FirstNamed(t, name) >= FirstFree(t)
  {
    StoredUnique(t, FirstFree(t), Slot(name, ino));
    NamedIff(t, name);
  }

  /** Deleting the slot that gas_find_entry finds takes the name out of the map. */
  lemma DeleteIsRemoval(t: seq<Slot>, name: Name)
    requires Unique(t) && name in Names(t)
    ensures var j := FirstNamed(t, name);
            && j < |t| && Unique(t[j := Slot(t[j].name, 0)])
            && MapOf(t[j := Slot(t[j].name, 0)]) == MapOf(t) - {name}
  {
    NamedIff(t, name);
    var j := FirstNamed(t, name);
    var r := t[j := Slot(t[j].name, 0)];
    forall x ensures Lookup(r, x) == (if x == name then 0 else Lookup(t, x)) && (x in Names(r) <==> x != name && x in Names(t)) {
      NamedIff(t, x);
      NamedIff(r, x);
      if x != name && FirstNamed(t, x) < |t| {
        LookupIs(r, FirstNamed(t, x));
      }
    }
    SameMap(r, MapOf(t) - {name});
  }

  /** gas_empty_dir says that a directory holds nothing but itself and its parent. */
  lemma EmptyMeans(t: seq<Slot>, self: nat)
    requires Unique(t) && forall j :: 0 <= j < |t| ==> CString(t[j].name)
    ensures OnlyDots(t, self) <==> forall name :: name in MapOf(t) ==> (name == "." && MapOf(t)[name] == self) || name == ".."
  {
    forall j | 0 <= j < |t| && t[j].ino != 0
      ensures IsDot(t[j], self) <==> (t[j].name == "." && MapOf(t)[t[j].name] == self) || t[j].name == ".."
      ensures t[j].name in MapOf(t)
    {
      LookupIs(t, j);
      DotNames(t[j].name);
      assert t[j].name in Names(t);
    }
    forall name | name in MapOf(t) ensures FirstNamed(t, name) < |t| && t[FirstNamed(t, name)].name == name {
      NamedIff(t, name);
    }
  }

  lemma DotNames(name: Name)
    requires CString(name)
    ensures name == "." <==> CharAt(name, 0) == '.' && CharAt(name, 1) == NUL
    ensures name == ".." <==> CharAt(name, 0) == '.' && CharAt(name, 1) == '.' && CharAt(name, 2) == NUL
  {
    assert |name| == 1 ==> name == [name[0]];
    assert |name| == 2 ==> name == [name[0], name[1]];
    assert forall i :: 0 <= i < |name| ==> name[i] != NUL;
  }

  // Runs

  datatype Change = Add(name: Name, ino: nat) | Remove(name: Name)

  ghost predicate Applies(m: map<Name, nat>, c: Change) {
    match c
    case Add(name, ino) => ino != 0 && name !in m
    case Remove(name) => name in m
  }

  ghost function Applied(m: map<Name, nat>, c: Change): map<Name, nat> {
    match c
    case Add(name, ino) => m[name := ino]
    case Remove(name) => m - {name}
  }

  /** What gas_add_link, and gas_find_entry with gas_delete_entry, do to the table. */
  ghost function Changed(t: seq<Slot>, c: Change): seq<Slot> {
    match c
    case Add(name, ino) => Stored(t, FirstFree(t), Slot(name, ino))
    case Remove(name) =>
      var j := FirstNamed(t, name);
      if j < |t| then t[j := Slot(t[j].name, 0)] else t
  }

  ghost predicate Run(tables: seq<seq<Slot>>, maps: seq<map<Name, nat>>, changes: seq<Change>) {
    && |tables| == |maps| == |changes| + 1
    && forall k {:trigger changes[k]} :: 0 <= k < |changes| ==>
         && Applies(maps[k], changes[k]) && maps[k + 1] == Applied(maps[k], changes[k])
         && tables[k + 1] == Changed(tables[k], changes[k])
  }

  /** Over every run from a new directory in which absent names are added and present
      ones removed, the table is the map. */
  lemma {:induction false} TableIsMap(tables: seq<seq<Slot>>, maps: seq<map<Name, nat>>, changes: seq<Change>, self: nat, parent: nat)
    requires Run(tables, maps, changes) && self != 0 && parent != 0
    requires tables[0] == [Slot(".", self), Slot("..", parent)] && maps[0] == map["." := self, ".." := parent]
    ensures Unique(tables[|changes|]) && MapOf(tables[|changes|]) == maps[|changes|]
    decreases |changes|
  {
    if changes == [] {
      NewDirectory(self, parent);
    } else {
      var k := |changes| - 1;
      assert Run(tables[..k + 1], maps[..k + 1], changes[..k]) by {
        assert forall i :: 0 <= i < k ==> changes[..k][i] == changes[i];
      }
      TableIsMap(tables[..k + 1], maps[..k + 1], changes[..k], self, parent);
      assert tables[..k + 1][k] == tables[k] && maps[..k + 1][k] == maps[k];
      assert Applies(maps[k], changes[k]);
      ChangeIsApplied(tables[k], changes[k]);
    }
  }

  lemma ChangeIsApplied(t: seq<Slot>, c: Change)
    requires Unique(t) && Applies(MapOf(t), c)
    ensures Unique(Changed(t, c)) && MapOf(Changed(t, c)) == Applied(MapOf(t), c)
  {
    match c
    case Add(name, ino) =>
      AddIsUpdate(t, name, ino);
      AddKeepsUnique(t, name, ino);
    case Remove(name) =>
      DeleteIsRemoval(t, name);
  }

  /** After a change a lookup finds what has been added and not what has been removed, and
      any other name as before. */
  lemma ChangeMeans(t: seq<Slot>, c: Change, x: Name)
    requires Unique(t) && Applies(MapOf(t), c)
    ensures Lookup(Changed(t, c), x) ==
            if x != c.name then Lookup(t, x) else if c.Add? then c.ino else 0
  {
    ChangeIsApplied(t, c);
    NamedIff(t, x);
    NamedIff(Changed(t, c), x);
    if x != c.name {
      assert x in MapOf(Changed(t, c)) <==> x in MapOf(t);
      if x in MapOf(t) {
        assert MapOf(Changed(t, c))[x] == MapOf(t)[x];
      }
    } else if c.Add? {
      assert MapOf(Changed(t, c))[x] == c.ino;
    } else {
      assert x !in MapOf(Changed(t, c));
    }
  }

  lemma NewDirectory(self: nat, parent: nat)
    requires self != 0 && parent != 0
    ensures var t := [Slot(".", self), Slot("..", parent)];
            Unique(t) && MapOf(t) == map["." := self, ".." := parent]
  {
    var t := [Slot(".", self), Slot("..", parent)];
    LookupIs(t, 0);
    LookupIs(t, 1);
    assert t[0].name in Names(t) && t[1].name in Names(t);
  }
}
