/** Link counts and the tree of directories (src/kern/gas_namei.c).

    A directory is the map that module Dir proves its slots to be, without its entries
    "." and "..": `names` holds the others, and `parent` is what ".." says. */
module Namei {
  import opened Dir

  const ROOT: nat := 1

  datatype Node =
    | File(nlink: nat)
    | Folder(nlink: nat, parent: nat, names: map<Name, nat>)

  /** The inodes in use. */
  type Nodes = map<nat, Node>

  ghost predicate IsFolder(s: Nodes, i: nat) {
    i in s && s[i].Folder?
  }

  ghost predicate Live(s: Nodes, i: nat) {
    i in s && s[i].nlink != 0
  }

  /** The entries that name inode `i`. */
  ghost function Refs(s: Nodes, i: nat): set<(nat, Name)> {
    set d, name | d in s && s[d].Folder? && name in s[d].names && s[d].names[name] == i :: (d, name)
  }

  /** The names of the directories in directory `d`. */
  ghost function Subfolders(s: Nodes, d: nat): set<Name>
    requires IsFolder(s, d)
  {
    set name | name in s[d].names && IsFolder(s, s[d].names[name])
  }

  // What holds between calls

  /** Every name leads to an inode that is alive. */
  ghost predicate Closed(s: Nodes) {
    forall d, name {:trigger s[d].names[name]} :: IsFolder(s, d) && name in s[d].names ==> Live(s, s[d].names[name])
  }

  /** The link count of an inode other than a directory is the number of its names. */
  ghost predicate FileCount(s: Nodes, i: nat)
    requires i in s
  {
    s[i].File? ==> s[i].nlink == |Refs(s, i)|
  }

  /** The link count of a directory is 2 plus the number of its subdirectories; it is 0
      when the directory has been removed, and then it is empty. */
  ghost predicate FolderCount(s: Nodes, d: nat)
    requires d in s
  {
    s[d].Folder? ==> if s[d].nlink == 0 then s[d].names == map[] else s[d].nlink == 2 + |Subfolders(s, d)|
  }

  /** A directory has one name, in its parent; the root and removed ones have none. */
  ghost predicate OneName(s: Nodes, d: nat, depth: map<nat, nat>)
    requires d in s
  {
    s[d].Folder? ==>
      if d == ROOT || s[d].nlink == 0 then Refs(s, d) == {}
      else
        && IsFolder(s, s[d].parent) && Live(s, s[d].parent)
        && d in depth && s[d].parent in depth && depth[d] == depth[s[d].parent] + 1
        && exists name :: Refs(s, d) == {(s[d].parent, name)}
  }

  ghost predicate Inv(s: Nodes, depth: map<nat, nat>) {
    && IsFolder(s, ROOT) && Live(s, ROOT) && s[ROOT].parent == ROOT && ROOT in depth && depth[ROOT] == 0
    && Closed(s)
    && forall i {:trigger Counts(s, i, depth)} :: i in s ==> Counts(s, i, depth)
  }

  ghost predicate Counts(s: Nodes, i: nat, depth: map<nat, nat>)
    requires i in s
  {
    FileCount(s, i) && FolderCount(s, i) && OneName(s, i, depth)
  }

  // Climbing

  /** The directory `k` levels up. */
  ghost function Up(s: Nodes, d: nat, k: nat): nat
    decreases k
  {
    if k == 0 || !IsFolder(s, d) then d else Up(s, s[d].parent, k - 1)
  }

  /** The directories form a tree: from every one that is alive, the parents lead to the
      root. */
  lemma {:induction false} ClimbsToRoot(s: Nodes, depth: map<nat, nat>, d: nat)
    requires Inv(s, depth) && IsFolder(s, d) && Live(s, d) && d in depth
    ensures Up(s, d, depth[d]) == ROOT
    decreases depth[d]
  {
    assert Counts(s, d, depth);
    if d != ROOT {
      ClimbsToRoot(s, depth, s[d].parent);
    }
  }

  // Small changes

  function Counted(n: Node, k: nat): Node {
    match n
    case File(_) => File(k)
    case Folder(_, parent, names) => Folder(k, parent, names)
  }

  function Recount(s: Nodes, i: nat, k: nat): Nodes
    requires i in s
  {
    s[i := Counted(s[i], k)]
  }

  function Named(n: Node, names: map<Name, nat>): Node {
    match n
    case File(nlink) => File(nlink)
    case Folder(nlink, parent, _) => Folder(nlink, parent, names)
  }

  /** gas_add_link. */
  function Linked(s: Nodes, dir: nat, name: Name, i: nat): Nodes
    requires dir in s && s[dir].Folder?
  {
    s[dir := Named(s[dir], s[dir].names[name := i])]
  }

  /** gas_delete_entry. */
  function Unlinked(s: Nodes, dir: nat, name: Name): Nodes
    requires dir in s && s[dir].Folder?
  {
    s[dir := Named(s[dir], s[dir].names - {name})]
  }

  lemma RefsLinked(s: Nodes, dir: nat, name: Name, i: nat, x: nat)
    requires IsFolder(s, dir) && name !in s[dir].names
    ensures Refs(Linked(s, dir, name, i), x) == Refs(s, x) + if x == i then {(dir, name)} else {}
  {
  }

  lemma RefsUnlinked(s: Nodes, dir: nat, name: Name, x: nat)
    requires IsFolder(s, dir)
    ensures Refs(Unlinked(s, dir, name), x) == Refs(s, x) - {(dir, name)}
  {
  }

  lemma RefsRecount(s: Nodes, i: nat, k: nat, x: nat)
    requires i in s
    ensures Refs(Recount(s, i, k), x) == Refs(s, x)
  {
  }

  /** An inode without names in it comes or goes. */
  lemma RefsBeside(s: Nodes, i: nat, n: Node, x: nat)
    requires i !in s && (n.Folder? ==> n.names == map[])
    ensures Refs(s[i := n], x) == Refs(s, x)
  {
  }

  lemma RefsAreLive(s: Nodes, i: nat)
    requires Closed(s)
    ensures Refs(s, i) != {} ==> Live(s, i)
  {
    if Refs(s, i) != {} {
      var r :| r in Refs(s, i);
      assert Live(s, s[r.0].names[r.1]);
    }
  }

  lemma SubsLinked(s: Nodes, dir: nat, name: Name, i: nat, d: nat)
    requires IsFolder(s, dir) && name !in s[dir].names && IsFolder(s, d)
    ensures var r := Linked(s, dir, name, i);
            IsFolder(r, d) && Subfolders(r, d) == Subfolders(s, d) + if d == dir && IsFolder(s, i) then {name} else {}
  {
    var r := Linked(s, dir, name, i);
    assert forall y :: IsFolder(r, y) <==> IsFolder(s, y);
  }

  lemma SubsUnlinked(s: Nodes, dir: nat, name: Name, d: nat)
    requires IsFolder(s, dir) && IsFolder(s, d)
    ensures var r := Unlinked(s, dir, name);
            IsFolder(r, d) && Subfolders(r, d) == Subfolders(s, d) - if d == dir then {name} else {}
  {
    var r := Unlinked(s, dir, name);
    assert forall y :: IsFolder(r, y) <==> IsFolder(s, y);
  }

  lemma SubsRecount(s: Nodes, i: nat, k: nat, d: nat)
    requires i in s && IsFolder(s, d)
    ensures IsFolder(Recount(s, i, k), d) && Subfolders(Recount(s, i, k), d) == Subfolders(s, d)
  {
    assert forall y :: IsFolder(Recount(s, i, k), y) <==> IsFolder(s, y);
  }

  lemma SubsBeside(s: Nodes, i: nat, n: Node, d: nat)
    requires Closed(s) && i !in s && IsFolder(s, d)
    ensures IsFolder(s[i := n], d) && Subfolders(s[i := n], d) == Subfolders(s, d)
  {
    forall name | name in s[d].names ensures s[d].names[name] != i {
      assert Live(s, s[d].names[name]);
    }
  }

  // create and link

  ghost function Created(s: Nodes, dir: nat, name: Name, ino: nat): Nodes
    requires IsFolder(s, dir) && ino !in s
  {
    Linked(s[ino := File(1)], dir, name, ino)
  }

  /** Nothing has changed but the inodes `ids`. */
  ghost predicate OthersSame(s: Nodes, r: Nodes, ids: set<nat>) {
    forall i :: i !in ids ==> (i in r <==> i in s) && (i in s ==> r[i] == s[i])
  }

  /** Every inode has the names that it had, and `i` the entry `name` of `dir` as well. */
  ghost predicate OneNameMore(s: Nodes, r: Nodes, dir: nat, name: Name, i: nat) {
    forall x :: Refs(r, x) == Refs(s, x) + if x == i then {(dir, name)} else {}
  }

  ghost predicate OneNameLess(s: Nodes, r: Nodes, dir: nat, name: Name) {
    forall x :: Refs(r, x) == Refs(s, x) - {(dir, name)}
  }

  /** What gas_create does: a new file with one name, and nothing else. */
  lemma CreateMeans(s: Nodes, dir: nat, name: Name, ino: nat)
    requires Closed(s) && IsFolder(s, dir) && ino !in s && name !in s[dir].names
    ensures var r := Created(s, dir, name, ino);
            && ino in r && r[ino] == File(1) && Refs(r, ino) == {(dir, name)}
            && dir in r && r[dir] == Folder(s[dir].nlink, s[dir].parent, s[dir].names[name := ino])
            && OthersSame(s, r, {ino, dir}) && OneNameMore(s, r, dir, name, ino)
  {
    RefsAreLive(s, ino);
    forall x ensures Refs(Created(s, dir, name, ino), x) == Refs(s, x) + if x == ino then {(dir, name)} else {} {
      RefsBeside(s, ino, File(1), x);
      RefsLinked(s[ino := File(1)], dir, name, ino, x);
    }
  }

  /** Inode `i` is as it was, as far as its counts and its name go. */
  ghost predicate Spared(s: Nodes, r: Nodes, i: nat) {
    && i in s && i in r && r[i].nlink == s[i].nlink && Refs(r, i) == Refs(s, i)
    && (r[i].Folder? <==> s[i].Folder?)
    && (s[i].Folder? ==>
          && r[i].parent == s[i].parent && |Subfolders(r, i)| == |Subfolders(s, i)|
          && (s[i].nlink == 0 ==> r[i].names == s[i].names))
  }

  lemma SparedCounts(s: Nodes, r: Nodes, i: nat, depth: map<nat, nat>, later: map<nat, nat>)
    requires Spared(s, r, i) && Counts(s, i, depth) && Deeper(s, depth, later)
    requires s[i].Folder? && i != ROOT && Live(s, i) ==> IsFolder(r, s[i].parent) && Live(r, s[i].parent)
    ensures Counts(r, i, later)
  {
  }

  /** `later` says of the inodes of `s` what `depth` does. */
  ghost predicate Deeper(s: Nodes, depth: map<nat, nat>, later: map<nat, nat>) {
    forall i :: i in s && i in depth ==> i in later && later[i] == depth[i]
  }

  lemma FoldersStay(s: Nodes, r: Nodes, depth: map<nat, nat>, later: map<nat, nat>)
    requires Inv(s, depth) && Deeper(s, depth, later)
    requires forall d :: IsFolder(s, d) && Live(s, d) ==> IsFolder(r, d) && Live(r, d)
    ensures forall i :: i in s && Spared(s, r, i) ==> Counts(r, i, later)
  {
    forall i | i in s && Spared(s, r, i) ensures Counts(r, i, later) {
      assert Counts(s, i, depth);
      SparedCounts(s, r, i, depth, later);
    }
  }

  lemma LinkedClosed(s: Nodes, dir: nat, name: Name, i: nat)
    requires Closed(s) && IsFolder(s, dir) && Live(s, i)
    ensures Closed(Linked(s, dir, name, i))
  {
    var r := Linked(s, dir, name, i);
    forall d, x | IsFolder(r, d) && x in r[d].names ensures Live(r, r[d].names[x]) {
      if d != dir || x != name {
        assert Live(s, s[d].names[x]);
      }
    }
  }

  lemma CreateSpares(s: Nodes, dir: nat, name: Name, ino: nat, i: nat)
    requires Closed(s) && IsFolder(s, dir) && name !in s[dir].names && ino !in s && i in s && Live(s, dir)
    ensures Spared(s, Created(s, dir, name, ino), i)
  {
    var p := s[ino := File(1)];
    RefsBeside(s, ino, File(1), i);
    RefsLinked(p, dir, name, ino, i);
    if IsFolder(s, i) {
      SubsBeside(s, ino, File(1), i);
      SubsLinked(p, dir, name, ino, i);
    }
  }

  lemma CreateKeeps(s: Nodes, depth: map<nat, nat>, dir: nat, name: Name, ino: nat)
    requires Inv(s, depth) && IsFolder(s, dir) && Live(s, dir) && name !in s[dir].names && ino !in s
    ensures Inv(Created(s, dir, name, ino), depth)
  {
    var p := s[ino := File(1)];
    var r := Created(s, dir, name, ino);
    RefsAreLive(s, ino);
    FoldersStay(s, r, depth, depth);
    assert Closed(p);
    LinkedClosed(p, dir, name, ino);
    RefsBeside(s, ino, File(1), ino);
    RefsLinked(p, dir, name, ino, ino);
    forall i | i in r ensures Counts(r, i, depth) {
      if i != ino {
        CreateSpares(s, dir, name, ino, i);
      }
    }
  }

  /** A call whose gas_add_link fails drops its reference and nothing else: the new inode
      keeps a count of 1 without a name. */
  lemma FailedCreateLeaks(s: Nodes, depth: map<nat, nat>, ino: nat, later: map<nat, nat>)
    requires Inv(s, depth) && ino !in s
    ensures !Inv(s[ino := File(1)], later)
  {
    var r := s[ino := File(1)];
    RefsAreLive(s, ino);
    RefsBeside(s, ino, File(1), ino);
    assert !Counts(r, ino, later);
  }

  ghost function HardLinked(s: Nodes, i: nat, dir: nat, name: Name): Nodes
    requires IsFolder(s, dir) && i in s && s[i].File?
  {
    Linked(Recount(s, i, s[i].nlink + 1), dir, name, i)
  }

  lemma RecountClosed(s: Nodes, i: nat, k: nat)
    requires Closed(s) && i in s && (k != 0 || Refs(s, i) == {})
    ensures Closed(Recount(s, i, k))
  {
    var r := Recount(s, i, k);
    forall d, x | IsFolder(r, d) && x in r[d].names ensures Live(r, r[d].names[x]) {
      assert Live(s, s[d].names[x]);
      assert s[d].names[x] == i ==> (d, x) in Refs(s, i);
    }
  }

  /** Refs of all inodes, and subdirectories, after a hard link. */
  lemma LinkNames(s: Nodes, i: nat, dir: nat, name: Name, x: nat)
    requires IsFolder(s, dir) && name !in s[dir].names && i in s && s[i].File?
    ensures var r := HardLinked(s, i, dir, name);
            && Refs(r, x) == Refs(s, x) + (if x == i then {(dir, name)} else {})
            && (IsFolder(s, x) ==> IsFolder(r, x) && Subfolders(r, x) == Subfolders(s, x))
  {
    var k := s[i].nlink + 1;
    RefsRecount(s, i, k, x);
    RefsLinked(Recount(s, i, k), dir, name, i, x);
    if IsFolder(s, x) {
      SubsRecount(s, i, k, x);
      SubsLinked(Recount(s, i, k), dir, name, i, x);
    }
  }

  /** What gas_link does: one more name and one more in the count. */
  lemma LinkMeans(s: Nodes, i: nat, dir: nat, name: Name)
    requires IsFolder(s, dir) && name !in s[dir].names && i in s && s[i].File?
    ensures var r := HardLinked(s, i, dir, name);
            && i in r && r[i] == File(s[i].nlink + 1)
            && dir in r && r[dir] == Folder(s[dir].nlink, s[dir].parent, s[dir].names[name := i])
            && OthersSame(s, r, {i, dir}) && OneNameMore(s, r, dir, name, i)
  {
    forall x ensures Refs(HardLinked(s, i, dir, name), x) == Refs(s, x) + if x == i then {(dir, name)} else {} {
      LinkNames(s, i, dir, name, x);
    }
  }

  lemma LinkSpares(s: Nodes, i: nat, dir: nat, name: Name, x: nat)
    requires IsFolder(s, dir) && Live(s, dir) && name !in s[dir].names && i in s && s[i].File? && x in s && x != i
    ensures Spared(s, HardLinked(s, i, dir, name), x)
  {
    LinkNames(s, i, dir, name, x);
  }

  lemma LinkCounts(s: Nodes, depth: map<nat, nat>, i: nat, dir: nat, name: Name)
    requires Inv(s, depth) && IsFolder(s, dir) && name !in s[dir].names && i in s && s[i].File?
    ensures Counts(HardLinked(s, i, dir, name), i, depth)
  {
    assert Counts(s, i, depth);
    LinkNames(s, i, dir, name, i);
  }

  lemma LinkKeeps(s: Nodes, depth: map<nat, nat>, i: nat, dir: nat, name: Name)
    requires Inv(s, depth) && IsFolder(s, dir) && Live(s, dir) && name !in s[dir].names
    requires Live(s, i) && s[i].File?
    ensures Inv(HardLinked(s, i, dir, name), depth)
  {
    RecountClosed(s, i, s[i].nlink + 1);
    LinkedClosed(Recount(s, i, s[i].nlink + 1), dir, name, i);
    var r := HardLinked(s, i, dir, name);
    FoldersStay(s, r, depth, depth);
    forall x | x in r ensures Counts(r, x, depth) {
      if x == i {
        LinkCounts(s, depth, i, dir, name);
      } else {
        LinkSpares(s, i, dir, name, x);
      }
    }
  }

  lemma FailedLinkLeaks(s: Nodes, depth: map<nat, nat>, i: nat, later: map<nat, nat>)
    requires Inv(s, depth) && i in s && s[i].File?
    ensures !Inv(Recount(s, i, s[i].nlink + 1), later)
  {
    RefsRecount(s, i, s[i].nlink + 1, i);
    assert Counts(s, i, depth) && !Counts(Recount(s, i, s[i].nlink + 1), i, later);
  }

  // unlink

  ghost function Removed(s: Nodes, dir: nat, name: Name): Nodes
    requires IsFolder(s, dir) && name in s[dir].names && Live(s, s[dir].names[name]) && s[s[dir].names[name]].File?
  {
    var i := s[dir].names[name];
    Recount(Unlinked(s, dir, name), i, s[i].nlink - 1)
  }

  lemma UnlinkedClosed(s: Nodes, dir: nat, name: Name)
    requires Closed(s) && IsFolder(s, dir)
    ensures Closed(Unlinked(s, dir, name))
  {
    var r := Unlinked(s, dir, name);
    forall d, x | IsFolder(r, d) && x in r[d].names ensures Live(r, r[d].names[x]) {
      assert Live(s, s[d].names[x]);
    }
  }

  lemma UnlinkNames(s: Nodes, dir: nat, name: Name, x: nat)
    requires IsFolder(s, dir) && name in s[dir].names && Live(s, s[dir].names[name]) && s[s[dir].names[name]].File?
    ensures var r := Removed(s, dir, name);
            && Refs(r, x) == Refs(s, x) - {(dir, name)}
            && (IsFolder(s, x) ==> IsFolder(r, x) && Subfolders(r, x) == Subfolders(s, x))
  {
    var i, q := s[dir].names[name], Unlinked(s, dir, name);
    RefsUnlinked(s, dir, name, x);
    RefsRecount(q, i, s[i].nlink - 1, x);
    if IsFolder(s, x) {
      SubsUnlinked(s, dir, name, x);
      SubsRecount(q, i, s[i].nlink - 1, x);
    }
  }

  /** What gas_unlink does: one name less and one less in the count. */
  lemma UnlinkMeans(s: Nodes, dir: nat, name: Name)
    requires IsFolder(s, dir) && name in s[dir].names && Live(s, s[dir].names[name]) && s[s[dir].names[name]].File?
    ensures var r, i := Removed(s, dir, name), s[dir].names[name];
            && i in r && r[i] == File(s[i].nlink - 1)
            && dir in r && r[dir] == Folder(s[dir].nlink, s[dir].parent, s[dir].names - {name})
            && OthersSame(s, r, {i, dir}) && OneNameLess(s, r, dir, name)
  {
    forall x ensures Refs(Removed(s, dir, name), x) == Refs(s, x) - {(dir, name)} {
      UnlinkNames(s, dir, name, x);
    }
  }

  lemma UnlinkSpares(s: Nodes, dir: nat, name: Name, x: nat)
    requires IsFolder(s, dir) && Live(s, dir) && name in s[dir].names && Live(s, s[dir].names[name]) && s[s[dir].names[name]].File?
    requires x in s && x != s[dir].names[name]
    ensures Spared(s, Removed(s, dir, name), x)
  {
    UnlinkNames(s, dir, name, x);
    assert (dir, name) !in Refs(s, x);
  }

  lemma UnlinkCounts(s: Nodes, depth: map<nat, nat>, dir: nat, name: Name)
    requires Inv(s, depth) && IsFolder(s, dir) && name in s[dir].names && Live(s, s[dir].names[name]) && s[s[dir].names[name]].File?
    ensures Counts(Removed(s, dir, name), s[dir].names[name], depth) && Closed(Removed(s, dir, name))
  {
    var i, q := s[dir].names[name], Unlinked(s, dir, name);
    assert Counts(s, i, depth);
    assert (dir, name) in Refs(s, i);
    UnlinkNames(s, dir, name, i);
    RefsUnlinked(s, dir, name, i);
    UnlinkedClosed(s, dir, name);
    RecountClosed(q, i, s[i].nlink - 1);
  }

  lemma UnlinkKeeps(s: Nodes, depth: map<nat, nat>, dir: nat, name: Name)
    requires Inv(s, depth) && IsFolder(s, dir) && Live(s, dir) && name in s[dir].names
    requires Live(s, s[dir].names[name]) && s[s[dir].names[name]].File?
    ensures Inv(Removed(s, dir, name), depth)
  {
    var i, r := s[dir].names[name], Removed(s, dir, name);
    UnlinkCounts(s, depth, dir, name);
    FoldersStay(s, r, depth, depth);
    forall x | x in r && x != i ensures Counts(r, x, depth) {
      UnlinkSpares(s, dir, name, x);
    }
  }

  // mkdir and rmdir

  ghost function NewFolder(s: Nodes, dir: nat, name: Name, ino: nat): Nodes
    requires IsFolder(s, dir) && ino !in s
  {
    Linked(Recount(s, dir, s[dir].nlink + 1)[ino := Folder(2, dir, map[])], dir, name, ino)
  }

  /** Everything but the parent and the new directory is as it was. */
  lemma NewFolderNames(s: Nodes, dir: nat, name: Name, ino: nat, x: nat)
    requires Closed(s) && IsFolder(s, dir) && Live(s, dir) && name !in s[dir].names && ino !in s
    ensures var r := NewFolder(s, dir, name, ino);
            && Refs(r, x) == Refs(s, x) + (if x == ino then {(dir, name)} else {})
            && (IsFolder(s, x) ==> IsFolder(r, x) && Subfolders(r, x) == Subfolders(s, x) + if x == dir then {name} else {})
  {
    var k := s[dir].nlink + 1;
    var n := Folder(2, dir, map[]);
    var p := Recount(s, dir, k);
    RecountClosed(s, dir, k);
    RefsRecount(s, dir, k, x);
    RefsBeside(p, ino, n, x);
    RefsLinked(p[ino := n], dir, name, ino, x);
    if IsFolder(s, x) {
      SubsRecount(s, dir, k, x);
      SubsBeside(p, ino, n, x);
      SubsLinked(p[ino := n], dir, name, ino, x);
    }
  }

  /** What gas_mkdir does: an empty directory with two links, one name, and one more in
      the count of its parent. */
  lemma MkdirMeans(s: Nodes, dir: nat, name: Name, ino: nat)
    requires Closed(s) && IsFolder(s, dir) && Live(s, dir) && name !in s[dir].names && ino !in s
    ensures var r := NewFolder(s, dir, name, ino);
            && ino in r && r[ino] == Folder(2, dir, map[]) && Refs(r, ino) == {(dir, name)}
            && dir in r && r[dir] == Folder(s[dir].nlink + 1, s[dir].parent, s[dir].names[name := ino])
            && OthersSame(s, r, {ino, dir}) && OneNameMore(s, r, dir, name, ino)
  {
    RefsAreLive(s, ino);
    forall x ensures Refs(NewFolder(s, dir, name, ino), x) == Refs(s, x) + if x == ino then {(dir, name)} else {} {
      NewFolderNames(s, dir, name, ino, x);
    }
  }

  lemma NewFolderClosed(s: Nodes, dir: nat, name: Name, ino: nat)
    requires Closed(s) && IsFolder(s, dir) && ino !in s
    ensures Closed(NewFolder(s, dir, name, ino))
  {
    var p := Recount(s, dir, s[dir].nlink + 1);
    RecountClosed(s, dir, s[dir].nlink + 1);
    var q := p[ino := Folder(2, dir, map[])];
    forall d: nat, x | IsFolder(q, d) && x in q[d].names ensures Live(q, q[d].names[x]) {
      assert Live(p, p[d].names[x]);
    }
    LinkedClosed(q, dir, name, ino);
  }

  lemma NewFolderCounts(s: Nodes, depth: map<nat, nat>, dir: nat, name: Name, ino: nat, x: nat)
    requires Inv(s, depth) && IsFolder(s, dir) && Live(s, dir) && name !in s[dir].names && ino !in s
    requires dir in depth && (x == ino || x == dir)
    ensures x in NewFolder(s, dir, name, ino) && Counts(NewFolder(s, dir, name, ino), x, depth[ino := depth[dir] + 1])
  {
    assert Counts(s, dir, depth);
    RefsAreLive(s, ino);
    NewFolderNames(s, dir, name, ino, x);
    if x == ino {
      assert Subfolders(NewFolder(s, dir, name, ino), ino) == {};
    }
  }

  lemma NewFolderSpares(s: Nodes, dir: nat, name: Name, ino: nat, x: nat)
    requires Closed(s) && IsFolder(s, dir) && Live(s, dir) && name !in s[dir].names && ino !in s
    requires x in s && x != dir
    ensures Spared(s, NewFolder(s, dir, name, ino), x)
  {
    NewFolderNames(s, dir, name, ino, x);
  }

  lemma MkdirKeeps(s: Nodes, depth: map<nat, nat>, dir: nat, name: Name, ino: nat)
    requires Inv(s, depth) && IsFolder(s, dir) && Live(s, dir) && name !in s[dir].names && ino !in s
    ensures dir in depth && Inv(NewFolder(s, dir, name, ino), depth[ino := depth[dir] + 1])
  {
    assert Counts(s, dir, depth);
    var r, later := NewFolder(s, dir, name, ino), depth[ino := depth[dir] + 1];
    NewFolderClosed(s, dir, name, ino);
    FoldersStay(s, r, depth, later);
    forall x | x in r ensures Counts(r, x, later) {
      if x == ino || x == dir {
        NewFolderCounts(s, depth, dir, name, ino, x);
      } else {
        NewFolderSpares(s, dir, name, ino, x);
      }
    }
  }

  ghost function FolderGone(s: Nodes, dir: nat, name: Name): Nodes
    requires IsFolder(s, dir) && name in s[dir].names && IsFolder(s, s[dir].names[name]) && Live(s, dir)
  {
    var i, q := s[dir].names[name], Recount(Unlinked(s, dir, name), dir, s[dir].nlink - 1);
    Recount(q, i, if s[i].nlink < 2 then 0 else s[i].nlink - 2)
  }

  lemma FolderGoneNames(s: Nodes, dir: nat, name: Name, x: nat)
    requires IsFolder(s, dir) && name in s[dir].names && IsFolder(s, s[dir].names[name]) && Live(s, dir)
    ensures var r := FolderGone(s, dir, name);
            && Refs(r, x) == Refs(s, x) - {(dir, name)}
            && (IsFolder(s, x) ==> IsFolder(r, x) && Subfolders(r, x) == Subfolders(s, x) - if x == dir then {name} else {})
  {
    var i, u := s[dir].names[name], Unlinked(s, dir, name);
    var k := if s[i].nlink < 2 then 0 else s[i].nlink - 2;
    var q := Recount(u, dir, s[dir].nlink - 1);
    RefsUnlinked(s, dir, name, x);
    RefsRecount(u, dir, s[dir].nlink - 1, x);
    RefsRecount(q, i, k, x);
    if IsFolder(s, x) {
      SubsUnlinked(s, dir, name, x);
      SubsRecount(u, dir, s[dir].nlink - 1, x);
      SubsRecount(q, i, k, x);
    }
  }

  /** What gas_rmdir does to a directory with the two links of an empty one: no links and
      no name are left, and the count of the parent is one less. */
  lemma RmdirMeans(s: Nodes, dir: nat, name: Name)
    requires IsFolder(s, dir) && name in s[dir].names && IsFolder(s, s[dir].names[name]) && Live(s, dir)
    requires s[dir].names[name] != dir && s[s[dir].names[name]].nlink == 2
    ensures var r, i := FolderGone(s, dir, name), s[dir].names[name];
            && i in r && r[i] == Folder(0, s[i].parent, s[i].names)
            && dir in r && r[dir] == Folder(s[dir].nlink - 1, s[dir].parent, s[dir].names - {name})
            && OthersSame(s, r, {i, dir}) && OneNameLess(s, r, dir, name)
  {
    forall x ensures Refs(FolderGone(s, dir, name), x) == Refs(s, x) - {(dir, name)} {
      FolderGoneNames(s, dir, name, x);
    }
  }

  /** The directory that `name` leads to lies below `dir`, and nothing lies in it. */
  lemma BelowParent(s: Nodes, depth: map<nat, nat>, dir: nat, name: Name)
    requires Inv(s, depth) && IsFolder(s, dir) && Live(s, dir) && name in s[dir].names
    requires IsFolder(s, s[dir].names[name]) && s[s[dir].names[name]].names == map[]
    ensures var i := s[dir].names[name];
            && i != ROOT && i != dir && Live(s, i) && s[i].nlink == 2 && s[i].parent == dir && Refs(s, i) == {(dir, name)}
            && forall d :: IsFolder(s, d) && Live(s, d) && d != ROOT ==> s[d].parent != i
  {
    var i := s[dir].names[name];
    assert Live(s, s[dir].names[name]);
    assert Counts(s, i, depth);
    assert (dir, name) in Refs(s, i);
    assert Subfolders(s, i) == {};
    forall d | IsFolder(s, d) && Live(s, d) && d != ROOT ensures s[d].parent != i {
      assert Counts(s, d, depth);
      var x :| Refs(s, d) == {(s[d].parent, x)};
      assert (s[d].parent, x) in Refs(s, d);
    }
  }

  lemma FolderGoneClosed(s: Nodes, depth: map<nat, nat>, dir: nat, name: Name)
    requires Inv(s, depth) && IsFolder(s, dir) && Live(s, dir) && name in s[dir].names
    requires IsFolder(s, s[dir].names[name]) && s[s[dir].names[name]].names == map[]
    ensures Closed(FolderGone(s, dir, name))
  {
    var i, r := s[dir].names[name], FolderGone(s, dir, name);
    BelowParent(s, depth, dir, name);
    assert Counts(s, dir, depth);
    assert name in Subfolders(s, dir);
    forall d, x | IsFolder(r, d) && x in r[d].names ensures Live(r, r[d].names[x]) {
      assert Live(s, s[d].names[x]);
      assert s[d].names[x] == i ==> (d, x) in Refs(s, i);
    }
  }

  lemma FolderGoneSpares(s: Nodes, dir: nat, name: Name, x: nat)
    requires IsFolder(s, dir) && Live(s, dir) && name in s[dir].names && IsFolder(s, s[dir].names[name])
    requires x in s && x != dir && x != s[dir].names[name]
    ensures Spared(s, FolderGone(s, dir, name), x)
  {
    FolderGoneNames(s, dir, name, x);
    assert (dir, name) !in Refs(s, x);
  }

  lemma FolderGoneCounts(s: Nodes, depth: map<nat, nat>, dir: nat, name: Name, x: nat)
    requires Inv(s, depth) && IsFolder(s, dir) && Live(s, dir) && name in s[dir].names
    requires IsFolder(s, s[dir].names[name]) && s[s[dir].names[name]].names == map[]
    requires x == dir || x == s[dir].names[name]
    ensures Counts(FolderGone(s, dir, name), x, depth)
  {
    BelowParent(s, depth, dir, name);
    assert Counts(s, x, depth);
    assert name in Subfolders(s, dir);
    FolderGoneNames(s, dir, name, x);
    if x == dir {
      BelowParentUp(s, depth, dir, s[dir].names[name]);
    }
  }

  /** A directory is not below one that lies in it. */
  lemma BelowParentUp(s: Nodes, depth: map<nat, nat>, dir: nat, i: nat)
    requires Inv(s, depth) && IsFolder(s, dir) && Live(s, dir) && IsFolder(s, i) && Live(s, i) && i != ROOT && s[i].parent == dir
    ensures dir != ROOT ==> s[dir].parent != i && s[dir].parent != dir
  {
    assert Counts(s, dir, depth) && Counts(s, i, depth);
  }

  /** The directory that loses a subdirectory is still there. */
  lemma DirStays(s: Nodes, depth: map<nat, nat>, dir: nat, name: Name)
    requires Inv(s, depth) && IsFolder(s, dir) && Live(s, dir) && name in s[dir].names
    requires IsFolder(s, s[dir].names[name]) && s[s[dir].names[name]].names == map[]
    ensures var r := FolderGone(s, dir, name);
            forall x :: IsFolder(s, x) && Live(s, x) && x != s[dir].names[name] ==> IsFolder(r, x) && Live(r, x) && r[x].parent == s[x].parent
  {
    BelowParent(s, depth, dir, name);
    assert Counts(s, dir, depth);
    assert name in Subfolders(s, dir);
  }

  lemma RmdirCounts(s: Nodes, depth: map<nat, nat>, dir: nat, name: Name, x: nat)
    requires Inv(s, depth) && IsFolder(s, dir) && Live(s, dir) && name in s[dir].names
    requires IsFolder(s, s[dir].names[name]) && s[s[dir].names[name]].names == map[]
    requires x in s
    ensures Counts(FolderGone(s, dir, name), x, depth)
  {
    if x == s[dir].names[name] || x == dir {
      FolderGoneCounts(s, depth, dir, name, x);
    } else {
      BelowParent(s, depth, dir, name);
      DirStays(s, depth, dir, name);
      assert Counts(s, x, depth);
      FolderGoneSpares(s, dir, name, x);
      SparedCounts(s, FolderGone(s, dir, name), x, depth, depth);
    }
  }

  lemma RmdirKeeps(s: Nodes, depth: map<nat, nat>, dir: nat, name: Name)
    requires Inv(s, depth) && IsFolder(s, dir) && Live(s, dir) && name in s[dir].names
    requires IsFolder(s, s[dir].names[name]) && s[s[dir].names[name]].names == map[]
    ensures Inv(FolderGone(s, dir, name), depth)
  {
    BelowParent(s, depth, dir, name);
    FolderGoneClosed(s, depth, dir, name);
    DirStays(s, depth, dir, name);
    forall x | x in FolderGone(s, dir, name) ensures Counts(FolderGone(s, dir, name), x, depth) {
      RmdirCounts(s, depth, dir, name, x);
    }
  }

  // Inodes without a name go when the last user is gone

  lemma EvictKeeps(s: Nodes, depth: map<nat, nat>, i: nat)
    requires Inv(s, depth) && i in s && s[i].nlink == 0
    ensures Inv(s - {i}, depth)
  {
    var r := s - {i};
    assert Counts(s, i, depth);
    assert Refs(s, i) == {};
    forall d, x | IsFolder(r, d) && x in r[d].names ensures Live(r, r[d].names[x]) {
      assert Live(s, s[d].names[x]);
    }
    forall x | x in r ensures Counts(r, x, depth) {
      assert Counts(s, x, depth);
      EvictSpares(s, i, x);
      SparedCounts(s, r, x, depth, depth);
    }
  }

  lemma EvictSpares(s: Nodes, i: nat, x: nat)
    requires Closed(s) && i in s && s[i].nlink == 0 && (s[i].Folder? ==> s[i].names == map[]) && x in s && x != i
    ensures Spared(s, s - {i}, x)
  {
    var r := s - {i};
    assert Refs(r, x) == Refs(s, x);
    if IsFolder(s, x) {
      forall name | name in s[x].names ensures IsFolder(r, s[x].names[name]) <==> IsFolder(s, s[x].names[name]) {
        assert Live(s, s[x].names[name]);
      }
      assert Subfolders(r, x) == Subfolders(s, x);
    }
  }

  // Calls, step by step

  datatype Outcome = Done | NoSpace | NotEmpty | NoEntry

  class Namespace {
    var nodes: Nodes

    /** As the formatter leaves it: the root alone. */
    constructor ()
      ensures nodes == NewNodes()
    {
      nodes := NewNodes();
    }

    method Count(i: nat, delta: int)
      requires i in nodes && 0 <= nodes[i].nlink + delta
      modifies this
      ensures nodes == Recount(old(nodes), i, old(nodes)[i].nlink + delta)
    {
      nodes := nodes[i := Counted(nodes[i], nodes[i].nlink + delta)];
    }

    /** gas_create; `ino` is what gas_new_inode finds, 0 for nothing, and `room` is
        whether gas_add_link succeeds. */
    method Create(dir: nat, name: Name, ino: nat, room: bool) returns (err: Outcome)
      requires IsFolder(nodes, dir) && ino !in nodes
      modifies this
      ensures err == if ino != 0 && room then Done else NoSpace
      ensures nodes == if ino == 0 then old(nodes) else if room then Created(old(nodes), dir, name, ino) else old(nodes)[ino := File(1)]
    {
      if ino == 0 {
        return NoSpace;
      }
      nodes := nodes[ino := File(1)];
      err := AddNondir(dir, name, ino, room);
    }

    /** add_nondir; without room it only drops the reference. */
    method AddNondir(dir: nat, name: Name, i: nat, room: bool) returns (err: Outcome)
      requires IsFolder(nodes, dir)
      modifies this
      ensures err == if room then Done else NoSpace
      ensures nodes == if room then Linked(old(nodes), dir, name, i) else old(nodes)
    {
      if !room {
        return NoSpace;
      }
      nodes := Linked(nodes, dir, name, i);
      return Done;
    }

    /** gas_link. */
    method Link(i: nat, dir: nat, name: Name, room: bool) returns (err: Outcome)
      requires IsFolder(nodes, dir) && i in nodes && nodes[i].File?
      modifies this
      ensures err == if room then Done else NoSpace
      ensures nodes == if room then HardLinked(old(nodes), i, dir, name) else old(nodes)[i := File(old(nodes)[i].nlink + 1)]
    {
      Count(i, 1);
      err := AddNondir(dir, name, i, room);
    }

    /** gas_unlink, of the inode that the name leads to. */
    method Unlink(dir: nat, name: Name, i: nat, room: bool) returns (err: Outcome)
      requires IsFolder(nodes, dir) && Live(nodes, i) && (name in nodes[dir].names ==> nodes[dir].names[name] == i)
      modifies this
      ensures err == if name !in old(nodes)[dir].names then NoEntry else if room then Done else NoSpace
      ensures nodes == if err == Done then Recount(Unlinked(old(nodes), dir, name), i, old(nodes)[i].nlink - 1) else old(nodes)
    {
      if name !in nodes[dir].names {
        return NoEntry;
      }
      if !room {
        return NoSpace;
      }
      nodes := Unlinked(nodes, dir, name);
      Count(i, -1);
      return Done;
    }

    /** gas_mkdir; `empty` and `room` are whether gas_make_empty and gas_add_link succeed.
        A call that fails leaves everything as it was. */
    method Mkdir(dir: nat, name: Name, ino: nat, empty: bool, room: bool) returns (err: Outcome)
      requires IsFolder(nodes, dir) && ino !in nodes && name !in nodes[dir].names
      modifies this
      ensures err == if ino != 0 && empty && room then Done else NoSpace
      ensures nodes == if err == Done then NewFolder(old(nodes), dir, name, ino) else old(nodes)
    {
      Count(dir, 1);
      if ino == 0 {
        Count(dir, -1);
        return NoSpace;
      }
      nodes := nodes[ino := Folder(1, dir, map[])];
      Count(ino, 1);
      if empty && room {
        nodes := Linked(nodes, dir, name, ino);
        return Done;
      }
      Count(ino, -1);
      Count(ino, -1);
      Evict(ino);
      Count(dir, -1);
      return NoSpace;
    }

    /** gas_rmdir. */
    method Rmdir(dir: nat, name: Name, i: nat, room: bool) returns (err: Outcome)
      requires IsFolder(nodes, dir) && Live(nodes, dir) && IsFolder(nodes, i) && i != dir && 2 <= nodes[i].nlink
      requires name in nodes[dir].names ==> nodes[dir].names[name] == i
      modifies this
      ensures err == if old(nodes)[i].names != map[] then NotEmpty
                     else if name !in old(nodes)[dir].names then NoEntry
                     else if room then Done
                     else NoSpace
      ensures err == Done ==> nodes == FolderGone(old(nodes), dir, name)
      ensures err == Done ==> nodes[dir].names == old(nodes)[dir].names - {name} && nodes[dir].nlink + 1 == old(nodes)[dir].nlink
                              && nodes[i].nlink + 2 == old(nodes)[i].nlink && OthersSame(old(nodes), nodes, {dir, i})
      ensures err != Done ==> nodes == old(nodes)
    {
      if nodes[i].names != map[] {
        return NotEmpty;
      }
      err := Unlink(dir, name, i, room);
      if err == Done {
        Count(dir, -1);
        Count(i, -1);
      }
    }

    /** The last use of an inode without a name ends (gas_evict_inode). */
    method Evict(i: nat)
      requires i in nodes && nodes[i].nlink == 0
      modifies this
      ensures nodes == old(nodes) - {i}
    {
      nodes := nodes - {i};
    }
  }

  function NewNodes(): Nodes {
    map[ROOT := Folder(2, ROOT, map[])]
  }

  // Runs

  datatype Call =
    | CallCreate(dir: nat, name: Name, ino: nat)
    | CallLink(dir: nat, name: Name, ino: nat)
    | CallUnlink(dir: nat, name: Name)
    | CallMkdir(dir: nat, name: Name, ino: nat)
    | CallRmdir(dir: nat, name: Name)
    | CallEvict(ino: nat)

  /** What the kernel sees to before it calls, and the new inode number is a free one. */
  ghost predicate Allowed(s: Nodes, c: Call) {
    match c
    case CallCreate(dir, name, ino) => MayAdd(s, dir, name) && ino !in s
    case CallLink(dir, name, ino) => MayAdd(s, dir, name) && Live(s, ino) && s[ino].File?
    case CallUnlink(dir, name) => MayRemove(s, dir, name) && Live(s, s[dir].names[name]) && s[s[dir].names[name]].File?
    case CallMkdir(dir, name, ino) => MayAdd(s, dir, name) && ino !in s
    case CallRmdir(dir, name) => MayRemove(s, dir, name) && IsFolder(s, s[dir].names[name])
    case CallEvict(ino) => ino in s && s[ino].nlink == 0
  }

  ghost predicate MayAdd(s: Nodes, dir: nat, name: Name) {
    IsFolder(s, dir) && Live(s, dir) && name !in s[dir].names
  }

  ghost predicate MayRemove(s: Nodes, dir: nat, name: Name) {
    IsFolder(s, dir) && Live(s, dir) && name in s[dir].names
  }

  ghost function After(s: Nodes, c: Call): Nodes
    requires Allowed(s, c)
  {
    match c
    case CallCreate(dir, name, ino) => Created(s, dir, name, ino)
    case CallLink(dir, name, ino) => HardLinked(s, ino, dir, name)
    case CallUnlink(dir, name) => Removed(s, dir, name)
    case CallMkdir(dir, name, ino) => NewFolder(s, dir, name, ino)
    case CallRmdir(dir, name) => if s[s[dir].names[name]].names == map[] then FolderGone(s, dir, name) else s
    case CallEvict(ino) => s - {ino}
  }

  /** What a call does, said of every inode and every name. */
  ghost predicate Effect(s: Nodes, r: Nodes, c: Call) {
    match c
    case CallCreate(dir, name, ino) =>
      && ino in r && r[ino] == File(1) && IsFolder(r, dir) && IsFolder(s, dir) && r[dir].names == s[dir].names[name := ino]
      && OthersSame(s, r, {ino, dir}) && OneNameMore(s, r, dir, name, ino)
    case CallLink(dir, name, ino) =>
      && ino in s && ino in r && r[ino] == File(s[ino].nlink + 1) && OthersSame(s, r, {ino, dir}) && OneNameMore(s, r, dir, name, ino)
    case CallUnlink(dir, name) =>
      && IsFolder(s, dir) && name in s[dir].names
      && var ino := s[dir].names[name];
         && ino in s && ino in r && r[ino].nlink + 1 == s[ino].nlink && OthersSame(s, r, {ino, dir}) && OneNameLess(s, r, dir, name)
    case CallMkdir(dir, name, ino) =>
      && ino in r && r[ino] == Folder(2, dir, map[]) && IsFolder(s, dir) && IsFolder(r, dir) && r[dir].nlink == s[dir].nlink + 1
      && OthersSame(s, r, {ino, dir}) && OneNameMore(s, r, dir, name, ino)
    case CallRmdir(dir, name) =>
      && IsFolder(s, dir) && name in s[dir].names
      && var ino := s[dir].names[name];
         && IsFolder(s, ino)
         && if s[ino].names != map[] then r == s
            else
              && ino in r && dir in r && r[ino].nlink == 0 && r[dir].nlink + 1 == s[dir].nlink
              && OthersSame(s, r, {ino, dir}) && OneNameLess(s, r, dir, name)
    case CallEvict(ino) => ino !in r && OthersSame(s, r, {ino})
  }

  lemma AfterMeans(s: Nodes, depth: map<nat, nat>, c: Call)
    requires Inv(s, depth) && Allowed(s, c)
    ensures Effect(s, After(s, c), c)
  {
    match c
    case CallCreate(dir, name, ino) => CreateMeans(s, dir, name, ino);
    case CallLink(dir, name, ino) => LinkMeans(s, ino, dir, name);
    case CallUnlink(dir, name) => UnlinkMeans(s, dir, name);
    case CallMkdir(dir, name, ino) => MkdirMeans(s, dir, name, ino);
    case CallRmdir(dir, name) =>
      if s[s[dir].names[name]].names == map[] {
        BelowParent(s, depth, dir, name);
        RmdirMeans(s, dir, name);
      }
    case CallEvict(_) =>
  }

  lemma CallKeeps(s: Nodes, depth: map<nat, nat>, c: Call) returns (later: map<nat, nat>)
    requires Inv(s, depth) && Allowed(s, c)
    ensures Inv(After(s, c), later)
  {
    later := depth;
    match c
    case CallCreate(dir, name, ino) => CreateKeeps(s, depth, dir, name, ino);
    case CallLink(dir, name, ino) => LinkKeeps(s, depth, ino, dir, name);
    case CallUnlink(dir, name) => UnlinkKeeps(s, depth, dir, name);
    case CallMkdir(dir, name, ino) =>
      MkdirKeeps(s, depth, dir, name, ino);
      later := depth[ino := depth[dir] + 1];
    case CallRmdir(dir, name) =>
      if s[s[dir].names[name]].names == map[] {
        RmdirKeeps(s, depth, dir, name);
      }
    case CallEvict(ino) => EvictKeeps(s, depth, ino);
  }

  ghost predicate Run(states: seq<Nodes>, calls: seq<Call>) {
    && |states| == |calls| + 1
    && forall k {:trigger calls[k]} :: 0 <= k < |calls| ==> Allowed(states[k], calls[k]) && states[k + 1] == After(states[k], calls[k])
  }

  /** Over every run from the formatted device the counts are right and the directories
      form a tree. */
  lemma {:induction false} RunKeeps(states: seq<Nodes>, calls: seq<Call>) returns (depth: map<nat, nat>)
    requires Run(states, calls) && states[0] == NewNodes()
    ensures Inv(states[|calls|], depth)
    decreases |calls|
  {
    if calls == [] {
      depth := map[ROOT := 0];
      assert Subfolders(NewNodes(), ROOT) == {};
    } else {
      var k := |calls| - 1;
      assert Run(states[..k + 1], calls[..k]) by {
        assert forall i :: 0 <= i < k ==> calls[..k][i] == calls[i];
      }
      depth := RunKeeps(states[..k + 1], calls[..k]);
      assert states[..k + 1][k] == states[k] && calls[k] in calls;
      depth := CallKeeps(states[k], depth, calls[k]);
    }
  }
}
