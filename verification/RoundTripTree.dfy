/** Restoring a partition's own backup merges its tree into the partition that is restored. */
module RoundTripTree {
  import opened ByteStrings
  import opened PfsTree
  import opened UstarHeader
  import opened Restore
  import opened RoundTripEntry
  import opened RoundTrip
  import opened Walk
  import opened WalkOrder
  import Calendar
  import Modes

  // ----- nodes, before and after -----

  /** What a node of the tree is in a mounted partition. A link is its target; the archive keeps no more of it. */
  function InodeOf(n: Node): Inode
  {
    match n
    case Dir(mode, mtime, _) => DirNode(mode, mtime)
    case File(mode, mtime, data) => FileNode(mode, mtime, data)
    case Link(_, _, target) => LinkNode(target)
  }

  /** The partition holds exactly the tree: at every place below the root, the tree's node or nothing. */
  ghost predicate Holds(fs: Fs, root: Node)
  {
    forall p: Place :: p != [] ==>
      match Find(root, p)
      case None => p !in fs
      case Some(n) => p in fs && fs[p] == InodeOf(n)
  }

  /** What a node is when it has been through the archive: its permission bits and its contents are its own. */
  function RestoredInode(n: Node): Inode
  {
    match n
    case Dir(mode, mtime, _) => DirNode(4096 * Modes.FIO_DIR + Modes.Permissions(mode), StampRead(mtime))
    case File(mode, mtime, data) => FileNode(4096 * Modes.FIO_REG + Modes.Permissions(mode), StampRead(mtime), data)
    case Link(_, _, target) => LinkNode(TargetRead(target))
  }

  /** Sixteen mode bits and a storable time stamp, or a target of at most 100 bytes. */
  predicate Carried(n: Node)
  {
    match n
    case Dir(mode, mtime, _) => mode < 65536 && Calendar.Storable(mtime)
    case File(mode, mtime, _) => mode < 65536 && Calendar.Storable(mtime)
    case Link(_, _, target) => |target| <= 100
  }

  /** These nodes, and no others, come back as they were. */
  lemma CarriedIff(n: Node)
    requires WellFormed(n)
    ensures RestoredInode(n) == InodeOf(n) <==> Carried(n)
  {
    hide Calendar.Storable, Calendar.StampFromField, Calendar.TimeField, AtMost100;
    if n.Link? {
      CStrIsUnique(AtMost100(n.target), AtMost100(n.target));
    } else {
      Calendar.StampRoundTrip(n.mtime);
      KindAndPermissions(n.mode);
    }
  }

  lemma KindAndPermissions(mode: nat)
    ensures 4096 * Modes.Kind(mode) + Modes.Permissions(mode) == mode <==> mode < 65536
  {
  }

  /** An existing node under an entry of the same place, with --overwrite: links stay, entries of links do nothing,
      a file entry does not replace a directory; otherwise the attributes are set and a file's data replaced. */
  function Overwritten(x: Inode, n: Node): Inode
  {
    if n.Link? then x
    else
      match x
      case LinkNode(_) => x
      case DirNode(mode, _) =>
        if n.File? then x else DirNode(4096 * Modes.Kind(mode) + Modes.Permissions(n.mode), StampRead(n.mtime))
      case FileNode(mode, _, data) =>
        FileNode(4096 * Modes.Kind(mode) + Modes.Permissions(n.mode), StampRead(n.mtime), if n.File? then n.data else data)
  }

  /** The second time makes no difference. */
  lemma OverwrittenTwice(x: Inode, n: Node)
    ensures Overwritten(Overwritten(x, n), n) == Overwritten(x, n)
    ensures Overwritten(RestoredInode(n), n) == RestoredInode(n)
  {
    hide StampRead, TargetRead;
    SameKind(n.mode);
    if x.DirNode? || x.FileNode? {
      KindOf(Modes.Kind(x.mode), n.mode);
    }
  }

  lemma SameKind(mode: nat)
    ensures Modes.Kind(4096 * Modes.FIO_DIR + Modes.Permissions(mode)) == Modes.FIO_DIR
    ensures Modes.Kind(4096 * Modes.FIO_REG + Modes.Permissions(mode)) == Modes.FIO_REG
  {
  }

  lemma KindOf(kind: nat, mode: nat)
    requires kind < 16
    ensures Modes.Kind(4096 * kind + Modes.Permissions(mode)) == kind
  {
  }

  // ----- the directories above a new node -----

  lemma PathEndsInName(front: Place, last: Bytes)
    requires ValidPlace(front)
    ensures PathOf(front + [last]) == if front == [] then ROOT + last else PathOf(front) + [SLASH] + last
    ensures front != [] ==> |PathOf(front)| > |ROOT|
  {
    JoinSnoc(front, last);
    JoinHasNoNul(front);
    assert ROOT + (Join(front) + [SLASH] + last) == ROOT + Join(front) + [SLASH] + last;
  }

  ghost predicate ParentsThere(fs: Fs, p: Place)
  {
    forall i :: 0 <= i < |p| ==> IsDir(fs, p[..i])
  }

  /** No file or link stands where a directory above p has to be. */
  ghost predicate NothingInTheWay(fs: Fs, p: Place)
  {
    forall i :: 0 < i < |p| && p[..i] in fs ==> fs[p[..i]].DirNode?
  }

  /** The partition with the missing ones of the directories p[..1] to p[..n] made, from the top down. */
  function WithDirs(fs: Fs, p: Place, n: nat, clock: Stamp): Fs
    requires n <= |p|
  {
    if n == 0 then fs
    else
      var fs := WithDirs(fs, p, n - 1, clock);
      if CanCreate(fs, p[..n]) then fs[p[..n] := DirNode(4096 * Modes.FIO_DIR + 0x1FF, clock)] else fs
  }

  lemma {:induction false} MakeParentsSplit(fs: Fs, a: Bytes, b: Bytes, k: nat, clock: Stamp)
    requires k <= |a|
    ensures MakeParents(fs, a + b, k, clock) == MakeParents(MakeParents(fs, a, k, clock), a + b, |a|, clock)
    decreases |a| - k
  {
    hide Mkdir;
    if k < |a| {
      assert (a + b)[..k] == a[..k];
      MakeParentsSplit(if a[k] == SLASH then Mkdir(fs, a[..k], clock) else fs, a, b, k + 1, clock);
    }
  }

  lemma {:induction false} NoSlashNoDirs(fs: Fs, tmp: Bytes, k: nat, clock: Stamp)
    requires k <= |tmp| && forall i :: k <= i < |tmp| ==> tmp[i] != SLASH
    ensures MakeParents(fs, tmp, k, clock) == fs
    decreases |tmp| - k
  {
    if k < |tmp| {
      NoSlashNoDirs(fs, tmp, k + 1, clock);
    }
  }

  /** The loop over the slashes of a place's path makes the directories above the place, and no others. */
  lemma {:induction false} MakeParentsMakesDirs(fs: Fs, p: Place, clock: Stamp)
    requires ValidPlace(p) && p != []
    ensures MakeParents(fs, PathOf(p), |ROOT|, clock) == WithDirs(fs, p, |p| - 1, clock)
    decreases |p|
  {
    hide PathOf, PlaceOf, MakeParents, WithDirs, Mkdir, Join;
    var n := |p| - 1;
    var front, last := p[..n], p[n];
    assert p == front + [last] && ValidName(last);
    PathEndsInName(front, last);
    if n == 0 {
      NoSlashNoDirs(fs, PathOf(p), |ROOT|, clock);
      NoDirs(fs, p, clock);
    } else {
      var above, tail := PathOf(front), [SLASH] + last;
      assert PathOf(p) == above + tail;
      MakeParentsSplit(fs, above, tail, |ROOT|, clock);
      MakeParentsMakesDirs(fs, front, clock);
      assert (above + tail)[..|above|] == above && (above + tail)[|above| + 1..] == last;
      LastDir(WithDirs(fs, front, n - 1, clock), above + tail, |above|, clock);
      OneMoreDir(fs, p, n, clock);
    }
  }

  lemma NoDirs(fs: Fs, p: Place, clock: Stamp)
    ensures WithDirs(fs, p, 0, clock) == fs
  {
  }

  lemma OneMoreDir(fs: Fs, p: Place, n: nat, clock: Stamp)
    requires 0 < n < |p| && ValidPlace(p)
    ensures Mkdir(WithDirs(fs, p[..n], n - 1, clock), PathOf(p[..n]), clock) == WithDirs(fs, p, n, clock)
  {
    PlaceOfPathOf(p[..n]);
    SameDirs(fs, p, p[..n], n - 1, clock);
    hide PathOf, PlaceOf;
  }

  /** The last slash of a path. */
  lemma LastDir(fs: Fs, path: Bytes, k: nat, clock: Stamp)
    requires k < |path| && path[k] == SLASH && SLASH !in path[k + 1..]
    ensures MakeParents(fs, path, k, clock) == Mkdir(fs, path[..k], clock)
  {
    hide Mkdir;
    forall i | k < i < |path| ensures path[i] != SLASH {
      assert path[i] == path[k + 1..][i - (k + 1)];
    }
    NoSlashNoDirs(Mkdir(fs, path[..k], clock), path, k + 1, clock);
  }

  lemma {:induction false} SameDirs(fs: Fs, p: Place, q: Place, n: nat, clock: Stamp)
    requires q <= p && n <= |q|
    ensures WithDirs(fs, p, n, clock) == WithDirs(fs, q, n, clock)
  {
    if n > 0 {
      SameDirs(fs, p, q, n - 1, clock);
      assert p[..n] == q[..n];
    }
  }

  /** What is made: exactly the missing directories, and nothing that was there changes. */
  lemma {:induction false} WithDirsIs(fs: Fs, p: Place, n: nat, clock: Stamp)
    requires n <= |p| && forall i :: 0 < i <= n && p[..i] in fs ==> fs[p[..i]].DirNode?
    ensures var made := WithDirs(fs, p, n, clock);
      && (forall q :: q in made <==> q in fs || exists i :: 0 < i <= n && p[..i] == q)
      && (forall q :: q in fs ==> made[q] == fs[q])
      && (forall i :: 0 < i <= n && p[..i] !in fs ==> made[p[..i]] == DirNode(4096 * Modes.FIO_DIR + 0x1FF, clock))
      && (forall i :: 0 <= i <= n ==> IsDir(made, p[..i]))
  {
    if n > 0 {
      WithDirsIs(fs, p, n - 1, clock);
      var before := WithDirs(fs, p, n - 1, clock);
      assert p[..n][..n - 1] == p[..n - 1] && IsDir(before, p[..n - 1]);
      forall i | 0 <= i < n ensures p[..i] != p[..n] {
        assert |p[..i]| == i;
      }
    }
  }

  lemma {:induction false} WithDirsKeeps(fs: Fs, p: Place, n: nat, clock: Stamp)
    requires n <= |p|
    ensures forall q :: q in fs ==> q in WithDirs(fs, p, n, clock) && WithDirs(fs, p, n, clock)[q] == fs[q]
  {
    if n > 0 {
      WithDirsKeeps(fs, p, n - 1, clock);
    }
  }

  /** ensure_parent_dirs_exist does what its name says exactly when no file or link is in the way. The paths of
      archive entries, with names of at most 100 bytes, are never clipped. */
  lemma ParentsAreMade(fs: Fs, p: Place, clock: Stamp)
    requires ValidPlace(p) && p != [] && |PathOf(p)| < 256
    ensures |PathOf(p)| > |ROOT| && EnsureParents(fs, PathOf(p), clock) == WithDirs(fs, p, |p| - 1, clock)
    ensures ParentsThere(EnsureParents(fs, PathOf(p), clock), p) <==> NothingInTheWay(fs, p)
  {
    JoinHasNoNul(p);
    MakeParentsMakesDirs(fs, p, clock);
    hide PathOf, WithDirs, MakeParents;
    var made := WithDirs(fs, p, |p| - 1, clock);
    if NothingInTheWay(fs, p) {
      WithDirsIs(fs, p, |p| - 1, clock);
    }
    if ParentsThere(made, p) {
      WithDirsKeeps(fs, p, |p| - 1, clock);
      forall i | 0 < i < |p| && p[..i] in fs ensures fs[p[..i]].DirNode? {
        assert IsDir(made, p[..i]);
      }
    }
  }

  /** A link called "a" above "a/b": the directory is not made. */
  lemma LinkInTheWay(target: Bytes, clock: Stamp)
    ensures var fs: Fs, p: Place := map[[[97]] := LinkNode(target)], [[97], [98]];
      |PathOf(p)| == 9 && !ParentsThere(EnsureParents(fs, PathOf(p), clock), p)
  {
    var fs: Fs, p: Place := map[[[97]] := LinkNode(target)], [[97], [98]];
    assert p[..1] == [[97]] && p[..1] in fs;
    assert Join(p) == Join(p[..1]) + [SLASH] + p[1];
    assert ValidName(p[0]) && ValidName(p[1]);
    hide Join, ParentsThere, EnsureParents, ValidName;
    ParentsAreMade(fs, p, clock);
  }

  /** Nothing is made where all directories are there. */
  lemma {:induction false} NothingMissing(fs: Fs, p: Place, n: nat, clock: Stamp)
    requires n < |p| && ParentsThere(fs, p)
    ensures WithDirs(fs, p, n, clock) == fs
  {
    if n > 0 {
      NothingMissing(fs, p, n - 1, clock);
      assert IsDir(fs, p[..n]);
    }
  }

  /** A file or link above p: nothing is made. */
  ghost predicate Blocked(fs: Fs, p: Place, j: nat)
  {
    && 0 < j < |p| && p[..j] in fs && !fs[p[..j]].DirNode?
    && (forall i :: 0 < i < j ==> p[..i] in fs)
    && (forall i :: j < i <= |p| ==> p[..i] !in fs)
  }

  lemma {:induction false} NothingMade(fs: Fs, p: Place, j: nat, n: nat, clock: Stamp)
    requires Blocked(fs, p, j) && n <= |p|
    ensures WithDirs(fs, p, n, clock) == fs
    ensures n > 0 ==> !CanCreate(fs, p[..n])
  {
    if n > 0 {
      NothingMade(fs, p, j, n - 1, clock);
      assert p[..n][..n - 1] == p[..n - 1];
    }
  }

  // ----- one entry -----

  lemma CreationKinds()
    ensures Modes.Kind(4096 * Modes.FIO_DIR + 0x1FF) == Modes.FIO_DIR
    ensures Modes.Kind(4096 * Modes.FIO_REG + 0x1B6) == Modes.FIO_REG
  {
  }

  /** Setting the attributes of what is at p, if it has any. */
  lemma AttributedAt(fs: Fs, full: Bytes, p: Place, n: Node)
    requires PlaceOf(full) == p
    ensures p !in fs ==> Attributed(fs, full, n) == fs
    ensures p in fs ==> Attributed(fs, full, n) == fs[p :=
      match fs[p]
      case LinkNode(_) => fs[p]
      case DirNode(mode, _) => DirNode(4096 * Modes.Kind(mode) + Modes.Permissions(n.mode), StampRead(n.mtime))
      case FileNode(mode, _, data) => FileNode(4096 * Modes.Kind(mode) + Modes.Permissions(n.mode), StampRead(n.mtime), data)]
  {
    hide PlaceOf, StampRead, Modes.Kind, Modes.Permissions, Modes.ModeFromField, Modes.ModeField;
    Modes.PermissionsSurvive(n.mode);
  }

  /** A new node in a directory that is there. */
  lemma CreatedNew(fs: Fs, p: Place, n: Node, o: Options)
    requires ValidPlace(p) && p != [] && |PathOf(p)| < 256 && p !in fs && NothingInTheWay(fs, p)
    ensures |PathOf(p)| > |ROOT| && Created(fs, PathOf(p), n, o) == WithDirs(fs, p, |p| - 1, o.clock)[p := RestoredInode(n)]
  {
    hide Created, WithDirs, PathOf, PlaceOf, EnsureParents;
    var made := WithDirs(fs, p, |p| - 1, o.clock);
    PlaceOfPathOf(p);
    ParentsAreMade(fs, p, o.clock);
    WithDirsIs(fs, p, |p| - 1, o.clock);
    assert IsDir(made, p[..|p| - 1]) && p !in made;
    CreatedIn(fs, made, PathOf(p), p, n, o);
  }

  lemma CreatedIn(fs: Fs, made: Fs, full: Bytes, p: Place, n: Node, o: Options)
    requires |full| > |ROOT| && PlaceOf(full) == p && EnsureParents(fs, full, o.clock) == made && CanCreate(made, p)
    ensures Created(fs, full, n, o) == made[p := RestoredInode(n)]
  {
    hide PlaceOf, EnsureParents, Attributed, CanCreate, Modes.Kind, Modes.Permissions, StampRead, TargetRead;
    CreationKinds();
    NewIsNotThere(made, p);
    if n.Dir? {
      AttributedAt(Mkdir(made, full, o.clock), full, p, n);
    } else if n.File? {
      var empty := Truncated(made, p, o.clock);
      assert empty[p].data + n.data == n.data;
      AttributedAt(Appended(empty, p, n.data), full, p, n);
    }
  }

  lemma NewIsNotThere(fs: Fs, p: Place)
    ensures CanCreate(fs, p) ==> p !in fs
  {
  }

  /** An entry for a node that is there, in directories that are there. */
  lemma CreatedOver(fs: Fs, p: Place, n: Node, o: Options)
    requires ValidPlace(p) && p != [] && |PathOf(p)| < 256 && p in fs && ParentsThere(fs, p)
    ensures |PathOf(p)| > |ROOT| && Created(fs, PathOf(p), n, o) == fs[p := Overwritten(fs[p], n)]
  {
    hide Created, WithDirs, PathOf, PlaceOf, EnsureParents;
    PlaceOfPathOf(p);
    ParentsAreMade(fs, p, o.clock);
    NothingMissing(fs, p, |p| - 1, o.clock);
    NewIsNotThere(fs, p);
    OverwrittenIn(fs, PathOf(p), p, n, o);
  }

  lemma OverwrittenIn(fs: Fs, full: Bytes, p: Place, n: Node, o: Options)
    requires |full| > |ROOT| && PlaceOf(full) == p && EnsureParents(fs, full, o.clock) == fs && p in fs && !CanCreate(fs, p)
    ensures Created(fs, full, n, o) == fs[p := Overwritten(fs[p], n)]
  {
    hide PlaceOf, EnsureParents, Attributed, CanCreate, Modes.Kind, Modes.Permissions, StampRead, TargetRead;
    if n.Dir? {
      AttributedAt(fs, full, p, n);
    } else if n.File? && fs[p].FileNode? {
      var empty := Truncated(fs, p, o.clock);
      assert empty[p].data + n.data == n.data;
      AttributedAt(Appended(empty, p, n.data), full, p, n);
    }
  }

  /** An entry below a file or link. */
  lemma CreatedBlocked(fs: Fs, p: Place, n: Node, o: Options, j: nat)
    requires ValidPlace(p) && p != [] && |PathOf(p)| < 256 && Blocked(fs, p, j)
    ensures |PathOf(p)| > |ROOT| && Created(fs, PathOf(p), n, o) == fs
  {
    PlaceOfPathOf(p);
    ParentsAreMade(fs, p, o.clock);
    NothingMade(fs, p, j, |p| - 1, o.clock);
    NothingMade(fs, p, j, |p|, o.clock);
    assert p[..|p|] == p;
    hide PathOf, PlaceOf, EnsureParents, Attributed, WithDirs, Blocked, CanCreate;
    AttributedAt(fs, PathOf(p), p, n);
  }

  /** The names that come back and the files that are archived. */
  predicate Comes(prefix: Bytes, p: Place, n: Node)
  {
    |prefix + Join(p)| <= 100 && (n.File? ==> |n.data| < TWO_32)
  }

  function NamedEntry(prefix: Bytes, it: Item): (e: Named)
    ensures |e.path| < BLOCK
  {
    Named(ArchiveName(prefix, it.place), it.node)
  }

  /** The effect of the entry of a place: nothing unless it comes. */
  lemma EffectIs(fs: Fs, it: Item, o: Options)
    requires ValidPlace(it.place)
    ensures var p := it.place;
      Effect(fs, NamedEntry(o.prefix, it), o) ==
        if p == [] || !Comes(o.prefix, p, it.node) || (!o.overwrite && p in fs) then fs
        else Created(fs, PathOf(p), it.node, o)
    ensures it.place != [] && Comes(o.prefix, it.place, it.node) ==> |PathOf(it.place)| < 256
  {
    var p, path := it.place, NamedEntry(o.prefix, it).path;
    JoinHasNoNul(p);
    PlaceOfPathOf(p);
    WholeIfShort(path);
    hide PlaceOf, Created, PlacementOf, Join, PathOf;
    assert PathOf(p) == ROOT + Join(p) && (p == [] ==> Join(p) == []);
    if |o.prefix + Join(p)| <= 100 {
      assert path == o.prefix + Join(p);
      assert path[|o.prefix|..] == Join(p);
      assert p != [] ==> o.prefix < path && FullPath(Join(p)) == PathOf(p);
    }
  }

  /** An entry at a free place with nothing in the way creates the missing directories above it and its own node,
      and changes nothing else. */
  lemma EffectCreates(fs: Fs, it: Item, o: Options)
    requires ValidPlace(it.place) && it.place != [] && Comes(o.prefix, it.place, it.node)
    requires it.place !in fs && NothingInTheWay(fs, it.place)
    ensures Effect(fs, NamedEntry(o.prefix, it), o)
            == WithDirs(fs, it.place, |it.place| - 1, o.clock)[it.place := RestoredInode(it.node)]
  {
    hide Effect, Created, PathOf;
    EffectIs(fs, it, o);
    CreatedNew(fs, it.place, it.node, o);
  }

  /** The partition's root is never restored. */
  lemma RootIsSkipped(fs: Fs, it: Item, o: Options)
    requires it.place == []
    ensures Effect(fs, NamedEntry(o.prefix, it), o) == fs
  {
    hide Effect;
    EffectIs(fs, it, o);
  }

  // ----- the whole tree -----

  /** The archive entries of a partition called by the given prefix. */
  function EntriesOf(prefix: Bytes, items: seq<Item>): (r: seq<Named>)
    ensures |r| == |items|
    ensures forall i :: 0 <= i < |r| ==> |r[i].path| < BLOCK && r[i] == NamedEntry(prefix, items[i])
  {
    seq(|items|, i requires 0 <= i < |items| => NamedEntry(prefix, items[i]))
  }

  /** Every place above a node of the tree holds a directory of the tree. */
  lemma {:induction false} AboveIsDir(n: Node, p: Place, i: nat)
    requires Find(n, p).Some? && i < |p|
    ensures Find(n, p[..i]).Some? && Find(n, p[..i]).value.Dir?
    decreases |p|
  {
    if i > 0 {
      AboveIsDir(FindEntry(n.entries, p[0]).value, p[1..], i - 1);
      assert p[1..][..i - 1] == p[..i][1..];
    }
  }

  lemma {:induction false} PlacesAreValid(n: Node, p: Place)
    requires WellFormed(n) && Find(n, p).Some?
    ensures ValidPlace(p) && WellFormed(Find(n, p).value)
    decreases |p|
  {
    if p != [] {
      EntryOf(n.entries, p[0]);
      var i :| 0 <= i < |n.entries| && n.entries[i].name == p[0] && FindEntry(n.entries, p[0]) == Some(n.entries[i].node);
      FindEntryAt(n.entries, i);
      PlacesAreValid(n.entries[i].node, p[1..]);
      assert forall j :: 0 < j < |p| ==> p[j] == p[1..][j - 1];
    }
  }

  // ----- the merge -----

  /** What a mounted partition looks like: every node lies in a directory. */
  ghost predicate Rooted(fs: Fs)
  {
    [] !in fs && forall p: Place :: p in fs ==> ParentsThere(fs, p)
  }

  function At(fs: Fs, p: Place): Option<Inode> { if p in fs then Some(fs[p]) else None }

  /** The node at p among the first k items, if its entry comes. */
  function FoundIn(prefix: Bytes, items: seq<Item>, k: nat, p: Place): Option<Node>
    requires k <= |items|
  {
    if k == 0 then None
    else if items[k - 1].place == p && Comes(prefix, p, items[k - 1].node) then Some(items[k - 1].node)
    else FoundIn(prefix, items, k - 1, p)
  }

  lemma {:induction false} FoundIs(prefix: Bytes, items: seq<Item>, k: nat, p: Place)
    requires k <= |items| && InOrder(items)
    ensures forall j :: 0 <= j < k && items[j].place == p ==>
      FoundIn(prefix, items, k, p) == if Comes(prefix, p, items[j].node) then Some(items[j].node) else None
    ensures match FoundIn(prefix, items, k, p)
      case None => true
      case Some(n) => Comes(prefix, p, n) && exists j :: 0 <= j < k && items[j] == Item(p, n)
  {
    hide Comes;
    if k > 0 {
      FoundIs(prefix, items, k - 1, p);
    }
  }

  /** What the partition holds at p after a restore, from what it held and what the backup has found there: existing
      nodes stay, or are overwritten if that is asked for; others are added where nothing is in the way. */
  ghost function Merged(fs: Fs, p: Place, found: Option<Node>, o: Options): Option<Inode>
  {
    if p in fs then Some(if o.overwrite && found.Some? then Overwritten(fs[p], found.value) else fs[p])
    else if found.Some? && NothingInTheWay(fs, p) then Some(RestoredInode(found.value))
    else None
  }

  ghost predicate IsMerge(cur: Fs, fs: Fs, items: seq<Item>, k: nat, o: Options)
    requires k <= |items|
  {
    [] !in cur && forall p: Place :: p != [] ==> At(cur, p) == Merged(fs, p, FoundIn(o.prefix, items, k, p), o)
  }

  lemma NothingMergedYet(fs: Fs, items: seq<Item>, o: Options)
    requires Rooted(fs)
    ensures IsMerge(fs, fs, items, 0, o)
  {
  }

  /** What one entry does, in terms of the partition at the start. */
  lemma EffectMerges(fs: Fs, cur: Fs, it: Item, o: Options)
    requires ValidPlace(it.place) && it.place != [] && Rooted(fs) && At(cur, it.place) == At(fs, it.place)
    requires forall p: Place :: p in fs ==> p in cur && (cur[p].DirNode? <==> fs[p].DirNode?)
    requires forall i :: 0 < i < |it.place| && it.place[..i] in cur && it.place[..i] !in fs ==>
      NothingInTheWay(fs, it.place[..i])
    requires it.place !in fs && Comes(o.prefix, it.place, it.node) && NothingInTheWay(fs, it.place) ==>
      ParentsThere(cur, it.place)
    ensures Effect(cur, NamedEntry(o.prefix, it), o) ==
      match Merged(fs, it.place, if Comes(o.prefix, it.place, it.node) then Some(it.node) else None, o)
      case None => cur
      case Some(x) => cur[it.place := x]
  {
    hide Effect, Created, RestoredInode, Overwritten, Comes, PathOf, ValidPlace;
    var p, n := it.place, it.node;
    EffectIs(cur, it, o);
    if Comes(o.prefix, p, n) {
      if p in fs {
        ParentsStay(fs, cur, p);
        CreatedOver(cur, p, n, o);
      } else if NothingInTheWay(fs, p) {
        NothingMissing(cur, p, |p| - 1, o.clock);
        ParentsNotInTheWay(cur, p);
        CreatedNew(cur, p, n, o);
      } else {
        var j := FirstInTheWay(fs, cur, p);
        CreatedBlocked(cur, p, n, o, j);
      }
    }
  }

  lemma ParentsStay(fs: Fs, cur: Fs, p: Place)
    requires ParentsThere(fs, p)
    requires forall p: Place :: p in fs ==> p in cur && (cur[p].DirNode? <==> fs[p].DirNode?)
    ensures ParentsThere(cur, p)
  {
    forall i | 0 <= i < |p| ensures IsDir(cur, p[..i]) {
      assert IsDir(fs, p[..i]);
    }
  }

  lemma ParentsNotInTheWay(fs: Fs, p: Place)
    requires ParentsThere(fs, p)
    ensures NothingInTheWay(fs, p)
  {
    forall i | 0 < i < |p| && p[..i] in fs ensures fs[p[..i]].DirNode? {
      assert IsDir(fs, p[..i]);
    }
  }

  lemma FirstInTheWay(fs: Fs, cur: Fs, p: Place) returns (j: nat)
    requires Rooted(fs) && p !in cur && !NothingInTheWay(fs, p)
    requires forall p: Place :: p in fs ==> p in cur && (cur[p].DirNode? <==> fs[p].DirNode?)
    requires forall i :: 0 < i < |p| && p[..i] in cur && p[..i] !in fs ==> NothingInTheWay(fs, p[..i])
    ensures Blocked(cur, p, j)
  {
    j :| 0 < j < |p| && p[..j] in fs && !fs[p[..j]].DirNode?;
    var file := p[..j];
    forall i | 0 < i < j ensures p[..i] in cur {
      assert IsDir(fs, file[..i]) && file[..i] == p[..i];
    }
    forall i | j < i <= |p| ensures p[..i] !in cur {
      var q := p[..i];
      assert q[..j] == file;
      assert ParentsThere(fs, q) ==> IsDir(fs, q[..j]);
      assert !NothingInTheWay(fs, q);
      assert i == |p| ==> q == p;
    }
  }

  lemma MergeKeepsKinds(cur: Fs, fs: Fs, items: seq<Item>, k: nat, o: Options)
    requires k <= |items| && IsMerge(cur, fs, items, k, o) && [] !in fs
    ensures forall p: Place :: p in fs ==> p in cur && (cur[p].DirNode? <==> fs[p].DirNode?)
    ensures forall p: Place :: p in cur && p !in fs ==> NothingInTheWay(fs, p)
  {
    hide FoundIn, RestoredInode, NothingInTheWay;
    forall p: Place | p in fs ensures p in cur && (cur[p].DirNode? <==> fs[p].DirNode?) {
      assert At(cur, p) == Merged(fs, p, FoundIn(o.prefix, items, k, p), o);
    }
    forall p: Place | p in cur && p !in fs ensures NothingInTheWay(fs, p) {
      assert At(cur, p) == Merged(fs, p, FoundIn(o.prefix, items, k, p), o);
    }
  }

  lemma {:induction false} JoinGrows(p: Place, i: nat)
    requires i <= |p|
    ensures |Join(p[..i])| <= |Join(p)|
    decreases |p|
  {
    if i < |p| {
      JoinGrows(p[..|p| - 1], i);
      assert p[..|p| - 1][..i] == p[..i];
    } else {
      assert p[..i] == p;
    }
  }

  /** The directories above a node that comes have come before it. */
  lemma DirectoryWasFound(root: Node, items: seq<Item>, k: nat, i: nat, prefix: Bytes)
    requires WellFormed(root) && items == WalkNode([], root).items
    requires k < |items| && i < |items[k].place| && Comes(prefix, items[k].place, items[k].node)
    ensures var found := FoundIn(prefix, items, k, items[k].place[..i]); found.Some? && found.value.Dir?
  {
    var p := items[k].place;
    VisitsOnlyTheTree([], root, items[k]);
    AncestorsAreVisited([], root, k);
    assert Visited(items, k, p[..i]);
    var m :| 0 <= m < k && items[m].place == p[..i];
    VisitsOnlyTheTree([], root, items[m]);
    assert p[0..] == p && items[m].place[0..] == items[m].place;
    AboveIsDir(root, p, i);
    JoinGrows(p, i);
    ParentsFirst([], root);
    FoundIs(prefix, items, k, p[..i]);
  }

  lemma DirectoryIsMerged(cur: Fs, fs: Fs, p: Place, i: nat, found: Option<Node>, o: Options)
    requires 0 < i < |p| && NothingInTheWay(fs, p) && At(cur, p[..i]) == Merged(fs, p[..i], found, o)
    requires found.Some? && found.value.Dir?
    ensures IsDir(cur, p[..i])
  {
    var q := p[..i];
    assert q in fs ==> fs[q].DirNode?;
    NothingHigherUp(fs, p, i);
    hide NothingInTheWay;
  }

  lemma NothingHigherUp(fs: Fs, p: Place, i: nat)
    requires i < |p| && NothingInTheWay(fs, p)
    ensures NothingInTheWay(fs, p[..i])
  {
    var q := p[..i];
    forall h | 0 < h < |q| && q[..h] in fs ensures fs[q[..h]].DirNode? {
      assert q[..h] == p[..h];
    }
  }

  lemma ParentsAreThere(root: Node, fs: Fs, cur: Fs, items: seq<Item>, k: nat, o: Options)
    requires WellFormed(root) && items == WalkNode([], root).items && k < |items|
    requires Rooted(fs) && IsMerge(cur, fs, items, k, o)
    requires Comes(o.prefix, items[k].place, items[k].node) && NothingInTheWay(fs, items[k].place)
    ensures ParentsThere(cur, items[k].place)
  {
    var p := items[k].place;
    MergeKeepsKinds(cur, fs, items, k, o);
    hide WalkNode, WellFormed, Comes, FoundIn, Rooted;
    forall i | 0 <= i < |p| ensures IsDir(cur, p[..i]) {
      if i > 0 {
        var q := p[..i];
        DirectoryWasFound(root, items, k, i, o.prefix);
        var found := FoundIn(o.prefix, items, k, q);
        assert At(cur, q) == Merged(fs, q, found, o);
        DirectoryIsMerged(cur, fs, p, i, found, o);
      }
    }
  }

  /** One entry more. */
  lemma MergeStep(root: Node, fs: Fs, cur: Fs, items: seq<Item>, k: nat, o: Options)
    requires WellFormed(root) && items == WalkNode([], root).items && k < |items|
    requires Rooted(fs) && IsMerge(cur, fs, items, k, o)
    ensures IsMerge(Effect(cur, NamedEntry(o.prefix, items[k]), o), fs, items, k + 1, o)
  {
    hide WalkNode, WellFormed, Comes, Effect, NothingInTheWay, RestoredInode, Overwritten, ParentsThere, Find;
    var it, p := items[k], items[k].place;
    var next := Effect(cur, NamedEntry(o.prefix, it), o);
    NewInTheWalk(root, items, k, o.prefix);
    MergeKeepsKinds(cur, fs, items, k, o);
    if p == [] {
      RootIsSkipped(cur, it, o);
    } else {
      assert At(cur, p) == Merged(fs, p, FoundIn(o.prefix, items, k, p), o);
      if Comes(o.prefix, p, it.node) && NothingInTheWay(fs, p) {
        ParentsAreThere(root, fs, cur, items, k, o);
      }
      EffectMerges(fs, cur, it, o);
    }
    forall q: Place | q != [] ensures At(next, q) == Merged(fs, q, FoundIn(o.prefix, items, k + 1, q), o) {
      assert At(cur, q) == Merged(fs, q, FoundIn(o.prefix, items, k, q), o);
    }
  }

  lemma NewInTheWalk(root: Node, items: seq<Item>, k: nat, prefix: Bytes)
    requires WellFormed(root) && items == WalkNode([], root).items && k < |items|
    ensures ValidPlace(items[k].place) && FoundIn(prefix, items, k, items[k].place) == None
  {
    hide WalkNode;
    var p := items[k].place;
    VisitsOnlyTheTree([], root, items[k]);
    assert p[0..] == p;
    PlacesAreValid(root, p);
    ParentsFirst([], root);
    FoundIs(prefix, items, k, p);
  }

  /** The entries of a walk, also of one that was cut short, merge what they stand for into any partition. */
  lemma {:induction false} FoldMerges(root: Node, fs: Fs, items: seq<Item>, k: nat, o: Options)
    requires WellFormed(root) && items == WalkNode([], root).items && k <= |items| && Rooted(fs)
    ensures IsMerge(Fold(fs, EntriesOf(o.prefix, items)[..k], o), fs, items, k, o)
  {
    hide Effect, Fold, WalkNode, Rooted, IsMerge, EntriesOf, NamedEntry, WellFormed;
    var es := EntriesOf(o.prefix, items);
    if k == 0 {
      assert es[..0] == [];
      FoldNothing(fs, o);
      NothingMergedYet(fs, items, o);
    } else {
      FoldMerges(root, fs, items, k - 1, o);
      FoldSnoc(fs, es, k - 1, o);
      FoldOne(Fold(fs, es[..k - 1], o), es[k - 1], o);
      MergeStep(root, fs, Fold(fs, es[..k - 1], o), items, k - 1, o);
    }
  }

  lemma FoldSnoc(fs: Fs, es: seq<Named>, k: nat, o: Options)
    requires k < |es|
    ensures Fold(fs, es[..k + 1], o) == Fold(Fold(fs, es[..k], o), [es[k]], o)
  {
    hide Fold;
    assert es[..k + 1] == es[..k] + [es[k]];
    FoldConcat(fs, es[..k], [es[k]], o);
  }

  lemma FoldOne(fs: Fs, e: Named, o: Options)
    ensures Fold(fs, [e], o) == Effect(fs, e, o)
  {
    hide Effect;
    assert [e][1..] == [];
  }
}
