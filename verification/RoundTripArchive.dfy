/** The commands --backup and --restore over a whole disk. */
module RoundTripArchive {
  import opened ByteStrings
  import opened PfsTree
  import opened UstarHeader
  import opened Restore
  import opened RoundTripEntry
  import opened RoundTrip
  import opened RoundTripTree
  import opened Walk
  import opened WalkOrder
  import Calendar

  /** One partition as the "hdd0:" listing shows it; mounting may fail. */
  datatype Partition = Partition(name: Bytes, mode: nat, attr: nat, mounts: bool, root: Node)

  /** APA identifiers: at most 32 bytes, no slash. */
  predicate ValidId(s: Bytes) { 0 < |s| <= 32 && NUL !in s && SLASH !in s }

  /** Main PFS partitions, all of them or the one asked for, that can be mounted. */
  predicate Chosen(d: Partition, arg: Option<Bytes>)
  {
    d.mode == 0x0100 && d.attr != 1 && (arg == None || arg == Some(d.name)) && d.mounts
  }

  function PrefixOf(name: Bytes): Bytes { name + [SLASH] }

  /** What one chosen partition adds to the archive, even when its walk stops early. */
  function PartitionBytes(d: Partition): Bytes
  {
    Archive(PrefixOf(d.name), WalkNode([], d.root).items)
  }

  function ArchiveOf(disk: seq<Partition>, arg: Option<Bytes>): Bytes
  {
    if disk == [] then []
    else (if Chosen(disk[0], arg) then PartitionBytes(disk[0]) else []) + ArchiveOf(disk[1..], arg)
  }

  /** wrapped_ftw(prefix, "pfs0:/", tar_c_file): copies the path into the walk's buffer. */
  method WrappedFtw(root: Node, prefix: Bytes, out: Bytes) returns (r: int, written: Bytes)
    requires WellFormed(root) && |prefix| < BLOCK
    ensures r == WalkNode([], root).code
    ensures written == out + Archive(prefix, WalkNode([], root).items)
  {
    var buf := new byte[PATH_MAX + 1](_ => NUL);
    Put(buf, 0, ROOT + [NUL]);
    assert buf[..|ROOT| + 1] == ROOT + [NUL];
    CStrIsUnique(buf[..], ROOT);
    assert PathOf([]) == ROOT;
    var b := new Backup(root, prefix, out);
    r := b.DoWrappedFtw(buf, |ROOT|, [], root);
    written := b.out;
  }

  lemma ArchiveOfNothing(arg: Option<Bytes>)
    ensures ArchiveOf([], arg) == []
  {
  }

  lemma ArchiveStep(disk: seq<Partition>, i: nat, arg: Option<Bytes>)
    requires i < |disk|
    ensures ArchiveOf(disk[i..], arg)
      == (if Chosen(disk[i], arg) then PartitionBytes(disk[i]) else []) + ArchiveOf(disk[i + 1..], arg)
  {
    hide Archive, WalkNode;
    assert disk[i..][1..] == disk[i + 1..];
  }

  /** tar_part and the two zero blocks that main writes behind it. */
  method BackupDisk(disk: seq<Partition>, arg: Option<Bytes>) returns (tar: Bytes)
    requires forall i :: 0 <= i < |disk| && Chosen(disk[i], arg) ==> ValidId(disk[i].name) && WellFormed(disk[i].root)
    ensures tar == ArchiveOf(disk, arg) + Zeros(2 * BLOCK)
  {
    hide ArchiveOf, Archive, WalkNode, WellFormed;
    tar := [];
    var i := 0;
    assert disk[0..] == disk;
    while i < |disk|
      invariant 0 <= i <= |disk|
      invariant tar + ArchiveOf(disk[i..], arg) == ArchiveOf(disk, arg)
    {
      var de := disk[i];
      ArchiveStep(disk, i, arg);
      i := i + 1;
      if de.mode == 0x0100 && de.attr != 1 && (arg == None || arg == Some(de.name)) {
        if !de.mounts {
          continue;
        }
        var r;
        r, tar := WrappedFtw(de.root, PrefixOf(de.name), tar);
      }
    }
    assert disk[|disk|..] == [];
    ArchiveOfNothing(arg);
    tar := tar + Zeros(BLOCK) + Zeros(BLOCK);
    assert Zeros(2 * BLOCK) == Zeros(BLOCK) + Zeros(BLOCK);
  }

  /** Which listed partitions are in the archive, in their order: main PFS partitions, all or the one asked for, that
      can be mounted. */
  lemma {:induction false} OnePartitionMore(disk: seq<Partition>, d: Partition, arg: Option<Bytes>)
    ensures ArchiveOf(disk + [d], arg) == ArchiveOf(disk, arg)
      + if d.mode == 0x100 && d.attr != 1 && d.mounts && (arg.Some? ==> arg.value == d.name) then PartitionBytes(d) else []
  {
    hide PartitionBytes, Chosen;
    ChosenIs(d, arg);
    if disk == [] {
      assert [] + [d] == [d] && [d][1..] == [];
    } else {
      assert (disk + [d])[1..] == disk[1..] + [d];
      OnePartitionMore(disk[1..], d, arg);
    }
  }

  lemma ChosenIs(d: Partition, arg: Option<Bytes>)
    ensures Chosen(d, arg) <==> d.mode == 0x100 && d.attr != 1 && d.mounts && (arg.Some? ==> arg.value == d.name)
  {
  }

  /** The names of a place from the root on, with slashes between them. */
  function Slashed(p: Place): Bytes
  {
    if p == [] then [] else if |p| == 1 then p[0] else p[0] + [47] + Slashed(p[1..])
  }

  lemma {:induction false} JoinIsSlashed(p: Place)
    ensures Join(p) == Slashed(p)
  {
    if |p| > 2 {
      var front, last := p[..|p| - 1], p[|p| - 1];
      JoinIsSlashed(front);
      JoinIsSlashed(p[1..]);
      JoinIsSlashed(p[1..][..|p| - 2]);
      assert front[1..] == p[1..][..|p| - 2];
    }
  }

  /** The names of a partition's entries: its identifier, a slash, and the place, cut off at 511 bytes. The paths that
      the program itself uses begin with "pfs0:/". */
  lemma NamesInArchive(d: Partition, i: nat)
    requires i < |WalkNode([], d.root).items|
    ensures var it := WalkNode([], d.root).items[i];
      var name := d.name + [47] + Slashed(it.place);
      && PartitionEntries(d)[i] == Named(if |name| <= 511 then name else name[..511], it.node)
      && PathOf(it.place) == [112, 102, 115, 48, 58, 47] + Slashed(it.place)
  {
    hide WalkNode;
    JoinIsSlashed(WalkNode([], d.root).items[i].place);
  }

  // ----- the round trip -----

  function ItemsOf(d: Partition): seq<Item> { WalkNode([], d.root).items }

  function PartitionEntries(d: Partition): (r: seq<Named>)
    ensures Short(r)
  {
    EntriesOf(PrefixOf(d.name), ItemsOf(d))
  }

  function DiskEntries(disk: seq<Partition>, arg: Option<Bytes>): (r: seq<Named>)
    ensures Short(r)
  {
    if disk == [] then []
    else (if Chosen(disk[0], arg) then PartitionEntries(disk[0]) else []) + DiskEntries(disk[1..], arg)
  }

  lemma {:induction false} ArchiveIsEntries(prefix: Bytes, items: seq<Item>)
    ensures Archive(prefix, items) == EntriesBytes(EntriesOf(prefix, items))
  {
    hide EntryBytes, ArchiveName;
    if items != [] {
      assert EntriesOf(prefix, items)[1..] == EntriesOf(prefix, items[1..]);
      ArchiveIsEntries(prefix, items[1..]);
    }
  }

  lemma {:induction false} EntriesBytesConcat(a: seq<Named>, b: seq<Named>)
    requires Short(a) && Short(b)
    ensures EntriesBytes(a + b) == EntriesBytes(a) + EntriesBytes(b)
  {
    hide BytesOf;
    if a == [] {
      assert a + b == b;
    } else {
      assert (a + b)[1..] == a[1..] + b;
      EntriesBytesConcat(a[1..], b);
    }
  }

  lemma {:induction false} DiskArchiveIsEntries(disk: seq<Partition>, arg: Option<Bytes>)
    ensures ArchiveOf(disk, arg) == EntriesBytes(DiskEntries(disk, arg))
  {
    hide WalkNode, EntriesOf, Archive;
    if disk != [] {
      DiskArchiveIsEntries(disk[1..], arg);
      if Chosen(disk[0], arg) {
        ArchiveIsEntries(PrefixOf(disk[0].name), WalkNode([], disk[0].root).items);
        EntriesBytesConcat(PartitionEntries(disk[0]), DiskEntries(disk[1..], arg));
        assert PartitionBytes(disk[0]) == EntriesBytes(PartitionEntries(disk[0]));
      } else {
        assert [] + ArchiveOf(disk[1..], arg) == ArchiveOf(disk[1..], arg);
        assert [] + DiskEntries(disk[1..], arg) == DiskEntries(disk[1..], arg);
      }
    }
  }

  /** Different identifiers give archive names of which none is in front of the other's. */
  lemma PrefixesDiffer(a: Bytes, b: Bytes, rest: Bytes)
    requires ValidId(a) && ValidId(b) && PrefixOf(a) <= PrefixOf(b) + rest
    ensures a == b
  {
    var s := PrefixOf(b) + rest;
    assert s[|a|] == SLASH && s[|b|] == SLASH;
    assert forall i :: 0 <= i < |a| ==> s[i] == PrefixOf(a)[i] == a[i] != SLASH;
    assert forall i :: 0 <= i < |b| ==> s[i] == b[i] != SLASH;
    assert |a| == |b|;
  }

  lemma OtherPartition(d: Partition, o: Options, id: Bytes, fs: Fs)
    requires ValidId(id) && ValidId(d.name) && id != d.name && o.prefix == PrefixOf(id)
    ensures Fold(fs, PartitionEntries(d), o) == fs
  {
    hide Effect, WalkNode;
    var es, items := PartitionEntries(d), ItemsOf(d);
    forall i | 0 <= i < |es| ensures !(o.prefix < es[i].path) {
      var s := PrefixOf(d.name) + Join(items[i].place);
      assert es[i].path <= s;
      if o.prefix < es[i].path {
        assert PrefixOf(id) <= s;
        PrefixesDiffer(id, d.name, Join(items[i].place));
      }
    }
    ForeignEntries(fs, es, o);
  }

  /** What the archive of a disk needs to be readable: on each partition that goes into it, entries that can be
      stepped over. Nothing is asked of the other partitions. */
  ghost predicate Readable(disk: seq<Partition>, arg: Option<Bytes>)
  {
    forall i :: 0 <= i < |disk| && Chosen(disk[i], arg) ==>
      ValidId(disk[i].name) && WellFormed(disk[i].root) && AllSteppedOver(PartitionEntries(disk[i]))
  }

  /** Files that round up below 4 GiB and names with at most 124 bytes behind their cut are enough. */
  lemma ReadableIfShort(d: Partition)
    requires forall i :: 0 <= i < |ItemsOf(d)| ==>
      var it := ItemsOf(d)[i];
      if it.node.File? then |it.node.data| + 511 < TWO_32 else |Tail(ArchiveName(PrefixOf(d.name), it.place))| <= SIZE
    ensures AllSteppedOver(PartitionEntries(d))
  {
    hide WalkNode, ArchiveName, Tail, StraySize, Archived;
    var es := PartitionEntries(d);
    forall i | 0 <= i < |es| ensures SteppedOver(es[i].path, es[i].node) {
      if !es[i].node.File? {
        ShortTail(es[i].path);
      }
    }
  }

  /** No archived partition but the k-th has this name. */
  ghost predicate NameIsUnique(disk: seq<Partition>, arg: Option<Bytes>, k: int, id: Bytes)
  {
    forall i :: 0 <= i < |disk| && i != k && Chosen(disk[i], arg) ==> disk[i].name != id
  }

  /** The disk entries that a restore of the partition called id acts on: its own. */
  lemma {:induction false} OnlyOwnEntries(disk: seq<Partition>, arg: Option<Bytes>, k: nat, fs: Fs, o: Options)
    requires k < |disk| && Chosen(disk[k], arg) && o.prefix == PrefixOf(disk[k].name)
    requires Readable(disk, arg) && NameIsUnique(disk, arg, k, disk[k].name)
    ensures Fold(fs, DiskEntries(disk, arg), o) == Fold(fs, PartitionEntries(disk[k]), o)
  {
    hide PartitionEntries, Effect, Fold, AllSteppedOver, WellFormed;
    var here := if Chosen(disk[0], arg) then PartitionEntries(disk[0]) else [];
    FoldConcat(fs, here, DiskEntries(disk[1..], arg), o);
    if k > 0 {
      if Chosen(disk[0], arg) {
        OtherPartition(disk[0], o, disk[k].name, fs);
      } else {
        FoldNothing(fs, o);
      }
      OnlyOwnEntries(disk[1..], arg, k - 1, fs, o);
    } else {
      NoOwnEntries(disk[1..], arg, Fold(fs, here, o), o, disk[0].name);
    }
  }

  lemma {:induction false} NoOwnEntries(disk: seq<Partition>, arg: Option<Bytes>, fs: Fs, o: Options, id: Bytes)
    requires ValidId(id) && o.prefix == PrefixOf(id)
    requires Readable(disk, arg) && NameIsUnique(disk, arg, -1, id)
    ensures Fold(fs, DiskEntries(disk, arg), o) == fs
  {
    hide PartitionEntries, Effect, Fold, AllSteppedOver, WellFormed;
    if disk == [] {
      FoldNothing(fs, o);
    } else {
      var here := if Chosen(disk[0], arg) then PartitionEntries(disk[0]) else [];
      FoldConcat(fs, here, DiskEntries(disk[1..], arg), o);
      if Chosen(disk[0], arg) {
        OtherPartition(disk[0], o, id, fs);
      } else {
        FoldNothing(fs, o);
      }
      NoOwnEntries(disk[1..], arg, fs, o, id);
    }
  }

  lemma {:induction false} DiskIsReadable(disk: seq<Partition>, arg: Option<Bytes>)
    requires Readable(disk, arg)
    ensures AllSteppedOver(DiskEntries(disk, arg)) && NoNuls(DiskEntries(disk, arg))
  {
    hide PartitionEntries, WellFormed, SteppedOver, Archived;
    if disk != [] {
      DiskIsReadable(disk[1..], arg);
      if Chosen(disk[0], arg) {
        NamesHaveNoNuls(disk[0]);
        var a, b := PartitionEntries(disk[0]), DiskEntries(disk[1..], arg);
        assert forall i :: 0 <= i < |a + b| ==> (a + b)[i] == if i < |a| then a[i] else b[i - |a|];
      }
    }
  }

  lemma NamesHaveNoNuls(d: Partition)
    requires ValidId(d.name) && WellFormed(d.root)
    ensures NoNuls(PartitionEntries(d))
  {
    hide WalkNode, WellFormed;
    var es, items := PartitionEntries(d), ItemsOf(d);
    forall i | 0 <= i < |es| ensures NUL !in es[i].path {
      var p := items[i].place;
      VisitsOnlyTheTree([], d.root, items[i]);
      assert p[0..] == p;
      PlacesAreValid(d.root, p);
      JoinHasNoNul(p);
      assert es[i].path <= PrefixOf(d.name) + Join(p);
    }
  }

  /** Over the archive of any disk: the reader's loop heads are the headers of the writer, and restoring
      a partition, whatever it holds already, acts on the entries archived under its name and no others. */
  lemma RestoreActsOnOwnEntries(disk: seq<Partition>, arg: Option<Bytes>, k: nat, fs: Fs, o: Options)
    requires k < |disk| && Chosen(disk[k], arg) && o.prefix == PrefixOf(disk[k].name)
    requires Readable(disk, arg) && NameIsUnique(disk, arg, k, disk[k].name)
    ensures RestoreFrom(ArchiveOf(disk, arg) + Zeros(2 * BLOCK), 0, fs, o)
            == Run(Fold(fs, PartitionEntries(disk[k]), o), Starts(0, DiskEntries(disk, arg)))
  {
    hide PartitionEntries, Fold, RestoreFrom, EntriesBytes, Starts, AllSteppedOver, WellFormed;
    var tar := ArchiveOf(disk, arg) + Zeros(2 * BLOCK);
    DiskArchiveIsEntries(disk, arg);
    DiskIsReadable(disk, arg);
    assert tar[0..] == tar;
    ReaderStaysAligned(tar, 0, DiskEntries(disk, arg), Zeros(2 * BLOCK), fs, o);
    OnlyOwnEntries(disk, arg, k, fs, o);
  }

  // ----- what a restore leaves -----

  /** Backing up a disk, then restoring from the archive into fs. */
  function Restored(disk: seq<Partition>, arg: Option<Bytes>, fs: Fs, o: Options): Fs
  {
    RestoreFrom(ArchiveOf(disk, arg) + Zeros(2 * BLOCK), 0, fs, o).fs
  }

  /** Restoring a partition merges what its backup found into whatever the partition holds: existing nodes stay, or
      are overwritten if that is asked for; the others are added where nothing is in the way. */
  lemma RestoreMerges(disk: seq<Partition>, arg: Option<Bytes>, k: nat, fs: Fs, o: Options)
    requires k < |disk| && Chosen(disk[k], arg) && o.prefix == PrefixOf(disk[k].name)
    requires Readable(disk, arg) && NameIsUnique(disk, arg, k, disk[k].name) && Rooted(fs)
    ensures var items := ItemsOf(disk[k]);
      IsMerge(Restored(disk, arg, fs, o), fs, items, |items|, o)
  {
    hide RestoreFrom, WalkNode, WellFormed, IsMerge, Fold, ArchiveOf, AllSteppedOver, Rooted;
    var items := ItemsOf(disk[k]);
    RestoreActsOnOwnEntries(disk, arg, k, fs, o);
    FoldMerges(disk[k].root, fs, items, |items|, o);
    assert PartitionEntries(disk[k])[..|items|] == PartitionEntries(disk[k]);
  }

  /** After a walk that was not cut short, what was found is the tree, as far as its names and files come. */
  lemma FoundInTree(d: Partition, prefix: Bytes, p: Place)
    requires WellFormed(d.root) && WalkNode([], d.root).code == 0
    ensures FoundIn(prefix, ItemsOf(d), |ItemsOf(d)|, p) ==
      match Find(d.root, p)
      case None => None
      case Some(n) => if Comes(prefix, p, n) then Some(n) else None
  {
    hide WalkNode, Comes;
    var items := ItemsOf(d);
    ParentsFirst([], d.root);
    FoundIs(prefix, items, |items|, p);
    assert p[0..] == p;
    if Find(d.root, p).Some? {
      VisitsExactlyTheTree([], d.root, Item(p, Find(d.root, p).value));
    } else if FoundIn(prefix, items, |items|, p).Some? {
      VisitsOnlyTheTree([], d.root, Item(p, FoundIn(prefix, items, |items|, p).value));
    }
  }

  /** The node at p has an archive name of at most 100 bytes and is one that the format carries: a mode of sixteen bits
      and a stamp that survives, a file below 4 GiB, a link target of at most 100 bytes. */
  predicate FormatCarries(prefix: Bytes, p: Place, n: Node)
  {
    && |prefix| + |Join(p)| <= 100
    && match n
       case Dir(mode, mtime, _) => mode < 0x1_0000 && Calendar.Storable(mtime)
       case File(mode, mtime, data) => mode < 0x1_0000 && Calendar.Storable(mtime) && |data| < 0x1_0000_0000
       case Link(_, _, target) => |target| <= 100
  }

  ghost predicate AllCarried(prefix: Bytes, root: Node)
  {
    forall p: Place :: p != [] && Find(root, p).Some? ==> FormatCarries(prefix, p, Find(root, p).value)
  }

  lemma CarriedNode(prefix: Bytes, p: Place, n: Node)
    ensures Comes(prefix, p, n) && Carried(n) <==> FormatCarries(prefix, p, n)
  {
    hide Calendar.Storable, Join;
    assert |prefix + Join(p)| == |prefix| + |Join(p)|;
  }

  /** The same, in terms of what comes and what is carried. */
  ghost predicate AllComeCarried(prefix: Bytes, root: Node)
  {
    forall p: Place :: p != [] && Find(root, p).Some? ==> ComesCarried(prefix, p, Find(root, p).value)
  }

  predicate ComesCarried(prefix: Bytes, p: Place, n: Node) { Comes(prefix, p, n) && Carried(n) }

  lemma AllCarriedIff(prefix: Bytes, root: Node)
    ensures AllCarried(prefix, root) <==> AllComeCarried(prefix, root)
  {
    hide Find, Comes, Carried, FormatCarries;
    forall p: Place, n ensures ComesCarried(prefix, p, n) <==> FormatCarries(prefix, p, n) {
      CarriedNode(prefix, p, n);
    }
  }

  /** Short names fit the path buffer, so the walk is not cut short. */
  lemma WalkSucceeds(prefix: Bytes, root: Node)
    requires WellFormed(root) && AllCarried(prefix, root)
    ensures WalkNode([], root).code == 0
  {
    AllCarriedIff(prefix, root);
    hide WalkNode, Find, Carried, AllCarried;
    SucceedsIffAllFit([], root);
    forall q: Place, name: Bytes | Find(root, q + [name]).Some? ensures |name| < PATH_MAX - |PathOf([] + q)| {
      assert ComesCarried(prefix, q + [name], Find(root, q + [name]).value);
      JoinSnoc(q, name);
      assert [] + q == q && PathOf(q) == ROOT + Join(q);
    }
  }

  /** Back up a disk, restore one of its partitions into an empty one. The tree is the same, names, kinds, bytes,
      modes, times and link targets, exactly when every node of it is carried. */
  lemma BackupThenRestore(disk: seq<Partition>, arg: Option<Bytes>, k: nat, o: Options)
    requires k < |disk| && Chosen(disk[k], arg) && o.prefix == PrefixOf(disk[k].name)
    requires Readable(disk, arg) && NameIsUnique(disk, arg, k, disk[k].name)
    ensures Holds(Restored(disk, arg, map[], o), disk[k].root) <==> AllCarried(o.prefix, disk[k].root)
  {
    hide RestoreFrom, WalkNode, WellFormed, ArchiveOf, AllSteppedOver, Holds, AllCarried, IsMerge, Restored, NameIsUnique;
    RestoreMerges(disk, arg, k, map[], o);
    var fs := Restored(disk, arg, map[], o);
    if AllCarried(o.prefix, disk[k].root) {
      CarriedIsHeld(disk[k], fs, o);
    }
    if Holds(fs, disk[k].root) {
      HeldIsCarried(disk[k], fs, o);
    }
  }

  lemma CarriedIsHeld(d: Partition, fs: Fs, o: Options)
    requires WellFormed(d.root) && AllCarried(o.prefix, d.root)
    requires IsMerge(fs, map[], ItemsOf(d), |ItemsOf(d)|, o)
    ensures Holds(fs, d.root)
  {
    hide WalkNode, WellFormed, Carried, Comes, RestoredInode, InodeOf, FoundIn, Find, AllCarried;
    AllCarriedIff(o.prefix, d.root);
    WalkSucceeds(o.prefix, d.root);
    forall p: Place | p != []
      ensures match Find(d.root, p)
        case None => p !in fs
        case Some(n) => p in fs && fs[p] == InodeOf(n)
    {
      FoundInTree(d, o.prefix, p);
      assert At(fs, p) == Merged(map[], p, FoundIn(o.prefix, ItemsOf(d), |ItemsOf(d)|, p), o);
      if Find(d.root, p).Some? {
        PlacesAreValid(d.root, p);
        CarriedIff(Find(d.root, p).value);
      }
    }
  }

  lemma HeldIsCarried(d: Partition, fs: Fs, o: Options)
    requires WellFormed(d.root) && Holds(fs, d.root)
    requires IsMerge(fs, map[], ItemsOf(d), |ItemsOf(d)|, o)
    ensures AllCarried(o.prefix, d.root)
  {
    hide WalkNode, WellFormed, Carried, Comes, RestoredInode, InodeOf, Find, AllCarried;
    AllCarriedIff(o.prefix, d.root);
    var items := ItemsOf(d);
    ParentsFirst([], d.root);
    forall p: Place | p != [] && Find(d.root, p).Some?
      ensures ComesCarried(o.prefix, p, Find(d.root, p).value)
    {
      FoundIs(o.prefix, items, |items|, p);
      var found := FoundIn(o.prefix, items, |items|, p);
      hide FoundIn;
      assert At(fs, p) == Merged(map[], p, found, o);
      VisitsOnlyTheTree([], d.root, Item(p, found.value));
      assert p[0..] == p;
      PlacesAreValid(d.root, p);
      CarriedIff(found.value);
    }
  }

  /** Restoring a second time changes nothing, with or without overwriting, whatever was there at first. */
  lemma RestoringTwiceIsOnce(disk: seq<Partition>, arg: Option<Bytes>, k: nat, fs: Fs, o: Options)
    requires k < |disk| && Chosen(disk[k], arg) && o.prefix == PrefixOf(disk[k].name)
    requires Readable(disk, arg) && NameIsUnique(disk, arg, k, disk[k].name) && Rooted(fs)
    ensures Restored(disk, arg, Restored(disk, arg, fs, o), o) == Restored(disk, arg, fs, o)
  {
    hide WalkNode, WellFormed, AllSteppedOver, IsMerge, Restored, NameIsUnique, Rooted;
    var items, once := ItemsOf(disk[k]), Restored(disk, arg, fs, o);
    RestoreMerges(disk, arg, k, fs, o);
    MergeIsRooted(disk[k].root, once, fs, items, o);
    RestoreMerges(disk, arg, k, once, o);
    MergedTwice(once, Restored(disk, arg, once, o), fs, items, o);
  }

  lemma MergeIsRooted(root: Node, cur: Fs, fs: Fs, items: seq<Item>, o: Options)
    requires WellFormed(root) && items == WalkNode([], root).items
    requires Rooted(fs) && IsMerge(cur, fs, items, |items|, o)
    ensures Rooted(cur)
  {
    hide WalkNode, WellFormed, FoundIn, RestoredInode, Overwritten, NothingInTheWay, ParentsThere;
    MergeKeepsKinds(cur, fs, items, |items|, o);
    forall p: Place | p in cur ensures ParentsThere(cur, p) {
      if p in fs {
        ParentsStay(fs, cur, p);
      } else {
        assert At(cur, p) == Merged(fs, p, FoundIn(o.prefix, items, |items|, p), o);
        ParentsAreFound(root, cur, fs, items, p, o);
      }
    }
  }

  /** The directories above a node that was found were found, too. */
  lemma ParentsAreFound(root: Node, cur: Fs, fs: Fs, items: seq<Item>, p: Place, o: Options)
    requires WellFormed(root) && items == WalkNode([], root).items
    requires Rooted(fs) && IsMerge(cur, fs, items, |items|, o)
    requires FoundIn(o.prefix, items, |items|, p).Some? && NothingInTheWay(fs, p)
    ensures ParentsThere(cur, p)
  {
    hide WalkNode, WellFormed, Rooted, Comes;
    ParentsFirst([], root);
    FoundIs(o.prefix, items, |items|, p);
    var j :| 0 <= j < |items| && items[j] == Item(p, FoundIn(o.prefix, items, |items|, p).value);
    forall i | 0 <= i < |p| ensures IsDir(cur, p[..i]) {
      if i > 0 {
        DirectoryWasFound(root, items, j, i, o.prefix);
        FoundIs(o.prefix, items, j, p[..i]);
        FoundIs(o.prefix, items, |items|, p[..i]);
        var found := FoundIn(o.prefix, items, |items|, p[..i]);
        assert At(cur, p[..i]) == Merged(fs, p[..i], found, o);
        DirectoryIsMerged(cur, fs, p, i, found, o);
      }
    }
  }

  lemma MergedTwice(once: Fs, twice: Fs, fs: Fs, items: seq<Item>, o: Options)
    requires IsMerge(once, fs, items, |items|, o) && IsMerge(twice, once, items, |items|, o) && Rooted(fs)
    ensures twice == once
  {
    hide FoundIn, RestoredInode, Overwritten, NothingInTheWay, ParentsThere;
    MergeKeepsKinds(once, fs, items, |items|, o);
    forall p: Place | p != [] ensures At(twice, p) == At(once, p) {
      var found := FoundIn(o.prefix, items, |items|, p);
      assert At(once, p) == Merged(fs, p, found, o);
      assert At(twice, p) == Merged(once, p, found, o);
      if found.Some? {
        OverwrittenTwice(if p in fs then fs[p] else RestoredInode(found.value), found.value);
        if !NothingInTheWay(fs, p) {
          StillInTheWay(once, fs, p);
        }
      }
    }
    SameEverywhere(twice, once);
  }

  lemma StillInTheWay(cur: Fs, fs: Fs, p: Place)
    requires !NothingInTheWay(fs, p)
    requires forall p: Place :: p in fs ==> p in cur && (cur[p].DirNode? <==> fs[p].DirNode?)
    ensures !NothingInTheWay(cur, p)
  {
    var j :| 0 < j < |p| && p[..j] in fs && !fs[p[..j]].DirNode?;
    assert p[..j] in cur && !cur[p[..j]].DirNode?;
  }

  lemma SameEverywhere(a: Fs, b: Fs)
    requires [] !in a && [] !in b && forall p: Place :: p != [] ==> At(a, p) == At(b, p)
    ensures a == b
  {
    forall p: Place ensures p in a <==> p in b {
      assert p != [] ==> At(a, p) == At(b, p);
    }
    forall p: Place | p in a ensures a[p] == b[p] {
      assert At(a, p) == At(b, p);
    }
  }

  // ----- one node of the partition -----

  /** The node of the tree at p comes, and no file or link stands in fs above p. */
  ghost predicate Arrives(fs: Fs, root: Node, prefix: Bytes, p: Place)
  {
    && Find(root, p).Some? && |prefix| + |Join(p)| <= 100
    && (Find(root, p).value.File? ==> |Find(root, p).value.data| < 0x1_0000_0000)
    && forall i :: 0 < i < |p| && p[..i] in fs ==> fs[p[..i]].DirNode?
  }

  lemma FoundExactly(d: Partition, prefix: Bytes, fs: Fs, p: Place)
    requires WellFormed(d.root) && WalkNode([], d.root).code == 0
    ensures Arrives(fs, d.root, prefix, p) <==> FoundIn(prefix, ItemsOf(d), |ItemsOf(d)|, p).Some? && NothingInTheWay(fs, p)
    ensures Arrives(fs, d.root, prefix, p) ==> FoundIn(prefix, ItemsOf(d), |ItemsOf(d)|, p) == Find(d.root, p)
    ensures p in fs && Rooted(fs) ==> NothingInTheWay(fs, p)
  {
    hide WalkNode, Find, WellFormed, Join;
    FoundInTree(d, prefix, p);
    assert |prefix + Join(p)| == |prefix| + |Join(p)|;
    if p in fs && Rooted(fs) {
      ParentsNotInTheWay(fs, p);
    }
  }

  /** A node that was not there: it is there afterwards exactly if it arrives, with its own kind, permissions, data,
      target, and time if that survives. */
  lemma NewNodes(disk: seq<Partition>, arg: Option<Bytes>, k: nat, fs: Fs, o: Options, p: Place)
    requires k < |disk| && Chosen(disk[k], arg) && o.prefix == PrefixOf(disk[k].name)
    requires Readable(disk, arg) && NameIsUnique(disk, arg, k, disk[k].name) && Rooted(fs)
    requires WalkNode([], disk[k].root).code == 0 && p != [] && p !in fs
    ensures var fs', root := Restored(disk, arg, fs, o), disk[k].root;
      && (p in fs' <==> Arrives(fs, root, o.prefix, p))
      && (p in fs' ==>
            match Find(root, p).value
            case Dir(mode, mtime, _) =>
              fs'[p].DirNode? && fs'[p].mode == 0x1000 + mode % 4096 && (Calendar.Storable(mtime) ==> fs'[p].mtime == mtime)
            case File(mode, mtime, data) =>
              fs'[p].FileNode? && fs'[p].mode == 0x2000 + mode % 4096 && fs'[p].data == data
              && (Calendar.Storable(mtime) ==> fs'[p].mtime == mtime)
            case Link(_, _, target) => fs'[p].LinkNode? && (|target| <= 100 ==> fs'[p].target == target))
  {
    hide WalkNode, WellFormed, Restored, FoundIn, Arrives, NothingInTheWay, Rooted, NameIsUnique, Readable, Find;
    RestoreMerges(disk, arg, k, fs, o);
    var d, fs' := disk[k], Restored(disk, arg, fs, o);
    assert At(fs', p) == Merged(fs, p, FoundIn(o.prefix, ItemsOf(d), |ItemsOf(d)|, p), o);
    RootIsWellFormed(disk, arg, k);
    FoundExactly(d, o.prefix, fs, p);
    if Find(d.root, p).Some? {
      PlacesAreValid(d.root, p);
      NewInode(Find(d.root, p).value);
    }
  }

  lemma RootIsWellFormed(disk: seq<Partition>, arg: Option<Bytes>, k: nat)
    requires Readable(disk, arg) && k < |disk| && Chosen(disk[k], arg)
    ensures WellFormed(disk[k].root)
  {
    hide WellFormed;
  }

  lemma NewInode(n: Node)
    requires WellFormed(n)
    ensures match n
      case Dir(mode, mtime, _) =>
        RestoredInode(n).DirNode? && RestoredInode(n).mode == 0x1000 + mode % 4096
        && (Calendar.Storable(mtime) ==> RestoredInode(n).mtime == mtime)
      case File(mode, mtime, data) =>
        RestoredInode(n).FileNode? && RestoredInode(n).mode == 0x2000 + mode % 4096 && RestoredInode(n).data == data
        && (Calendar.Storable(mtime) ==> RestoredInode(n).mtime == mtime)
      case Link(_, _, target) => RestoredInode(n).LinkNode? && (|target| <= 100 ==> RestoredInode(n).target == target)
  {
    hide Calendar.Storable, Calendar.StampFromField, Calendar.TimeField, AtMost100;
    Calendar.StampRoundTrip(n.mtime);
    if n.Link? && |n.target| <= 100 {
      CStrIsUnique(AtMost100(n.target), n.target);
    }
  }

  /** A node that was there stays as it was, unless overwriting is asked for and the tree's node arrives on it. Then a
      directory or file gets the permissions, and the time if that survives; a file of the tree also replaces the data of
      a file. Links stay, entries of links do nothing, and a file does not replace a directory. */
  lemma ExistingNodes(disk: seq<Partition>, arg: Option<Bytes>, k: nat, fs: Fs, o: Options, p: Place)
    requires k < |disk| && Chosen(disk[k], arg) && o.prefix == PrefixOf(disk[k].name)
    requires Readable(disk, arg) && NameIsUnique(disk, arg, k, disk[k].name) && Rooted(fs)
    requires WalkNode([], disk[k].root).code == 0 && p != [] && p in fs
    ensures var fs', root := Restored(disk, arg, fs, o), disk[k].root;
      && p in fs'
      && (!o.overwrite || !Arrives(fs, root, o.prefix, p) ==> fs'[p] == fs[p])
      && (o.overwrite && Arrives(fs, root, o.prefix, p) ==>
            var n := Find(root, p).value;
            if n.Link? || fs[p].LinkNode? || (n.File? && fs[p].DirNode?) then fs'[p] == fs[p]
            else
              && (fs'[p].DirNode? <==> fs[p].DirNode?) && !fs'[p].LinkNode?
              && fs'[p].mode == fs[p].mode / 4096 % 16 * 4096 + n.mode % 4096
              && (Calendar.Storable(n.mtime) ==> fs'[p].mtime == n.mtime)
              && (fs'[p].FileNode? ==> fs'[p].data == if n.File? then n.data else fs[p].data))
  {
    hide WalkNode, WellFormed, Restored, FoundIn, Arrives, NothingInTheWay, Rooted, NameIsUnique, Readable, Find;
    RestoreMerges(disk, arg, k, fs, o);
    var d, fs' := disk[k], Restored(disk, arg, fs, o);
    assert At(fs', p) == Merged(fs, p, FoundIn(o.prefix, ItemsOf(d), |ItemsOf(d)|, p), o);
    RootIsWellFormed(disk, arg, k);
    FoundExactly(d, o.prefix, fs, p);
    if Find(d.root, p).Some? {
      StampSurvives(Find(d.root, p).value);
    }
    hide Calendar.Storable, StampRead;
  }

  lemma StampSurvives(n: Node)
    ensures Calendar.Storable(n.mtime) ==> StampRead(n.mtime) == n.mtime
  {
    hide Calendar.Storable, Calendar.StampFromField, Calendar.TimeField;
    Calendar.StampRoundTrip(n.mtime);
  }
}
