/** The backup: a recursive walk over a partition in one shared path buffer, each node handed to the
    tar writer on the way. */
module Walk {
  import opened ByteStrings
  import opened PfsTree
  import opened UstarHeader
  import Calendar
  import Modes
  import Octal

  const PATH_MAX := 256

  // ----- what one node contributes -----

  /** snprintf(path, 512, "%s%s", prefix, rel): at most 511 bytes. */
  function ArchiveName(prefix: Bytes, p: Place): (r: Bytes)
    ensures |r| < BLOCK
    ensures |prefix + Join(p)| < BLOCK ==> r == prefix + Join(p)
  {
    var s := prefix + Join(p);
    if |s| < BLOCK then s else s[..BLOCK - 1]
  }

  /** The number of bytes that fill the last block of n bytes. */
  function Filling(n: nat): (r: nat)
    ensures r < BLOCK && (n + r) % BLOCK == 0
  {
    (BLOCK - n % BLOCK) % BLOCK
  }

  /** File contents in whole blocks, the last one filled with NULs. */
  function Padded(data: Bytes): (r: Bytes)
    ensures data <= r
  {
    data + Zeros(Filling(|data|))
  }

  /** Files of 4 GiB and names that cannot be placed are left out. */
  predicate Archived(path: Bytes, n: Node)
  {
    path != [] && PlacementOf(path) != Skip && (n.File? ==> HiSize(n) == 0)
  }

  /** st->hisize */
  function HiSize(n: Node): (r: nat)
    requires n.File?
    ensures r == 0 <==> |n.data| < TWO_32
  {
    |n.data| / TWO_32
  }

  function EntryBytes(path: Bytes, n: Node): Bytes
    requires |path| < BLOCK
  {
    if !Archived(path, n) then []
    else Header(path, n) + if n.File? then Padded(n.data) else []
  }

  // ----- what the walk visits -----

  datatype Item = Item(place: Place, node: Node)

  datatype Walked = Walked(code: int, items: seq<Item>)

  /** The walk of do_wrapped_ftw: code -1 as soon as a name is too long for the path buffer. */
  function WalkNode(p: Place, n: Node): Walked
    decreases n, 1
  {
    if n.Dir? then
      var w := WalkEntries(p, n.entries);
      Walked(w.code, [Item(p, n)] + w.items)
    else Walked(0, [Item(p, n)])
  }

  function WalkEntries(p: Place, es: seq<Entry>): Walked
    decreases es, 0
  {
    if es == [] then Walked(0, [])
    else if |es[0].name| >= PATH_MAX - |PathOf(p)| then Walked(-1, [])
    else
      var w := WalkNode(p + [es[0].name], es[0].node);
      if w.code != 0 then w
      else
        var rest := WalkEntries(p, es[1..]);
        Walked(rest.code, w.items + rest.items)
  }

  /** The archive of a list of nodes. */
  function Archive(prefix: Bytes, items: seq<Item>): Bytes
  {
    if items == [] then []
    else EntryBytes(ArchiveName(prefix, items[0].place), items[0].node) + Archive(prefix, items[1..])
  }

  lemma {:induction false} ArchiveConcat(prefix: Bytes, a: seq<Item>, b: seq<Item>)
    ensures Archive(prefix, a + b) == Archive(prefix, a) + Archive(prefix, b)
  {
    hide EntryBytes, ArchiveName;
    if a == [] {
      assert a + b == b;
    } else {
      assert (a + b)[1..] == a[1..] + b;
      ArchiveConcat(prefix, a[1..], b);
    }
  }

  /** The names dread delivers: the two dot entries, then the directory's own. */
  function Listing(es: seq<Entry>): (r: seq<Bytes>)
    ensures |r| == |es| + 2
  {
    [[DOT], [DOT, DOT]] + seq(|es|, i requires 0 <= i < |es| => es[i].name)
  }

  // ----- the path buffer -----

  /** Where a child's name goes: behind the path's slash, or behind a slash to be added. */
  function SlashAt(path: Bytes): (j: nat)
    ensures |path| - 1 <= j <= |path|
  {
    if |path| > 0 && path[|path| - 1] == SLASH then |path| - 1 else |path|
  }

  lemma SlashAtPathOf(p: Place)
    requires ValidPlace(p)
    ensures SlashAt(PathOf(p)) == if p == [] then |PathOf(p)| - 1 else |PathOf(p)|
  {
    if p != [] {
      var last := p[|p| - 1];
      assert ValidName(last);
      assert Join(p)[|Join(p)| - 1] == last[|last| - 1];
    }
  }

  lemma PathOfChild(p: Place, name: Bytes)
    requires ValidPlace(p) && ValidName(name)
    ensures ValidPlace(p + [name])
    ensures PathOf(p + [name]) == PathOf(p)[..SlashAt(PathOf(p))] + [SLASH] + name
    ensures PathOf(p) <= PathOf(p + [name]) && NUL !in PathOf(p + [name])
  {
    SlashAtPathOf(p);
    JoinSnoc(p, name);
    JoinHasNoNul(p);
    assert ROOT == ROOT[..5] + [SLASH];
  }

  /** Writing the slash and the name makes the buffer read as the child's path, within its bounds. */
  lemma EnterChild(s: Bytes, p: Place, name: Bytes)
    requires ValidPlace(p) && ValidName(name) && |s| == PATH_MAX + 1
    requires |name| < PATH_MAX - |PathOf(p)| && s[..|PathOf(p)|] == PathOf(p)
    ensures var j := SlashAt(PathOf(p));
      && j + 1 + |name + [NUL]| <= |s|
      && CStr(Splice(s[j := SLASH], j + 1, name + [NUL])) == PathOf(p + [name])
      && |PathOf(p + [name])| <= PATH_MAX
  {
    PathOfChild(p, name);
    var j := SlashAt(PathOf(p));
    var t := Splice(s[j := SLASH], j + 1, name + [NUL]);
    assert PathOf(p)[..j] == s[..j];
    assert t[..|PathOf(p + [name])|] == PathOf(p + [name]);
    CStrIsUnique(t, PathOf(p + [name]));
  }

  lemma LeaveChild(s: Bytes, p: Place, name: Bytes)
    requires ValidPlace(p) && ValidName(name)
    requires CStr(s) == PathOf(p + [name])
    ensures |PathOf(p)| <= |s| && s[..|PathOf(p)|] == PathOf(p)
  {
    PathOfChild(p, name);
    assert CStr(s) == s[..|CStr(s)|];
  }

  /** The rest of a directory, one entry further on. */
  lemma NextEntry(prefix: Bytes, p: Place, es: seq<Entry>, i: nat)
    requires i < |es| && |es[i].name| < PATH_MAX - |PathOf(p)|
    ensures var child := WalkNode(p + [es[i].name], es[i].node);
      var here := WalkEntries(p, es[i..]);
      var rest := WalkEntries(p, es[i + 1..]);
      && here.code == (if child.code != 0 then child.code else rest.code)
      && Archive(prefix, here.items)
         == Archive(prefix, child.items) + if child.code != 0 then [] else Archive(prefix, rest.items)
  {
    var child := WalkNode(p + [es[i].name], es[i].node);
    assert es[i..][1..] == es[i + 1..];
    ArchiveConcat(prefix, child.items, WalkEntries(p, es[i + 1..]).items);
  }

  lemma StopEntry(prefix: Bytes, p: Place, es: seq<Entry>)
    requires es != [] ==> |es[0].name| >= PATH_MAX - |PathOf(p)|
    ensures WalkEntries(p, es) == Walked(if es == [] then 0 else -1, [])
    ensures Archive(prefix, WalkEntries(p, es).items) == []
  {
  }

  lemma FirstOfWalk(prefix: Bytes, p: Place, n: Node)
    ensures WalkNode(p, n).code == if n.Dir? then WalkEntries(p, n.entries).code else 0
    ensures Archive(prefix, WalkNode(p, n).items) ==
      EntryBytes(ArchiveName(prefix, p), n) + if n.Dir? then Archive(prefix, WalkEntries(p, n.entries).items) else []
  {
    hide EntryBytes, ArchiveName;
    assert WalkNode(p, n).items[1..] == if n.Dir? then WalkEntries(p, n.entries).items else [];
  }

  lemma PathOfRoot(p: Place)
    ensures ROOT <= PathOf(p) && PathOf(p)[|ROOT|..] == Join(p)
  {
  }

  // ----- the code -----

  class Backup {
    const root: Node        // the mounted partition
    const prefix: Bytes     // path_prefix: the partition's name and a slash
    var out: Bytes          // what has been written to the tar file

    constructor (root: Node, prefix: Bytes, out: Bytes)
      ensures this.root == root && this.prefix == prefix && this.out == out
    {
      this.root, this.prefix, this.out := root, prefix, out;
    }

    /** tar_c_file for the node st found at in_path. */
    method TarCFile(inPath: Bytes, origLen: nat, st: Node) returns (r: int)
      requires origLen <= |inPath| && KindAgrees(st)
      requires |prefix| < BLOCK
      modifies this`out
      ensures r == 0
      ensures var s := prefix + inPath[origLen..];
        out == old(out) + EntryBytes(if |s| < BLOCK then s else s[..BLOCK - 1], st)
    {
      hide PlacementOf, Header, Padded, Filling, Modes.Kind;
      var kind := Modes.Kind(st.mode);
      if kind == Modes.FIO_REG && HiSize(st) != 0 {
        return 0;
      }
      var path := prefix + inPath[origLen..];
      if |path| >= BLOCK {
        path := path[..BLOCK - 1];
      }
      if path == [] {
        return 0;
      }
      var b := new byte[BLOCK](_ => NUL);
      assert b[..] == Zeros(BLOCK);
      var placed := FillHeader(b, path, st);
      if !placed {
        return 0;
      }
      out := out + b[..];
      if kind == Modes.FIO_REG {
        WriteBlocks(b, st.data);
      }
      r := 0;
    }

    /** The header, written into a cleared block. */
    method FillHeader(b: array<byte>, path: Bytes, st: Node) returns (placed: bool)
      requires b.Length == BLOCK && |path| < BLOCK && KindAgrees(st)
      requires b[..] == Zeros(BLOCK)
      modifies b
      ensures placed <==> PlacementOf(path) != Skip
      ensures placed ==> b[..] == Header(path, st)
    {
      placed := FillCommon(b, path, st);
      if !placed {
        return;
      }
      hide CommonFields, ElevenZeros, AtMost100, Octal.Field;
      var kind := Modes.Kind(st.mode);
      if kind == Modes.FIO_REG {
        Put(b, TYPE, [REGULAR]);
        Put(b, SIZE, Octal.Field(U32(|st.data|), 11));
      } else if kind == Modes.FIO_DIR {
        Put(b, TYPE, [DIRECTORY]);
      } else if kind == Modes.FIO_LNK {
        Put(b, TYPE, [SYMLINK]);
        Put(b, LINK, AtMost100(st.target));
      }
      assert b[..] == Fields(path, st);
      var sum := TarChecksum(b);
      Put(b, CHK, Octal.Field(sum, 7));
    }

    method FillCommon(b: array<byte>, path: Bytes, st: Node) returns (placed: bool)
      requires b.Length == BLOCK && |path| < BLOCK
      requires b[..] == Zeros(BLOCK)
      modifies b
      ensures placed <==> PlacementOf(path) != Skip
      ensures placed ==> b[..] == CommonFields(path, st)
    {
      hide ElevenZeros, Octal.Field, Calendar.TimeField, PlacementOf;
      Put(b, SIZE, ElevenZeros());
      Put(b, MAGIC, USTAR);
      Put(b, VERS, VERSION);
      placed := PutName(b, path);
      if placed {
        var mode := Modes.ConvertModeToPosix(st.mode);
        Put(b, MODE, Octal.Field(mode, 7));
        Put(b, MTIME, Calendar.TimeField(st.mtime));
      }
    }

    /** memcpy of the name into one or two fields. */
    method PutName(b: array<byte>, path: Bytes) returns (placed: bool)
      requires b.Length == BLOCK && |path| < BLOCK
      modifies b
      ensures placed <==> PlacementOf(path) != Skip
      ensures PlacementOf(path) == Whole ==> b[..] == Splice(old(b[..]), NAME, path)
      ensures PlacementOf(path).Cut? ==>
        var at := PlacementOf(path).at;
        b[..] == Splice(Splice(old(b[..]), NAME2, path[..at]), NAME, path[at..])
    {
      if |path| > 100 {
        var sep := NextSlash(path, 0);
        if sep == |path| {
          return false;
        }
        ghost var first := sep;
        while true
          invariant first <= sep < |path| && path[sep] == SLASH
          invariant CutPoint(path, sep) == CutPoint(path, first)
          decreases |path| - sep
        {
          var next := NextSlash(path, sep + 1);
          if next == |path| || next >= 155 {
            break;
          }
          sep := next;
        }
        if sep >= 155 {
          return false;
        }
        Put(b, NAME2, path[..sep]);
        Put(b, NAME, path[sep..]);
      } else {
        Put(b, NAME, path);
      }
      return true;
    }

    /** The read loop: one block after another, the last one cleared behind the data. */
    method WriteBlocks(b: array<byte>, data: Bytes)
      requires b.Length == BLOCK
      modifies b, this`out
      ensures out == old(out) + Padded(data)
    {
      hide Padded, Zeros;
      var at := 0;
      NothingToPad();
      while at < |data|
        invariant 0 <= at <= |data|
        invariant at % BLOCK == 0 || at == |data|
        invariant out == old(out) + if at < |data| then data[..at] else Padded(data)
      {
        var l := if |data| - at < BLOCK then |data| - at else BLOCK;
        FillBlock(b, data[at..at + l]);
        LastBlock(data, at, l);
        out := out + b[..];
        at := at + l;
      }
    }

    /** One block as it is written, the space behind the last piece cleared. */
    method FillBlock(b: array<byte>, piece: Bytes)
      requires b.Length == BLOCK && 0 < |piece| <= BLOCK
      modifies b
      ensures b[..] == piece + Zeros(BLOCK - |piece|)
    {
      Put(b, 0, piece);
      if |piece| < BLOCK {
        Put(b, |piece|, Zeros(BLOCK - |piece|));
      }
    }

    static lemma NothingToPad()
      ensures Padded([]) == []
    {
    }

    /** Filling the block at a whole number of blocks. */
    static lemma LastBlock(data: Bytes, at: nat, l: nat)
      requires at < |data| && at % BLOCK == 0 && l == if |data| - at < BLOCK then |data| - at else BLOCK
      ensures at + l < |data| ==> data[..at] + data[at..at + l] == data[..at + l] && (at + l) % BLOCK == 0
      ensures at + l == |data| ==> data[..at] + (data[at..at + l] + Zeros(BLOCK - l)) == Padded(data)
    {
      if at + l == |data| {
        assert |data| % BLOCK == l % BLOCK;
        assert data[..at] + data[at..at + l] == data;
      }
    }

    /** do_wrapped_ftw with tar_c_file as the callback. The path buffer never overflows its 257 bytes,
        and a call that succeeds leaves in it the path that it found there. */
    method DoWrappedFtw(path: array<byte>, origLen: nat, ghost p: Place, ghost n: Node) returns (r: int)
      requires path.Length == PATH_MAX + 1 && |CStr(path[..])| <= PATH_MAX
      requires WellFormed(root) && WellFormed(n) && Find(root, p) == Some(n)
      requires ValidPlace(p) && CStr(path[..]) == PathOf(p)
      requires origLen == |ROOT| && |prefix| < BLOCK
      modifies path, this`out
      ensures r == WalkNode(p, n).code
      ensures out == old(out) + Archive(prefix, WalkNode(p, n).items)
      ensures r == 0 ==> CStr(path[..]) == old(CStr(path[..]))
      decreases n, 1
    {
      hide WalkNode, WalkEntries, Archive, EntryBytes, PathOf, SlashAt, Modes.Kind;
      PathOfRoot(p);
      FirstOfWalk(prefix, p, n);
      var name := CStr(path[..]);
      var l, j := |name|, SlashAt(name);
      PlaceOfPathOf(p);
      var found := Find(root, PlaceOf(name));
      if found == None {
        return -1;
      }
      var st := found.value;
      r := TarCFile(name, origLen, st);
      if r != 0 {
        return r;
      }
      if Modes.Kind(st.mode) == Modes.FIO_DIR {
        r := WalkListing(path, origLen, l, j, p, st);
        if r != 0 {
          return r;
        }
      }
      path[l] := NUL;
      CStrIsUnique(path[..], name);
      r := 0;
    }

    /** The body of the loop: appends the name to the path and walks on from there. */
    method VisitEntry(path: array<byte>, origLen: nat, l: nat, j: nat, name: Bytes, ghost p: Place, ghost st: Node, ghost i: nat)
      returns (r: int)
      requires path.Length == PATH_MAX + 1 && st.Dir?
      requires WellFormed(root) && WellFormed(st) && Find(root, p) == Some(st)
      requires ValidPlace(p) && l == |PathOf(p)| <= PATH_MAX && path[..l] == PathOf(p) && j == SlashAt(PathOf(p))
      requires origLen == |ROOT| && |prefix| < BLOCK
      requires i < |st.entries| && name == st.entries[i].name && |name| < PATH_MAX - l
      modifies path, this`out
      ensures r == WalkNode(p + [name], st.entries[i].node).code
      ensures out == old(out) + Archive(prefix, WalkNode(p + [name], st.entries[i].node).items)
      ensures r == 0 ==> path[..l] == PathOf(p)
      decreases st, 0, 0
    {
      FindEntryAt(st.entries, i);
      hide WalkNode, Archive, PathOf, SlashAt, WellFormed, FindEntry;
      EnterChild(path[..], p, name);
      PathOfChild(p, name);
      FindSnoc(root, p, name);
      path[j] := SLASH;
      Put(path, j + 1, name + [NUL]);
      r := DoWrappedFtw(path, origLen, p + [name], st.entries[i].node);
      if r == 0 {
        LeaveChild(path[..], p, name);
      }
    }

    /** The dread loop over the directory st whose path is in the first l bytes of the buffer. */
    method WalkListing(path: array<byte>, origLen: nat, l: nat, j: nat, ghost p: Place, st: Node) returns (r: int)
      requires path.Length == PATH_MAX + 1 && st.Dir?
      requires WellFormed(root) && WellFormed(st) && Find(root, p) == Some(st)
      requires ValidPlace(p) && l == |PathOf(p)| <= PATH_MAX && path[..l] == PathOf(p) && j == SlashAt(PathOf(p))
      requires origLen == |ROOT| && |prefix| < BLOCK
      modifies path, this`out
      ensures r == WalkEntries(p, st.entries).code
      ensures out == old(out) + Archive(prefix, WalkEntries(p, st.entries).items)
      ensures r == 0 ==> path[..l] == PathOf(p)
      decreases st, 0, 1
    {
      hide WalkNode, WalkEntries, Archive, PathOf, SlashAt;
      var names := Listing(st.entries);
      ghost var all := WalkEntries(p, st.entries);
      var k := 0;
      assert st.entries[0..] == st.entries;
      while k < |names|
        invariant 0 <= k <= |names|
        invariant path[..l] == PathOf(p)
        invariant var rest := WalkEntries(p, st.entries[if k < 2 then 0 else k - 2..]);
          rest.code == all.code && out + Archive(prefix, rest.items) == old(out) + Archive(prefix, all.items)
      {
        var de := names[k];
        k := k + 1;
        if k > 2 {
          FindEntryAt(st.entries, k - 3);
        }
        if de == [DOT] || de == [DOT, DOT] {
          continue;
        }
        if |de| >= PATH_MAX - l {
          StopEntry(prefix, p, st.entries[k - 3..]);
          return -1;
        }
        NextEntry(prefix, p, st.entries, k - 3);
        r := VisitEntry(path, origLen, l, j, de, p, st, k - 3);
        if r != 0 {
          return r;
        }
      }
      assert st.entries[|st.entries|..] == [];
      StopEntry(prefix, p, []);
      r := 0;
    }
  }
}
